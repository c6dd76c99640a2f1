/**
 * The Merkle tree over leaf hashes. An odd level pairs its last node with itself, so the root binds
 * the leaf list only because distinct leaves have distinct hashes.
 */
module MerkleTree {
  import opened Text
  import opened Sorting
  import opened Json
  import opened Flatten
  import opened Preimages

  /** `_hash_pair`. */
  function HashPair(h: Hash, left: string, right: string): string {
    Sha256(h, NodeText(left, right))
  }

  /** `_leaf_hash`. */
  function LeafHash(h: Hash, path: string, value: Json): string {
    Sha256(h, LeafText(path, value))
  }

  function LeafHashes(h: Hash, leaves: seq<Leaf>): (r: seq<string>)
    ensures |r| == |leaves|
    ensures forall i :: 0 <= i < |r| ==> r[i] == LeafHash(h, leaves[i].path, leaves[i].value)
  {
    if leaves == [] then [] else [LeafHash(h, leaves[0].path, leaves[0].value)] + LeafHashes(h, leaves[1..])
  }

  /** The right sibling in a pair: the last node of an odd level is its own sibling. */
  function RightOf(level: seq<string>, i: nat): string
    requires 2 * i < |level|
  {
    if 2 * i + 1 < |level| then level[2 * i + 1] else level[2 * i]
  }

  /** The first `n` nodes of the level above. */
  function Parents(h: Hash, level: seq<string>, n: nat): (r: seq<string>)
    requires 2 * n <= |level| + 1
    ensures |r| == n
    ensures forall i :: 0 <= i < n ==> r[i] == HashPair(h, level[2 * i], RightOf(level, i))
  {
    if n == 0 then [] else Parents(h, level, n - 1) + [HashPair(h, level[2 * n - 2], RightOf(level, n - 1))]
  }

  function NextLevel(h: Hash, level: seq<string>): (r: seq<string>)
    ensures |r| == (|level| + 1) / 2
  {
    Parents(h, level, (|level| + 1) / 2)
  }

  function LevelsFrom(h: Hash, level: seq<string>): (r: seq<seq<string>>)
    requires level != []
    ensures r != [] && r[0] == level
    decreases |level|
  {
    if |level| == 1 then [level] else [level] + LevelsFrom(h, NextLevel(h, level))
  }

  function Levels(h: Hash, leafHashes: seq<string>): (r: seq<seq<string>>)
    ensures r != []
  {
    if leafHashes == [] then [[Sha256(h, EMPTY_TEXT)]] else LevelsFrom(h, leafHashes)
  }

  /** The inner loop of `_build_levels`. */
  method BuildNextLevel(h: Hash, current: seq<string>) returns (nextLevel: seq<string>)
    ensures nextLevel == NextLevel(h, current)
  {
    hide HashPair;
    nextLevel := [];
    var index := 0;
    ghost var n := 0;
    while index < |current|
      invariant index == 2 * n <= |current| + 1
      invariant nextLevel == Parents(h, current, n)
    {
      var left := current[index];
      var right := if index + 1 < |current| then current[index + 1] else left;
      nextLevel := nextLevel + [HashPair(h, left, right)];
      index := index + 2;
      n := n + 1;
    }
    assert n == (|current| + 1) / 2;
  }

  /** Appending the next level brings the levels built so far one step nearer to all of them. */
  lemma {:induction false} OneLevelMore(h: Hash, levels: seq<seq<string>>, current: seq<string>, all: seq<seq<string>>)
    requires |current| > 1 && levels + LevelsFrom(h, current)[1..] == all
    ensures NextLevel(h, current) != []
    ensures levels + [NextLevel(h, current)] + LevelsFrom(h, NextLevel(h, current))[1..] == all
  {
    hide Parents, HashPair;
    var next := LevelsFrom(h, NextLevel(h, current));
    assert LevelsFrom(h, current)[1..] == next == [NextLevel(h, current)] + next[1..];
  }

  /** `_build_levels`. */
  method BuildLevels(h: Hash, leafHashes: seq<string>) returns (levels: seq<seq<string>>)
    ensures levels == Levels(h, leafHashes)
  {
    if leafHashes == [] {
      return [[Sha256(h, EMPTY_TEXT)]];
    }
    hide NextLevel, Parents, HashPair;
    levels := [leafHashes];
    var current := leafHashes;
    while |current| > 1
      invariant current != [] && levels != []
      invariant levels + LevelsFrom(h, current)[1..] == LevelsFrom(h, leafHashes)
      decreases |current|
    {
      var nextLevel := BuildNextLevel(h, current);
      OneLevelMore(h, levels, current, LevelsFrom(h, leafHashes));
      levels := levels + [nextLevel];
      current := nextLevel;
    }
  }

  // ----- the shape of the levels -----

  ghost predicate ColonFree(level: seq<string>) {
    forall i :: 0 <= i < |level| ==> ':' !in level[i]
  }

  ghost predicate Grows(h: Hash, levels: seq<seq<string>>, k: nat)
    requires k + 1 < |levels|
  {
    && levels[k + 1] == NextLevel(h, levels[k])
    && |levels[k]| > 1
    && ColonFree(levels[k])
  }

  /** The levels of a non-empty tree, leaves first. */
  ghost predicate IsTree(h: Hash, levels: seq<seq<string>>) {
    && levels != []
    && |levels[|levels| - 1]| == 1
    && ColonFree(levels[|levels| - 1])
    && (forall k :: 0 <= k < |levels| - 1 ==> Grows(h, levels, k))
  }

  function Root(levels: seq<seq<string>>): string
    requires levels != [] && levels[|levels| - 1] != []
  {
    levels[|levels| - 1][0]
  }

  lemma {:induction false} NextLevelColonFree(h: Hash, level: seq<string>)
    ensures ColonFree(NextLevel(h, level))
  {
    forall i | 0 <= i < |NextLevel(h, level)| ensures ':' !in NextLevel(h, level)[i] {
      DigestHasNoColon(h, NodeText(level[2 * i], RightOf(level, i)));
    }
  }

  lemma {:induction false} LevelsFromTree(h: Hash, level: seq<string>)
    requires level != [] && ColonFree(level)
    ensures IsTree(h, LevelsFrom(h, level))
    decreases |level|
  {
    hide Parents, HashPair;
    if |level| > 1 {
      var above := LevelsFrom(h, NextLevel(h, level));
      NextLevelColonFree(h, level);
      LevelsFromTree(h, NextLevel(h, level));
      forall k | 0 <= k < |above| ensures Grows(h, [level] + above, k) {
        if k > 0 { assert Grows(h, above, k - 1); }
      }
    }
  }

  lemma {:induction false} LeafHashesColonFree(h: Hash, leaves: seq<Leaf>)
    ensures ColonFree(LeafHashes(h, leaves))
  {
    forall i | 0 <= i < |leaves| ensures ':' !in LeafHashes(h, leaves)[i] {
      DigestHasNoColon(h, LeafText(leaves[i].path, leaves[i].value));
    }
  }

  /** The levels over a leaf list; the empty list has the one level that holds the empty root. */
  function TreeOf(h: Hash, leaves: seq<Leaf>): (r: seq<seq<string>>)
    ensures r != []
  {
    Levels(h, LeafHashes(h, leaves))
  }

  lemma {:induction false} TreeShape(h: Hash, leaves: seq<Leaf>)
    ensures IsTree(h, TreeOf(h, leaves))
    ensures leaves != [] ==> TreeOf(h, leaves)[0] == LeafHashes(h, leaves)
  {
    LeafHashesColonFree(h, leaves);
    if leaves != [] {
      LevelsFromTree(h, LeafHashes(h, leaves));
    } else {
      DigestHasNoColon(h, EMPTY_TEXT);
    }
  }

  /** `root` in `build_rmp_proof`, without its `sha256:` tag. */
  function RootOf(h: Hash, leaves: seq<Leaf>): string {
    TreeShape(h, leaves);
    Root(TreeOf(h, leaves))
  }

  // ----- the tree from above -----

  /** How many nodes stand `k` levels above `n` leaves. */
  function Width(n: nat, k: nat): nat {
    if k == 0 then n else (Width(n, k - 1) + 1) / 2
  }

  /** The i-th node `k` levels above the leaves: the digest over its two children, or over its only child twice. */
  function NodeAt(h: Hash, leaves: seq<Leaf>, k: nat, i: nat): string
    requires i < Width(|leaves|, k)
  {
    if k == 0 then
      Sha256(h, "leaf:" + leaves[i].path + ":" + Canonical(CodePoints, leaves[i].value))
    else
      var left := NodeAt(h, leaves, k - 1, 2 * i);
      var right := if 2 * i + 1 < Width(|leaves|, k - 1) then NodeAt(h, leaves, k - 1, 2 * i + 1) else left;
      Sha256(h, "node:" + left + ":" + right)
  }

  lemma {:induction false} LevelsAreNodes(h: Hash, leaves: seq<Leaf>, levels: seq<seq<string>>, k: nat)
    requires IsTree(h, levels) && levels[0] == LeafHashes(h, leaves) && k < |levels|
    ensures |levels[k]| == Width(|leaves|, k)
    ensures forall i :: 0 <= i < |levels[k]| ==> levels[k][i] == NodeAt(h, leaves, k, i)
  {
    hide Sha256, Canonical;
    if k > 0 {
      LevelsAreNodes(h, leaves, levels, k - 1);
      assert Grows(h, levels, k - 1);
      forall i | 0 <= i < |levels[k]| ensures levels[k][i] == NodeAt(h, leaves, k, i) {
        assert levels[k][i] == HashPair(h, levels[k - 1][2 * i], RightOf(levels[k - 1], i));
      }
    }
  }

  /**
   * The root of a leaf list is its one node on the first level that has only one; without leaves it is the digest
   * of a fixed text.
   */
  lemma {:induction false} RootIsTopNode(h: Hash, leaves: seq<Leaf>)
    ensures leaves == [] ==> RootOf(h, leaves) == Sha256(h, "empty:rmp")
    ensures leaves != [] ==>
              var top := |TreeOf(h, leaves)| - 1;
              && Width(|leaves|, top) == 1
              && (forall k :: 0 <= k < top ==> Width(|leaves|, k) > 1)
              && RootOf(h, leaves) == NodeAt(h, leaves, top, 0)
  {
    var levels := TreeOf(h, leaves);
    TreeShape(h, leaves);
    if leaves != [] {
      var top := |levels| - 1;
      LevelsAreNodes(h, leaves, levels, top);
      forall k | 0 <= k < top ensures Width(|leaves|, k) > 1 {
        LevelsAreNodes(h, leaves, levels, k);
        assert Grows(h, levels, k);
      }
    }
  }

  // ----- the texts a tree hashes -----

  function NodeTextAt(levels: seq<seq<string>>, k: nat, i: nat): string
    requires k < |levels| && 2 * i < |levels[k]|
  {
    NodeText(levels[k][2 * i], RightOf(levels[k], i))
  }

  ghost function NodeTexts(levels: seq<seq<string>>): set<string> {
    set k, i | 0 <= k < |levels| && 0 <= i < |levels[k]| && 2 * i < |levels[k]| :: NodeTextAt(levels, k, i)
  }

  ghost function LeafTexts(leaves: seq<Leaf>): set<string> {
    set i | 0 <= i < |leaves| :: LeafText(leaves[i].path, leaves[i].value)
  }

  ghost function TreeTexts(h: Hash, leaves: seq<Leaf>): set<string> {
    LeafTexts(leaves) + NodeTexts(TreeOf(h, leaves)) + {EMPTY_TEXT}
  }

  ghost predicate CoversNodes(inputs: set<string>, levels: seq<seq<string>>) {
    forall k, i {:trigger NodeTextAt(levels, k, i)} ::
      0 <= k < |levels| && 0 <= i && 2 * i < |levels[k]| ==> NodeTextAt(levels, k, i) in inputs
  }

  ghost predicate CoversLeaves(inputs: set<string>, leaves: seq<Leaf>) {
    forall i :: 0 <= i < |leaves| ==> LeafText(leaves[i].path, leaves[i].value) in inputs
  }

  lemma {:induction false} TextsCovered(h: Hash, inputs: set<string>, leaves: seq<Leaf>)
    requires TreeTexts(h, leaves) <= inputs
    ensures CoversLeaves(inputs, leaves)
    ensures CoversNodes(inputs, TreeOf(h, leaves))
    ensures EMPTY_TEXT in inputs
  {
    var levels := TreeOf(h, leaves);
    forall k, i | 0 <= k < |levels| && 0 <= i && 2 * i < |levels[k]| ensures NodeTextAt(levels, k, i) in inputs {
      assert NodeTextAt(levels, k, i) in NodeTexts(levels);
    }
    forall i | 0 <= i < |leaves| ensures LeafText(leaves[i].path, leaves[i].value) in inputs {
      assert LeafText(leaves[i].path, leaves[i].value) in LeafTexts(leaves);
    }
  }

  /** Every node above the leaves is the digest of a node text. */
  lemma {:induction false} NodeIsHashed(h: Hash, levels: seq<seq<string>>, k: nat, i: nat)
    requires IsTree(h, levels) && k + 1 < |levels| && i < |levels[k + 1]|
    ensures 2 * i < |levels[k]|
    ensures levels[k + 1][i] == Sha256(h, NodeTextAt(levels, k, i))
    ensures ':' !in levels[k][2 * i] && ':' !in RightOf(levels[k], i)
  {
    assert Grows(h, levels, k);
  }

  // ----- the root binds the leaf list -----

  /** Two nodes with the same hash have the same children. */
  lemma {:induction false} SameChildren(
    h: Hash, inputs: set<string>, xs: seq<seq<string>>, k: nat, i: nat, ys: seq<seq<string>>, l: nat, j: nat)
    requires IsTree(h, xs) && k + 1 < |xs| && i < |xs[k + 1]|
    requires IsTree(h, ys) && l + 1 < |ys| && j < |ys[l + 1]|
    requires CollisionFree(h, inputs) && CoversNodes(inputs, xs) && CoversNodes(inputs, ys)
    requires xs[k + 1][i] == ys[l + 1][j]
    ensures 2 * i < |xs[k]| && 2 * j < |ys[l]|
    ensures xs[k][2 * i] == ys[l][2 * j] && RightOf(xs[k], i) == RightOf(ys[l], j)
  {
    NodeIsHashed(h, xs, k, i);
    NodeIsHashed(h, ys, l, j);
    EqualDigests(h, inputs, NodeTextAt(xs, k, i), NodeTextAt(ys, l, j));
    NodeTextDetermines(xs[k][2 * i], RightOf(xs[k], i), ys[l][2 * j], RightOf(ys[l], j));
  }

  /** No leaf hash is the hash of an inner node. */
  lemma {:induction false} LeafIsNoNode(h: Hash, inputs: set<string>, path: string, value: Json, ys: seq<seq<string>>, l: nat, j: nat)
    requires IsTree(h, ys) && l + 1 < |ys| && j < |ys[l + 1]|
    requires CollisionFree(h, inputs) && LeafText(path, value) in inputs && CoversNodes(inputs, ys)
    ensures LeafHash(h, path, value) != ys[l + 1][j]
  {
    NodeIsHashed(h, ys, l, j);
    TextKindsDiffer(path, value, ys[l][2 * j], RightOf(ys[l], j));
    if LeafHash(h, path, value) == ys[l + 1][j] {
      EqualDigests(h, inputs, LeafText(path, value), NodeTextAt(ys, l, j));
    }
  }

  /** The levels of a tree over the hashes of a non-empty leaf list. */
  ghost predicate TreeOver(h: Hash, levels: seq<seq<string>>, leaves: seq<Leaf>) {
    leaves != [] && IsTree(h, levels) && levels[0] == LeafHashes(h, leaves)
  }

  /** The texts hashed for a tree are among `inputs`, on which the digest has no collision. */
  ghost predicate Covered(h: Hash, inputs: set<string>, levels: seq<seq<string>>, leaves: seq<Leaf>) {
    CollisionFree(h, inputs) && CoversLeaves(inputs, leaves) && CoversNodes(inputs, levels)
  }

  lemma {:induction false} LevelNotEmpty(h: Hash, levels: seq<seq<string>>, k: nat)
    requires IsTree(h, levels) && k < |levels|
    ensures levels[k] != [] && ColonFree(levels[k])
  {
    if k + 1 < |levels| {
      assert Grows(h, levels, k);
    }
  }

  /** Nodes on the left edges of two trees are equal only at equal heights. */
  lemma {:induction false} SameHeight(
    h: Hash, inputs: set<string>, xs: seq<seq<string>>, a: seq<Leaf>, k: nat, ys: seq<seq<string>>, b: seq<Leaf>, l: nat)
    requires TreeOver(h, xs, a) && k < |xs| && xs[k] != [] && Covered(h, inputs, xs, a)
    requires TreeOver(h, ys, b) && l < |ys| && ys[l] != [] && Covered(h, inputs, ys, b)
    requires xs[k][0] == ys[l][0]
    ensures k == l
    decreases k
  {
    if k > 0 && l > 0 {
      SameChildren(h, inputs, xs, k - 1, 0, ys, l - 1, 0);
      SameHeight(h, inputs, xs, a, k - 1, ys, b, l - 1);
    } else if k > 0 {
      LeafIsNoNode(h, inputs, b[0].path, b[0].value, xs, k - 1, 0);
    } else if l > 0 {
      LeafIsNoNode(h, inputs, a[0].path, a[0].value, ys, l - 1, 0);
    }
  }

  /** Distinct nodes have distinct parents. */
  lemma {:induction false} ParentsDistinct(h: Hash, inputs: set<string>, xs: seq<seq<string>>, k: nat)
    requires IsTree(h, xs) && k + 1 < |xs| && NoDuplicates(xs[k])
    requires CollisionFree(h, inputs) && CoversNodes(inputs, xs)
    ensures NoDuplicates(xs[k + 1])
  {
    var parents := xs[k + 1];
    assert Grows(h, xs, k);
    forall i, j | 0 <= i < j < |parents| ensures parents[i] != parents[j] {
      if parents[i] == parents[j] {
        SameChildren(h, inputs, xs, k, i, xs, k, j);
      }
    }
  }

  lemma {:induction false} LevelDistinct(h: Hash, inputs: set<string>, xs: seq<seq<string>>, k: nat)
    requires IsTree(h, xs) && k < |xs| && NoDuplicates(xs[0])
    requires CollisionFree(h, inputs) && CoversNodes(inputs, xs)
    ensures NoDuplicates(xs[k])
  {
    if k > 0 {
      LevelDistinct(h, inputs, xs, k - 1);
      ParentsDistinct(h, inputs, xs, k - 1);
    }
  }

  /** Lists without repetition that pair up alike are equal, in length too. */
  lemma {:induction false} PairsDetermineLevel(x: seq<string>, y: seq<string>)
    requires NoDuplicates(x) && NoDuplicates(y) && x != []
    requires (|x| + 1) / 2 == (|y| + 1) / 2
    requires forall i :: 0 <= i < (|x| + 1) / 2 ==> x[2 * i] == y[2 * i] && RightOf(x, i) == RightOf(y, i)
    ensures x == y
  {
    var m := (|x| + 1) / 2;
    assert x[2 * (m - 1)] == y[2 * (m - 1)] && RightOf(x, m - 1) == RightOf(y, m - 1);
    assert |x| == |y|;
    forall i | 0 <= i < |x| ensures x[i] == y[i] {
      var j := i / 2;
      assert x[2 * j] == y[2 * j] && RightOf(x, j) == RightOf(y, j);
    }
  }

  /** Equal parents have equal children, in number too, because no node occurs twice on a level. */
  lemma {:induction false} ChildrenEqual(h: Hash, inputs: set<string>, xs: seq<seq<string>>, ys: seq<seq<string>>, k: nat)
    requires IsTree(h, xs) && k + 1 < |xs| && IsTree(h, ys) && k + 1 < |ys|
    requires CollisionFree(h, inputs) && CoversNodes(inputs, xs) && CoversNodes(inputs, ys)
    requires NoDuplicates(xs[k]) && NoDuplicates(ys[k])
    requires xs[k + 1] == ys[k + 1]
    ensures xs[k] == ys[k]
  {
    var x, y := xs[k], ys[k];
    assert Grows(h, xs, k) && Grows(h, ys, k);
    forall i | 0 <= i < (|x| + 1) / 2 ensures x[2 * i] == y[2 * i] && RightOf(x, i) == RightOf(y, i) {
      SameChildren(h, inputs, xs, k, i, ys, k, i);
    }
    PairsDetermineLevel(x, y);
  }

  lemma {:induction false} LevelsEqual(h: Hash, inputs: set<string>, xs: seq<seq<string>>, ys: seq<seq<string>>, k: nat)
    requires IsTree(h, xs) && IsTree(h, ys) && |xs| == |ys| && k < |xs|
    requires CollisionFree(h, inputs) && CoversNodes(inputs, xs) && CoversNodes(inputs, ys)
    requires NoDuplicates(xs[0]) && NoDuplicates(ys[0])
    requires Root(xs) == Root(ys)
    ensures xs[k] == ys[k]
    decreases |xs| - k
  {
    if k + 1 < |xs| {
      LevelsEqual(h, inputs, xs, ys, k + 1);
      LevelDistinct(h, inputs, xs, k);
      LevelDistinct(h, inputs, ys, k);
      ChildrenEqual(h, inputs, xs, ys, k);
    }
  }

  /** Non-empty trees over distinct leaf hashes with the same root have equal depths and equal leaves. */
  lemma {:induction false} RootBindsTree(
    h: Hash, inputs: set<string>, xs: seq<seq<string>>, a: seq<Leaf>, ys: seq<seq<string>>, b: seq<Leaf>)
    requires TreeOver(h, xs, a) && Covered(h, inputs, xs, a) && NoDuplicates(xs[0])
    requires TreeOver(h, ys, b) && Covered(h, inputs, ys, b) && NoDuplicates(ys[0])
    requires Root(xs) == Root(ys)
    ensures |xs| == |ys| && xs[0] == ys[0]
  {
    SameHeight(h, inputs, xs, a, |xs| - 1, ys, b, |ys| - 1);
    LevelsEqual(h, inputs, xs, ys, 0);
  }

  /** The root of the empty list is the root of no tree. */
  lemma {:induction false} EmptyRootDiffers(h: Hash, inputs: set<string>, xs: seq<seq<string>>, a: seq<Leaf>)
    requires TreeOver(h, xs, a) && Covered(h, inputs, xs, a) && EMPTY_TEXT in inputs
    ensures Root(xs) != Sha256(h, EMPTY_TEXT)
  {
    var n := |xs| - 1;
    if n == 0 {
      TextKindsDiffer(a[0].path, a[0].value, "", "");
      if Root(xs) == Sha256(h, EMPTY_TEXT) {
        EqualDigests(h, inputs, LeafText(a[0].path, a[0].value), EMPTY_TEXT);
      }
    } else {
      NodeIsHashed(h, xs, n - 1, 0);
      TextKindsDiffer("", Null, xs[n - 1][0], RightOf(xs[n - 1], 0));
      if Root(xs) == Sha256(h, EMPTY_TEXT) {
        EqualDigests(h, inputs, NodeTextAt(xs, n - 1, 0), EMPTY_TEXT);
      }
    }
  }

  /** Leaf lists with distinct hashes and the same root have trees of equal depth and equal leaf hashes. */
  lemma {:induction false} RootBindsHashes(h: Hash, inputs: set<string>, a: seq<Leaf>, b: seq<Leaf>)
    requires CollisionFree(h, inputs) && TreeTexts(h, a) <= inputs && TreeTexts(h, b) <= inputs
    requires NoDuplicates(LeafHashes(h, a)) && NoDuplicates(LeafHashes(h, b))
    requires RootOf(h, a) == RootOf(h, b)
    ensures |TreeOf(h, a)| == |TreeOf(h, b)|
    ensures LeafHashes(h, a) == LeafHashes(h, b)
  {
    TreeShape(h, a);
    TreeShape(h, b);
    TextsCovered(h, inputs, a);
    TextsCovered(h, inputs, b);
    if a != [] && b != [] {
      RootBindsTree(h, inputs, TreeOf(h, a), a, TreeOf(h, b), b);
    } else if a != [] {
      EmptyRootDiffers(h, inputs, TreeOf(h, a), a);
    } else if b != [] {
      EmptyRootDiffers(h, inputs, TreeOf(h, b), b);
    }
  }

  /** Without distinct leaves the root does not bind the list: repeating the last of an odd number keeps it. */
  lemma {:induction false} RepeatedLastAliases(h: Hash, level: seq<string>)
    requires |level| % 2 == 1 && |level| > 1
    ensures var longer := level + [level[|level| - 1]];
            && longer != level
            && |LevelsFrom(h, longer)| == |LevelsFrom(h, level)|
            && LevelsFrom(h, longer)[|LevelsFrom(h, longer)| - 1] == LevelsFrom(h, level)[|LevelsFrom(h, level)| - 1]
  {
    hide HashPair;
    var longer := level + [level[|level| - 1]];
    forall i | 0 <= i < |NextLevel(h, level)| ensures NextLevel(h, longer)[i] == NextLevel(h, level)[i] {
      assert RightOf(longer, i) == RightOf(level, i);
    }
    var above := NextLevel(h, level);
    assert NextLevel(h, longer) == above;
    hide NextLevel;
    assert LevelsFrom(h, longer) == [longer] + LevelsFrom(h, above);
    assert LevelsFrom(h, level) == [level] + LevelsFrom(h, above);
  }

  lemma {:induction false} LeafHashesDistinct(h: Hash, inputs: set<string>, leaves: seq<Leaf>)
    requires CollisionFree(h, inputs) && CoversLeaves(inputs, leaves)
    requires DistinctPaths(leaves)
    requires forall i :: 0 <= i < |leaves| ==> IsScalar(leaves[i].value)
    ensures NoDuplicates(LeafHashes(h, leaves))
  {
    var r := LeafHashes(h, leaves);
    forall i, j | 0 <= i < j < |r| ensures r[i] != r[j] {
      if r[i] == r[j] {
        EqualDigests(h, inputs, LeafText(leaves[i].path, leaves[i].value), LeafText(leaves[j].path, leaves[j].value));
        LeafTextDetermines(leaves[i].path, leaves[i].value, leaves[j].path, leaves[j].value);
      }
    }
  }

  /** Equal leaf hashes come from equal leaves. */
  lemma {:induction false} LeafHashesInjective(h: Hash, inputs: set<string>, a: seq<Leaf>, b: seq<Leaf>)
    requires CollisionFree(h, inputs) && CoversLeaves(inputs, a) && CoversLeaves(inputs, b)
    requires forall i :: 0 <= i < |a| ==> IsScalar(a[i].value)
    requires LeafHashes(h, a) == LeafHashes(h, b)
    ensures a == b
  {
    assert |LeafHashes(h, a)| == |a| && |LeafHashes(h, b)| == |b|;
    forall i | 0 <= i < |a| ensures a[i] == b[i] {
      assert LeafHashes(h, a)[i] == LeafHashes(h, b)[i];
      EqualDigests(h, inputs, LeafText(a[i].path, a[i].value), LeafText(b[i].path, b[i].value));
      LeafTextDetermines(a[i].path, a[i].value, b[i].path, b[i].value);
    }
  }
}
