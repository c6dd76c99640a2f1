/**
 * Exactly which leaf lists share a root: those that become equal once every odd level is padded by
 * repeating its last node together with everything below it.
 */
module MerklePadding {
  import opened Sorting
  import opened Json
  import opened Flatten
  import opened Preimages
  import opened MerkleTree

  /** The two children of each listed node on a level of `n` nodes; an only child stands for both. */
  function Children(slots: seq<nat>, n: nat): (r: seq<nat>)
    requires forall i :: 0 <= i < |slots| ==> 2 * slots[i] < n
    ensures |r| == 2 * |slots|
    ensures forall i :: 0 <= i < |r| ==> r[i] < n
    ensures forall i :: 0 <= i < |slots| ==>
              r[2 * i] == 2 * slots[i] &&
              r[2 * i + 1] == if 2 * slots[i] + 1 < n then 2 * slots[i] + 1 else 2 * slots[i]
  {
    if slots == [] then [] else
      var s := slots[0];
      [2 * s, if 2 * s + 1 < n then 2 * s + 1 else 2 * s] + Children(slots[1..], n)
  }

  /** Which of `n` nodes stands at each place of the padded level. */
  function Slots(n: nat): (r: seq<nat>)
    requires n > 0
    ensures r != [] && forall i :: 0 <= i < |r| ==> r[i] < n
  {
    if n == 1 then [0] else Children(Slots((n + 1) / 2), n)
  }

  function Pick(level: seq<string>, slots: seq<nat>): (r: seq<string>)
    requires forall i :: 0 <= i < |slots| ==> slots[i] < |level|
    ensures |r| == |slots| && forall i :: 0 <= i < |r| ==> r[i] == level[slots[i]]
  {
    if slots == [] then [] else [level[slots[0]]] + Pick(level, slots[1..])
  }

  function Padded(level: seq<string>): seq<string>
    requires level != []
  {
    Pick(level, Slots(|level|))
  }

  /** A padded level consists of the child pairs of the padded level above. */
  lemma {:induction false} PaddedPair(level: seq<string>, j: nat)
    requires |level| > 1 && j < |Slots((|level| + 1) / 2)|
    ensures |Padded(level)| == 2 * |Slots((|level| + 1) / 2)|
    ensures Padded(level)[2 * j] == level[2 * Slots((|level| + 1) / 2)[j]]
    ensures Padded(level)[2 * j + 1] == RightOf(level, Slots((|level| + 1) / 2)[j])
  {
  }

  lemma {:induction false} PaddedAt(level: seq<string>, j: nat)
    requires level != [] && j < |Slots(|level|)|
    ensures |Padded(level)| == |Slots(|level|)| && Padded(level)[j] == level[Slots(|level|)[j]]
  {
    hide Slots;
  }

  lemma {:induction false} PairsEqual(p: seq<string>, q: seq<string>, m: nat)
    requires |p| == |q| == 2 * m
    requires forall j :: 0 <= j < m ==> p[2 * j] == q[2 * j] && p[2 * j + 1] == q[2 * j + 1]
    ensures p == q
  {
    forall i | 0 <= i < |p| ensures p[i] == q[i] {
      assert p[2 * (i / 2)] == q[2 * (i / 2)] && p[2 * (i / 2) + 1] == q[2 * (i / 2) + 1];
    }
  }

  /** Equal padded parents have equal padded children. */
  lemma {:induction false} PaddedDown(h: Hash, inputs: set<string>, xs: seq<seq<string>>, ys: seq<seq<string>>, k: nat)
    requires IsTree(h, xs) && k + 1 < |xs| && xs[k] != [] && xs[k + 1] != []
    requires IsTree(h, ys) && k + 1 < |ys| && ys[k] != [] && ys[k + 1] != []
    requires CollisionFree(h, inputs) && CoversNodes(inputs, xs) && CoversNodes(inputs, ys)
    requires Padded(xs[k + 1]) == Padded(ys[k + 1])
    ensures Padded(xs[k]) == Padded(ys[k])
  {
    hide Padded, Slots, NextLevel, CoversNodes, CollisionFree;
    assert Grows(h, xs, k) && Grows(h, ys, k);
    var s, t := Slots(|xs[k + 1]|), Slots(|ys[k + 1]|);
    PaddedAt(xs[k + 1], 0);
    PaddedAt(ys[k + 1], 0);
    PaddedPair(xs[k], 0);
    PaddedPair(ys[k], 0);
    forall j | 0 <= j < |s|
      ensures Padded(xs[k])[2 * j] == Padded(ys[k])[2 * j]
      ensures Padded(xs[k])[2 * j + 1] == Padded(ys[k])[2 * j + 1]
    {
      PaddedAt(xs[k + 1], j);
      PaddedAt(ys[k + 1], j);
      SameChildren(h, inputs, xs, k, s[j], ys, k, t[j]);
      PaddedPair(xs[k], j);
      PaddedPair(ys[k], j);
    }
    PairsEqual(Padded(xs[k]), Padded(ys[k]), |s|);
  }

  /** Equal padded children have equal padded parents. */
  lemma {:induction false} PaddedUp(h: Hash, x: seq<string>, y: seq<string>)
    requires |x| > 1 && |y| > 1 && Padded(x) == Padded(y)
    ensures Padded(NextLevel(h, x)) == Padded(NextLevel(h, y))
  {
    hide Padded, Slots, HashPair;
    var s, t := Slots((|x| + 1) / 2), Slots((|y| + 1) / 2);
    var p, q := NextLevel(h, x), NextLevel(h, y);
    PaddedPair(x, 0);
    PaddedPair(y, 0);
    PaddedAt(p, 0);
    PaddedAt(q, 0);
    forall j | 0 <= j < |s| ensures Padded(p)[j] == Padded(q)[j] {
      PaddedPair(x, j);
      PaddedPair(y, j);
      PaddedAt(p, j);
      PaddedAt(q, j);
    }
  }

  lemma {:induction false} PaddedLevelsEqual(
    h: Hash, inputs: set<string>, xs: seq<seq<string>>, ys: seq<seq<string>>, k: nat)
    requires IsTree(h, xs) && IsTree(h, ys) && |xs| == |ys| && k < |xs|
    requires CollisionFree(h, inputs) && CoversNodes(inputs, xs) && CoversNodes(inputs, ys)
    requires Root(xs) == Root(ys)
    ensures xs[k] != [] && ys[k] != [] && Padded(xs[k]) == Padded(ys[k])
    decreases |xs| - k
  {
    LevelNotEmpty(h, xs, k);
    LevelNotEmpty(h, ys, k);
    if k + 1 < |xs| {
      PaddedLevelsEqual(h, inputs, xs, ys, k + 1);
      PaddedDown(h, inputs, xs, ys, k);
    } else {
      assert xs[k] == ys[k];
    }
  }

  /** Only one node needs a single place. */
  lemma {:induction false} SlotCount(n: nat)
    requires n > 0
    ensures |Slots(n)| == 1 <==> n == 1
    ensures Slots(n)[0] == 0
  {
    if n > 1 {
      SlotCount((n + 1) / 2);
    }
  }

  lemma {:induction false} PaddedRootsEqual(h: Hash, xs: seq<seq<string>>, ys: seq<seq<string>>, k: nat)
    requires IsTree(h, xs) && k < |xs| && xs[k] != []
    requires IsTree(h, ys) && k < |ys| && ys[k] != []
    requires Padded(xs[k]) == Padded(ys[k])
    ensures Root(xs) == Root(ys)
    decreases |xs| - k
  {
    SlotCount(|xs[k]|);
    SlotCount(|ys[k]|);
    if k + 1 < |xs| {
      assert Grows(h, xs, k);
      assert k + 1 < |ys|;
      assert Grows(h, ys, k);
      PaddedUp(h, xs[k], ys[k]);
      PaddedRootsEqual(h, xs, ys, k + 1);
    } else {
      assert k + 1 < |ys| ==> Grows(h, ys, k);
      assert Padded(xs[k])[0] == Padded(ys[k])[0];
    }
  }

  lemma {:induction false} EqualRootsPadAlike(
    h: Hash, inputs: set<string>, xs: seq<seq<string>>, a: seq<Leaf>, ys: seq<seq<string>>, b: seq<Leaf>)
    requires TreeOver(h, xs, a) && Covered(h, inputs, xs, a)
    requires TreeOver(h, ys, b) && Covered(h, inputs, ys, b)
    requires Root(xs) == Root(ys)
    ensures xs[0] != [] && ys[0] != [] && Padded(xs[0]) == Padded(ys[0])
  {
    SameHeight(h, inputs, xs, a, |xs| - 1, ys, b, |ys| - 1);
    PaddedLevelsEqual(h, inputs, xs, ys, 0);
  }

  /**
   * Two non-empty leaf lists have the same root exactly when their padded lists of leaf hashes are equal,
   * whether or not the leaves are distinct.
   */
  lemma {:induction false} RootsEqualIffPaddedEqual(h: Hash, inputs: set<string>, a: seq<Leaf>, b: seq<Leaf>)
    requires a != [] && b != []
    requires CollisionFree(h, inputs) && TreeTexts(h, a) <= inputs && TreeTexts(h, b) <= inputs
    ensures RootOf(h, a) == RootOf(h, b) <==> Padded(LeafHashes(h, a)) == Padded(LeafHashes(h, b))
  {
    TreeShape(h, a);
    TreeShape(h, b);
    TextsCovered(h, inputs, a);
    TextsCovered(h, inputs, b);
    if Padded(LeafHashes(h, a)) == Padded(LeafHashes(h, b)) {
      PaddedRootsEqual(h, TreeOf(h, a), TreeOf(h, b), 0);
    }
    if RootOf(h, a) == RootOf(h, b) {
      EqualRootsPadAlike(h, inputs, TreeOf(h, a), a, TreeOf(h, b), b);
    }
  }
}
