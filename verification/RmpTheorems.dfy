/**
 * What the proofs are for. Proofs built from a state verify and name exactly the requested leaves; a
 * proof accepted against a state's root names only leaves of that state; equal roots mean equal
 * states. The last two hold unless two different texts hashed on the way share a digest.
 */
module RmpTheorems {
  import opened Wrappers
  import Text
  import opened Sorting
  import opened Json
  import opened Flatten
  import opened Pruning
  import opened Preimages
  import opened MerkleTree
  import opened RmpProof

  // ----- completeness -----

  lemma {:induction false} GetFirst(fields: seq<Field>, i: nat)
    requires i < |fields|
    requires forall j :: 0 <= j < i ==> fields[j].key != fields[i].key
    ensures Get(fields, fields[i].key) == Some(fields[i].value)
  {
    if i > 0 {
      assert fields[0].key != fields[i].key;
      GetFirst(fields[1..], i - 1);
    }
  }

  lemma {:induction false} SiblingFields(level: seq<string>, cursor: nat)
    requires cursor < |level|
    ensures var left := cursor % 2 == 1;
            var sibling := Sibling(level, cursor).fields;
            && Get(sibling, "position") == Some(Str(if left then "left" else "right"))
            && Get(sibling, "hash") == Some(Str(Beside(level, cursor)))
  {
    var sibling := Sibling(level, cursor).fields;
    GetFirst(sibling, 0);
    GetFirst(sibling, 1);
  }

  lemma {:induction false} ClimbStep(h: Hash, computed: string, sibling: Json, rest: seq<Json>, s: string, isLeft: bool)
    requires sibling.Obj? && Get(sibling.fields, "hash") == Some(Str(s))
    requires Get(sibling.fields, "position") == Some(Str(if isLeft then "left" else "right"))
    ensures Climb(h, computed, [sibling] + rest) ==
            Climb(h, if isLeft then HashPair(h, s, computed) else HashPair(h, computed, s), rest)
  {
    hide Get, HashPair;
    var siblings := [sibling] + rest;
    assert siblings[0] == sibling && siblings[1..] == rest;
    assert "left" != "right" by { assert |"left"| != |"right"|; }
  }

  /** The digest that a node's sibling contributes. */
  function Beside(level: seq<string>, cursor: nat): string
    requires cursor < |level|
  {
    if cursor % 2 == 1 then level[cursor - 1] else if cursor + 1 < |level| then level[cursor + 1] else level[cursor]
  }

  lemma {:induction false} PairOf(level: seq<string>, cursor: nat)
    requires cursor < |level|
    ensures var i := cursor / 2;
            && 2 * i < |level|
            && (cursor % 2 == 1 ==> level[2 * i] == Beside(level, cursor) && RightOf(level, i) == level[cursor])
            && (cursor % 2 == 0 ==> level[2 * i] == level[cursor] && RightOf(level, i) == Beside(level, cursor))
  {
  }

  lemma {:induction false} ParentOf(h: Hash, levels: seq<seq<string>>, k: nat, cursor: nat)
    requires IsTree(h, levels) && k + 1 < |levels| && cursor < |levels[k]|
    ensures var i := cursor / 2;
            i < |levels[k + 1]| && levels[k + 1][i] == HashPair(h, levels[k][2 * i], RightOf(levels[k], i))
  {
    assert Grows(h, levels, k);
  }

  lemma {:induction false} ClimbPair(h: Hash, level: seq<string>, cursor: nat, rest: seq<Json>)
    requires cursor < |level|
    ensures Climb(h, level[cursor], [Sibling(level, cursor)] + rest) ==
            Climb(h, HashPair(h, level[2 * (cursor / 2)], RightOf(level, cursor / 2)), rest)
  {
    SiblingFields(level, cursor);
    PairOf(level, cursor);
    ClimbStep(h, level[cursor], Sibling(level, cursor), rest, Beside(level, cursor), cursor % 2 == 1);
  }

  /** Hashing a node with its sibling gives its parent. */
  lemma {:induction false} ClimbOnce(h: Hash, levels: seq<seq<string>>, k: nat, cursor: nat, rest: seq<Json>)
    requires IsTree(h, levels) && k + 1 < |levels| && cursor < |levels[k]|
    ensures cursor / 2 < |levels[k + 1]|
    ensures Climb(h, levels[k][cursor], [Sibling(levels[k], cursor)] + rest) ==
            Climb(h, levels[k + 1][cursor / 2], rest)
  {
    ParentOf(h, levels, k, cursor);
    ClimbPair(h, levels[k], cursor, rest);
  }

  lemma {:induction false} ClimbReachesRoot(h: Hash, levels: seq<seq<string>>, k: nat, cursor: nat)
    requires IsTree(h, levels) && Halving(levels) && k < |levels| && cursor < |levels[k]|
    ensures Climb(h, levels[k][cursor], SiblingPath(levels, k, cursor)) == Top(Root(levels))
    decreases |levels| - k
  {
    if k + 1 < |levels| {
      assert Halves(levels, k);
      ClimbOnce(h, levels, k, cursor, SiblingPath(levels, k + 1, cursor / 2));
      ClimbReachesRoot(h, levels, k + 1, cursor / 2);
    }
  }

  lemma {:induction false} FourFields(fields: seq<Field>)
    requires |fields| == 4 && NoDuplicates([fields[0].key, fields[1].key, fields[2].key, fields[3].key])
    ensures forall i :: 0 <= i < 4 ==> Get(fields, fields[i].key) == Some(fields[i].value)
  {
    hide Get;
    var keys := [fields[0].key, fields[1].key, fields[2].key, fields[3].key];
    forall i | 0 <= i < 4 ensures Get(fields, fields[i].key) == Some(fields[i].value) {
      forall j | 0 <= j < i ensures fields[j].key != fields[i].key {
        assert keys[j] != keys[i];
      }
      GetFirst(fields, i);
    }
  }

  lemma {:induction false} TargetKeysDiffer()
    ensures NoDuplicates(["path", "value", "leafHash", "proof"])
  {
    assert "value"[0] != "proof"[0];
  }

  lemma {:induction false} TargetFields(h: Hash, levels: seq<seq<string>>, leaves: seq<Leaf>, i: nat)
    requires Halving(levels) && i < |leaves| == |levels[0]|
    ensures var fields := Target(h, levels, leaves, i).fields;
            && Get(fields, "path") == Some(Str(leaves[i].path))
            && Get(fields, "value") == Some(leaves[i].value)
            && Get(fields, "leafHash") == Some(Str(LeafHash(h, leaves[i].path, leaves[i].value)))
            && Get(fields, "proof") == Some(Arr(SiblingPath(levels, 0, i)))
  {
    hide SiblingPath, LeafHash, Get, NoDuplicates;
    var fields := Target(h, levels, leaves, i).fields;
    TargetKeysDiffer();
    FourFields(fields);
    assert Get(fields, fields[0].key) == Some(fields[0].value);
    assert Get(fields, fields[1].key) == Some(fields[1].value);
    assert Get(fields, fields[2].key) == Some(fields[2].value);
    assert Get(fields, fields[3].key) == Some(fields[3].value);
  }

  lemma {:induction false} TargetAccepted(h: Hash, levels: seq<seq<string>>, leaves: seq<Leaf>, i: nat)
    requires TreeOver(h, levels, leaves) && Halving(levels) && i < |leaves|
    ensures CheckTarget(h, Root(levels), Target(h, levels, leaves, i)) ==
            Accepted(DIGEST_TAG + Root(levels), [leaves[i].path])
  {
    TargetFields(h, levels, leaves, i);
    ClimbReachesRoot(h, levels, 0, i);
  }

  lemma {:induction false} CheckOneTarget(h: Hash, root: string, target: Json, path: string)
    requires CheckTarget(h, root, target) == Accepted(DIGEST_TAG + root, [path])
    ensures CheckTargets(h, root, [target]) == Accepted(DIGEST_TAG + root, [path])
  {
    var rest := [target][1..];
    assert CheckTargets(h, root, rest) == Accepted(DIGEST_TAG + root, []);
    assert [path] + [] == [path];
  }

  lemma {:induction false} JoinAssociative(u: Verdict, v: Verdict, w: Verdict)
    ensures Join(Join(u, v), w) == Join(u, Join(v, w))
  {
    if u.Accepted? && v.Accepted? && w.Accepted? {
      assert u.verifiedPaths + v.verifiedPaths + w.verifiedPaths == u.verifiedPaths + (v.verifiedPaths + w.verifiedPaths);
    }
  }

  lemma {:induction false} CheckTargetsAppend(h: Hash, root: string, xs: seq<Json>, ys: seq<Json>)
    ensures CheckTargets(h, root, xs + ys) == Join(CheckTargets(h, root, xs), CheckTargets(h, root, ys))
  {
    if xs == [] {
      assert xs + ys == ys;
    } else {
      assert (xs + ys)[1..] == xs[1..] + ys;
      CheckTargetsAppend(h, root, xs[1..], ys);
      JoinAssociative(CheckTarget(h, root, xs[0]), CheckTargets(h, root, xs[1..]), CheckTargets(h, root, ys));
    }
  }

  /** The paths of the requested ones among the first `n` leaves, in leaf order. */
  function RequestedPaths(leaves: seq<Leaf>, requested: Option<seq<string>>, n: nat): seq<string>
    requires n <= |leaves|
  {
    if n == 0 then []
    else RequestedPaths(leaves, requested, n - 1)
         + if IsWanted(requested, leaves[n - 1].path) then [leaves[n - 1].path] else []
  }

  lemma {:induction false} TargetsAccepted(
    h: Hash, levels: seq<seq<string>>, leaves: seq<Leaf>, requested: Option<seq<string>>, n: nat)
    requires TreeOver(h, levels, leaves) && Halving(levels) && n <= |leaves|
    ensures CheckTargets(h, Root(levels), Targets(h, levels, leaves, requested, n)) ==
            Accepted(DIGEST_TAG + Root(levels), RequestedPaths(leaves, requested, n))
  {
    hide CheckTarget, LeafHash, Target, LeafHashes;
    if n > 0 {
      TargetsAccepted(h, levels, leaves, requested, n - 1);
      if IsWanted(requested, leaves[n - 1].path) {
        TargetAccepted(h, levels, leaves, n - 1);
        CheckOneTarget(h, Root(levels), Target(h, levels, leaves, n - 1), leaves[n - 1].path);
        CheckTargetsAppend(h, Root(levels), Targets(h, levels, leaves, requested, n - 1), [Target(h, levels, leaves, n - 1)]);
      }
    }
  }

  lemma {:induction false} RequestedPathsNonEmpty(leaves: seq<Leaf>, requested: Option<seq<string>>, n: nat)
    requires n <= |leaves|
    ensures RequestedPaths(leaves, requested, n) != [] <==>
            exists i :: 0 <= i < n && IsWanted(requested, leaves[i].path)
  {
    if n > 0 {
      RequestedPathsNonEmpty(leaves, requested, n - 1);
    }
  }

  lemma {:induction false} TargetCount(
    h: Hash, levels: seq<seq<string>>, leaves: seq<Leaf>, requested: Option<seq<string>>, n: nat)
    requires Halving(levels) && n <= |leaves| && (leaves != [] ==> |leaves| == |levels[0]|)
    ensures |Targets(h, levels, leaves, requested, n)| == |RequestedPaths(leaves, requested, n)|
  {
    hide Target, IsWanted;
    if n > 0 {
      TargetCount(h, levels, leaves, requested, n - 1);
    }
  }

  lemma {:induction false} GetBehind(fs: seq<Field>, gs: seq<Field>, key: string)
    requires forall i :: 0 <= i < |fs| ==> fs[i].key != key
    ensures Get(fs + gs, key) == Get(gs, key)
  {
    if fs == [] {
      assert fs + gs == gs;
    } else {
      assert (fs + gs)[1..] == fs[1..] + gs;
      GetBehind(fs[1..], gs, key);
    }
  }

  lemma {:induction false} GetBefore(fs: seq<Field>, gs: seq<Field>, key: string)
    requires Get(fs, key).Some?
    ensures Get(fs + gs, key) == Get(fs, key)
  {
    assert (fs + gs)[1..] == fs[1..] + gs;
    if fs[0].key != key {
      GetBefore(fs[1..], gs, key);
    }
  }

  lemma {:induction false} ProofFields(root: string, leafCount: nat, targets: seq<Json>, now: int)
    ensures var fields := ProofObject(root, leafCount, targets, now).fields;
            && Get(fields, "schemaVersion") == Some(Str(RMP_SCHEMA_VERSION))
            && Get(fields, "root") == Some(Str(DIGEST_TAG + root))
            && Get(fields, "targets") == Some(Arr(targets))
  {
    hide Get;
    var head, body := ProofHead(root, now), ProofBody(leafCount, targets);
    GetFirst(head, 0);
    GetFirst(head, 3);
    GetFirst(body, 3);
    GetBefore(head, body, "schemaVersion");
    GetBefore(head, body, "root");
    GetBehind(head, body, "targets");
  }

  lemma {:induction false} ProofCounts(root: string, leafCount: nat, targets: seq<Json>, now: int)
    requires |targets| <= leafCount
    ensures var fields := ProofObject(root, leafCount, targets, now).fields;
            && Get(fields, "leafCount") == Some(Num(leafCount))
            && Get(fields, "targetCount") == Some(Num(|targets|))
            && Get(fields, "omittedLeaves") == Some(Num(leafCount - |targets|))
  {
    hide Get;
    var head, body := ProofHead(root, now), ProofBody(leafCount, targets);
    GetFirst(body, 0);
    GetFirst(body, 1);
    GetFirst(body, 2);
    GetBehind(head, body, "leafCount");
    GetBehind(head, body, "targetCount");
    GetBehind(head, body, "omittedLeaves");
  }

  lemma {:induction false} ProofObjectVerdict(h: Hash, root: string, leafCount: nat, targets: seq<Json>, now: int)
    ensures VerdictOn(h, ProofObject(root, leafCount, targets, now)) ==
            if targets == [] then Rejected("missing RMP targets", None) else CheckTargets(h, root, targets)
  {
    ProofFields(root, leafCount, targets, now);
    assert (DIGEST_TAG + root)[|DIGEST_TAG|..] == root;
  }

  lemma {:induction false} AllTargetsAccepted(h: Hash, leaves: seq<Leaf>, requested: Option<seq<string>>)
    ensures |AllTargets(h, leaves, requested)| == |RequestedPaths(leaves, requested, |leaves|)|
    ensures AllTargets(h, leaves, requested) != [] ==>
              CheckTargets(h, RootOf(h, leaves), AllTargets(h, leaves, requested)) ==
              Accepted(DIGEST_TAG + RootOf(h, leaves), RequestedPaths(leaves, requested, |leaves|))
  {
    TreeShape(h, leaves);
    TreeHalves(h, TreeOf(h, leaves));
    TargetCount(h, TreeOf(h, leaves), leaves, requested, |leaves|);
    if leaves != [] {
      TargetsAccepted(h, TreeOf(h, leaves), leaves, requested, |leaves|);
    }
  }

  /**
   * Whatever the state, its proof is accepted exactly when a leaf was requested, and then the verified
   * paths are the requested leaves in leaf order.
   */
  lemma {:induction false} BuiltProofVerdict(h: Hash, state: Json, requested: Option<seq<string>>, now: int)
    ensures var leaves := StateLeaves(state);
            var paths := RequestedPaths(leaves, requested, |leaves|);
            && (paths != [] <==> exists i :: 0 <= i < |leaves| && IsWanted(requested, leaves[i].path))
            && VerdictOn(h, BuiltProof(h, state, requested, now)) ==
               if paths == [] then Rejected("missing RMP targets", None)
               else Accepted(DIGEST_TAG + RootOf(h, leaves), paths)
  {
    var leaves := StateLeaves(state);
    RequestedPathsNonEmpty(leaves, requested, |leaves|);
    AllTargetsAccepted(h, leaves, requested);
    ProofObjectVerdict(h, RootOf(h, leaves), |leaves|, AllTargets(h, leaves, requested), now);
  }

  /** The counts of a proof add up: every leaf is a target or omitted. */
  lemma {:induction false} BuiltProofCounts(h: Hash, state: Json, requested: Option<seq<string>>, now: int)
    ensures var leaves := StateLeaves(state);
            var chosen := |RequestedPaths(leaves, requested, |leaves|)|;
            var fields := BuiltProof(h, state, requested, now).fields;
            && Get(fields, "leafCount") == Some(Num(|leaves|))
            && Get(fields, "targetCount") == Some(Num(chosen))
            && Get(fields, "omittedLeaves") == Some(Num(|leaves| - chosen))
  {
    var leaves := StateLeaves(state);
    AllTargetsAccepted(h, leaves, requested);
    ProofCounts(RootOf(h, leaves), |leaves|, AllTargets(h, leaves, requested), now);
  }

  // ----- depth -----

  function Pow2(n: nat): (p: nat)
    ensures p >= 1
  {
    if n == 0 then 1 else 2 * Pow2(n - 1)
  }

  lemma {:induction false} LevelSize(h: Hash, levels: seq<seq<string>>, k: nat)
    requires IsTree(h, levels) && k < |levels|
    ensures var above := |levels| - 1 - k;
            && |levels[k]| <= Pow2(above)
            && (above > 0 ==> Pow2(above - 1) < |levels[k]|)
    decreases |levels| - k
  {
    if k + 1 < |levels| {
      LevelSize(h, levels, k + 1);
      assert Grows(h, levels, k);
    }
  }

  /** Every sibling path over n leaves has length ceil(log2 n). */
  lemma {:induction false} SiblingPathLength(h: Hash, levels: seq<seq<string>>, leaves: seq<Leaf>, i: nat)
    requires TreeOver(h, levels, leaves) && Halving(levels) && i < |leaves|
    ensures var length := |SiblingPath(levels, 0, i)|;
            && |leaves| <= Pow2(length)
            && (length > 0 ==> Pow2(length - 1) < |leaves|)
  {
    LevelSize(h, levels, 0);
  }

  // ----- soundness -----

  /** The texts hashed on the way up a proof path. */
  ghost function ClimbTexts(h: Hash, computed: string, siblings: seq<Json>): set<string>
    decreases |siblings|
  {
    if siblings == [] || !siblings[0].Obj? then {} else
      var hash, position := Get(siblings[0].fields, "hash"), Get(siblings[0].fields, "position");
      if hash.None? || !hash.value.Str? then {}
      else if position == Some(Str("left")) then
        {NodeText(hash.value.s, computed)} + ClimbTexts(h, HashPair(h, hash.value.s, computed), siblings[1..])
      else
        {NodeText(computed, hash.value.s)} + ClimbTexts(h, HashPair(h, computed, hash.value.s), siblings[1..])
  }

  /** The path and the value a target claims; a missing value is read as null. */
  ghost function Claim(target: Json): Option<Leaf> {
    if !target.Obj? then None else
      var path := Get(target.fields, "path");
      if path.None? || !path.value.Str? then None
      else Some(Leaf(path.value.s, Get(target.fields, "value").GetOr(Null)))
  }

  ghost function TargetTexts(h: Hash, target: Json): set<string> {
    if Claim(target).None? then {} else
      var leaf := Claim(target).value;
      var siblings := Get(target.fields, "proof").GetOr(Arr([]));
      {LeafText(leaf.path, leaf.value)}
      + if siblings.Arr? then ClimbTexts(h, LeafHash(h, leaf.path, leaf.value), siblings.items) else {}
  }

  ghost function TargetsTexts(h: Hash, targets: seq<Json>): set<string> {
    if targets == [] then {} else TargetTexts(h, targets[0]) + TargetsTexts(h, targets[1..])
  }

  ghost function ProofTargets(proof: Json): seq<Json> {
    if !proof.Obj? then [] else
      var targets := Get(proof.fields, "targets");
      if targets.None? || !targets.value.Arr? then [] else targets.value.items
  }

  /** The texts hashed while a proof is verified. */
  ghost function ProofTexts(h: Hash, proof: Json): set<string> {
    TargetsTexts(h, ProofTargets(proof))
  }

  /** The texts hashed while a state's tree is built. */
  ghost function StateTexts(h: Hash, state: Json): set<string> {
    TreeTexts(h, StateLeaves(state))
  }

  /** One step up: the node below a parent that is the digest of its text stands on the level below. */
  lemma {:induction false} StepDown(
    h: Hash, inputs: set<string>, levels: seq<seq<string>>, k: nat, i: nat, left: string, right: string, computed: string)
    requires IsTree(h, levels) && k + 1 < |levels| && i < |levels[k + 1]|
    requires CollisionFree(h, inputs) && CoversNodes(inputs, levels) && NodeText(left, right) in inputs
    requires levels[k + 1][i] == HashPair(h, left, right)
    requires computed == left || computed == right
    requires ':' !in computed
    ensures computed in levels[k]
  {
    NodeIsHashed(h, levels, k, i);
    EqualDigests(h, inputs, NodeTextAt(levels, k, i), NodeText(left, right));
    NodeTextDetermines(levels[k][2 * i], RightOf(levels[k], i), left, right);
  }

  /** An inner node is no leaf of the tree. */
  lemma {:induction false} NodeIsNoLeaf(h: Hash, inputs: set<string>, levels: seq<seq<string>>, leaves: seq<Leaf>, left: string, right: string)
    requires TreeOver(h, levels, leaves) && Covered(h, inputs, levels, leaves)
    requires NodeText(left, right) in inputs
    ensures HashPair(h, left, right) !in levels[0]
  {
    forall i | 0 <= i < |levels[0]| ensures levels[0][i] != HashPair(h, left, right) {
      var text := LeafText(leaves[i].path, leaves[i].value);
      TextKindsDiffer(leaves[i].path, leaves[i].value, left, right);
      if levels[0][i] == HashPair(h, left, right) {
        EqualDigests(h, inputs, text, NodeText(left, right));
      }
    }
  }

  lemma {:induction false} PairHasNoColon(h: Hash, left: string, right: string)
    ensures ':' !in HashPair(h, left, right)
  {
    DigestHasNoColon(h, NodeText(left, right));
  }

  /** A climb that ends at the root started on the level that its length tells. */
  lemma {:induction false} ClimbSound(
    h: Hash, inputs: set<string>, levels: seq<seq<string>>, leaves: seq<Leaf>, computed: string, siblings: seq<Json>)
    requires TreeOver(h, levels, leaves) && Covered(h, inputs, levels, leaves)
    requires ClimbTexts(h, computed, siblings) <= inputs && ':' !in computed
    requires Climb(h, computed, siblings) == Top(Root(levels))
    ensures |siblings| < |levels| && computed in levels[|levels| - 1 - |siblings|]
    decreases |siblings|
  {
    hide NodeText, HashPair, CoversLeaves, CoversNodes, CollisionFree, LeafHashes, Get;
    if siblings != [] {
      var s := Get(siblings[0].fields, "hash").value.s;
      var isLeft := Get(siblings[0].fields, "position") == Some(Str("left"));
      var left, right := if isLeft then s else computed, if isLeft then computed else s;
      var parent := HashPair(h, left, right);
      assert NodeText(left, right) in ClimbTexts(h, computed, siblings);
      PairHasNoColon(h, left, right);
      ClimbSound(h, inputs, levels, leaves, parent, siblings[1..]);
      NodeIsNoLeaf(h, inputs, levels, leaves, left, right);
      var k := |levels| - 1 - |siblings|;
      var i :| 0 <= i < |levels[k + 1]| && levels[k + 1][i] == parent;
      StepDown(h, inputs, levels, k, i, left, right, computed);
    }
  }

  /** No climb ends at the root of the empty tree. */
  lemma {:induction false} ClimbMissesEmptyRoot(h: Hash, inputs: set<string>, text: string, siblings: seq<Json>)
    requires CollisionFree(h, inputs) && text in inputs && EMPTY_TEXT in inputs && text != EMPTY_TEXT
    requires ClimbTexts(h, Sha256(h, text), siblings) <= inputs
    ensures Climb(h, Sha256(h, text), siblings) != Top(Sha256(h, EMPTY_TEXT))
    decreases |siblings|
  {
    if siblings == [] {
      if Sha256(h, text) == Sha256(h, EMPTY_TEXT) {
        EqualDigests(h, inputs, text, EMPTY_TEXT);
      }
    } else if Climb(h, Sha256(h, text), siblings).Top? {
      var computed := Sha256(h, text);
      var s := Get(siblings[0].fields, "hash").value.s;
      var isLeft := Get(siblings[0].fields, "position") == Some(Str("left"));
      var left, right := if isLeft then s else computed, if isLeft then computed else s;
      assert NodeText(left, right) in ClimbTexts(h, computed, siblings);
      TextKindsDiffer("", Null, left, right);
      ClimbMissesEmptyRoot(h, inputs, NodeText(left, right), siblings[1..]);
    }
  }

  /** A target accepted against the root of a leaf list claims one of its leaves. */
  lemma {:induction false} TargetSound(h: Hash, inputs: set<string>, leaves: seq<Leaf>, target: Json)
    requires forall i :: 0 <= i < |leaves| ==> IsScalar(leaves[i].value)
    requires CollisionFree(h, inputs) && TreeTexts(h, leaves) <= inputs && TargetTexts(h, target) <= inputs
    requires CheckTarget(h, RootOf(h, leaves), target).Accepted?
    ensures Claim(target).Some? && Claim(target).value in leaves
    ensures CheckTarget(h, RootOf(h, leaves), target).verifiedPaths == [Claim(target).value.path]
  {
    hide Climb, ClimbTexts, CollisionFree, LevelsFrom, LeafText, CoversLeaves, CoversNodes, NodeTexts, LeafTexts;
    var claim := Claim(target).value;
    var text := LeafText(claim.path, claim.value);
    var siblings := Get(target.fields, "proof").GetOr(Arr([])).items;
    var levels := TreeOf(h, leaves);
    TreeShape(h, leaves);
    TextsCovered(h, inputs, leaves);
    assert text in TargetTexts(h, target);
    if leaves == [] {
      TextKindsDiffer(claim.path, claim.value, "", "");
      ClimbMissesEmptyRoot(h, inputs, text, siblings);
    } else {
      LeafClimbSound(h, inputs, levels, leaves, claim, siblings);
    }
  }

  /** A leaf hash that stands among the hashes of a leaf list is the hash of that leaf. */
  lemma {:induction false} LeafHashAmong(h: Hash, inputs: set<string>, leaves: seq<Leaf>, claim: Leaf)
    requires forall i :: 0 <= i < |leaves| ==> IsScalar(leaves[i].value)
    requires CollisionFree(h, inputs) && CoversLeaves(inputs, leaves)
    requires LeafText(claim.path, claim.value) in inputs
    requires LeafHash(h, claim.path, claim.value) in LeafHashes(h, leaves)
    ensures claim in leaves
  {
    var i :| 0 <= i < |leaves| && LeafHashes(h, leaves)[i] == LeafHash(h, claim.path, claim.value);
    var leaf := leaves[i];
    assert LeafText(leaf.path, leaf.value) in inputs;
    EqualDigests(h, inputs, LeafText(leaf.path, leaf.value), LeafText(claim.path, claim.value));
    LeafTextDetermines(leaf.path, leaf.value, claim.path, claim.value);
    assert leaf == claim;
  }

  /** The hash of a leaf stands on no level above the leaves. */
  lemma {:induction false} LeafHashNotAbove(h: Hash, inputs: set<string>, levels: seq<seq<string>>, claim: Leaf, k: nat)
    requires IsTree(h, levels) && 0 < k < |levels|
    requires CollisionFree(h, inputs) && CoversNodes(inputs, levels)
    requires LeafText(claim.path, claim.value) in inputs
    ensures LeafHash(h, claim.path, claim.value) !in levels[k]
  {
    forall i | 0 <= i < |levels[k]| ensures levels[k][i] != LeafHash(h, claim.path, claim.value) {
      LeafIsNoNode(h, inputs, claim.path, claim.value, levels, k - 1, i);
    }
  }

  lemma {:induction false} LeafClimbSound(
    h: Hash, inputs: set<string>, levels: seq<seq<string>>, leaves: seq<Leaf>, claim: Leaf, siblings: seq<Json>)
    requires forall i :: 0 <= i < |leaves| ==> IsScalar(leaves[i].value)
    requires TreeOver(h, levels, leaves) && Covered(h, inputs, levels, leaves)
    requires LeafText(claim.path, claim.value) in inputs
    requires ClimbTexts(h, LeafHash(h, claim.path, claim.value), siblings) <= inputs
    requires Climb(h, LeafHash(h, claim.path, claim.value), siblings) == Top(Root(levels))
    ensures claim in leaves && |siblings| == |levels| - 1
  {
    hide Climb, ClimbTexts, LeafText, Root, IsTree, CollisionFree, CoversNodes, CoversLeaves;
    var computed := LeafHash(h, claim.path, claim.value);
    DigestHasNoColon(h, LeafText(claim.path, claim.value));
    ClimbSound(h, inputs, levels, leaves, computed, siblings);
    if |siblings| < |levels| - 1 {
      LeafHashNotAbove(h, inputs, levels, claim, |levels| - 1 - |siblings|);
    }
    LeafHashAmong(h, inputs, leaves, claim);
  }

  lemma {:induction false} TargetsSound(h: Hash, inputs: set<string>, leaves: seq<Leaf>, targets: seq<Json>)
    requires forall i :: 0 <= i < |leaves| ==> IsScalar(leaves[i].value)
    requires CollisionFree(h, inputs) && TreeTexts(h, leaves) <= inputs && TargetsTexts(h, targets) <= inputs
    requires CheckTargets(h, RootOf(h, leaves), targets).Accepted?
    ensures var paths := CheckTargets(h, RootOf(h, leaves), targets).verifiedPaths;
            && |paths| == |targets|
            && forall i :: 0 <= i < |targets| ==>
                 Claim(targets[i]).Some? && Claim(targets[i]).value in leaves && paths[i] == Claim(targets[i]).value.path
  {
    hide CheckTarget, Claim, TreeOf, TreeTexts, TargetTexts, CollisionFree, RootOf;
    if targets != [] {
      TargetSound(h, inputs, leaves, targets[0]);
      TargetsSound(h, inputs, leaves, targets[1..]);
    }
  }

  /** A proof names only leaves of a state: all its claims are true and its verified paths are theirs. */
  ghost predicate ClaimsHold(state: Json, proof: Json, paths: seq<string>) {
    var leaves, targets := StateLeaves(state), ProofTargets(proof);
    && targets != [] && |paths| == |targets|
    && forall i :: 0 <= i < |targets| ==>
         Claim(targets[i]).Some? && Claim(targets[i]).value in leaves && paths[i] == Claim(targets[i]).value.path
  }

  /**
   * A proof accepted with the root of a state claims only leaves of that state, whatever its siblings
   * are and however long its proof paths, unless two texts hashed by either side collide.
   */
  lemma {:induction false} AcceptedClaimsHold(h: Hash, state: Json, proof: Json)
    requires VerdictOn(h, proof).Accepted?
    requires VerdictOn(h, proof).root == DIGEST_TAG + RootOf(h, StateLeaves(state))
    ensures ClaimsHold(state, proof, VerdictOn(h, proof).verifiedPaths)
            || !CollisionFree(h, StateTexts(h, state) + ProofTexts(h, proof))
  {
    hide CheckTargets, CheckTarget, TreeOf, StateLeaves, TreeTexts, TargetsTexts, CollisionFree;
    var inputs := StateTexts(h, state) + ProofTexts(h, proof);
    var leaves, root := StateLeaves(state), RootOf(h, StateLeaves(state));
    if CollisionFree(h, inputs) {
      var claimed := Get(proof.fields, "root").value.s;
      assert claimed == DIGEST_TAG + claimed[|DIGEST_TAG|..];
      Text.CancelPrefix(DIGEST_TAG, claimed[|DIGEST_TAG|..], root);
      TargetsSound(h, inputs, leaves, ProofTargets(proof));
    }
  }

  /** Nothing is accepted against the root of a state without leaves. */
  lemma {:induction false} EmptyRootAcceptsNothing(h: Hash, state: Json, proof: Json)
    requires StateLeaves(state) == [] && VerdictOn(h, proof).Accepted?
    ensures VerdictOn(h, proof).root != DIGEST_TAG + Sha256(h, EMPTY_TEXT)
            || !CollisionFree(h, StateTexts(h, state) + ProofTexts(h, proof))
  {
    var target := if ProofTargets(proof) == [] then Null else ProofTargets(proof)[0];
    if VerdictOn(h, proof).root == DIGEST_TAG + Sha256(h, EMPTY_TEXT)
       && CollisionFree(h, StateTexts(h, state) + ProofTexts(h, proof))
    {
      AcceptedClaimsHold(h, state, proof);
    }
  }

  // ----- the root determines the state -----

  /**
   * Clean states have the same root exactly when they are equal up to key order and up to what has no leaf,
   * unless two texts hashed for them collide.
   */
  lemma {:induction false} RootDeterminesState(h: Hash, s: Json, t: Json)
    requires CleanState(s) && CleanState(t)
    ensures Equivalent(Prune(s), Prune(t)) ==> RootOf(h, StateLeaves(s)) == RootOf(h, StateLeaves(t))
    ensures RootOf(h, StateLeaves(s)) == RootOf(h, StateLeaves(t)) ==>
              Equivalent(Prune(s), Prune(t)) || !CollisionFree(h, StateTexts(h, s) + StateTexts(h, t))
  {
    hide Prune, Equivalent, CleanState;
    var a, b := StateLeaves(s), StateLeaves(t);
    var inputs := StateTexts(h, s) + StateTexts(h, t);
    LeavesDetermineState(s, t);
    if RootOf(h, a) == RootOf(h, b) && CollisionFree(h, inputs) {
      TextsCovered(h, inputs, a);
      TextsCovered(h, inputs, b);
      StatePathsDistinct(s);
      StatePathsDistinct(t);
      LeafHashesDistinct(h, inputs, a);
      LeafHashesDistinct(h, inputs, b);
      RootBindsHashes(h, inputs, a, b);
      LeafHashesInjective(h, inputs, a, b);
    }
  }

  /** Addressable states have the same root exactly when they are equal up to key order, unless texts collide. */
  lemma {:induction false} RootDeterminesAddressable(h: Hash, s: Json, t: Json)
    requires AddressableState(s) && AddressableState(t)
    ensures Equivalent(s, t) ==> RootOf(h, StateLeaves(s)) == RootOf(h, StateLeaves(t))
    ensures RootOf(h, StateLeaves(s)) == RootOf(h, StateLeaves(t)) ==>
              Equivalent(s, t) || !CollisionFree(h, StateTexts(h, s) + StateTexts(h, t))
  {
    LeavesDetermineAddressable(s, t);
    RootDeterminesState(h, s, t);
  }
}
