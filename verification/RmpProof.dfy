/** Building and verifying recursive Merkle proofs. A proof is a JSON object, as a peer sends it. */
module RmpProof {
  import opened Wrappers
  import opened Sorting
  import opened Json
  import opened Flatten
  import opened Preimages
  import opened MerkleTree

  const RMP_SCHEMA_VERSION := "RMP-1"

  // ----- building -----

  /** One step of a proof path: the sibling of a node, and the side it stands on. */
  function Sibling(level: seq<string>, cursor: nat): Json
    requires cursor < |level|
  {
    var beside := if cursor % 2 == 1 then cursor - 1 else cursor + 1;
    var index := if beside >= |level| then cursor else beside;
    Obj([Field("position", Str(if index < cursor then "left" else "right")), Field("hash", Str(level[index]))])
  }

  predicate Halves(levels: seq<seq<string>>, k: nat)
    requires k + 1 < |levels|
  {
    |levels[k + 1]| == (|levels[k]| + 1) / 2
  }

  /** Every level has half as many nodes as the one below, rounded up. */
  ghost predicate Halving(levels: seq<seq<string>>) {
    levels != [] && forall k :: 0 <= k < |levels| - 1 ==> Halves(levels, k)
  }

  lemma {:induction false} TreeHalves(h: Hash, levels: seq<seq<string>>)
    requires IsTree(h, levels)
    ensures Halving(levels)
  {
    forall k | 0 <= k < |levels| - 1 ensures Halves(levels, k) {
      assert Grows(h, levels, k);
    }
  }

  /** The siblings from a node on level `k` up to the root. */
  ghost function SiblingPath(levels: seq<seq<string>>, k: nat, cursor: nat): (r: seq<Json>)
    requires Halving(levels) && k < |levels| && cursor < |levels[k]|
    ensures |r| == |levels| - 1 - k
    decreases |levels| - k
  {
    if k + 1 == |levels| then [] else
      assert Halves(levels, k);
      [Sibling(levels[k], cursor)] + SiblingPath(levels, k + 1, cursor / 2)
  }

  predicate IsWanted(requested: Option<seq<string>>, path: string) {
    requested.None? || requested.value == [] || path in requested.value
  }

  ghost function Target(h: Hash, levels: seq<seq<string>>, leaves: seq<Leaf>, i: nat): Json
    requires Halving(levels) && i < |leaves| == |levels[0]|
  {
    Obj([
      Field("path", Str(leaves[i].path)),
      Field("value", leaves[i].value),
      Field("leafHash", Str(LeafHash(h, leaves[i].path, leaves[i].value))),
      Field("proof", Arr(SiblingPath(levels, 0, i)))])
  }

  /** The targets among the first `n` leaves. */
  ghost function Targets(
    h: Hash, levels: seq<seq<string>>, leaves: seq<Leaf>, requested: Option<seq<string>>, n: nat): (r: seq<Json>)
    requires Halving(levels) && n <= |leaves| && (leaves != [] ==> |leaves| == |levels[0]|)
    ensures |r| <= n
  {
    if n == 0 then []
    else
      var before := Targets(h, levels, leaves, requested, n - 1);
      if IsWanted(requested, leaves[n - 1].path) then before + [Target(h, levels, leaves, n - 1)] else before
  }

  /** All targets that `build_rmp_proof` puts into a proof. */
  ghost function AllTargets(h: Hash, leaves: seq<Leaf>, requested: Option<seq<string>>): (r: seq<Json>)
    ensures |r| <= |leaves|
  {
    TreeShape(h, leaves);
    TreeHalves(h, TreeOf(h, leaves));
    Targets(h, TreeOf(h, leaves), leaves, requested, |leaves|)
  }

  function ProofHead(root: string, now: int): seq<Field> {
    [
      Field("schemaVersion", Str(RMP_SCHEMA_VERSION)),
      Field("type", Str("recursive-merkle-proof")),
      Field("generatedAt", Num(now)),
      Field("root", Str(DIGEST_TAG + root))
    ]
  }

  function ProofBody(leafCount: nat, targets: seq<Json>): seq<Field> {
    var omitted := leafCount - |targets|;
    [
      Field("leafCount", Num(leafCount)),
      Field("targetCount", Num(|targets|)),
      Field("omittedLeaves", Num(if omitted > 0 then omitted else 0)),
      Field("targets", Arr(targets))
    ]
  }

  function ProofObject(root: string, leafCount: nat, targets: seq<Json>, now: int): Json {
    Obj(ProofHead(root, now) + ProofBody(leafCount, targets))
  }

  /** The proof `build_rmp_proof` makes of a state. */
  ghost function BuiltProof(h: Hash, state: Json, requested: Option<seq<string>>, now: int): Json {
    var leaves := StateLeaves(state);
    ProofObject(RootOf(h, leaves), |leaves|, AllTargets(h, leaves, requested), now)
  }

  lemma {:induction false} SiblingPathStep(levels: seq<seq<string>>, k: nat, cursor: nat)
    requires Halving(levels) && k + 1 < |levels| && cursor < |levels[k]|
    ensures cursor / 2 < |levels[k + 1]|
    ensures SiblingPath(levels, k, cursor) ==
            [Sibling(levels[k], cursor)] + SiblingPath(levels, k + 1, cursor / 2)
  {
    assert Halves(levels, k);
  }

  lemma {:induction false} SiblingPathAtRoot(levels: seq<seq<string>>, cursor: nat)
    requires Halving(levels) && cursor < |levels[|levels| - 1]|
    ensures SiblingPath(levels, |levels| - 1, cursor) == []
  {
  }

  /** The inner loop of `build_rmp_proof`: from a leaf up through `levels[:-1]`. */
  method CollectSiblings(levels: seq<seq<string>>, leafIndex: nat) returns (proofPath: seq<Json>)
    requires Halving(levels) && leafIndex < |levels[0]|
    ensures proofPath == SiblingPath(levels, 0, leafIndex)
  {
    hide SiblingPath;
    proofPath := [];
    var cursor: nat := leafIndex;
    for k := 0 to |levels| - 1
      invariant cursor < |levels[k]|
      invariant proofPath + SiblingPath(levels, k, cursor) == SiblingPath(levels, 0, leafIndex)
    {
      var level := levels[k];
      SiblingPathStep(levels, k, cursor);
      var siblingIndex := if cursor % 2 == 1 then cursor - 1 else cursor + 1;
      if siblingIndex >= |level| {
        siblingIndex := cursor;
      }
      var position := if siblingIndex < cursor then "left" else "right";
      proofPath := proofPath + [Obj([Field("position", Str(position)), Field("hash", Str(level[siblingIndex]))])];
      cursor := cursor / 2;
    }
    SiblingPathAtRoot(levels, cursor);
  }

  method HashLeaves(h: Hash, leaves: seq<Leaf>) returns (leafHashes: seq<string>)
    ensures leafHashes == LeafHashes(h, leaves)
  {
    leafHashes := [];
    for i := 0 to |leaves|
      invariant |leafHashes| == i
      invariant forall j :: 0 <= j < i ==> leafHashes[j] == LeafHash(h, leaves[j].path, leaves[j].value)
    {
      leafHashes := leafHashes + [LeafHash(h, leaves[i].path, leaves[i].value)];
    }
  }

  /** The loop over the leaves in `build_rmp_proof`. */
  method CollectTargets(
    h: Hash, leaves: seq<Leaf>, leafHashes: seq<string>, levels: seq<seq<string>>, requested: Option<seq<string>>)
    returns (targets: seq<Json>)
    requires leafHashes == LeafHashes(h, leaves)
    requires Halving(levels) && (leaves != [] ==> levels[0] == leafHashes)
    ensures targets == Targets(h, levels, leaves, requested, |leaves|)
  {
    hide SiblingPath, LeafHash, LeafHashes, Halving;
    targets := [];
    for leafIndex := 0 to |leaves|
      invariant targets == Targets(h, levels, leaves, requested, leafIndex)
    {
      if IsWanted(requested, leaves[leafIndex].path) {
        var proofPath := CollectSiblings(levels, leafIndex);
        targets := targets + [Obj([
          Field("path", Str(leaves[leafIndex].path)),
          Field("value", leaves[leafIndex].value),
          Field("leafHash", Str(leafHashes[leafIndex])),
          Field("proof", Arr(proofPath))])];
      }
    }
  }

  /** `build_rmp_proof`. */
  method BuildRmpProof(h: Hash, state: Json, requested: Option<seq<string>>, now: int) returns (proof: Json)
    ensures proof == BuiltProof(h, state, requested, now)
  {
    var leaves := FlattenState(state, "");
    var leafHashes := HashLeaves(h, leaves);
    var levels := BuildLevels(h, leafHashes);
    assert levels == TreeOf(h, leaves);
    TreeShape(h, leaves);
    TreeHalves(h, levels);
    var targets := CollectTargets(h, leaves, leafHashes, levels, requested);
    proof := ProofObject(levels[|levels| - 1][0], |leaves|, targets, now);
  }

  // ----- verifying -----

  /** The outcome of `verify_rmp_proof`; a list or a dict as a position raises a TypeError. */
  datatype Verdict =
    | Accepted(root: string, verifiedPaths: seq<string>)
    | Rejected(reason: string, path: Option<string>)
    | Raised

  datatype Climbed = Top(digest: string) | BadSibling | Unhashable

  /** Hashes upwards along the siblings of a proof path. */
  function Climb(h: Hash, computed: string, siblings: seq<Json>): Climbed
    decreases |siblings|
  {
    if siblings == [] then Top(computed)
    else if !siblings[0].Obj? then BadSibling
    else
      var hash, position := Get(siblings[0].fields, "hash"), Get(siblings[0].fields, "position");
      if hash.None? || !hash.value.Str? then BadSibling
      else if position.Some? && !IsScalar(position.value) then Unhashable
      else if position == Some(Str("left")) then Climb(h, HashPair(h, hash.value.s, computed), siblings[1..])
      else if position == Some(Str("right")) then Climb(h, HashPair(h, computed, hash.value.s), siblings[1..])
      else BadSibling
  }

  /** The checks on one target; `Accepted` names its path. */
  function CheckTarget(h: Hash, expectedRoot: string, target: Json): Verdict {
    if !target.Obj? then Rejected("invalid RMP target", None) else
      var path := Get(target.fields, "path");
      if path.None? || !path.value.Str? then Rejected("invalid RMP target path", None) else
        var p := path.value.s;
        var leafHash := LeafHash(h, p, Get(target.fields, "value").GetOr(Null));
        var siblings := Get(target.fields, "proof").GetOr(Arr([]));
        if Get(target.fields, "leafHash") != Some(Str(leafHash)) then Rejected("RMP leaf hash mismatch", Some(p))
        else if !siblings.Arr? then Rejected("invalid RMP proof path", Some(p))
        else match Climb(h, leafHash, siblings.items)
          case BadSibling => Rejected("invalid RMP sibling", Some(p))
          case Unhashable => Raised
          case Top(digest) =>
            if digest != expectedRoot then Rejected("RMP root mismatch", Some(p))
            else Accepted(DIGEST_TAG + expectedRoot, [p])
  }

  /** The verdict on several targets from those on the first and on the others: the first failure counts. */
  function Join(first: Verdict, others: Verdict): Verdict {
    if !first.Accepted? then first
    else if !others.Accepted? then others
    else Accepted(others.root, first.verifiedPaths + others.verifiedPaths)
  }

  function CheckTargets(h: Hash, expectedRoot: string, targets: seq<Json>): (r: Verdict)
    ensures r.Accepted? ==> r.root == DIGEST_TAG + expectedRoot
  {
    if targets == [] then Accepted(DIGEST_TAG + expectedRoot, [])
    else Join(CheckTarget(h, expectedRoot, targets[0]), CheckTargets(h, expectedRoot, targets[1..]))
  }

  function VerdictOn(h: Hash, proof: Json): Verdict {
    if !proof.Obj? || Get(proof.fields, "schemaVersion") != Some(Str(RMP_SCHEMA_VERSION)) then
      Rejected("invalid RMP schema", None)
    else
      var root := Get(proof.fields, "root").GetOr(Str(""));
      var targets := Get(proof.fields, "targets");
      if !root.Str? || !(DIGEST_TAG <= root.s) then Rejected("invalid RMP root", None)
      else if targets.None? || !targets.value.Arr? || targets.value.items == [] then
        Rejected("missing RMP targets", None)
      else CheckTargets(h, root.s[|DIGEST_TAG|..], targets.value.items)
  }

  /** The loop over one target's siblings in `verify_rmp_proof`. */
  method ClimbSiblings(h: Hash, leafHash: string, siblings: seq<Json>) returns (r: Climbed)
    ensures r == Climb(h, leafHash, siblings)
  {
    var computed := leafHash;
    for i := 0 to |siblings|
      invariant Climb(h, computed, siblings[i..]) == Climb(h, leafHash, siblings)
    {
      var sibling := siblings[i];
      assert siblings[i..][0] == sibling && siblings[i..][1..] == siblings[i + 1..];
      if !sibling.Obj? {
        return BadSibling;
      }
      var hash, position := Get(sibling.fields, "hash"), Get(sibling.fields, "position");
      if hash.None? || !hash.value.Str? {
        return BadSibling;
      }
      if position.Some? && !IsScalar(position.value) {
        return Unhashable;
      }
      if position != Some(Str("left")) && position != Some(Str("right")) {
        return BadSibling;
      }
      computed := if position == Some(Str("left")) then HashPair(h, hash.value.s, computed)
                  else HashPair(h, computed, hash.value.s);
    }
    return Top(computed);
  }

  method VerifyTarget(h: Hash, expectedRoot: string, target: Json) returns (r: Verdict)
    ensures r == CheckTarget(h, expectedRoot, target)
  {
    if !target.Obj? {
      return Rejected("invalid RMP target", None);
    }
    var path := Get(target.fields, "path");
    if path.None? || !path.value.Str? {
      return Rejected("invalid RMP target path", None);
    }
    var computed := LeafHash(h, path.value.s, Get(target.fields, "value").GetOr(Null));
    if Get(target.fields, "leafHash") != Some(Str(computed)) {
      return Rejected("RMP leaf hash mismatch", Some(path.value.s));
    }
    var proofPath := Get(target.fields, "proof").GetOr(Arr([]));
    if !proofPath.Arr? {
      return Rejected("invalid RMP proof path", Some(path.value.s));
    }
    var top := ClimbSiblings(h, computed, proofPath.items);
    match top {
      case BadSibling => return Rejected("invalid RMP sibling", Some(path.value.s));
      case Unhashable => return Raised;
      case Top(digest) =>
        if digest != expectedRoot {
          return Rejected("RMP root mismatch", Some(path.value.s));
        }
        return Accepted(DIGEST_TAG + expectedRoot, [path.value.s]);
    }
  }

  /** `verify_rmp_proof`. */
  method VerifyRmpProof(h: Hash, proof: Json) returns (r: Verdict)
    ensures r == VerdictOn(h, proof)
  {
    if !proof.Obj? || Get(proof.fields, "schemaVersion") != Some(Str(RMP_SCHEMA_VERSION)) {
      return Rejected("invalid RMP schema", None);
    }
    var root := Get(proof.fields, "root").GetOr(Str(""));
    if !root.Str? || !(DIGEST_TAG <= root.s) {
      return Rejected("invalid RMP root", None);
    }
    var expectedRoot := root.s[|DIGEST_TAG|..];
    var targets := Get(proof.fields, "targets");
    if targets.None? || !targets.value.Arr? || targets.value.items == [] {
      return Rejected("missing RMP targets", None);
    }
    r := VerifyTargets(h, expectedRoot, targets.value.items);
  }

  /** The outer loop of `verify_rmp_proof`. */
  method VerifyTargets(h: Hash, expectedRoot: string, targets: seq<Json>) returns (r: Verdict)
    ensures r == CheckTargets(h, expectedRoot, targets)
  {
    hide CheckTarget;
    var verifiedPaths := [];
    for i := 0 to |targets|
      invariant Join(Accepted("", verifiedPaths), CheckTargets(h, expectedRoot, targets[i..])) ==
                CheckTargets(h, expectedRoot, targets)
    {
      var first := VerifyTarget(h, expectedRoot, targets[i]);
      assert targets[i..][0] == targets[i] && targets[i..][1..] == targets[i + 1..];
      if !first.Accepted? {
        return first;
      }
      verifiedPaths := verifiedPaths + first.verifiedPaths;
    }
    return Accepted(DIGEST_TAG + expectedRoot, verifiedPaths);
  }
}
