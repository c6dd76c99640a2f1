/**
 * The verdicts on any JSON value that claims to be a proof: exactly when it is accepted, for which reason it
 * is rejected, and exactly when verifying raises instead.
 */
module RmpVerdicts {
  import opened Wrappers
  import opened Sorting
  import opened Json
  import opened Flatten
  import opened Preimages
  import opened MerkleTree
  import opened RmpProof
  import opened RmpTheorems

  // ----- when verifying accepts, and why it rejects -----

  /** Hashing a digest with its sibling, on the side the sibling names, gives the digest above. */
  predicate StepsUp(h: Hash, sibling: Json, below: string, above: string) {
    && sibling.Obj?
    && Get(sibling.fields, "hash").Some? && Get(sibling.fields, "hash").value.Str?
    && var s := Get(sibling.fields, "hash").value.s;
       || (Get(sibling.fields, "position") == Some(Str("left")) && above == Sha256(h, "node:" + s + ":" + below))
       || (Get(sibling.fields, "position") == Some(Str("right")) && above == Sha256(h, "node:" + below + ":" + s))
  }

  /** The digests on the way up along the siblings. */
  ghost predicate IsLadder(h: Hash, siblings: seq<Json>, digests: seq<string>) {
    |digests| == |siblings| + 1 && forall k :: 0 <= k < |siblings| ==> StepsUp(h, siblings[k], digests[k], digests[k + 1])
  }

  ghost predicate LeadsUp(h: Hash, siblings: seq<Json>, start: string, end: string) {
    exists digests :: IsLadder(h, siblings, digests) && digests[0] == start && digests[|siblings|] == end
  }

  lemma {:induction false} LadderDown(h: Hash, siblings: seq<Json>, digests: seq<string>)
    requires siblings != [] && IsLadder(h, siblings, digests)
    ensures StepsUp(h, siblings[0], digests[0], digests[1]) && IsLadder(h, siblings[1..], digests[1..])
  {
    hide StepsUp;
    var rest, ds := siblings[1..], digests[1..];
    forall k | 0 <= k < |rest| ensures StepsUp(h, rest[k], ds[k], ds[k + 1]) {
      assert StepsUp(h, siblings[k + 1], digests[k + 1], digests[k + 2]);
    }
  }

  lemma {:induction false} LadderUp(h: Hash, siblings: seq<Json>, start: string, digests: seq<string>)
    requires siblings != [] && IsLadder(h, siblings[1..], digests) && StepsUp(h, siblings[0], start, digests[0])
    ensures IsLadder(h, siblings, [start] + digests)
  {
    hide StepsUp;
    var ds := [start] + digests;
    forall k | 0 <= k < |siblings| ensures StepsUp(h, siblings[k], ds[k], ds[k + 1]) {
      if k > 0 {
        assert StepsUp(h, siblings[1..][k - 1], digests[k - 1], digests[k]);
      }
    }
  }

  /** One step of a climb, in the terms of the hashed texts. */
  lemma {:induction false} ClimbUnfolds(h: Hash, computed: string, siblings: seq<Json>)
    requires siblings != []
    ensures IsClimbable(siblings[0]) ==>
              exists above :: StepsUp(h, siblings[0], computed, above)
                              && Climb(h, computed, siblings) == Climb(h, above, siblings[1..])
    ensures forall above :: StepsUp(h, siblings[0], computed, above) ==>
              IsClimbable(siblings[0]) && Climb(h, computed, siblings) == Climb(h, above, siblings[1..])
    ensures !IsClimbable(siblings[0]) ==> !Climb(h, computed, siblings).Top?
  {
    hide Sha256, Get;
    assert "left" != "right" by { assert |"left"| != |"right"|; }
    if IsClimbable(siblings[0]) {
      var s := Get(siblings[0].fields, "hash").value.s;
      var isLeft := Get(siblings[0].fields, "position") == Some(Str("left"));
      var above := if isLeft then HashPair(h, s, computed) else HashPair(h, computed, s);
      assert StepsUp(h, siblings[0], computed, above);
    }
  }

  lemma {:induction false} LeadsNowhere(h: Hash, start: string, end: string)
    ensures LeadsUp(h, [], start, end) <==> start == end
  {
    assert IsLadder(h, [], [start]);
  }

  lemma {:induction false} LeadsFurther(h: Hash, siblings: seq<Json>, start: string, above: string, end: string)
    requires siblings != [] && StepsUp(h, siblings[0], start, above) && LeadsUp(h, siblings[1..], above, end)
    ensures LeadsUp(h, siblings, start, end)
  {
    hide StepsUp;
    var digests :| IsLadder(h, siblings[1..], digests) && digests[0] == above && digests[|siblings[1..]|] == end;
    LadderUp(h, siblings, start, digests);
    assert ([start] + digests)[|siblings|] == end;
  }

  lemma {:induction false} LeadsFrom(h: Hash, siblings: seq<Json>, start: string, end: string) returns (above: string)
    requires siblings != [] && LeadsUp(h, siblings, start, end)
    ensures StepsUp(h, siblings[0], start, above) && LeadsUp(h, siblings[1..], above, end)
  {
    hide StepsUp;
    var digests :| IsLadder(h, siblings, digests) && digests[0] == start && digests[|siblings|] == end;
    LadderDown(h, siblings, digests);
    above := digests[1];
    assert digests[1..][0] == above && digests[1..][|siblings[1..]|] == end;
  }

  lemma {:induction false} ClimbTopIff(h: Hash, computed: string, siblings: seq<Json>, end: string)
    ensures Climb(h, computed, siblings) == Top(end) <==> LeadsUp(h, siblings, computed, end)
    decreases |siblings|
  {
    if siblings == [] {
      LeadsNowhere(h, computed, end);
    } else {
      hide StepsUp, IsClimbable, LeadsUp;
      ClimbUnfolds(h, computed, siblings);
      if Climb(h, computed, siblings) == Top(end) {
        var above :| StepsUp(h, siblings[0], computed, above)
                     && Climb(h, computed, siblings) == Climb(h, above, siblings[1..]);
        ClimbTopIff(h, above, siblings[1..], end);
        LeadsFurther(h, siblings, computed, above, end);
      }
      if LeadsUp(h, siblings, computed, end) {
        var above := LeadsFrom(h, siblings, computed, end);
        ClimbTopIff(h, above, siblings[1..], end);
      }
    }
    hide LeadsUp, Climb;
  }

  /** A target with a text as its path, the hash of its leaf, and a list of siblings that leads up to the root. */
  ghost predicate IsValidTarget(h: Hash, root: string, target: Json) {
    && target.Obj?
    && Get(target.fields, "path").Some? && Get(target.fields, "path").value.Str?
    && (Get(target.fields, "proof").Some? ==> Get(target.fields, "proof").value.Arr?)
    && var path, value := Get(target.fields, "path").value.s, Get(target.fields, "value").GetOr(Null);
       var leafHash := Sha256(h, "leaf:" + path + ":" + Canonical(CodePoints, value));
       && Get(target.fields, "leafHash") == Some(Str(leafHash))
       && LeadsUp(h, Get(target.fields, "proof").GetOr(Arr([])).items, leafHash, root)
  }

  lemma {:induction false} TargetAcceptedIff(h: Hash, root: string, target: Json)
    ensures CheckTarget(h, root, target).Accepted? <==> IsValidTarget(h, root, target)
    ensures CheckTarget(h, root, target).Accepted? ==>
              CheckTarget(h, root, target).verifiedPaths == [Get(target.fields, "path").value.s]
  {
    hide Sha256, Climb, LeadsUp, Canonical;
    if target.Obj? && Get(target.fields, "path").Some? && Get(target.fields, "path").value.Str? {
      var leafHash := LeafHash(h, Get(target.fields, "path").value.s, Get(target.fields, "value").GetOr(Null));
      var siblings := Get(target.fields, "proof").GetOr(Arr([]));
      if siblings.Arr? {
        ClimbTopIff(h, leafHash, siblings.items, root);
      }
    }
  }

  /** The verdict on several targets: their paths if all are valid, else the verdict on the first that is not. */
  lemma {:induction false} TargetsVerdict(h: Hash, root: string, targets: seq<Json>)
    ensures var r := CheckTargets(h, root, targets);
            && (r.Accepted? <==> forall i :: 0 <= i < |targets| ==> IsValidTarget(h, root, targets[i]))
            && (r.Accepted? ==>
                && |r.verifiedPaths| == |targets|
                && forall i :: 0 <= i < |targets| ==>
                     targets[i].Obj? && Get(targets[i].fields, "path") == Some(Str(r.verifiedPaths[i])))
            && forall i :: 0 <= i < |targets| && !IsValidTarget(h, root, targets[i])
                           && (forall j :: 0 <= j < i ==> IsValidTarget(h, root, targets[j])) ==>
                 r == CheckTarget(h, root, targets[i])
  {
    hide CheckTarget, LeadsUp, Sha256, Canonical;
    if targets != [] {
      var rest := targets[1..];
      TargetAcceptedIff(h, root, targets[0]);
      TargetsVerdict(h, root, rest);
      forall i | 0 <= i < |targets| && !IsValidTarget(h, root, targets[i])
                 && (forall j :: 0 <= j < i ==> IsValidTarget(h, root, targets[j]))
        ensures CheckTargets(h, root, targets) == CheckTarget(h, root, targets[i])
      {
        if i > 0 {
          assert targets[i] == rest[i - 1];
          assert forall j :: 0 <= j < i - 1 ==> rest[j] == targets[j + 1];
        }
      }
    }
  }

  /**
   * A proof is accepted exactly when it is framed as one and has targets, all of them valid; the verdict then repeats
   * its root and names their paths.
   */
  lemma {:induction false} VerifyAcceptsIff(h: Hash, proof: Json)
    ensures VerdictOn(h, proof).Accepted? <==>
            && IsProofFrame(proof) && ProofTargets(proof) != []
            && forall i :: 0 <= i < |ProofTargets(proof)| ==> IsValidTarget(h, FrameRoot(proof), ProofTargets(proof)[i])
    ensures VerdictOn(h, proof).Accepted? ==>
              && Get(proof.fields, "root") == Some(Str(VerdictOn(h, proof).root))
              && |VerdictOn(h, proof).verifiedPaths| == |ProofTargets(proof)|
              && forall i :: 0 <= i < |ProofTargets(proof)| ==>
                   && ProofTargets(proof)[i].Obj?
                   && Get(ProofTargets(proof)[i].fields, "path") == Some(Str(VerdictOn(h, proof).verifiedPaths[i]))
  {
    hide CheckTargets, IsValidTarget;
    assert !(DIGEST_TAG <= "");
    if IsProofFrame(proof) {
      TargetsVerdict(h, FrameRoot(proof), ProofTargets(proof));
      var root := Get(proof.fields, "root").value.s;
      assert root == DIGEST_TAG + root[|DIGEST_TAG|..];
    }
  }

  /** Why a target with a text as its path is rejected; the conditions are tried in this order. */
  lemma {:induction false} TargetRejections(h: Hash, root: string, target: Json)
    ensures var r := CheckTarget(h, root, target);
            if !target.Obj? then r == Rejected("invalid RMP target", None)
            else if Get(target.fields, "path").None? || !Get(target.fields, "path").value.Str? then
              r == Rejected("invalid RMP target path", None)
            else
              var p, siblings := Get(target.fields, "path").value.s, Get(target.fields, "proof").GetOr(Arr([]));
              var leafHash := Sha256(h, "leaf:" + p + ":" + Canonical(CodePoints, Get(target.fields, "value").GetOr(Null)));
              && (Get(target.fields, "leafHash") != Some(Str(leafHash)) <==> r == Rejected("RMP leaf hash mismatch", Some(p)))
              && (r == Rejected("invalid RMP proof path", Some(p)) ==> !siblings.Arr?)
              && (r == Rejected("invalid RMP sibling", Some(p)) ==>
                  siblings.Arr? && exists k :: 0 <= k < |siblings.items| && !IsClimbable(siblings.items[k]))
              && (r == Rejected("RMP root mismatch", Some(p)) ==>
                  siblings.Arr? && exists end :: end != root && LeadsUp(h, siblings.items, leafHash, end))
              && (r.Rejected? ==>
                  r.path == Some(p)
                  && r.reason in ["RMP leaf hash mismatch", "invalid RMP proof path", "invalid RMP sibling", "RMP root mismatch"])
  {
    hide Sha256, Climb, LeadsUp, Canonical, IsClimbable;
    if target.Obj? && Get(target.fields, "path").Some? && Get(target.fields, "path").value.Str? {
      var leafHash := LeafHash(h, Get(target.fields, "path").value.s, Get(target.fields, "value").GetOr(Null));
      var siblings := Get(target.fields, "proof").GetOr(Arr([]));
      ReasonsDiffer();
      if siblings.Arr? {
        BadSiblingSomewhere(h, leafHash, siblings.items);
        var top := Climb(h, leafHash, siblings.items);
        if top.Top? {
          ClimbTopIff(h, leafHash, siblings.items, top.digest);
        }
      }
    }
  }

  lemma {:induction false} ReasonsDiffer()
    ensures NoDuplicates(["RMP leaf hash mismatch", "invalid RMP proof path", "invalid RMP sibling", "RMP root mismatch"])
  {
    assert |"RMP leaf hash mismatch"| == |"invalid RMP proof path"| == 22 && |"invalid RMP sibling"| == 19;
    assert "RMP leaf hash mismatch"[0] == 'R' && "invalid RMP proof path"[0] == 'i' && |"RMP root mismatch"| == 17;
  }

  lemma {:induction false} BadSiblingSomewhere(h: Hash, computed: string, siblings: seq<Json>)
    ensures Climb(h, computed, siblings).BadSibling? ==> exists k :: 0 <= k < |siblings| && !IsClimbable(siblings[k])
    decreases |siblings|
  {
    if siblings != [] && IsClimbable(siblings[0]) {
      hide Climb, StepsUp, IsClimbable;
      ClimbUnfolds(h, computed, siblings);
      var above :| StepsUp(h, siblings[0], computed, above) && Climb(h, computed, siblings) == Climb(h, above, siblings[1..]);
      BadSiblingSomewhere(h, above, siblings[1..]);
      if k :| 0 <= k < |siblings[1..]| && !IsClimbable(siblings[1..][k]) {
        assert siblings[k + 1] == siblings[1..][k];
      }
    }
  }

  // ----- when verifying raises -----

  /** A sibling whose position is a list or a dict, next to a hash that is a string. */
  predicate IsUnhashable(sibling: Json) {
    && sibling.Obj?
    && Get(sibling.fields, "hash").Some? && Get(sibling.fields, "hash").value.Str?
    && Get(sibling.fields, "position").Some? && !IsScalar(Get(sibling.fields, "position").value)
  }

  /** A sibling that is hashed with the digest below it. */
  predicate IsClimbable(sibling: Json) {
    && sibling.Obj?
    && Get(sibling.fields, "hash").Some? && Get(sibling.fields, "hash").value.Str?
    && (Get(sibling.fields, "position") == Some(Str("left")) || Get(sibling.fields, "position") == Some(Str("right")))
  }

  /** The first sibling that is not climbable is unhashable. */
  predicate FaultIsUnhashable(siblings: seq<Json>) {
    siblings != [] &&
    (IsUnhashable(siblings[0]) || (IsClimbable(siblings[0]) && FaultIsUnhashable(siblings[1..])))
  }

  predicate FaultAt(siblings: seq<Json>, i: int) {
    0 <= i < |siblings| && IsUnhashable(siblings[i]) && forall j :: 0 <= j < i ==> IsClimbable(siblings[j])
  }

  lemma {:induction false} FaultPosition(siblings: seq<Json>)
    ensures FaultIsUnhashable(siblings) <==> exists i :: FaultAt(siblings, i)
  {
    if siblings != [] {
      var rest := siblings[1..];
      FaultPosition(rest);
      if IsUnhashable(siblings[0]) {
        assert FaultAt(siblings, 0);
      } else if FaultIsUnhashable(siblings) {
        var i :| FaultAt(rest, i);
        assert FaultAt(siblings, i + 1);
      } else if i :| FaultAt(siblings, i) {
        assert FaultAt(rest, i - 1);
      }
    }
  }

  /** A climb raises exactly when an unhashable position comes before any other fault. */
  lemma {:induction false} ClimbRaisesIff(h: Hash, computed: string, siblings: seq<Json>)
    ensures Climb(h, computed, siblings).Unhashable? <==> exists i :: FaultAt(siblings, i)
    decreases |siblings|
  {
    FaultPosition(siblings);
    if siblings != [] && IsClimbable(siblings[0]) {
      var s := Get(siblings[0].fields, "hash").value.s;
      var isLeft := Get(siblings[0].fields, "position") == Some(Str("left"));
      ClimbRaisesIff(h, if isLeft then HashPair(h, s, computed) else HashPair(h, computed, s), siblings[1..]);
      FaultPosition(siblings[1..]);
    }
  }

  ghost predicate RaisingTarget(h: Hash, target: Json) {
    && target.Obj?
    && Get(target.fields, "path").Some? && Get(target.fields, "path").value.Str?
    && Get(target.fields, "proof").Some? && Get(target.fields, "proof").value.Arr?
    && Get(target.fields, "leafHash") ==
       Some(Str(LeafHash(h, Get(target.fields, "path").value.s, Get(target.fields, "value").GetOr(Null))))
    && exists k :: FaultAt(Get(target.fields, "proof").value.items, k)
  }

  lemma {:induction false} TargetRaisesIff(h: Hash, root: string, target: Json)
    ensures CheckTarget(h, root, target).Raised? <==> RaisingTarget(h, target)
  {
    hide LeafHash, Climb, FaultAt;
    if target.Obj? && Get(target.fields, "path").Some? && Get(target.fields, "path").value.Str? {
      var leafHash := LeafHash(h, Get(target.fields, "path").value.s, Get(target.fields, "value").GetOr(Null));
      var siblings := Get(target.fields, "proof").GetOr(Arr([]));
      if siblings.Arr? {
        ClimbRaisesIff(h, leafHash, siblings.items);
        NoFaultWithoutSiblings();
      }
    }
  }

  lemma {:induction false} NoFaultWithoutSiblings()
    ensures !exists k :: FaultAt([], k)
  {
  }

  /** The i-th target raises, and those before it are accepted. */
  ghost predicate RaisesAt(h: Hash, root: string, targets: seq<Json>, i: int) {
    && 0 <= i < |targets| && RaisingTarget(h, targets[i])
    && forall j :: 0 <= j < i ==> CheckTarget(h, root, targets[j]).Accepted?
  }

  lemma {:induction false} TargetsRaiseIff(h: Hash, root: string, targets: seq<Json>)
    ensures CheckTargets(h, root, targets).Raised? <==> exists i :: RaisesAt(h, root, targets, i)
  {
    hide CheckTarget, RaisingTarget;
    if targets != [] {
      var rest := targets[1..];
      TargetRaisesIff(h, root, targets[0]);
      TargetsRaiseIff(h, root, rest);
      if RaisingTarget(h, targets[0]) {
        assert RaisesAt(h, root, targets, 0);
      }
      if i :| RaisesAt(h, root, rest, i) {
        if CheckTarget(h, root, targets[0]).Accepted? {
          assert RaisesAt(h, root, targets, i + 1);
        }
      }
      if i :| RaisesAt(h, root, targets, i) {
        if i > 0 {
          assert CheckTarget(h, root, targets[0]).Accepted?;
          assert RaisesAt(h, root, rest, i - 1);
        }
      }
    }
  }

  /** A schema, a tagged root and a list of targets, so that the targets are looked at. */
  predicate IsProofFrame(proof: Json) {
    && proof.Obj? && Get(proof.fields, "schemaVersion") == Some(Str(RMP_SCHEMA_VERSION))
    && Get(proof.fields, "root").Some? && Get(proof.fields, "root").value.Str?
    && DIGEST_TAG <= Get(proof.fields, "root").value.s
    && Get(proof.fields, "targets").Some? && Get(proof.fields, "targets").value.Arr?
  }

  function FrameRoot(proof: Json): string
    requires IsProofFrame(proof)
  {
    Get(proof.fields, "root").value.s[|DIGEST_TAG|..]
  }

  /**
   * Verifying raises exactly when the proof is framed as one and some target, behind accepted ones only, has a
   * matching leaf hash and an unhashable position before any other fault in its proof path.
   */
  lemma {:induction false} VerifyRaisesIff(h: Hash, proof: Json)
    ensures VerdictOn(h, proof).Raised? <==>
            IsProofFrame(proof) && exists i :: RaisesAt(h, FrameRoot(proof), ProofTargets(proof), i)
  {
    hide CheckTargets, RaisesAt;
    assert !(DIGEST_TAG <= "");
    if IsProofFrame(proof) {
      TargetsRaiseIff(h, FrameRoot(proof), ProofTargets(proof));
      NothingRaises(h, FrameRoot(proof));
    }
  }

  lemma {:induction false} NothingRaises(h: Hash, root: string)
    ensures !exists i :: RaisesAt(h, root, [], i)
  {
  }

  /** A target for the leaf at a path whose one sibling names a list as its position. */
  function UnhashableTarget(h: Hash, path: string, value: Json): Json {
    Obj([
      Field("path", Str(path)),
      Field("value", value),
      Field("leafHash", Str(LeafHash(h, path, value))),
      Field("proof", Arr([Obj([Field("position", Arr([])), Field("hash", Str(""))])]))])
  }

  lemma {:induction false} UnhashableTargetRaises(h: Hash, path: string, value: Json)
    ensures RaisingTarget(h, UnhashableTarget(h, path, value))
  {
    hide LeafHash, Get, NoDuplicates;
    var fields := UnhashableTarget(h, path, value).fields;
    TargetKeysDiffer();
    FourFields(fields);
    assert Get(fields, fields[0].key) == Some(fields[0].value);
    assert Get(fields, fields[1].key) == Some(fields[1].value);
    assert Get(fields, fields[2].key) == Some(fields[2].value);
    assert Get(fields, fields[3].key) == Some(fields[3].value);
    var sibling := [Field("position", Arr([])), Field("hash", Str(""))];
    GetFirst(sibling, 0);
    GetFirst(sibling, 1);
    assert FaultAt([Obj(sibling)], 0);
  }

  /** Whatever the root and the leaf, such a target makes verifying raise. */
  lemma {:induction false} UnhashablePositionRaises(h: Hash, root: string, path: string, value: Json, now: int)
    ensures VerdictOn(h, ProofObject(root, 1, [UnhashableTarget(h, path, value)], now)).Raised?
  {
    hide UnhashableTarget, RaisingTarget, CheckTargets, VerdictOn, ProofObject;
    var target := UnhashableTarget(h, path, value);
    UnhashableTargetRaises(h, path, value);
    ProofObjectVerdict(h, root, 1, [target], now);
    assert RaisesAt(h, root, [target], 0);
    TargetsRaiseIff(h, root, [target]);
  }

  // ----- rejections before the targets are looked at -----

  lemma {:induction false} FrameReasonsDiffer()
    ensures NoDuplicates(["invalid RMP schema", "invalid RMP root", "missing RMP targets"])
    ensures "invalid RMP schema" != "invalid RMP target" && "invalid RMP root" != "invalid RMP target"
  {
    assert |"invalid RMP schema"| == |"invalid RMP target"| == 18 && |"invalid RMP root"| == 16;
    assert |"missing RMP targets"| == 19;
    assert "invalid RMP schema"[12] == 's' && "invalid RMP target"[12] == 't';
  }

  /** Each reason that names no target is given exactly for its fault, if no earlier one is found. */
  lemma {:induction false} FrameRejections(h: Hash, proof: Json)
    ensures var verdict := VerdictOn(h, proof);
            var schema := proof.Obj? && Get(proof.fields, "schemaVersion") == Some(Str("RMP-1"));
            var root := schema && Get(proof.fields, "root").Some? && Get(proof.fields, "root").value.Str?
                        && "sha256:" <= Get(proof.fields, "root").value.s;
            && (verdict == Rejected("invalid RMP schema", None) <==> !schema)
            && (verdict == Rejected("invalid RMP root", None) <==> schema && !root)
            && (verdict == Rejected("missing RMP targets", None) <==> root && ProofTargets(proof) == [])
  {
    hide CheckTargets;
    FrameReasonsDiffer();
    assert !("sha256:" <= "");
    if IsProofFrame(proof) {
      NoFrameReason(h, FrameRoot(proof), ProofTargets(proof));
    }
  }

  /** Checking targets gives none of these reasons. */
  lemma {:induction false} NoFrameReason(h: Hash, root: string, targets: seq<Json>)
    ensures var r := CheckTargets(h, root, targets);
            r.Rejected? ==> r.path.Some? || r.reason == "invalid RMP target" || r.reason == "invalid RMP target path"
  {
    hide Climb, LeafHash, Get;
    if targets != [] {
      NoFrameReason(h, root, targets[1..]);
    }
  }
}
