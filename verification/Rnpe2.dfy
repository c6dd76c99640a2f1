/** RNPE-2: bounded block requests to a peer that is ahead, and the comparison of two proofs. */
module Rnpe2 {
  import opened Wrappers
  import opened Json
  import opened Flatten
  import opened Preimages
  import opened MerkleTree
  import opened RmpProof
  import opened RmpTheorems

  const MAX_RNPE_BLOCK_REQUEST := 512

  datatype MissingBlocks = MissingBlocks(startBlock: Option<int>, endBlock: Option<int>, truncated: bool)

  function Max(a: int, b: int): int {
    if a > b then a else b
  }

  function Min(a: int, b: int): int {
    if a < b then a else b
  }

  /** The `missingBlocks` part of `create_rnpe2_request`. */
  function CreateRequest(localHeight: int, peerHeight: int): MissingBlocks {
    var start := Max(localHeight + 1, 0);
    var end := Max(peerHeight, localHeight);
    var ahead := peerHeight > localHeight;
    var limitedEnd := if ahead then Min(end, start + MAX_RNPE_BLOCK_REQUEST - 1) else localHeight;
    MissingBlocks(
      if ahead then Some(start) else None,
      if ahead then Some(limitedEnd) else None,
      peerHeight > limitedEnd)
  }

  /** The requests a node sends that advances to `endBlock` after each until nothing is missing. */
  function CatchUp(localHeight: int, peerHeight: int): seq<MissingBlocks>
    decreases peerHeight - localHeight
  {
    var request := CreateRequest(localHeight, peerHeight);
    if request.endBlock.None? then [] else [request] + CatchUp(request.endBlock.value, peerHeight)
  }

  /** A request to a peer that is ahead asks for at least one block exactly when the peer has one. */
  lemma {:induction false} RequestedRangeNonEmpty(localHeight: int, peerHeight: int)
    requires peerHeight > localHeight
    ensures var r := CreateRequest(localHeight, peerHeight);
            && r.startBlock.Some? && r.endBlock.Some?
            && (r.startBlock.value <= r.endBlock.value <==> peerHeight >= 0)
            && r.endBlock.value - r.startBlock.value < 512
  {
  }

  /** A peer that is not ahead is asked for nothing. */
  lemma {:induction false} NothingToRequest(localHeight: int, peerHeight: int)
    ensures CreateRequest(localHeight, peerHeight) == MissingBlocks(None, None, false) <==> peerHeight <= localHeight
    ensures peerHeight > localHeight ==>
              var r := CreateRequest(localHeight, peerHeight);
              && r.startBlock == Some(if localHeight >= -1 then localHeight + 1 else 0)
              && r.endBlock.Some? && r.endBlock.value <= peerHeight
              && (r.truncated <==> r.endBlock.value < peerHeight)
              && (r.truncated ==> r.endBlock.value - r.startBlock.value == 511)
  {
  }

  /** The i-th of the ranges of 512 blocks from `first` up to `last`. */
  function NthRequest(first: int, last: int, i: nat): MissingBlocks {
    MissingBlocks(Some(first + 512 * i), Some(Min(last, first + 512 * i + 511)), last > first + 512 * i + 511)
  }

  /**
   * Catching up asks for the ranges of 512 blocks from the first missing one to the peer's height, in
   * order; there are as many as needed, and only the last is not truncated.
   */
  lemma {:induction false} CatchUpRounds(localHeight: int, peerHeight: int)
    requires peerHeight >= 0 || peerHeight <= localHeight
    ensures var first := Max(localHeight + 1, 0);
            var rounds := CatchUp(localHeight, peerHeight);
            && (peerHeight <= localHeight ==> rounds == [])
            && (peerHeight > localHeight ==> |rounds| == (peerHeight - first) / 512 + 1)
            && (forall i :: 0 <= i < |rounds| ==> rounds[i] == NthRequest(first, peerHeight, i))
            && (forall i :: 0 <= i < |rounds| ==> (rounds[i].truncated <==> i < |rounds| - 1))
    decreases peerHeight - localHeight
  {
    if peerHeight > localHeight {
      var first := Max(localHeight + 1, 0);
      var request := CreateRequest(localHeight, peerHeight);
      var rounds := CatchUp(localHeight, peerHeight);
      CatchUpRounds(request.endBlock.value, peerHeight);
      forall i | 0 <= i < |rounds|
        ensures rounds[i] == NthRequest(first, peerHeight, i)
        ensures rounds[i].truncated <==> i < |rounds| - 1
      {
        if i > 0 {
          assert rounds[i] == CatchUp(request.endBlock.value, peerHeight)[i - 1];
        }
      }
    }
  }

  predicate Asks(r: MissingBlocks, height: int) {
    r.startBlock.Some? && r.endBlock.Some? && r.startBlock.value <= height <= r.endBlock.value
  }

  /** Catching up asks for every missing block once and for no other. */
  lemma {:induction false} CatchUpPartitions(localHeight: int, peerHeight: int, height: int)
    requires localHeight >= -1
    ensures var rounds := CatchUp(localHeight, peerHeight);
            && (localHeight < height <= peerHeight <==> exists i :: 0 <= i < |rounds| && Asks(rounds[i], height))
            && forall i, j :: 0 <= i < |rounds| && 0 <= j < |rounds| && Asks(rounds[i], height) && Asks(rounds[j], height)
                              ==> i == j
  {
    var rounds := CatchUp(localHeight, peerHeight);
    CatchUpRounds(localHeight, peerHeight);
    if localHeight < height <= peerHeight {
      var i := (height - localHeight - 1) / 512;
      assert rounds[i] == NthRequest(localHeight + 1, peerHeight, i);
      assert Asks(rounds[i], height);
    }
  }

  // ----- consensus -----

  ghost function NumberOf(v: Json): Option<int> {
    match v
    case Num(n) => Some(n)
    case Bool(b) => Some(if b then 1 else 0)
    case _ => None
  }

  /** Python's `==` on JSON values: as `Equivalent`, with booleans counted as numbers. */
  ghost predicate PyEqual(v: Json, w: Json) {
    match (v, w)
    case (Arr(xs), Arr(ys)) => |xs| == |ys| && forall i :: 0 <= i < |xs| ==> PyEqual(xs[i], ys[i])
    case (Obj(fs), Obj(gs)) =>
      && (forall k :: k in Keys(fs) <==> k in Keys(gs))
      && (forall i, j :: 0 <= i < |fs| && 0 <= j < |gs| && fs[i].key == gs[j].key ==>
                           PyEqual(fs[i].value, gs[j].value))
    case _ => v == w || (NumberOf(v).Some? && NumberOf(v) == NumberOf(w))
  }

  /** The outcome of `verify_rnpe2_consensus`; a missing root is read as null. */
  datatype Consensus =
    | Consensus(localValid: bool, peerValid: bool, localRoot: Json, peerRoot: Json, consensusMatch: bool, reason: string)
    | ConsensusRaised

  ghost function VerifyConsensus(h: Hash, localProof: Json, peerProof: Json): Consensus {
    var localVerdict, peerVerdict := VerdictOn(h, localProof), VerdictOn(h, peerProof);
    if localVerdict.Raised? || peerVerdict.Raised? || !localProof.Obj? || !peerProof.Obj? then ConsensusRaised else
      var localRoot := Get(localProof.fields, "root").GetOr(Null);
      var peerRoot := Get(peerProof.fields, "root").GetOr(Null);
      var same := PyEqual(localRoot, peerRoot);
      Consensus(
        localVerdict.Accepted?, peerVerdict.Accepted?, localRoot, peerRoot,
        localVerdict.Accepted? && peerVerdict.Accepted? && same,
        if same then "roots match" else "roots differ")
  }

  // ----- Python's equality -----

  /** A value with 1 and 0 for its booleans. */
  ghost function Unbool(v: Json): (r: Json)
    ensures r.Arr? <==> v.Arr?
    ensures r.Obj? <==> v.Obj?
    decreases v, 0
  {
    match v
    case Bool(b) => Num(if b then 1 else 0)
    case Arr(items) => Arr(UnboolItems(items))
    case Obj(fields) => Obj(UnboolFields(fields))
    case _ => v
  }

  ghost function UnboolItems(items: seq<Json>): (r: seq<Json>)
    ensures |r| == |items| && forall i :: 0 <= i < |r| ==> r[i] == Unbool(items[i])
    decreases items, 0
  {
    if items == [] then [] else [Unbool(items[0])] + UnboolItems(items[1..])
  }

  ghost function UnboolFields(fields: seq<Field>): (r: seq<Field>)
    ensures |r| == |fields|
    ensures forall i :: 0 <= i < |r| ==> r[i] == Field(fields[i].key, Unbool(fields[i].value))
    decreases fields, 0
  {
    if fields == [] then [] else [Field(fields[0].key, Unbool(fields[0].value))] + UnboolFields(fields[1..])
  }

  lemma {:induction false} UnboolKeepsKeys(fields: seq<Field>)
    ensures Keys(UnboolFields(fields)) == Keys(fields)
  {
  }

  /** Python finds two values equal exactly if they are equal up to key order with 1 and 0 for their booleans. */
  lemma {:induction false} PyEqualIff(v: Json, w: Json)
    ensures PyEqual(v, w) <==> Equivalent(Unbool(v), Unbool(w))
    decreases v
  {
    match (v, w)
    case (Arr(xs), Arr(ys)) => PyEqualItemsIff(xs, ys);
    case (Obj(fs), Obj(gs)) => PyEqualFieldsIff(fs, gs);
    case _ =>
  }

  lemma {:induction false} PyEqualItemsIff(xs: seq<Json>, ys: seq<Json>)
    ensures PyEqual(Arr(xs), Arr(ys)) <==> Equivalent(Arr(UnboolItems(xs)), Arr(UnboolItems(ys)))
    decreases xs
  {
    hide Unbool;
    if |xs| == |ys| {
      forall i | 0 <= i < |xs| ensures PyEqual(xs[i], ys[i]) <==> Equivalent(UnboolItems(xs)[i], UnboolItems(ys)[i]) {
        PyEqualIff(xs[i], ys[i]);
      }
    }
  }

  lemma {:induction false} PyEqualFieldsIff(fs: seq<Field>, gs: seq<Field>)
    ensures PyEqual(Obj(fs), Obj(gs)) <==> Equivalent(Obj(UnboolFields(fs)), Obj(UnboolFields(gs)))
    decreases fs
  {
    hide Unbool, Keys;
    UnboolKeepsKeys(fs);
    UnboolKeepsKeys(gs);
    forall i, j | 0 <= i < |fs| && 0 <= j < |gs|
      ensures PyEqual(fs[i].value, gs[j].value) <==> Equivalent(UnboolFields(fs)[i].value, UnboolFields(gs)[j].value)
    {
      PyEqualIff(fs[i].value, gs[j].value);
    }
  }

  /** The whole answer about any two proofs: a proof that is no dictionary, or on which verifying raises, raises here. */
  lemma {:induction false} ConsensusAnswers(h: Hash, localProof: Json, peerProof: Json)
    ensures var c := VerifyConsensus(h, localProof, peerProof);
            && (c.ConsensusRaised? <==> !localProof.Obj? || !peerProof.Obj?
                                        || VerdictOn(h, localProof).Raised? || VerdictOn(h, peerProof).Raised?)
            && (c.Consensus? ==>
                && (c.localValid <==> VerdictOn(h, localProof).Accepted?)
                && (c.peerValid <==> VerdictOn(h, peerProof).Accepted?)
                && (Get(localProof.fields, "root") == Some(c.localRoot)
                    || (Get(localProof.fields, "root").None? && c.localRoot == Null))
                && (Get(peerProof.fields, "root") == Some(c.peerRoot)
                    || (Get(peerProof.fields, "root").None? && c.peerRoot == Null))
                && var same := Equivalent(Unbool(c.localRoot), Unbool(c.peerRoot));
                   && (c.consensusMatch <==> c.localValid && c.peerValid && same)
                   && c.reason == if same then "roots match" else "roots differ")
  {
    hide VerdictOn, PyEqual, Unbool, Equivalent;
    forall v, w ensures PyEqual(v, w) <==> Equivalent(Unbool(v), Unbool(w)) {
      PyEqualIff(v, w);
    }
  }

  /** An accepted proof's verdict carries the text of its root field. */
  lemma {:induction false} AcceptedRoot(h: Hash, proof: Json)
    requires VerdictOn(h, proof).Accepted?
    ensures proof.Obj? && Get(proof.fields, "root") == Some(Str(VerdictOn(h, proof).root))
  {
    var root := Get(proof.fields, "root").value.s;
    assert root == DIGEST_TAG + root[|DIGEST_TAG|..];
  }

  /**
   * When a node compares the proof of its own state with a peer's and finds consensus, every claim of the
   * peer is a leaf of the node's own state, unless two texts hashed on either side collide.
   */
  lemma {:induction false} ConsensusMatchIsTrue(h: Hash, state: Json, requested: Option<seq<string>>, now: int, peerProof: Json)
    requires var c := VerifyConsensus(h, BuiltProof(h, state, requested, now), peerProof);
             c.Consensus? && c.consensusMatch
    ensures ClaimsHold(state, peerProof, VerdictOn(h, peerProof).verifiedPaths)
            || !CollisionFree(h, StateTexts(h, state) + ProofTexts(h, peerProof))
  {
    hide VerdictOn, BuiltProof, ClaimsHold, CollisionFree, StateTexts, ProofTexts, RootOf, RequestedPaths, StateLeaves;
    BuiltProofVerdict(h, state, requested, now);
    AcceptedRoot(h, BuiltProof(h, state, requested, now));
    AcceptedRoot(h, peerProof);
    AcceptedClaimsHold(h, state, peerProof);
  }

  /** Two nodes that prove equal states find consensus, exactly when each was asked for one of its leaves. */
  lemma {:induction false} EqualStatesFindConsensus(
    h: Hash, s: Json, t: Json, askedOfS: Option<seq<string>>, askedOfT: Option<seq<string>>, now: int, later: int)
    requires WellFormed(s) && WellFormed(t) && Equivalent(s, t)
    ensures var c := VerifyConsensus(h, BuiltProof(h, s, askedOfS, now), BuiltProof(h, t, askedOfT, later));
            && c.Consensus?
            && c.reason == "roots match"
            && (c.consensusMatch <==>
                && (exists i :: 0 <= i < |StateLeaves(s)| && IsWanted(askedOfS, StateLeaves(s)[i].path))
                && (exists i :: 0 <= i < |StateLeaves(s)| && IsWanted(askedOfT, StateLeaves(s)[i].path)))
  {
    hide VerdictOn, AllTargets, RootOf, RequestedPaths, StateLeaves, ProofHead, ProofBody, IsWanted,
      Equivalent, WellFormed, Get;
    EquivalentStatesHaveEqualLeaves(s, t);
    BuiltProofVerdict(h, s, askedOfS, now);
    BuiltProofVerdict(h, t, askedOfT, later);
    ProofFields(RootOf(h, StateLeaves(s)), |StateLeaves(s)|, AllTargets(h, StateLeaves(s), askedOfS), now);
    ProofFields(RootOf(h, StateLeaves(t)), |StateLeaves(t)|, AllTargets(h, StateLeaves(t), askedOfT), later);
  }
}
