/**
 * What a built proof is about: its targets are the leaves whose paths are requested, in leaf order, and all
 * leaves if nothing is requested.
 */
module RmpSelection {
  import opened Wrappers
  import opened Sorting
  import opened Json
  import opened Flatten
  import opened Preimages
  import opened MerkleTree
  import opened RmpProof
  import opened RmpTheorems

  // ----- the labels of a proof -----

  /** The other fields of a proof. */
  lemma {:induction false} BuiltProofLabels(h: Hash, state: Json, requested: Option<seq<string>>, now: int)
    ensures var fields := BuiltProof(h, state, requested, now).fields;
            && Keys(fields) == ["schemaVersion", "type", "generatedAt", "root",
                                "leafCount", "targetCount", "omittedLeaves", "targets"]
            && Get(fields, "schemaVersion") == Some(Str("RMP-1"))
            && Get(fields, "type") == Some(Str("recursive-merkle-proof"))
            && Get(fields, "generatedAt") == Some(Num(now))
            && Get(fields, "root") == Some(Str("sha256:" + RootOf(h, StateLeaves(state))))
  {
    hide AllTargets, RootOf, StateLeaves, ProofObject, Get;
    var leaves := StateLeaves(state);
    ProofLabels(RootOf(h, leaves), |leaves|, AllTargets(h, leaves, requested), now);
  }

  lemma {:induction false} ProofLabels(root: string, leafCount: nat, targets: seq<Json>, now: int)
    ensures var fields := ProofObject(root, leafCount, targets, now).fields;
            && Keys(fields) == ["schemaVersion", "type", "generatedAt", "root",
                                "leafCount", "targetCount", "omittedLeaves", "targets"]
            && Get(fields, "schemaVersion") == Some(Str("RMP-1"))
            && Get(fields, "type") == Some(Str("recursive-merkle-proof"))
            && Get(fields, "generatedAt") == Some(Num(now))
            && Get(fields, "root") == Some(Str("sha256:" + root))
  {
    hide Get;
    var head, body := ProofHead(root, now), ProofBody(leafCount, targets);
    ProofFields(root, leafCount, targets, now);
    GetFirst(head, 1);
    GetFirst(head, 2);
    GetBefore(head, body, "type");
    GetBefore(head, body, "generatedAt");
    EightKeys(head + body);
  }

  lemma {:induction false} EightKeys(fields: seq<Field>)
    requires |fields| == 8
    ensures Keys(fields) == [fields[0].key, fields[1].key, fields[2].key, fields[3].key,
                             fields[4].key, fields[5].key, fields[6].key, fields[7].key]
  {
  }

  // ----- which leaves a proof is about -----

  function LeafPaths(leaves: seq<Leaf>): (paths: seq<string>)
    ensures |paths| == |leaves|
    ensures forall i :: 0 <= i < |leaves| ==> paths[i] == leaves[i].path
  {
    if leaves == [] then [] else [leaves[0].path] + LeafPaths(leaves[1..])
  }

  /** `requested_paths or [path for path, _ in leaves]`. */
  function WantedPaths(leaves: seq<Leaf>, requested: Option<seq<string>>): seq<string> {
    if requested.Some? && requested.value != [] then requested.value else LeafPaths(leaves)
  }

  /** The numbers of the first `n` leaves whose path is among `wanted`: ascending, and none of them left out. */
  ghost predicate Selects(leaves: seq<Leaf>, wanted: seq<string>, n: nat, picks: seq<nat>) {
    && n <= |leaves|
    && (forall a, b :: 0 <= a < b < |picks| ==> picks[a] < picks[b])
    && (forall a :: 0 <= a < |picks| ==> picks[a] < n && leaves[picks[a]].path in wanted)
    && forall i :: 0 <= i < n && leaves[i].path in wanted ==> i in picks
  }

  /** The paths and the targets of the selected leaves, in their order. */
  ghost predicate NamesPicked(leaves: seq<Leaf>, picks: seq<nat>, paths: seq<string>, targets: seq<Json>) {
    && |paths| == |targets| == |picks|
    && (forall a :: 0 <= a < |picks| ==> picks[a] < |leaves| && paths[a] == leaves[picks[a]].path)
    && forall a :: 0 <= a < |picks| ==> picks[a] < |leaves| && Claim(targets[a]) == Some(leaves[picks[a]])
  }

  lemma {:induction false} WantedIff(leaves: seq<Leaf>, requested: Option<seq<string>>, i: nat)
    requires i < |leaves|
    ensures IsWanted(requested, leaves[i].path) <==> leaves[i].path in WantedPaths(leaves, requested)
  {
    assert LeafPaths(leaves)[i] == leaves[i].path;
  }

  lemma {:induction false} TargetClaims(h: Hash, levels: seq<seq<string>>, leaves: seq<Leaf>, i: nat)
    requires Halving(levels) && i < |leaves| == |levels[0]|
    ensures Claim(Target(h, levels, leaves, i)) == Some(leaves[i])
  {
    TargetFields(h, levels, leaves, i);
  }

  lemma {:induction false} SelectsNext(leaves: seq<Leaf>, wanted: seq<string>, n: nat, picks: seq<nat>)
    requires n < |leaves| && Selects(leaves, wanted, n, picks)
    ensures leaves[n].path in wanted ==> Selects(leaves, wanted, n + 1, picks + [n])
    ensures leaves[n].path !in wanted ==> Selects(leaves, wanted, n + 1, picks)
  {
    var r := picks + [n];
    assert forall a :: 0 <= a < |picks| ==> r[a] == picks[a];
    assert r[|picks|] == n;
    forall i | 0 <= i < n && leaves[i].path in wanted ensures i in r {
      assert i in picks;
    }
  }

  lemma {:induction false} NamesOneMore(
    leaves: seq<Leaf>, picks: seq<nat>, paths: seq<string>, targets: seq<Json>, n: nat, target: Json)
    requires NamesPicked(leaves, picks, paths, targets) && n < |leaves| && Claim(target) == Some(leaves[n])
    ensures NamesPicked(leaves, picks + [n], paths + [leaves[n].path], targets + [target])
  {
    hide Claim;
  }

  lemma {:induction false} TargetsSelect(
    h: Hash, levels: seq<seq<string>>, leaves: seq<Leaf>, requested: Option<seq<string>>, n: nat) returns (picks: seq<nat>)
    requires Halving(levels) && n <= |leaves| && (leaves != [] ==> |leaves| == |levels[0]|)
    ensures Selects(leaves, WantedPaths(leaves, requested), n, picks)
    ensures NamesPicked(leaves, picks, RequestedPaths(leaves, requested, n), Targets(h, levels, leaves, requested, n))
  {
    hide Claim, Target, IsWanted, WantedPaths, Selects, NamesPicked;
    if n == 0 {
      picks := [];
      NothingSelected(leaves, WantedPaths(leaves, requested));
    } else {
      var before := TargetsSelect(h, levels, leaves, requested, n - 1);
      WantedIff(leaves, requested, n - 1);
      TargetClaims(h, levels, leaves, n - 1);
      SelectsNext(leaves, WantedPaths(leaves, requested), n - 1, before);
      NamesOneMore(leaves, before, RequestedPaths(leaves, requested, n - 1), Targets(h, levels, leaves, requested, n - 1),
                   n - 1, Target(h, levels, leaves, n - 1));
      picks := if IsWanted(requested, leaves[n - 1].path) then before + [n - 1] else before;
      assert RequestedPaths(leaves, requested, n - 1) + [] == RequestedPaths(leaves, requested, n - 1);
    }
  }

  lemma {:induction false} NothingSelected(leaves: seq<Leaf>, wanted: seq<string>)
    ensures Selects(leaves, wanted, 0, []) && NamesPicked(leaves, [], [], [])
  {
  }

  /**
   * The proof of a state has one target for every leaf whose path is requested, in leaf order, and for no other
   * leaf; all are requested if no path is given. It is accepted with these paths, or rejected if there are none.
   */
  lemma {:induction false} BuiltProofSelects(h: Hash, state: Json, requested: Option<seq<string>>, now: int)
    returns (picks: seq<nat>, paths: seq<string>)
    ensures var leaves, proof := StateLeaves(state), BuiltProof(h, state, requested, now);
            && Selects(leaves, WantedPaths(leaves, requested), |leaves|, picks)
            && NamesPicked(leaves, picks, paths, ProofTargets(proof))
            && VerdictOn(h, proof) == if paths == [] then Rejected("missing RMP targets", None)
                                      else Accepted("sha256:" + RootOf(h, leaves), paths)
  {
    hide Claim, Target, Targets, IsWanted, WantedPaths, RequestedPaths, Selects, NamesPicked, VerdictOn, BuiltProof,
      ProofTargets;
    var leaves := StateLeaves(state);
    TreeShape(h, leaves);
    TreeHalves(h, TreeOf(h, leaves));
    picks := TargetsSelect(h, TreeOf(h, leaves), leaves, requested, |leaves|);
    paths := RequestedPaths(leaves, requested, |leaves|);
    BuiltProofVerdict(h, state, requested, now);
    BuiltTargets(h, state, requested, now);
  }

  lemma {:induction false} BuiltTargets(h: Hash, state: Json, requested: Option<seq<string>>, now: int)
    ensures ProofTargets(BuiltProof(h, state, requested, now)) == AllTargets(h, StateLeaves(state), requested)
  {
    hide AllTargets, RootOf, StateLeaves, Get, ProofHead, ProofBody;
    ProofFields(RootOf(h, StateLeaves(state)), |StateLeaves(state)|, AllTargets(h, StateLeaves(state), requested), now);
  }

  lemma {:induction false} AllSelected(leaves: seq<Leaf>, picks: seq<nat>, paths: seq<string>, targets: seq<Json>)
    requires Selects(leaves, LeafPaths(leaves), |leaves|, picks) && NamesPicked(leaves, picks, paths, targets)
    ensures paths == LeafPaths(leaves)
  {
    forall i | 0 <= i < |leaves| ensures i in picks {
      assert LeafPaths(leaves)[i] == leaves[i].path;
    }
    AllPicked(picks, |leaves|);
  }

  lemma {:induction false} PickAt(picks: seq<nat>, n: nat, i: nat)
    requires forall a, b :: 0 <= a < b < |picks| ==> picks[a] < picks[b]
    requires forall j :: 0 <= j < n ==> j in picks
    requires i < n
    ensures i < |picks| && picks[i] == i
  {
    assert i in picks;
    var k :| 0 <= k < |picks| && picks[k] == i;
    forall j | 0 <= j < i ensures j < |picks| && picks[j] == j {
      PickAt(picks, n, j);
    }
    assert i <= k;
    assert i > 0 ==> picks[i - 1] < picks[i];
    assert picks[i] >= i;
  }

  lemma {:induction false} PicksGrow(picks: seq<nat>, a: nat)
    requires forall a, b :: 0 <= a < b < |picks| ==> picks[a] < picks[b]
    requires a < |picks|
    ensures picks[a] >= a
  {
    if a > 0 {
      PicksGrow(picks, a - 1);
    }
  }

  lemma {:induction false} AllPicked(picks: seq<nat>, n: nat)
    requires forall a, b :: 0 <= a < b < |picks| ==> picks[a] < picks[b]
    requires forall a :: 0 <= a < |picks| ==> picks[a] < n
    requires forall i :: 0 <= i < n ==> i in picks
    ensures |picks| == n && forall i :: 0 <= i < n ==> picks[i] == i
  {
    forall i | 0 <= i < n ensures i < |picks| && picks[i] == i {
      PickAt(picks, n, i);
    }
    if |picks| < n {
      PickAt(picks, n, |picks|);
    }
    if picks != [] {
      PicksGrow(picks, |picks| - 1);
    }
  }

  /** The verified paths of a built proof, in the terms of who asks for it. */
  lemma {:induction false} BuiltProofNames(h: Hash, state: Json, requested: Option<seq<string>>, now: int)
    ensures var leaves, verdict := StateLeaves(state), VerdictOn(h, BuiltProof(h, state, requested, now));
            var paths := if verdict.Accepted? then verdict.verifiedPaths else [];
            && (requested.None? || requested.value == [] ==> paths == LeafPaths(leaves))
            && (requested.Some? && requested.value != [] ==>
                forall p :: p in paths <==> p in requested.value && exists i :: 0 <= i < |leaves| && leaves[i].path == p)
  {
    hide VerdictOn, BuiltProof;
    var leaves := StateLeaves(state);
    var picks, paths := BuiltProofSelects(h, state, requested, now);
    var wanted, targets := WantedPaths(leaves, requested), ProofTargets(BuiltProof(h, state, requested, now));
    hide Selects, NamesPicked, ProofTargets;
    if requested.None? || requested.value == [] {
      AllSelected(leaves, picks, paths, targets);
    } else {
      forall p ensures p in paths <==> p in wanted && exists i :: 0 <= i < |leaves| && leaves[i].path == p {
        PathSelected(leaves, wanted, picks, paths, targets, p);
      }
    }
  }

  lemma {:induction false} PathSelected(
    leaves: seq<Leaf>, wanted: seq<string>, picks: seq<nat>, paths: seq<string>, targets: seq<Json>, p: string)
    requires Selects(leaves, wanted, |leaves|, picks) && NamesPicked(leaves, picks, paths, targets)
    ensures p in paths <==> p in wanted && exists i :: 0 <= i < |leaves| && leaves[i].path == p
  {
    hide Claim;
    if p in paths {
      var a :| 0 <= a < |paths| && paths[a] == p;
      assert leaves[picks[a]].path == p;
    }
    if i :| 0 <= i < |leaves| && leaves[i].path == p {
      if p in wanted {
        assert i in picks;
        var a :| 0 <= a < |picks| && picks[a] == i;
        assert paths[a] == p;
      }
    }
  }
}
