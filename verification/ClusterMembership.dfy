/** Which entries the node list of a master holds after any run, in which order, and how its version counts. */
module ClusterMembership {
  import opened Wrappers
  import Text
  import opened ClusterManager
  import opened ClusterRuns

  /** The part of an entry that never changes after it joined. */
  datatype Member = Member(
    nodeID: string, maximaAddress: string, hostname: string, role: string, joinedAt: int,
    capabilities: seq<string>, version: string)

  function MemberOf(n: NodeInfo): Member {
    Member(n.nodeID, n.maximaAddress, n.hostname, n.role, n.joinedAt, n.capabilities, n.version)
  }

  function Members(nodes: seq<NodeInfo>): (r: seq<Member>)
    ensures |r| == |nodes|
    ensures forall i :: 0 <= i < |r| ==> r[i] == MemberOf(nodes[i])
  {
    if nodes == [] then [] else Members(nodes[..|nodes| - 1]) + [MemberOf(nodes[|nodes| - 1])]
  }

  function WithoutMember(members: seq<Member>, id: string): seq<Member> {
    if members == [] then []
    else WithoutMember(members[..|members| - 1], id)
         + if members[|members| - 1].nodeID != id then [members[|members| - 1]] else []
  }

  // ----- which joins survive -----

  predicate Joins(t: Timed) {
    t.event.Received? && t.event.message.JoinRequest? && t.event.message.join.Some?
  }

  function JoinedMember(t: Timed): Member
    requires Joins(t)
  {
    var p := t.event.message.join.value;
    Member(p.nodeID, t.event.message.senderAddress, p.hostname, "worker", t.time, p.capabilities, p.version)
  }

  predicate LeavesAs(t: Timed, id: string) {
    t.event == Received(Deregister(Some(id)))
  }

  /** No event from `from` up to `horizon` deregisters the ID. */
  predicate Stays(events: seq<Timed>, id: string, from: nat, horizon: nat)
    requires horizon <= |events|
  {
    forall m :: from <= m < horizon ==> !LeavesAs(events[m], id)
  }

  /** The members that joined among the first `n` events and have not been deregistered before `horizon`. */
  function Survivors(events: seq<Timed>, n: nat, horizon: nat): seq<Member>
    requires n <= horizon <= |events|
  {
    if n == 0 then []
    else
      var before := Survivors(events, n - 1, horizon);
      var t := events[n - 1];
      if Joins(t) && Stays(events, JoinedMember(t).nodeID, n, horizon) then before + [JoinedMember(t)] else before
  }

  /** The master's own first entry, as long as its ID has not been deregistered. */
  function Founder(o: Origin, events: seq<Timed>, horizon: nat): seq<Member>
    requires horizon <= |events|
  {
    if Stays(events, o.config.nodeID, 0, horizon) then
      [Member(o.config.nodeID, o.localAddr, o.config.nodeID, "master", o.time, [], "3.0.0")]
    else []
  }

  /** How many of the first `n` events changed the membership. */
  function Changes(events: seq<Timed>, n: nat): nat
    requires n <= |events|
  {
    if n == 0 then 0
    else
      var e := events[n - 1].event;
      Changes(events, n - 1)
      + if Joins(events[n - 1]) || (e.Received? && e.message.Deregister? && e.message.leaving.Some?) then 1 else 0
  }

  // ----- the steps on members -----

  lemma {:induction false} MembersSnoc(nodes: seq<NodeInfo>, n: NodeInfo)
    ensures Members(nodes + [n]) == Members(nodes) + [MemberOf(n)]
  {
    assert (nodes + [n])[..|nodes|] == nodes;
  }

  lemma {:induction false} MembersWithout(nodes: seq<NodeInfo>, id: string)
    ensures Members(Without(nodes, id)) == WithoutMember(Members(nodes), id)
  {
    if nodes != [] {
      var n := nodes[|nodes| - 1];
      MembersWithout(nodes[..|nodes| - 1], id);
      MembersSnoc(Without(nodes[..|nodes| - 1], id), n);
      assert Members(nodes)[..|nodes| - 1] == Members(nodes[..|nodes| - 1]);
    }
  }

  lemma {:induction false} SameMembers(xs: seq<NodeInfo>, ys: seq<NodeInfo>)
    requires |xs| == |ys| && forall i :: 0 <= i < |xs| ==> MemberOf(xs[i]) == MemberOf(ys[i])
    ensures Members(xs) == Members(ys)
  {
  }

  lemma {:induction false} RefreshKeepsMembers(nodes: seq<NodeInfo>, id: string, stats: NodeStats, now: int, activate: bool)
    ensures Members(Refresh(nodes, id, stats, now, activate)) == Members(nodes)
  {
    var r := Refresh(nodes, id, stats, now, activate);
    forall i | 0 <= i < |nodes| ensures MemberOf(r[i]) == MemberOf(nodes[i]) {
      RefreshAt(nodes, id, stats, now, activate, i);
    }
    SameMembers(r, nodes);
  }

  /** What one event of a master does to the members. */
  lemma {:induction false} StepOnMembers(c: Config, s: ClusterState, t: Timed)
    requires c.role == "master"
    ensures var m, r := Members(s.nodes), Members(Step(c, s, t.event, t.time).nodes);
            && (Joins(t) ==> r == m + [JoinedMember(t)])
            && (forall id :: LeavesAs(t, id) ==> r == WithoutMember(m, id))
            && (!Joins(t) && (forall id :: !LeavesAs(t, id)) ==> r == m)
  {
    hide Members, Refresh, CheckNodes, Without, WithoutMember;
    match t.event
    case OwnHeartbeat(stats) => RefreshKeepsMembers(s.nodes, c.nodeID, stats, t.time, false);
    case HealthCheck => SameMembers(CheckNodes(c, s.nodes, t.time), s.nodes);
    case Received(JoinRequest(address, Some(p))) => MembersSnoc(s.nodes, JoinedNode(address, p, t.time));
    case Received(Heartbeat(Some(id), stats)) => RefreshKeepsMembers(s.nodes, id, stats, t.time, true);
    case Received(Deregister(Some(id))) =>
      MembersWithout(s.nodes, id);
      assert LeavesAs(t, id);
    case Received(_) =>
  }

  lemma {:induction false} WithoutMemberSnoc(members: seq<Member>, m: Member, id: string)
    ensures WithoutMember(members + [m], id) ==
            if m.nodeID != id then WithoutMember(members, id) + [m] else WithoutMember(members, id)
  {
    assert (members + [m])[..|members|] == members;
  }

  lemma {:induction false} WithoutMemberAppend(xs: seq<Member>, ys: seq<Member>, id: string)
    ensures WithoutMember(xs + ys, id) == WithoutMember(xs, id) + WithoutMember(ys, id)
  {
    if ys == [] {
      assert xs + ys == xs;
    } else {
      assert (xs + ys)[..|xs + ys| - 1] == xs + ys[..|ys| - 1];
      WithoutMemberAppend(xs, ys[..|ys| - 1], id);
    }
  }

  lemma {:induction false} WithoutOne(m: Member, id: string)
    ensures WithoutMember([m], id) == if m.nodeID != id then [m] else []
  {
    assert [m][..0] == [];
  }

  // ----- one more event on the horizon -----

  lemma {:induction false} StaysOne(events: seq<Timed>, id: string, from: nat, horizon: nat)
    requires from <= horizon < |events|
    ensures Stays(events, id, from, horizon + 1) <==> Stays(events, id, from, horizon) && !LeavesAs(events[horizon], id)
  {
  }

  lemma {:induction false} SurvivorsOfLeave(events: seq<Timed>, n: nat, horizon: nat, id: string)
    requires n <= horizon < |events| && LeavesAs(events[horizon], id)
    ensures Survivors(events, n, horizon + 1) == WithoutMember(Survivors(events, n, horizon), id)
  {
    if n > 0 {
      assert forall other :: LeavesAs(events[horizon], other) <==> other == id;
      hide LeavesAs, WithoutMember, Joins, JoinedMember, Stays;
      var t, before := events[n - 1], Survivors(events, n - 1, horizon);
      var after := Survivors(events, n - 1, horizon + 1);
      SurvivorsOfLeave(events, n - 1, horizon, id);
      assert after == WithoutMember(before, id);
      if Joins(t) {
        var m := JoinedMember(t);
        var stays := Stays(events, m.nodeID, n, horizon);
        assert Stays(events, m.nodeID, n, horizon + 1) <==> stays && m.nodeID != id by {
          StaysOne(events, m.nodeID, n, horizon);
        }
        WithoutMemberSnoc(before, m, id);
        assert Survivors(events, n, horizon) == if stays then before + [m] else before;
        assert Survivors(events, n, horizon + 1) == if stays && m.nodeID != id then after + [m] else after;
      } else {
        assert Survivors(events, n, horizon) == before;
        assert Survivors(events, n, horizon + 1) == after;
      }
    }
  }

  lemma {:induction false} SurvivorsOtherwise(events: seq<Timed>, n: nat, horizon: nat)
    requires n <= horizon < |events| && forall id :: !LeavesAs(events[horizon], id)
    ensures Survivors(events, n, horizon + 1) == Survivors(events, n, horizon)
  {
    if n > 0 {
      var t := events[n - 1];
      SurvivorsOtherwise(events, n - 1, horizon);
      if Joins(t) {
        StaysOne(events, JoinedMember(t).nodeID, n, horizon);
      }
    }
  }

  lemma {:induction false} FounderLeaves(o: Origin, events: seq<Timed>, horizon: nat, id: string)
    requires horizon < |events| && LeavesAs(events[horizon], id)
    ensures Founder(o, events, horizon + 1) == WithoutMember(Founder(o, events, horizon), id)
  {
    StaysOne(events, o.config.nodeID, 0, horizon);
    var nodes := MasterState(o.config, o.localAddr, o.stats, o.time).nodes;
    assert Members(nodes) == [MemberOf(nodes[0])];
    WithoutOne(MemberOf(nodes[0]), id);
  }

  lemma {:induction false} FounderStays(o: Origin, events: seq<Timed>, horizon: nat)
    requires horizon < |events| && forall id :: !LeavesAs(events[horizon], id)
    ensures Founder(o, events, horizon + 1) == Founder(o, events, horizon)
  {
    StaysOne(events, o.config.nodeID, 0, horizon);
  }

  /** The members and survivors at one horizon and the next, for any effect an event can have on members. */
  lemma {:induction false} SurvivorsStep(o: Origin, events: seq<Timed>, h: nat, before: seq<Member>, after: seq<Member>)
    requires h < |events| && before == Founder(o, events, h) + Survivors(events, h, h)
    requires Joins(events[h]) ==> after == before + [JoinedMember(events[h])]
    requires forall id :: LeavesAs(events[h], id) ==> after == WithoutMember(before, id)
    requires !Joins(events[h]) && (forall id :: !LeavesAs(events[h], id)) ==> after == before
    ensures after == Founder(o, events, h + 1) + Survivors(events, h + 1, h + 1)
  {
    var t := events[h];
    if id :| LeavesAs(t, id) {
      SurvivorsOfLeave(events, h, h, id);
      WithoutMemberAppend(Founder(o, events, h), Survivors(events, h, h), id);
      FounderLeaves(o, events, h, id);
    } else {
      SurvivorsOtherwise(events, h, h);
      FounderStays(o, events, h);
    }
  }

  lemma {:induction false} MembersAt(o: Origin, events: seq<Timed>, h: nat)
    requires o.config.role == "master" && h <= |events|
    ensures Members(StateAfter(o, events[..h]).nodes) == Founder(o, events, h) + Survivors(events, h, h)
  {
    if h > 0 {
      var before := StateAfter(o, events[..h - 1]);
      assert events[..h][..h - 1] == events[..h - 1] && events[..h][h - 1] == events[h - 1];
      MembersAt(o, events, h - 1);
      StepOnMembers(o.config, before, events[h - 1]);
      SurvivorsStep(o, events, h - 1, Members(before.nodes), Members(StateAfter(o, events[..h]).nodes));
    }
  }

  /** The time of the last of the first `n` events that changed the membership, or the start of the run. */
  function LastChange(o: Origin, events: seq<Timed>, n: nat): int
    requires n <= |events|
  {
    if n == 0 then o.time
    else if Changes(events, n) > Changes(events, n - 1) then events[n - 1].time
    else LastChange(o, events, n - 1)
  }

  lemma {:induction false} HeaderAt(o: Origin, events: seq<Timed>, h: nat)
    requires o.config.role == "master" && h <= |events|
    ensures var s := StateAfter(o, events[..h]);
            && s.clusterID == (if o.config.clusterID == "" then "cluster-" + Text.Decimal(o.time) else o.config.clusterID)
            && s.masterNodeID == o.config.nodeID && s.masterAddress == o.localAddr && s.createdAt == o.time
            && s.lastUpdated == LastChange(o, events, h)
  {
    hide CheckNodes, Refresh, Without;
    if h > 0 {
      assert events[..h][..h - 1] == events[..h - 1] && events[..h][h - 1] == events[h - 1];
      HeaderAt(o, events, h - 1);
    }
  }

  /** The cluster keeps its name and its master in every run, and was last updated by its last change of members. */
  lemma {:induction false} HeaderOverRuns(o: Origin, events: seq<Timed>)
    requires o.config.role == "master"
    ensures var s := StateAfter(o, events);
            && s.clusterID == (if o.config.clusterID == "" then "cluster-" + Text.Decimal(o.time) else o.config.clusterID)
            && s.masterNodeID == o.config.nodeID && s.masterAddress == o.localAddr && s.createdAt == o.time
            && s.lastUpdated == LastChange(o, events, |events|)
  {
    assert events[..|events|] == events;
    HeaderAt(o, events, |events|);
  }

  lemma {:induction false} VersionAt(o: Origin, events: seq<Timed>, h: nat)
    requires o.config.role == "master" && h <= |events|
    ensures StateAfter(o, events[..h]).version == 1 + Changes(events, h)
  {
    if h > 0 {
      assert events[..h][..h - 1] == events[..h - 1] && events[..h][h - 1] == events[h - 1];
      VersionAt(o, events, h - 1);
    }
  }

  /**
   * After every run of a master the list holds its own entry unless deregistered, and behind it, in the order
   * of joining, every join whose ID has not been deregistered since; duplicates included. The version is one
   * more than the number of joins and deregistrations handled, whether or not the ID was known.
   */
  lemma {:induction false} MembersAreSurvivingJoins(o: Origin, events: seq<Timed>)
    requires o.config.role == "master"
    ensures Members(StateAfter(o, events).nodes) ==
            Founder(o, events, |events|) + Survivors(events, |events|, |events|)
    ensures StateAfter(o, events).version == 1 + Changes(events, |events|)
  {
    assert events[..|events|] == events;
    MembersAt(o, events, |events|);
    VersionAt(o, events, |events|);
  }
}
