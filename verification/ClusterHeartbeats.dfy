/**
 * Heartbeats over whole runs of a master: the first entry of an ID always shows the latest sign of life of
 * that ID, and a health check judges it by nothing else.
 */
module ClusterHeartbeats {
  import opened Wrappers
  import opened ClusterManager
  import opened ClusterRuns

  /** A sign of life: when it came and what it measured. */
  datatype Contact = Contact(time: int, metrics: NodeStats)

  /** The event is a heartbeat of the ID: a message, or the own heartbeat of the manager. */
  predicate IsSignOf(o: Origin, t: Timed, id: string) {
    IsHeartbeatOf(t, id) || (t.event.OwnHeartbeat? && id == o.config.nodeID)
  }

  function SignMetrics(t: Timed): NodeStats
    requires t.event.OwnHeartbeat? || (t.event.Received? && t.event.message.Heartbeat?)
  {
    if t.event.OwnHeartbeat? then t.event.stats else t.event.message.metrics
  }

  predicate JoinsAs(t: Timed, id: string) {
    t.event.Received? && t.event.message.JoinRequest? && t.event.message.join.Some? && t.event.message.join.value.nodeID == id
  }

  predicate LeavesAs(t: Timed, id: string) {
    t.event == Received(Deregister(Some(id)))
  }

  /**
   * What is heard of an ID in a run: its first join or the founding of the cluster, then every heartbeat; a
   * deregistration makes it unknown, and heartbeats of an unknown ID are lost.
   */
  function LastHeard(o: Origin, events: seq<Timed>, id: string): Option<Contact> {
    if events == [] then
      if id == o.config.nodeID then Some(Contact(o.time, o.stats)) else None
    else
      var before, t := LastHeard(o, events[..|events| - 1], id), events[|events| - 1];
      if LeavesAs(t, id) then None
      else if before.None? then if JoinsAs(t, id) then Some(Contact(t.time, NO_STATS)) else None
      else if IsSignOf(o, t, id) then Some(Contact(t.time, SignMetrics(t)))
      else before
  }

  // ----- the first entry of an ID -----

  function FirstEntry(nodes: seq<NodeInfo>, id: string): Option<NodeInfo> {
    if nodes == [] then None
    else if nodes[0].nodeID == id then Some(nodes[0])
    else FirstEntry(nodes[1..], id)
  }

  lemma {:induction false} FirstEntryAt(nodes: seq<NodeInfo>, i: nat)
    requires i < |nodes| && IsFirst(nodes, i)
    ensures FirstEntry(nodes, nodes[i].nodeID) == Some(nodes[i])
  {
    if i > 0 {
      assert nodes[0].nodeID != nodes[i].nodeID;
      FirstBehind(nodes, i);
      FirstEntryAt(nodes[1..], i - 1);
    }
  }

  lemma {:induction false} NoEntry(nodes: seq<NodeInfo>, id: string)
    ensures FirstEntry(nodes, id).None? <==> forall i :: 0 <= i < |nodes| ==> nodes[i].nodeID != id
    ensures FirstEntry(nodes, id).Some? ==> FirstEntry(nodes, id).value.nodeID == id
  {
    if nodes != [] {
      NoEntry(nodes[1..], id);
      assert forall i :: 0 < i < |nodes| ==> nodes[i] == nodes[1..][i - 1];
    }
  }

  lemma {:induction false} FirstOfRefreshed(
    nodes: seq<NodeInfo>, id: string, other: string, stats: NodeStats, now: int, activate: bool)
    ensures FirstEntry(Refresh(nodes, other, stats, now, activate), id) ==
            if id == other && FirstEntry(nodes, id).Some? then
              Some(Refreshed(FirstEntry(nodes, id).value, stats, now, activate))
            else FirstEntry(nodes, id)
  {
    if nodes != [] && nodes[0].nodeID != other {
      FirstOfRefreshed(nodes[1..], id, other, stats, now, activate);
      var r := Refresh(nodes, other, stats, now, activate);
      assert r[1..] == Refresh(nodes[1..], other, stats, now, activate);
    } else if nodes != [] {
      var r := Refresh(nodes, other, stats, now, activate);
      assert r[1..] == nodes[1..];
    }
  }

  lemma {:induction false} FirstOfChecked(c: Config, nodes: seq<NodeInfo>, now: int, id: string)
    ensures FirstEntry(CheckNodes(c, nodes, now), id) ==
            if FirstEntry(nodes, id).Some? then Some(CheckNode(c, FirstEntry(nodes, id).value, now)) else None
  {
    if nodes != [] {
      FirstOfChecked(c, nodes[1..], now, id);
      assert CheckNodes(c, nodes, now)[1..] == CheckNodes(c, nodes[1..], now);
    }
  }

  lemma {:induction false} FirstOfJoined(nodes: seq<NodeInfo>, more: seq<NodeInfo>, id: string)
    ensures FirstEntry(nodes + more, id) == if FirstEntry(nodes, id).Some? then FirstEntry(nodes, id) else FirstEntry(more, id)
  {
    if nodes == [] {
      assert nodes + more == more;
    } else {
      assert (nodes + more)[1..] == nodes[1..] + more;
      FirstOfJoined(nodes[1..], more, id);
    }
  }

  lemma {:induction false} FirstOfLeft(nodes: seq<NodeInfo>, id: string, other: string)
    ensures FirstEntry(Without(nodes, other), id) == if id == other then None else FirstEntry(nodes, id)
  {
    if nodes != [] {
      var init, last := nodes[..|nodes| - 1], [nodes[|nodes| - 1]];
      assert nodes == init + last && last[1..] == [];
      FirstOfLeft(init, id, other);
      FirstOfJoined(init, last, id);
      FirstOfJoined(Without(init, other), last, id);
      assert Without(init, other) + [] == Without(init, other);
    }
  }

  // ----- over runs -----

  ghost predicate Shows(entry: Option<NodeInfo>, heard: Option<Contact>) {
    && (entry.Some? <==> heard.Some?)
    && (entry.Some? ==> entry.value.lastHeartbeat == heard.value.time && entry.value.metrics == heard.value.metrics)
  }

  lemma {:induction false} StepShows(o: Origin, s: ClusterState, heard: Option<Contact>, t: Timed, id: string)
    requires o.config.role == "master" && Shows(FirstEntry(s.nodes, id), heard)
    ensures Shows(FirstEntry(Step(o.config, s, t.event, t.time).nodes, id),
                  if LeavesAs(t, id) then None
                  else if heard.None? then if JoinsAs(t, id) then Some(Contact(t.time, NO_STATS)) else None
                  else if IsSignOf(o, t, id) then Some(Contact(t.time, SignMetrics(t)))
                  else heard)
  {
    hide FirstEntry, Refresh, CheckNodes, Without;
    match t.event
    case OwnHeartbeat(stats) => FirstOfRefreshed(s.nodes, id, o.config.nodeID, stats, t.time, false);
    case HealthCheck => FirstOfChecked(o.config, s.nodes, t.time, id);
    case Received(JoinRequest(address, Some(p))) =>
      FirstOfJoined(s.nodes, [JoinedNode(address, p, t.time)], id);
      FirstOfOne(JoinedNode(address, p, t.time), id);
    case Received(Heartbeat(Some(other), stats)) => FirstOfRefreshed(s.nodes, id, other, stats, t.time, true);
    case Received(Deregister(Some(other))) => FirstOfLeft(s.nodes, id, other);
    case Received(_) =>
  }

  lemma {:induction false} FirstOfOne(n: NodeInfo, id: string)
    ensures FirstEntry([n], id) == if n.nodeID == id then Some(n) else None
  {
    assert [n][1..] == [];
  }

  lemma {:induction false} RunShows(o: Origin, events: seq<Timed>, id: string)
    requires o.config.role == "master"
    ensures Shows(FirstEntry(StateAfter(o, events).nodes, id), LastHeard(o, events, id))
  {
    hide FirstEntry, Step;
    if events == [] {
      FirstOfOne(StateAfter(o, events).nodes[0], id);
      assert StateAfter(o, events).nodes == [StateAfter(o, events).nodes[0]];
    } else {
      var before, t := events[..|events| - 1], events[|events| - 1];
      RunShows(o, before, id);
      StepShows(o, StateAfter(o, before), LastHeard(o, before, id), t, id);
    }
  }

  /**
   * In every run an ID has an entry exactly if it is known, and the first one shows the time and the metrics of the
   * last that was heard of the ID.
   */
  lemma {:induction false} FirstEntryShowsLastHeard(o: Origin, events: seq<Timed>, id: string)
    requires o.config.role == "master"
    ensures var nodes, heard := StateAfter(o, events).nodes, LastHeard(o, events, id);
            && (heard.None? <==> forall i :: 0 <= i < |nodes| ==> nodes[i].nodeID != id)
            && forall i :: 0 <= i < |nodes| && nodes[i].nodeID == id && IsFirst(nodes, i) ==>
                 heard == Some(Contact(nodes[i].lastHeartbeat, nodes[i].metrics))
  {
    var nodes := StateAfter(o, events).nodes;
    RunShows(o, events, id);
    NoEntry(nodes, id);
    forall i | 0 <= i < |nodes| && nodes[i].nodeID == id && IsFirst(nodes, i)
      ensures LastHeard(o, events, id) == Some(Contact(nodes[i].lastHeartbeat, nodes[i].metrics))
    {
      FirstEntryAt(nodes, i);
    }
  }

  /** What is heard last of a known ID is the latest heartbeat that no deregistration follows. */
  lemma {:induction false} LatestHeartbeatCounts(o: Origin, events: seq<Timed>, j: nat, id: string)
    requires j < |events| && IsSignOf(o, events[j], id) && LastHeard(o, events[..j], id).Some?
    requires forall k :: j < k < |events| ==> !IsSignOf(o, events[k], id) && !LeavesAs(events[k], id)
    ensures LastHeard(o, events, id) == Some(Contact(events[j].time, SignMetrics(events[j])))
  {
    var init := events[..|events| - 1];
    if j < |init| {
      assert init[..j] == events[..j];
      LatestHeartbeatCounts(o, init, j, id);
    } else {
      assert init == events[..j];
    }
  }

  /** Without a heartbeat since, it is the join that made the ID known. */
  lemma {:induction false} JoinCounts(o: Origin, events: seq<Timed>, j: nat, id: string)
    requires j < |events| && JoinsAs(events[j], id) && LastHeard(o, events[..j], id).None?
    requires forall k :: j < k < |events| ==> !IsSignOf(o, events[k], id) && !LeavesAs(events[k], id)
    ensures LastHeard(o, events, id) == Some(Contact(events[j].time, NO_STATS))
  {
    var init := events[..|events| - 1];
    if j < |init| {
      assert init[..j] == events[..j];
      JoinCounts(o, init, j, id);
    } else {
      assert init == events[..j];
    }
  }

  /** Right after a heartbeat message of a known ID its first entry is active, at the time of the message. */
  lemma {:induction false} HeartbeatActivates(o: Origin, events: seq<Timed>, t: Timed, id: string, i: nat)
    requires IsHeartbeatOf(t, id)
    requires var nodes := StateAfter(o, events).nodes;
             i < |nodes| && nodes[i].nodeID == id && IsFirst(nodes, i)
    ensures var nodes := StateAfter(o, events + [t]).nodes;
            && i < |nodes| && nodes[i].nodeID == id && nodes[i].status == Active
            && nodes[i].lastHeartbeat == t.time && nodes[i].metrics == t.event.message.metrics
  {
    StateAfterOneMore(o, events, t);
    RefreshAt(StateAfter(o, events).nodes, id, t.event.message.metrics, t.time, true, i);
  }

  /**
   * A health check judges the first entry of a foreign ID by the time since the ID was last heard of alone; in
   * particular it is active after the check if it was heard of within the timeout.
   */
  lemma {:induction false} CheckJudgesBySilence(o: Origin, events: seq<Timed>, now: int, i: nat)
    requires o.config.role == "master" && Monotone(o, events) && Clock(o, events) <= now
    requires var nodes := StateAfter(o, events).nodes;
             i < |nodes| && IsFirst(nodes, i) && nodes[i].nodeID != o.config.nodeID
    ensures var id := StateAfter(o, events).nodes[i].nodeID;
            && LastHeard(o, events, id).Some?
            && var status := Step(o.config, StateAfter(o, events), HealthCheck, now).nodes[i].status;
               var silence := (now - LastHeard(o, events, id).value.time) * 1_000_000;
               && (status == Offline <==> silence > o.config.nodeOfflineTimeout)
               && (status == Stale <==> silence <= o.config.nodeOfflineTimeout && silence > o.config.heartbeatTimeout)
               && (status == Active <==> silence <= o.config.nodeOfflineTimeout && silence <= o.config.heartbeatTimeout)
  {
    hide StateAfter, CheckNodes, LastHeard;
    FirstEntryShowsLastHeard(o, events, StateAfter(o, events).nodes[i].nodeID);
    CheckIsExact(o, events, now, i);
  }
}
