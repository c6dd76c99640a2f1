/** What holds of the cluster manager in every run of a master, and that a worker never has a state. */
module ClusterRuns {
  import opened Wrappers
  import opened ClusterManager

  datatype Timed = Timed(event: Event, time: int)

  /** How a run starts: the configuration, the address, the first metrics and the first clock reading. */
  datatype Origin = Origin(config: Config, localAddr: string, stats: NodeStats, time: int)

  function StateAfter(o: Origin, events: seq<Timed>): ClusterState {
    if events == [] then MasterState(o.config, o.localAddr, o.stats, o.time)
    else
      var last := events[|events| - 1];
      Step(o.config, StateAfter(o, events[..|events| - 1]), last.event, last.time)
  }

  /** The state of a manager of any role. */
  function ManagerAfter(o: Origin, events: seq<Timed>): Option<ClusterState> {
    if events == [] then
      if o.config.role == "master" then Some(MasterState(o.config, o.localAddr, o.stats, o.time)) else None
    else
      var last := events[|events| - 1];
      StepOption(o.config, ManagerAfter(o, events[..|events| - 1]), last.event, last.time)
  }

  /** Only a master has a state, and it is the one the run lemmas speak of. */
  lemma {:induction false} OnlyMastersHaveState(o: Origin, events: seq<Timed>)
    ensures ManagerAfter(o, events) == if o.config.role == "master" then Some(StateAfter(o, events)) else None
  {
    if events != [] {
      OnlyMastersHaveState(o, events[..|events| - 1]);
    }
  }

  /** The clock never steps back. */
  predicate Monotone(o: Origin, events: seq<Timed>) {
    && (forall i :: 0 <= i < |events| ==> o.time <= events[i].time)
    && (forall i, j :: 0 <= i < j < |events| ==> events[i].time <= events[j].time)
  }

  function Clock(o: Origin, events: seq<Timed>): int {
    if events == [] then o.time else events[|events| - 1].time
  }

  // ----- refreshing the first entry of an ID -----

  predicate IsFirst(nodes: seq<NodeInfo>, i: nat)
    requires i < |nodes|
  {
    forall j :: 0 <= j < i ==> nodes[j].nodeID != nodes[i].nodeID
  }

  function Refreshed(n: NodeInfo, stats: NodeStats, now: int, activate: bool): NodeInfo {
    n.(lastHeartbeat := now, metrics := stats, status := if activate then Active else n.status)
  }

  lemma {:induction false} RefreshAt(
    nodes: seq<NodeInfo>, id: string, stats: NodeStats, now: int, activate: bool, i: nat)
    requires i < |nodes|
    ensures Refresh(nodes, id, stats, now, activate)[i] ==
            if nodes[i].nodeID == id && IsFirst(nodes, i) then Refreshed(nodes[i], stats, now, activate) else nodes[i]
  {
    if nodes[0].nodeID != id && i > 0 {
      RefreshAt(nodes[1..], id, stats, now, activate, i - 1);
      if nodes[i].nodeID == id {
        FirstBehind(nodes, i);
      }
    }
  }

  lemma {:induction false} FirstBehind(nodes: seq<NodeInfo>, i: nat)
    requires 0 < i < |nodes| && nodes[0].nodeID != nodes[i].nodeID
    ensures IsFirst(nodes, i) <==> IsFirst(nodes[1..], i - 1)
  {
    if IsFirst(nodes[1..], i - 1) {
      forall j | 0 <= j < i ensures nodes[j].nodeID != nodes[i].nodeID {
        if j > 0 { assert nodes[1..][j - 1].nodeID != nodes[1..][i - 1].nodeID; }
      }
    }
    if IsFirst(nodes, i) {
      forall j | 0 <= j < i - 1 ensures nodes[1..][j].nodeID != nodes[1..][i - 1].nodeID {
        assert nodes[j + 1].nodeID != nodes[i].nodeID;
      }
    }
  }

  // ----- the invariant of one entry -----

  /** What an entry of the list satisfies at a clock reading; `first` tells the first entry of its ID. */
  ghost predicate Sound(c: Config, n: NodeInfo, first: bool, now: int) {
    && n.joinedAt <= n.lastHeartbeat <= now
    && (!first ==> n.lastHeartbeat == n.joinedAt)
    && (n.nodeID == c.nodeID ==> n.status == Active)
    && n.status != Pending
    && (n.status == Stale ==> (now - n.lastHeartbeat) * 1_000_000 > c.heartbeatTimeout)
    && (n.status == Offline ==> (now - n.lastHeartbeat) * 1_000_000 > c.nodeOfflineTimeout)
  }

  ghost predicate AllSound(c: Config, nodes: seq<NodeInfo>, now: int) {
    forall i {:trigger IsFirst(nodes, i)} :: 0 <= i < |nodes| ==> Sound(c, nodes[i], IsFirst(nodes, i), now)
  }

  lemma {:induction false} RefreshSound(
    c: Config, nodes: seq<NodeInfo>, id: string, stats: NodeStats, before: int, now: int, activate: bool)
    requires AllSound(c, nodes, before) && before <= now
    requires activate || id == c.nodeID
    ensures AllSound(c, Refresh(nodes, id, stats, now, activate), now)
  {
    var r := Refresh(nodes, id, stats, now, activate);
    forall i | 0 <= i < |r| ensures Sound(c, r[i], IsFirst(r, i), now) {
      RefreshKeepsFirst(nodes, id, stats, now, activate, i);
      RefreshAt(nodes, id, stats, now, activate, i);
      assert Sound(c, nodes[i], IsFirst(nodes, i), before);
    }
  }

  lemma {:induction false} RefreshKeepsFirst(
    nodes: seq<NodeInfo>, id: string, stats: NodeStats, now: int, activate: bool, i: nat)
    requires i < |nodes|
    ensures IsFirst(Refresh(nodes, id, stats, now, activate), i) <==> IsFirst(nodes, i)
  {
    var r := Refresh(nodes, id, stats, now, activate);
    forall j | 0 <= j <= i ensures r[j].nodeID == nodes[j].nodeID {
      RefreshAt(nodes, id, stats, now, activate, j);
    }
  }

  lemma {:induction false} CheckKeepsFirst(c: Config, nodes: seq<NodeInfo>, now: int, i: nat)
    requires i < |nodes|
    ensures IsFirst(CheckNodes(c, nodes, now), i) <==> IsFirst(nodes, i)
  {
    hide CheckNodes;
  }

  lemma {:induction false} CheckedNodeSound(c: Config, n: NodeInfo, first: bool, before: int, now: int)
    requires Sound(c, n, first, before) && before <= now
    ensures Sound(c, CheckNode(c, n, now), first, now)
  {
  }

  lemma {:induction false} CheckSound(c: Config, nodes: seq<NodeInfo>, before: int, now: int)
    requires AllSound(c, nodes, before) && before <= now
    ensures AllSound(c, CheckNodes(c, nodes, now), now)
  {
    hide Sound;
    var r := CheckNodes(c, nodes, now);
    forall i | 0 <= i < |r| ensures Sound(c, r[i], IsFirst(r, i), now) {
      CheckKeepsFirst(c, nodes, now, i);
      assert Sound(c, nodes[i], IsFirst(nodes, i), before);
      CheckedNodeSound(c, nodes[i], IsFirst(nodes, i), before, now);
    }
  }

  lemma {:induction false} FirstInPrefix(nodes: seq<NodeInfo>, more: seq<NodeInfo>, i: nat)
    requires i < |nodes|
    ensures IsFirst(nodes + more, i) <==> IsFirst(nodes, i)
  {
    var r := nodes + more;
    assert forall j :: 0 <= j <= i ==> r[j] == nodes[j];
    if IsFirst(r, i) {
      forall j | 0 <= j < i ensures nodes[j].nodeID != nodes[i].nodeID {
        assert r[j].nodeID != r[i].nodeID;
      }
    }
  }

  lemma {:induction false} JoinSound(c: Config, nodes: seq<NodeInfo>, n: NodeInfo, before: int, now: int)
    requires AllSound(c, nodes, before) && before <= now
    requires n.status == Active && n.joinedAt == n.lastHeartbeat == now
    ensures AllSound(c, nodes + [n], now)
  {
    var r := nodes + [n];
    forall i | 0 <= i < |r| ensures Sound(c, r[i], IsFirst(r, i), now) {
      if i < |nodes| {
        FirstInPrefix(nodes, [n], i);
        assert Sound(c, nodes[i], IsFirst(nodes, i), before);
      }
    }
  }

  /** Removing an ID keeps exactly the entries of the other IDs. */
  lemma {:induction false} WithoutKeeps(nodes: seq<NodeInfo>, id: string)
    ensures forall n :: n in Without(nodes, id) <==> n in nodes && n.nodeID != id
  {
    if nodes != [] {
      WithoutKeeps(nodes[..|nodes| - 1], id);
      assert nodes == nodes[..|nodes| - 1] + [nodes[|nodes| - 1]];
    }
  }

  lemma {:induction false} WithoutSound(c: Config, nodes: seq<NodeInfo>, id: string, now: int)
    requires AllSound(c, nodes, now)
    ensures AllSound(c, Without(nodes, id), now)
  {
    if nodes != [] {
      var init, n := nodes[..|nodes| - 1], nodes[|nodes| - 1];
      var kept := Without(init, id);
      assert nodes == init + [n];
      forall i | 0 <= i < |init| ensures Sound(c, init[i], IsFirst(init, i), now) {
        FirstInPrefix(init, [n], i);
        assert Sound(c, nodes[i], IsFirst(nodes, i), now);
      }
      WithoutSound(c, init, id, now);
      if n.nodeID != id {
        LastStaysFirst(init, n, id);
        assert Sound(c, nodes[|init|], IsFirst(nodes, |init|), now);
        SnocSound(c, kept, n, now);
      } else {
        assert kept + [] == kept;
      }
    }
  }

  lemma {:induction false} SnocSound(c: Config, nodes: seq<NodeInfo>, n: NodeInfo, now: int)
    requires AllSound(c, nodes, now) && Sound(c, n, IsFirst(nodes + [n], |nodes|), now)
    ensures AllSound(c, nodes + [n], now)
  {
    var r := nodes + [n];
    forall i | 0 <= i < |r| ensures Sound(c, r[i], IsFirst(r, i), now) {
      if i < |nodes| {
        FirstInPrefix(nodes, [n], i);
        assert Sound(c, nodes[i], IsFirst(nodes, i), now);
      }
    }
  }

  /** An entry that stays is the first of its ID exactly if it was before. */
  lemma {:induction false} LastStaysFirst(init: seq<NodeInfo>, n: NodeInfo, id: string)
    requires n.nodeID != id
    ensures IsFirst(Without(init, id) + [n], |Without(init, id)|) <==> IsFirst(init + [n], |init|)
  {
    var kept := Without(init, id);
    var r, all := kept + [n], init + [n];
    WithoutKeeps(init, id);
    if IsFirst(all, |init|) {
      forall j | 0 <= j < |kept| ensures r[j].nodeID != n.nodeID {
        assert kept[j] in init;
        var i :| 0 <= i < |init| && init[i] == kept[j];
        assert all[i].nodeID != all[|init|].nodeID;
      }
    }
    if IsFirst(r, |kept|) {
      forall i | 0 <= i < |init| ensures all[i].nodeID != n.nodeID {
        if init[i].nodeID != id {
          assert init[i] in kept;
          var j :| 0 <= j < |kept| && kept[j] == init[i];
          assert r[j].nodeID != r[|kept|].nodeID;
        }
      }
    }
  }

  lemma {:induction false} LaterSound(c: Config, nodes: seq<NodeInfo>, before: int, now: int)
    requires AllSound(c, nodes, before) && before <= now
    ensures AllSound(c, nodes, now)
  {
    forall i | 0 <= i < |nodes| ensures Sound(c, nodes[i], IsFirst(nodes, i), now) {
    }
  }

  lemma {:induction false} StepSound(c: Config, s: ClusterState, e: Event, before: int, now: int)
    requires AllSound(c, s.nodes, before) && before <= now
    ensures AllSound(c, Step(c, s, e, now).nodes, now)
  {
    LaterSound(c, s.nodes, before, now);
    match e
    case OwnHeartbeat(stats) => RefreshSound(c, s.nodes, c.nodeID, stats, before, now, false);
    case HealthCheck => CheckSound(c, s.nodes, before, now);
    case Received(JoinRequest(address, Some(p))) => JoinSound(c, s.nodes, JoinedNode(address, p, now), before, now);
    case Received(Heartbeat(Some(id), stats)) => RefreshSound(c, s.nodes, id, stats, before, now, true);
    case Received(Deregister(Some(id))) => WithoutSound(c, s.nodes, id, now);
    case Received(_) =>
  }

  /**
   * In every run on a clock that never steps back: an entry marked stale or offline has been silent longer
   * than that timeout, the manager's own entries stay active, and an entry that is not the first of its ID
   * keeps the heartbeat of its join.
   */
  lemma {:induction false} RunsAreSound(o: Origin, events: seq<Timed>, now: int)
    requires Monotone(o, events) && Clock(o, events) <= now
    ensures AllSound(o.config, StateAfter(o, events).nodes, now)
  {
    if events == [] {
      var nodes := StateAfter(o, events).nodes;
      assert forall i :: 0 <= i < |nodes| ==> Sound(o.config, nodes[i], IsFirst(nodes, i), now);
    } else {
      var before, last := events[..|events| - 1], events[|events| - 1];
      RunsAreSound(o, before, Clock(o, before));
      StepSound(o.config, StateAfter(o, before), last.event, Clock(o, before), last.time);
      LaterSound(o.config, StateAfter(o, events).nodes, last.time, now);
    }
  }

  // ----- health checks -----

  /** Right after a health check the status of every foreign entry is the one its silence deserves. */
  lemma {:induction false} CheckIsExact(o: Origin, events: seq<Timed>, now: int, i: nat)
    requires Monotone(o, events) && Clock(o, events) <= now
    requires i < |StateAfter(o, events).nodes|
    ensures var n := Step(o.config, StateAfter(o, events), HealthCheck, now).nodes[i];
            var silence := (now - n.lastHeartbeat) * 1_000_000;
            n.status == if n.nodeID == o.config.nodeID then Active
                        else if silence > o.config.nodeOfflineTimeout then Offline
                        else if silence > o.config.heartbeatTimeout then Stale
                        else Active
  {
    hide StateAfter, CheckNodes;
    var nodes := StateAfter(o, events).nodes;
    RunsAreSound(o, events, now);
    assert Sound(o.config, nodes[i], IsFirst(nodes, i), now);
  }

  function Severity(s: NodeStatus): int {
    match s
    case Offline => 2
    case Stale => 1
    case _ => 0
  }

  predicate IsHeartbeatOf(t: Timed, id: string) {
    t.event.Received? && t.event.message.Heartbeat? && t.event.message.nodeID == Some(id)
  }

  predicate IsQuiet(events: seq<Timed>, id: string) {
    forall i :: 0 <= i < |events| ==> !IsHeartbeatOf(events[i], id)
  }

  /** The IDs that some events deregister. */
  function Leaving(events: seq<Timed>): set<string> {
    if events == [] then {}
    else
      var before, e := Leaving(events[..|events| - 1]), events[|events| - 1].event;
      if e.Received? && e.message.Deregister? && e.message.leaving.Some? then before + {e.message.leaving.value} else before
  }

  function WithoutAll(nodes: seq<NodeInfo>, ids: set<string>): seq<NodeInfo> {
    if nodes == [] then []
    else if nodes[|nodes| - 1].nodeID in ids then WithoutAll(nodes[..|nodes| - 1], ids)
    else WithoutAll(nodes[..|nodes| - 1], ids) + [nodes[|nodes| - 1]]
  }

  /** The second is the first entry later on: who joined when is the same, and without a heartbeat it is no better off. */
  predicate Ages(n: NodeInfo, later: NodeInfo, quiet: bool) {
    && later.nodeID == n.nodeID && later.joinedAt == n.joinedAt && later.hostname == n.hostname
    && later.maximaAddress == n.maximaAddress && later.role == n.role
    && (quiet ==> Severity(later.status) >= Severity(n.status))
  }

  ghost predicate AgesAt(before: seq<NodeInfo>, after: seq<NodeInfo>, events: seq<Timed>, i: int) {
    0 <= i < |before| && i < |after| && Ages(before[i], after[i], IsQuiet(events, before[i].nodeID))
  }

  /** The entries are the first ones of the later list, in their order, each at most aged. */
  ghost predicate AllAge(before: seq<NodeInfo>, after: seq<NodeInfo>, events: seq<Timed>) {
    |before| <= |after| && forall i :: 0 <= i < |before| ==> AgesAt(before, after, events, i)
  }

  /** One event that deregisters nobody ages an entry. */
  lemma {:induction false} StepAges(c: Config, s: ClusterState, t: Timed, first: int, i: nat)
    requires AllSound(c, s.nodes, first) && first <= t.time && i < |s.nodes|
    requires !(t.event.Received? && t.event.message.Deregister? && t.event.message.leaving.Some?)
    ensures var after := Step(c, s, t.event, t.time).nodes;
            i < |after| && Ages(s.nodes[i], after[i], !IsHeartbeatOf(t, s.nodes[i].nodeID))
  {
    assert Sound(c, s.nodes[i], IsFirst(s.nodes, i), first);
    match t.event
    case OwnHeartbeat(stats) => RefreshAt(s.nodes, c.nodeID, stats, t.time, false, i);
    case HealthCheck =>
    case Received(Heartbeat(Some(id), stats)) => RefreshAt(s.nodes, id, stats, t.time, true, i);
    case Received(_) =>
  }

  lemma {:induction false} AgesFurther(n: NodeInfo, later: NodeInfo, last: NodeInfo, quiet: bool, stillQuiet: bool)
    requires Ages(n, later, quiet) && Ages(later, last, stillQuiet)
    ensures Ages(n, last, quiet && stillQuiet)
  {
  }

  lemma {:induction false} QuietStep(events: seq<Timed>, t: Timed, id: string)
    ensures IsQuiet(events + [t], id) <==> IsQuiet(events, id) && !IsHeartbeatOf(t, id)
  {
    var all := events + [t];
    assert all[|events|] == t;
    assert forall i :: 0 <= i < |events| ==> all[i] == events[i];
  }

  lemma {:induction false} WithoutJoin(xs: seq<NodeInfo>, ys: seq<NodeInfo>, id: string)
    ensures Without(xs + ys, id) == Without(xs, id) + Without(ys, id)
  {
    if ys == [] {
      assert xs + ys == xs;
    } else {
      assert (xs + ys)[..|xs + ys| - 1] == xs + ys[..|ys| - 1];
      WithoutJoin(xs, ys[..|ys| - 1], id);
    }
  }

  lemma {:induction false} WithoutOneMore(nodes: seq<NodeInfo>, ids: set<string>, id: string)
    ensures WithoutAll(nodes, ids + {id}) == Without(WithoutAll(nodes, ids), id)
  {
    if nodes != [] {
      var init, n := nodes[..|nodes| - 1], nodes[|nodes| - 1];
      WithoutOneMore(init, ids, id);
      if n.nodeID !in ids {
        assert (WithoutAll(init, ids) + [n])[..|WithoutAll(init, ids)|] == WithoutAll(init, ids);
      }
    }
  }

  lemma {:induction false} WithoutNone(nodes: seq<NodeInfo>)
    ensures WithoutAll(nodes, {}) == nodes
  {
    if nodes != [] {
      WithoutNone(nodes[..|nodes| - 1]);
    }
  }

  /** Removing an ID from a list and from its aged copy removes the same places. */
  lemma {:induction false} WithoutAges(xs: seq<NodeInfo>, ys: seq<NodeInfo>, events: seq<Timed>, id: string)
    requires |xs| == |ys| && AllAge(xs, ys, events)
    ensures |Without(xs, id)| == |Without(ys, id)| && AllAge(Without(xs, id), Without(ys, id), events)
  {
    hide Ages, IsQuiet;
    if xs != [] {
      var n := |xs| - 1;
      forall i | 0 <= i < n ensures AgesAt(xs[..n], ys[..n], events, i) {
        assert AgesAt(xs, ys, events, i);
      }
      WithoutAges(xs[..n], ys[..n], events, id);
      assert AgesAt(xs, ys, events, n) && ys[n].nodeID == xs[n].nodeID by { SameID(xs, ys, events, n); }
      AllAgeSnoc(Without(xs[..n], id), Without(ys[..n], id), events, xs[n], ys[n]);
    }
  }

  lemma {:induction false} SameID(xs: seq<NodeInfo>, ys: seq<NodeInfo>, events: seq<Timed>, i: nat)
    requires AllAge(xs, ys, events) && i < |xs|
    ensures AgesAt(xs, ys, events, i) && ys[i].nodeID == xs[i].nodeID
  {
  }

  lemma {:induction false} AllAgeSnoc(xs: seq<NodeInfo>, ys: seq<NodeInfo>, events: seq<Timed>, x: NodeInfo, y: NodeInfo)
    requires |xs| == |ys| && AllAge(xs, ys, events) && Ages(x, y, IsQuiet(events, x.nodeID))
    ensures AllAge(xs + [x], ys + [y], events)
    ensures AllAge(xs + [], ys + [], events)
  {
    hide Ages, IsQuiet;
    forall i | 0 <= i < |xs| + 1 ensures AgesAt(xs + [x], ys + [y], events, i) {
      if i < |xs| {
        assert AgesAt(xs, ys, events, i);
      }
    }
    assert xs + [] == xs && ys + [] == ys;
  }

  /** A deregistration takes its ID out of both lists, and leaves the rest of the later one behind. */
  lemma {:induction false} LeaveAges(before: seq<NodeInfo>, after: seq<NodeInfo>, events: seq<Timed>, id: string)
    requires AllAge(before, after, events)
    ensures AllAge(Without(before, id), Without(after, id), events)
  {
    hide Ages, IsQuiet, Without;
    var n := |before|;
    forall i | 0 <= i < n ensures AgesAt(before, after[..n], events, i) {
      assert AgesAt(before, after, events, i);
    }
    WithoutAges(before, after[..n], events, id);
    WithoutJoin(after[..n], after[n..], id);
    assert after == after[..n] + after[n..];
    var r, kept := Without(after, id), Without(after[..n], id);
    forall i | 0 <= i < |Without(before, id)| ensures AgesAt(Without(before, id), r, events, i) {
      assert AgesAt(Without(before, id), kept, events, i);
    }
  }

  lemma {:induction false} OneMoreEventAges(
    c: Config, before: seq<NodeInfo>, s: ClusterState, events: seq<Timed>, t: Timed, first: int)
    requires c.role == "master" && AllSound(c, s.nodes, first) && first <= t.time
    requires AllAge(WithoutAll(before, Leaving(events)), s.nodes, events)
    ensures AllAge(WithoutAll(before, Leaving(events + [t])), Step(c, s, t.event, t.time).nodes, events + [t])
  {
    var kept, after := WithoutAll(before, Leaving(events)), Step(c, s, t.event, t.time).nodes;
    assert (events + [t])[..|events|] == events;
    if t.event.Received? && t.event.message.Deregister? && t.event.message.leaving.Some? {
      var id := t.event.message.leaving.value;
      LeaveAges(kept, s.nodes, events, id);
      WithoutOneMore(before, Leaving(events), id);
      QuieterAges(Without(kept, id), after, events, t);
    } else {
      hide Ages, IsQuiet, AllSound, Step, WithoutAll;
      forall i | 0 <= i < |kept| ensures AgesAt(kept, after, events + [t], i) {
        assert AgesAt(kept, s.nodes, events, i);
        SameID(kept, s.nodes, events, i);
        StepAges(c, s, t, first, i);
        QuietStep(events, t, kept[i].nodeID);
        AgesFurther(kept[i], s.nodes[i], after[i], IsQuiet(events, kept[i].nodeID), !IsHeartbeatOf(t, kept[i].nodeID));
      }
      StepNotShorter(c, s, t);
    }
  }

  lemma {:induction false} QuieterAges(xs: seq<NodeInfo>, ys: seq<NodeInfo>, events: seq<Timed>, t: Timed)
    requires AllAge(xs, ys, events)
    ensures AllAge(xs, ys, events + [t])
  {
    forall i | 0 <= i < |xs| ensures AgesAt(xs, ys, events + [t], i) {
      assert AgesAt(xs, ys, events, i);
      QuietStep(events, t, xs[i].nodeID);
    }
  }

  lemma {:induction false} StepNotShorter(c: Config, s: ClusterState, t: Timed)
    requires !(t.event.Received? && t.event.message.Deregister? && t.event.message.leaving.Some?)
    ensures |Step(c, s, t.event, t.time).nodes| >= |s.nodes|
  {
  }

  /**
   * Over any stretch of a run of a master: the entries whose IDs are not deregistered stay in their order, and each
   * one's status only worsens unless a heartbeat message of its ID is handled.
   */
  lemma {:induction false} StatusOnlyWorsens(o: Origin, events: seq<Timed>, more: seq<Timed>)
    requires o.config.role == "master" && Monotone(o, events + more)
    ensures AllAge(WithoutAll(StateAfter(o, events).nodes, Leaving(more)), StateAfter(o, events + more).nodes, more)
  {
    hide StateAfter, Ages, AllSound;
    var nodes := StateAfter(o, events).nodes;
    if more == [] {
      assert events + more == events;
      WithoutNone(nodes);
      forall i | 0 <= i < |nodes| ensures AgesAt(nodes, nodes, [], i) {
        NothingAges(nodes[i]);
      }
    } else {
      var init, t := more[..|more| - 1], more[|more| - 1];
      var all := events + init;
      assert events + more == all + [t] && more == init + [t];
      MonotonePrefix(o, all, t);
      StatusOnlyWorsens(o, events, init);
      RunsAreSound(o, all, Clock(o, all));
      OneMoreEventAges(o.config, nodes, StateAfter(o, all), init, t, Clock(o, all));
      StateAfterOneMore(o, all, t);
    }
  }

  lemma {:induction false} NothingAges(n: NodeInfo)
    ensures Ages(n, n, true) && Ages(n, n, false)
  {
  }

  lemma {:induction false} StateAfterOneMore(o: Origin, events: seq<Timed>, t: Timed)
    ensures StateAfter(o, events + [t]) == Step(o.config, StateAfter(o, events), t.event, t.time)
  {
    assert (events + [t])[..|events|] == events;
  }

  lemma {:induction false} MonotonePrefix(o: Origin, events: seq<Timed>, t: Timed)
    requires Monotone(o, events + [t])
    ensures Monotone(o, events) && Clock(o, events) <= t.time
  {
    var all := events + [t];
    assert forall i :: 0 <= i < |events| ==> events[i] == all[i];
    assert all[|events|] == t;
  }

  /** A later check makes an earlier one superfluous, whatever the nodes. */
  lemma {:induction false} LaterCheckAbsorbs(c: Config, nodes: seq<NodeInfo>, now: int, later: int)
    requires now <= later
    ensures CheckNodes(c, CheckNodes(c, nodes, now), later) == CheckNodes(c, nodes, later)
  {
    hide CheckNodes;
    forall i | 0 <= i < |nodes|
      ensures CheckNode(c, CheckNode(c, nodes[i], now), later) == CheckNode(c, nodes[i], later)
    {
    }
  }
}
