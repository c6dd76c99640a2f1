/**
 * The cluster manager: a node list kept by join, heartbeat and deregister messages, by the manager's own
 * heartbeat and by a periodic health check. Every handler is one step with one clock reading.
 */
module ClusterManager {
  import opened Wrappers
  import Text

  datatype NodeStatus = Active | Stale | Offline | Pending

  datatype NodeStats = NodeStats(cpu: real, ram: real, temp: real, disk: real, networkIn: real, networkOut: real)

  const NO_STATS := NodeStats(0.0, 0.0, 0.0, 0.0, 0.0, 0.0)

  datatype NodeInfo = NodeInfo(
    nodeID: string,
    maximaAddress: string,
    hostname: string,
    role: string,
    status: NodeStatus,
    lastHeartbeat: int,
    joinedAt: int,
    metrics: NodeStats,
    capabilities: seq<string>,
    version: string)

  datatype ClusterState = ClusterState(
    clusterID: string,
    version: int,
    masterNodeID: string,
    masterAddress: string,
    nodes: seq<NodeInfo>,
    createdAt: int,
    lastUpdated: int)

  /** Timeouts are durations in nanoseconds; heartbeats are clock readings in milliseconds. */
  datatype Config = Config(
    nodeID: string, role: string, clusterID: string, heartbeatTimeout: int, nodeOfflineTimeout: int)

  datatype JoinPayload = JoinPayload(nodeID: string, hostname: string, version: string, capabilities: seq<string>)

  /** A message by its type; None stands for a payload that does not parse. */
  datatype Message =
    | JoinRequest(senderAddress: string, join: Option<JoinPayload>)
    | Heartbeat(nodeID: Option<string>, metrics: NodeStats)
    | Deregister(leaving: Option<string>)
    | Unknown(kind: string)

  // ----- the steps on values -----

  function MasterState(c: Config, localAddr: string, stats: NodeStats, now: int): ClusterState {
    ClusterState(
      if c.clusterID == "" then "cluster-" + Text.Decimal(now) else c.clusterID,
      1, c.nodeID, localAddr,
      [NodeInfo(c.nodeID, localAddr, c.nodeID, "master", Active, now, now, stats, [], "3.0.0")],
      now, now)
  }

  function JoinedNode(senderAddress: string, p: JoinPayload, now: int): NodeInfo {
    NodeInfo(p.nodeID, senderAddress, p.hostname, "worker", Active, now, now, NO_STATS, p.capabilities, p.version)
  }

  /** The nodes after the first entry of an ID is refreshed; `activate` also resets its status. */
  function Refresh(nodes: seq<NodeInfo>, id: string, stats: NodeStats, now: int, activate: bool): (r: seq<NodeInfo>)
    ensures |r| == |nodes|
  {
    if nodes == [] then []
    else if nodes[0].nodeID == id then
      var n := nodes[0].(lastHeartbeat := now, metrics := stats);
      [if activate then n.(status := Active) else n] + nodes[1..]
    else [nodes[0]] + Refresh(nodes[1..], id, stats, now, activate)
  }

  function Without(nodes: seq<NodeInfo>, id: string): seq<NodeInfo> {
    if nodes == [] then []
    else Without(nodes[..|nodes| - 1], id) + if nodes[|nodes| - 1].nodeID != id then [nodes[|nodes| - 1]] else []
  }

  predicate Exceeds(elapsed: int, timeout: int) {
    elapsed * 1_000_000 > timeout
  }

  /** The health check leaves a node that is not silent as it is. */
  function CheckNode(c: Config, n: NodeInfo, now: int): NodeInfo {
    var elapsed := now - n.lastHeartbeat;
    if n.nodeID == c.nodeID then n
    else if Exceeds(elapsed, c.nodeOfflineTimeout) then n.(status := Offline)
    else if Exceeds(elapsed, c.heartbeatTimeout) then n.(status := Stale)
    else n
  }

  function CheckNodes(c: Config, nodes: seq<NodeInfo>, now: int): (r: seq<NodeInfo>)
    ensures |r| == |nodes|
    ensures forall i :: 0 <= i < |r| ==> r[i] == CheckNode(c, nodes[i], now)
  {
    if nodes == [] then [] else [CheckNode(c, nodes[0], now)] + CheckNodes(c, nodes[1..], now)
  }

  datatype Event = Received(message: Message) | OwnHeartbeat(stats: NodeStats) | HealthCheck

  /** The state after an event at a clock reading. */
  function Step(c: Config, s: ClusterState, e: Event, now: int): ClusterState {
    match e
    case OwnHeartbeat(stats) => s.(nodes := Refresh(s.nodes, c.nodeID, stats, now, false))
    case HealthCheck => s.(nodes := CheckNodes(c, s.nodes, now))
    case Received(JoinRequest(address, Some(p))) =>
      if c.role != "master" then s
      else s.(nodes := s.nodes + [JoinedNode(address, p, now)], version := s.version + 1, lastUpdated := now)
    case Received(Heartbeat(Some(id), stats)) => s.(nodes := Refresh(s.nodes, id, stats, now, true))
    case Received(Deregister(Some(id))) =>
      if c.role != "master" then s
      else s.(nodes := Without(s.nodes, id), version := s.version + 1, lastUpdated := now)
    case Received(_) => s
  }

  function StepOption(c: Config, s: Option<ClusterState>, e: Event, now: int): Option<ClusterState> {
    if s.None? then None else Some(Step(c, s.value, e, now))
  }

  // ----- the manager -----

  class Manager {
    const config: Config
    const localAddr: string
    var state: Option<ClusterState>

    constructor (config: Config, localAddr: string)
      ensures this.config == config && this.localAddr == localAddr && state == None
    {
      this.config := config;
      this.localAddr := localAddr;
      state := None;
    }

    /** The part of `Start` that touches the state: only a master has one. */
    method Start(stats: NodeStats, now: int)
      modifies this
      ensures state == if config.role == "master" then Some(MasterState(config, localAddr, stats, now)) else old(state)
    {
      if config.role == "master" {
        state := Some(MasterState(config, localAddr, stats, now));
      }
    }

    method GetState() returns (r: Option<ClusterState>)
      ensures r == state
    {
      r := state;
    }

    method SendHeartbeat(stats: NodeStats, now: int)
      modifies this
      ensures state == StepOption(config, old(state), OwnHeartbeat(stats), now)
    {
      if state.None? {
        return;
      }
      var nodes := RefreshFirst(state.value.nodes, config.nodeID, stats, now, false);
      state := Some(state.value.(nodes := nodes));
    }

    method HandleMessage(message: Message, now: int)
      modifies this
      ensures state == StepOption(config, old(state), Received(message), now)
    {
      match message {
        case JoinRequest(address, join) => HandleJoinRequest(address, join, now);
        case Heartbeat(id, stats) => HandleHeartbeat(id, stats, now);
        case Deregister(id) => HandleDeregister(id, now);
        case Unknown(_) =>
      }
    }

    method HandleJoinRequest(address: string, join: Option<JoinPayload>, now: int)
      modifies this
      ensures state == StepOption(config, old(state), Received(JoinRequest(address, join)), now)
    {
      if config.role != "master" || state.None? || join.None? {
        return;
      }
      var p := join.value;
      var newNode := NodeInfo(
        p.nodeID, address, p.hostname, "worker", Active, now, now, NO_STATS, p.capabilities, p.version);
      var s := state.value;
      state := Some(s.(nodes := s.nodes + [newNode], version := s.version + 1, lastUpdated := now));
    }

    method HandleHeartbeat(id: Option<string>, stats: NodeStats, now: int)
      modifies this
      ensures state == StepOption(config, old(state), Received(Heartbeat(id, stats)), now)
    {
      if state.None? || id.None? {
        return;
      }
      var nodes := RefreshFirst(state.value.nodes, id.value, stats, now, true);
      state := Some(state.value.(nodes := nodes));
    }

    method HandleDeregister(id: Option<string>, now: int)
      modifies this
      ensures state == StepOption(config, old(state), Received(Deregister(id)), now)
    {
      if config.role != "master" || state.None? || id.None? {
        return;
      }
      var s := state.value;
      var filtered := [];
      for i := 0 to |s.nodes|
        invariant filtered == Without(s.nodes[..i], id.value)
      {
        assert s.nodes[..i + 1][..i] == s.nodes[..i];
        if s.nodes[i].nodeID != id.value {
          filtered := filtered + [s.nodes[i]];
        }
      }
      assert s.nodes[..|s.nodes|] == s.nodes;
      state := Some(s.(nodes := filtered, version := s.version + 1, lastUpdated := now));
    }

    method CheckNodeHealth(now: int)
      modifies this
      ensures state == StepOption(config, old(state), HealthCheck, now)
    {
      if state.None? {
        return;
      }
      var nodes := state.value.nodes;
      ghost var before := nodes;
      for i := 0 to |nodes|
        invariant |nodes| == |before|
        invariant forall j :: 0 <= j < i ==> nodes[j] == CheckNode(config, before[j], now)
        invariant forall j :: i <= j < |nodes| ==> nodes[j] == before[j]
      {
        if nodes[i].nodeID == config.nodeID {
          continue;
        }
        var elapsed := now - nodes[i].lastHeartbeat;
        if Exceeds(elapsed, config.nodeOfflineTimeout) {
          if nodes[i].status != Offline {
            nodes := nodes[i := nodes[i].(status := Offline)];
          }
        } else if Exceeds(elapsed, config.heartbeatTimeout) {
          if nodes[i].status != Stale {
            nodes := nodes[i := nodes[i].(status := Stale)];
          }
        }
      }
      assert nodes == CheckNodes(config, before, now);
      state := Some(state.value.(nodes := nodes));
    }
  }

  lemma {:induction false} RefreshFrom(
    nodes: seq<NodeInfo>, id: string, stats: NodeStats, now: int, activate: bool, i: nat)
    requires i < |nodes|
    ensures Refresh(nodes[i..], id, stats, now, activate) ==
            if nodes[i].nodeID == id then
              var n := nodes[i].(lastHeartbeat := now, metrics := stats);
              [if activate then n.(status := Active) else n] + nodes[i + 1..]
            else [nodes[i]] + Refresh(nodes[i + 1..], id, stats, now, activate)
  {
    assert nodes[i..][1..] == nodes[i + 1..];
  }

  /** The loop of both heartbeat handlers: it stops at the first entry of the ID. */
  method RefreshFirst(nodes: seq<NodeInfo>, id: string, stats: NodeStats, now: int, activate: bool)
    returns (r: seq<NodeInfo>)
    ensures r == Refresh(nodes, id, stats, now, activate)
  {
    hide Refresh;
    r := nodes;
    assert nodes[0..] == nodes;
    for i := 0 to |nodes|
      invariant r == nodes
      invariant Refresh(nodes, id, stats, now, activate) == nodes[..i] + Refresh(nodes[i..], id, stats, now, activate)
    {
      RefreshFrom(nodes, id, stats, now, activate, i);
      assert nodes[..i + 1] == nodes[..i] + [nodes[i]];
      if nodes[i].nodeID == id {
        var n := nodes[i].(lastHeartbeat := now, metrics := stats);
        r := nodes[i := if activate then n.(status := Active) else n];
        break;
      }
    }
  }
}
