/** Cluster membership, replica selection and the failure detector. */
module Cluster {
  import opened Optional
  import opened Bytes
  import opened Ring
  import opened HashRing

  datatype Health = UP | SUSPECT | DOWN
  datatype NodeInfo = NodeInfo(id: NodeId, status: Health)

  /** `node_index_`: every configured id, at its one position. */
  predicate Indexes(index: map<NodeId, nat>, nodes: seq<NodeInfo>) {
    && (forall id :: id in index ==> index[id] < |nodes| && nodes[index[id]].id == id)
    && (forall i :: 0 <= i < |nodes| ==> nodes[i].id in index && index[nodes[i].id] == i)
  }

  predicate Alive(index: map<NodeId, nat>, nodes: seq<NodeInfo>, id: NodeId)
    requires Indexes(index, nodes)
  {
    id in index && nodes[index[id]].status != DOWN
  }

  /** The members of `ids` that are configured and not DOWN, in order. */
  function Live(index: map<NodeId, nat>, nodes: seq<NodeInfo>, ids: seq<NodeId>): seq<NodeId>
    requires Indexes(index, nodes)
  {
    if ids == [] then []
    else Live(index, nodes, ids[..|ids| - 1]) + (if Alive(index, nodes, ids[|ids| - 1]) then [ids[|ids| - 1]] else [])
  }

  lemma LiveSnoc(index: map<NodeId, nat>, nodes: seq<NodeInfo>, ids: seq<NodeId>, id: NodeId)
    requires Indexes(index, nodes)
    ensures Live(index, nodes, ids + [id]) ==
            Live(index, nodes, ids) + if Alive(index, nodes, id) then [id] else []
  {
    assert (ids + [id])[..|ids|] == ids;
  }

  function WithStatus(nodes: seq<NodeInfo>, i: nat, status: Health): (r: seq<NodeInfo>)
    requires i < |nodes|
  {
    nodes[i := nodes[i].(status := status)]
  }

  /** The points of each node's virtual nodes. */
  function PointsOf(virtualNodes: nat, signedChar: bool): NodeId -> seq<Point> {
    id => VnodePoints(signedChar, id, virtualNodes)
  }

  /** Position `i` is the last at which `id` is configured. */
  predicate LastAt(ids: seq<NodeId>, id: NodeId, i: nat) {
    i < |ids| && ids[i] == id && forall j :: i < j < |ids| ==> ids[j] != id
  }

  /** The index finds each configured id, at its last line where the configuration repeats it. */
  predicate IndexesLast(index: map<NodeId, nat>, ids: seq<NodeId>) {
    && (forall id :: id in index ==> LastAt(ids, id, index[id]))
    && (forall i :: 0 <= i < |ids| ==> ids[i] in index)
  }

  lemma IndexesExactly(index: map<NodeId, nat>, ids: seq<NodeId>, nodes: seq<NodeInfo>)
    requires IndexesLast(index, ids)
    requires |nodes| == |ids| && forall i :: 0 <= i < |ids| ==> nodes[i] == NodeInfo(ids[i], UP)
    ensures Indexes(index, nodes) <==> Distinct(ids)
  {
    if Indexes(index, nodes) {
      forall i, j | 0 <= i < j < |ids|
        ensures ids[i] != ids[j]
      {
        assert index[nodes[i].id] == i && index[nodes[j].id] == j;
      }
    }
  }

  method LoadConfig(ids: seq<NodeId>) returns (nodes: seq<NodeInfo>, index: map<NodeId, nat>)
    ensures |nodes| == |ids| && forall i :: 0 <= i < |ids| ==> nodes[i] == NodeInfo(ids[i], UP)
    ensures IndexesLast(index, ids)
    ensures Indexes(index, nodes) <==> Distinct(ids)
  {
    nodes, index := [], map[];
    for i := 0 to |ids|
      invariant |nodes| == i && forall j :: 0 <= j < i ==> nodes[j] == NodeInfo(ids[j], UP)
      invariant IndexesLast(index, ids[..i])
    {
      nodes := nodes + [NodeInfo(ids[i], UP)];
      index := index[ids[i] := |nodes| - 1];
    }
    assert ids[..|ids|] == ids;
    IndexesExactly(index, ids, nodes);
  }

  /** `initialize`: every configured node joins the ring, in order. */
  method Initialize(ids: seq<NodeId>, virtualNodes: nat, signedChar: bool) returns (ring: ConsistentHashRing)
    ensures fresh(ring) && ring.Valid() && ring.nodes == Dedup(ids) && ring.signedChar == signedChar
    ensures ring.ring == Build(PointsOf(virtualNodes, signedChar), ids)
  {
    ring := new ConsistentHashRing(virtualNodes, signedChar);
    for i := 0 to |ids|
      invariant fresh(ring) && ring.Valid() && ring.signedChar == signedChar && ring.virtualNodes == virtualNodes
      invariant ring.nodes == Dedup(ids[..i]) && ring.ring == Build(PointsOf(virtualNodes, signedChar), ids[..i])
    {
      assert ids[..i + 1][..i] == ids[..i];
      ring.AddNode(ids[i]);
    }
    assert ids[..|ids|] == ids;
  }

  /** `infos` are current entries of the node table, not DOWN, with the given ids in order. */
  predicate Lists(infos: seq<NodeInfo>, nodes: seq<NodeInfo>, ids: seq<NodeId>) {
    && |infos| == |ids|
    && forall i :: 0 <= i < |infos| ==> infos[i].id == ids[i] && infos[i] in nodes && infos[i].status != DOWN
  }

  class ClusterManager {
    const selfId: NodeId
    const ring: ConsistentHashRing
    const index: map<NodeId, nat>
    var nodes: seq<NodeInfo>

    ghost predicate Valid()
      reads this, ring
    {
      && Indexes(index, nodes) && ring.Valid()
      && forall id :: id in ring.nodes ==> id in index
    }

    /** The configuration as a list of distinct ids; every node starts UP and joins the ring. */
    constructor (selfId: NodeId, ids: seq<NodeId>, virtualNodes: nat, signedChar: bool)
      requires Distinct(ids)
      ensures Valid() && fresh(ring) && this.selfId == selfId
      ensures |nodes| == |ids| && forall i :: 0 <= i < |ids| ==> nodes[i] == NodeInfo(ids[i], UP)
      ensures ring.nodes == ids && ring.signedChar == signedChar
      ensures ring.ring == Build(PointsOf(virtualNodes, signedChar), ids)
    {
      var ns, ix := LoadConfig(ids);
      var r := Initialize(ids, virtualNodes, signedChar);
      DedupOfDistinct(ids);
      this.selfId := selfId;
      ring, nodes, index := r, ns, ix;
    }

    method GetNode(id: NodeId) returns (node: Option<NodeInfo>)
      requires Valid()
      ensures node == if id in index then Some(nodes[index[id]]) else None
      ensures node.Some? <==> exists i :: 0 <= i < |nodes| && nodes[i].id == id
    {
      if id in index {
        assert nodes[index[id]].id == id;
        return Some(nodes[index[id]]);
      }
      return None;
    }

    method SetNodeStatus(id: NodeId, status: Health)
      requires Valid()
      modifies this`nodes
      ensures Valid()
      ensures nodes == if id in index then WithStatus(old(nodes), index[id], status) else old(nodes)
    {
      if id in index {
        nodes := WithStatus(nodes, index[id], status);
      }
    }

    method IsLocalKey(key: Bytes) returns (local: bool)
      requires Valid()
      ensures local <==> Primary(ring.ring, PointOf(ring.signedChar, key)) == selfId
    {
      var id := ring.GetNode(key);
      local := id == selfId;
    }

    /** The first `count` preference nodes that are not DOWN; a DOWN one is not replaced. */
    method GetReplicaNodes(key: Bytes, count: nat) returns (result: seq<NodeInfo>)
      requires Valid()
      ensures var ids := Take(Preference(ring.ring, PointOf(ring.signedChar, key)), count);
              Lists(result, nodes, Live(index, nodes, ids))
    {
      var ids := ring.GetNodes(key, count);
      result := SelectLive(ids);
    }

    method SelectLive(ids: seq<NodeId>) returns (result: seq<NodeInfo>)
      requires Valid()
      ensures Lists(result, nodes, Live(index, nodes, ids))
    {
      result := [];
      for i := 0 to |ids|
        invariant Lists(result, nodes, Live(index, nodes, ids[..i]))
      {
        LiveSnoc(index, nodes, ids[..i], ids[i]);
        assert ids[..i + 1] == ids[..i] + [ids[i]];
        var node := GetNode(ids[i]);
        if node.Some? && node.value.status != DOWN {
          result := result + [node.value];
        }
      }
      assert ids[..|ids|] == ids;
    }
  }

  // ---- Failure detection ----

  /** One ping's effect on a peer. */
  function NextHealth(h: Health, success: bool): Health {
    if success then UP else if h == UP then SUSPECT else DOWN
  }

  /** The failed pings at the end of a history. */
  function TrailingFailures(pings: seq<bool>): nat {
    if pings == [] || pings[|pings| - 1] then 0 else 1 + TrailingFailures(pings[..|pings| - 1])
  }

  function Classify(failures: nat): Health {
    if failures == 0 then UP else if failures == 1 then SUSPECT else DOWN
  }

  /** What node `i` answered in each round. */
  function Column(rounds: seq<seq<bool>>, i: nat): (c: seq<bool>)
    requires forall r :: 0 <= r < |rounds| ==> i < |rounds[r]|
    ensures |c| == |rounds|
  {
    seq(|rounds|, r requires 0 <= r < |rounds| => rounds[r][i])
  }

  /** Exactly that many pings at the end failed, and the one before them did not. */
  lemma {:induction false} TrailingFailuresIs(pings: seq<bool>)
    ensures var n := TrailingFailures(pings);
            && n <= |pings| && (forall i :: |pings| - n <= i < |pings| ==> !pings[i])
            && (n < |pings| ==> pings[|pings| - n - 1])
    decreases |pings|
  {
    if pings != [] && !pings[|pings| - 1] {
      TrailingFailuresIs(pings[..|pings| - 1]);
    }
  }

  lemma NextClassified(pings: seq<bool>, success: bool)
    ensures NextHealth(Classify(TrailingFailures(pings)), success) == Classify(TrailingFailures(pings + [success]))
  {
    assert (pings + [success])[..|pings|] == pings;
  }

  class HealthMonitor {
    const cluster: ClusterManager

    constructor (cluster: ClusterManager)
      ensures this.cluster == cluster
    {
      this.cluster := cluster;
    }

    /** One pass of the loop over all nodes; `pings[i]` is what pinging node `i` returns. */
    method Round(pings: seq<bool>)
      requires cluster.Valid() && |pings| == |cluster.nodes|
      modifies cluster`nodes
      ensures cluster.Valid() && |cluster.nodes| == |pings|
      ensures forall i :: 0 <= i < |pings| ==>
                var was := old(cluster.nodes)[i];
                cluster.nodes[i] ==
                  if was.id == cluster.selfId then was else was.(status := NextHealth(was.status, pings[i]))
    {
      for n := 0 to |pings|
        invariant cluster.Valid() && |cluster.nodes| == |pings|
        invariant forall i :: n <= i < |pings| ==> cluster.nodes[i] == old(cluster.nodes)[i]
        invariant forall i :: 0 <= i < n ==>
          var was := old(cluster.nodes)[i];
          cluster.nodes[i] ==
            if was.id == cluster.selfId then was else was.(status := NextHealth(was.status, pings[i]))
      {
        var node := cluster.nodes[n];
        if node.id == cluster.selfId { continue; }
        var current := cluster.GetNode(node.id);
        if current.None? { continue; }
        if pings[n] {
          if current.value.status == DOWN || current.value.status == SUSPECT {
            cluster.SetNodeStatus(node.id, UP);
          }
        } else if current.value.status == UP {
          cluster.SetNodeStatus(node.id, SUSPECT);
        } else if current.value.status == SUSPECT {
          cluster.SetNodeStatus(node.id, DOWN);
        }
      }
    }

    /** The monitor from start to stop, as the only writer of statuses. */
    method MonitorLoop(rounds: seq<seq<bool>>)
      requires cluster.Valid()
      requires forall r :: 0 <= r < |rounds| ==> |rounds[r]| == |cluster.nodes|
      requires forall i :: 0 <= i < |cluster.nodes| ==> cluster.nodes[i].status == UP
      modifies cluster`nodes
      ensures cluster.Valid() && Ids(cluster.nodes) == old(Ids(cluster.nodes))
      ensures Reflects(cluster.nodes, cluster.selfId, rounds)
    {
      for r := 0 to |rounds|
        invariant cluster.Valid() && Ids(cluster.nodes) == old(Ids(cluster.nodes))
        invariant |cluster.nodes| == |old(cluster.nodes)| && Reflects(cluster.nodes, cluster.selfId, rounds[..r])
      {
        ghost var before := cluster.nodes;
        Round(rounds[r]);
        ReflectsNext(before, cluster.nodes, cluster.selfId, rounds[..r], rounds[r]);
        assert rounds[..r + 1] == rounds[..r] + [rounds[r]];
      }
      assert rounds[..|rounds|] == rounds;
    }
  }

  function Ids(nodes: seq<NodeInfo>): (s: seq<NodeId>)
    ensures |s| == |nodes| && forall i :: 0 <= i < |nodes| ==> s[i] == nodes[i].id
  {
    seq(|nodes|, i requires 0 <= i < |nodes| => nodes[i].id)
  }

  /** Every peer's status is decided by its trailing failed pings; the node itself is UP. */
  predicate Reflects(nodes: seq<NodeInfo>, selfId: NodeId, rounds: seq<seq<bool>>) {
    && (forall r :: 0 <= r < |rounds| ==> |rounds[r]| == |nodes|)
    && forall i :: 0 <= i < |nodes| ==>
         nodes[i].status == if nodes[i].id == selfId then UP else Classify(TrailingFailures(Column(rounds, i)))
  }

  lemma ReflectsNext(before: seq<NodeInfo>, after: seq<NodeInfo>, selfId: NodeId, rounds: seq<seq<bool>>,
                     pings: seq<bool>)
    requires Reflects(before, selfId, rounds) && |before| == |after| == |pings|
    requires forall i :: 0 <= i < |before| ==>
               after[i] == if before[i].id == selfId then before[i]
                           else before[i].(status := NextHealth(before[i].status, pings[i]))
    ensures Reflects(after, selfId, rounds + [pings])
  {
    forall i | 0 <= i < |after|
      ensures after[i].status ==
              if after[i].id == selfId then UP else Classify(TrailingFailures(Column(rounds + [pings], i)))
    {
      NextClassified(Column(rounds, i), pings[i]);
      assert Column(rounds + [pings], i) == Column(rounds, i) + [pings[i]];
    }
  }

  lemma {:induction false} LiveMembers(index: map<NodeId, nat>, nodes: seq<NodeInfo>, ids: seq<NodeId>)
    requires Indexes(index, nodes)
    ensures forall id :: id in Live(index, nodes, ids) <==> id in ids && Alive(index, nodes, id)
    decreases |ids|
  {
    if ids != [] {
      LiveMembers(index, nodes, ids[..|ids| - 1]);
      assert ids == ids[..|ids| - 1] + [ids[|ids| - 1]];
    }
  }

  /** Replica selection drops exactly the peers with two or more trailing failed pings, never the node itself. */
  lemma ReplicasAfterPings(index: map<NodeId, nat>, nodes: seq<NodeInfo>, selfId: NodeId, rounds: seq<seq<bool>>,
                           ids: seq<NodeId>, id: NodeId)
    requires Indexes(index, nodes) && id in ids && id in index
    requires Reflects(nodes, selfId, rounds)
    ensures id in Live(index, nodes, ids) <==> id == selfId || TrailingFailures(Column(rounds, index[id])) < 2
  {
    LiveMembers(index, nodes, ids);
  }
}
