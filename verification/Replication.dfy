/**
 Quorum replication. A peer answers a forwarded write by replicating it again, so one request unfolds
 into a tree of handler runs. `Fate` is such a tree: any run that ends, at any depth, with whatever
 connections fail and whatever each handler believes about the others.
 */
module Replication {
  import opened Optional
  import opened Bytes
  import opened Store
  import opened Ring
  import opened HashRing
  import Cluster

  /** What becomes of one forwarded request. */
  datatype Fate =
    | Unreachable
    | Reached(down: set<NodeId>, fates: seq<Fate>, replyLost: bool)

  /** What the nodes have in common; each has its own quorum. */
  datatype Setup = Setup(ring: Entries, signedChar: bool, factor: nat, quorum: NodeId -> nat)

  type Stores = map<NodeId, Map>

  function StoreAt(stores: Stores, n: NodeId): Map {
    if n in stores then stores[n] else map[]
  }

  /** The first `replication_factor` nodes of the key's preference list. */
  function Homes(setup: Setup, key: Key): seq<NodeId> {
    Take(Preference(setup.ring, PointOf(setup.signedChar, key)), setup.factor)
  }

  function Filter(s: seq<NodeId>, self: NodeId, down: set<NodeId>): seq<NodeId> {
    if s == [] then []
    else Filter(s[..|s| - 1], self, down) +
         (if s[|s| - 1] == self || s[|s| - 1] !in down then [s[|s| - 1]] else [])
  }

  /** `getReplicaNodes` at `self`: DOWN nodes are dropped, and a node never sees itself DOWN. */
  function Replicas(setup: Setup, key: Key, self: NodeId, down: set<NodeId>): seq<NodeId> {
    Filter(Homes(setup, key), self, down)
  }

  /** The stores after a handler run, and the nodes it counted. */
  datatype Written = Written(stores: Stores, acks: seq<NodeId>)

  /** The local write: a put counts if the store takes it, a delete always. */
  function WriteLocal(stores: Stores, self: NodeId, u: Mutation, replicas: seq<NodeId>): Written {
    if self !in replicas then Written(stores, [])
    else Written(stores[self := Apply(StoreAt(stores, self), u)], if Accepted(u) then [self] else [])
  }

  /** `handlePut` or `handleDelete` at `self`. */
  function Write(setup: Setup, stores: Stores, self: NodeId, u: Mutation, down: set<NodeId>, fates: seq<Fate>): Written
    decreases fates, 1
  {
    var replicas := Replicas(setup, u.key, self, down);
    var mine := WriteLocal(stores, self, u, replicas);
    var others := ForwardAll(setup, mine.stores, Erase(replicas, self), u, fates);
    Written(others.stores, mine.acks + others.acks)
  }

  /** `replicateToNodes`; where the tree ends, nothing is reached. */
  function ForwardAll(setup: Setup, stores: Stores, peers: seq<NodeId>, u: Mutation, fates: seq<Fate>): Written
    decreases fates, 0
  {
    if peers == [] || fates == [] then Written(stores, [])
    else
      var one := Forward(setup, stores, peers[0], u, fates[0]);
      var rest := ForwardAll(setup, one.stores, peers[1..], u, fates[1..]);
      Written(rest.stores, one.acks + rest.acks)
  }

  /** `forwardRequest`: a lost reply looks like an unreachable peer, but the peer has acted. */
  function Forward(setup: Setup, stores: Stores, node: NodeId, u: Mutation, fate: Fate): Written
    decreases fate
  {
    match fate
    case Unreachable => Written(stores, [])
    case Reached(down, fates, replyLost) =>
      var w := Write(setup, stores, node, u, down, fates);
      Written(w.stores, if !replyLost && |w.acks| >= setup.quorum(node) then [node] else [])
  }

  function Answer(setup: Setup, self: NodeId, w: Written): Response {
    Response(if |w.acks| >= setup.quorum(self) then OK else ERROR, [])
  }

  // ---- Lists of replicas ----

  lemma {:induction false} FilterIs(s: seq<NodeId>, self: NodeId, down: set<NodeId>)
    requires Distinct(s)
    ensures Distinct(Filter(s, self, down))
    ensures forall x :: x in Filter(s, self, down) <==> x in s && (x == self || x !in down)
    decreases |s|
  {
    if s != [] {
      var init, x := s[..|s| - 1], s[|s| - 1];
      FilterIs(init, self, down);
      assert s == init + [x];
      assert x !in init;
    }
  }

  lemma HomesDistinct(setup: Setup, key: Key)
    ensures Distinct(Homes(setup, key)) && |Homes(setup, key)| <= setup.factor
  {
    PreferenceIs(setup.ring, PointOf(setup.signedChar, key));
  }

  /** A key has as many homes as the factor asks for, or all owners if there are fewer. */
  lemma HomesCount(setup: Setup, key: Key)
    ensures var owners := |Elements(Owners(setup.ring))|;
            |Homes(setup, key)| == if setup.factor < owners then setup.factor else owners
    ensures Homes(setup, key) <= Preference(setup.ring, PointOf(setup.signedChar, key))
  {
    TakeIs(setup.ring, PointOf(setup.signedChar, key), setup.factor, setup.factor);
  }

  /** Filtering looks at one node at a time and keeps their order. */
  lemma {:induction false} FilterAppend(a: seq<NodeId>, b: seq<NodeId>, self: NodeId, down: set<NodeId>)
    ensures Filter(a + b, self, down) == Filter(a, self, down) + Filter(b, self, down)
    decreases |b|
  {
    if b == [] {
      assert a + b == a;
    } else {
      FilterAppend(a, b[..|b| - 1], self, down);
      assert (a + b)[..|a + b| - 1] == a + b[..|b| - 1];
    }
  }

  /** DOWN filtering only shrinks the list: no node outside the homes ever takes part. */
  lemma ReplicasAreHomes(setup: Setup, key: Key, self: NodeId, down: set<NodeId>)
    ensures var r := Replicas(setup, key, self, down);
            && Distinct(r) && Distinct(Erase(r, self))
            && (forall x :: x in r ==> x in Homes(setup, key))
            && (self in r <==> self in Homes(setup, key))
            && (forall x :: x in Erase(r, self) <==> x in r && x != self)
  {
    HomesDistinct(setup, key);
    FilterIs(Homes(setup, key), self, down);
    EraseMembers(Replicas(setup, key, self, down), self);
    EraseDistinct(Replicas(setup, key, self, down), self);
  }

  ghost function DownIn(nodes: seq<Cluster.NodeInfo>): set<NodeId> {
    set i | 0 <= i < |nodes| && nodes[i].status == Cluster.DOWN :: nodes[i].id
  }

  /** Where every home is configured and the node sees itself up, this is the list `getReplicaNodes` returns. */
  lemma {:induction false} FilterIsLive(index: map<NodeId, nat>, nodes: seq<Cluster.NodeInfo>, self: NodeId,
                                        ids: seq<NodeId>)
    requires Cluster.Indexes(index, nodes)
    requires forall id :: id in ids ==> id in index
    requires self in index ==> nodes[index[self]].status == Cluster.UP
    ensures Filter(ids, self, DownIn(nodes)) == Cluster.Live(index, nodes, ids)
    decreases |ids|
  {
    if ids != [] {
      var init, x := ids[..|ids| - 1], ids[|ids| - 1];
      FilterIsLive(index, nodes, self, init);
      if x in DownIn(nodes) {
        var i :| 0 <= i < |nodes| && nodes[i].status == Cluster.DOWN && nodes[i].id == x;
        assert index[x] == i;
      } else {
        assert nodes[index[x]].id == x;
      }
    }
  }

  // ---- What a write leaves behind ----

  function Effect(u: Mutation): Option<Value> {
    if u.Put? then Some(u.value) else None
  }

  predicate Holds(stores: Stores, n: NodeId, u: Mutation) {
    Lookup(StoreAt(stores, n), u.key) == Effect(u)
  }

  /** Each store is as before, or has had exactly this mutation applied; only homes are touched. */
  ghost predicate Advances(stores: Stores, stores': Stores, u: Mutation, homes: seq<NodeId>) {
    forall n :: StoreAt(stores', n) == StoreAt(stores, n) ||
                (n in homes && Accepted(u) && StoreAt(stores', n) == Apply(StoreAt(stores, n), u))
  }

  /** Counted nodes are distinct, were candidates, and hold the mutation. */
  ghost predicate Sound(stores: Stores, w: Written, u: Mutation, homes: seq<NodeId>, candidates: seq<NodeId>) {
    && Advances(stores, w.stores, u, homes)
    && Distinct(w.acks)
    && (!Accepted(u) ==> w.acks == [])
    && forall n :: n in w.acks ==> n in candidates && Holds(w.stores, n, u)
  }

  lemma AdvancesTwice(a: Stores, b: Stores, c: Stores, u: Mutation, homes: seq<NodeId>)
    requires Advances(a, b, u, homes) && Advances(b, c, u, homes)
    ensures Advances(a, c, u, homes)
  {
    forall n
      ensures StoreAt(c, n) == StoreAt(a, n) ||
              (n in homes && Accepted(u) && StoreAt(c, n) == Apply(StoreAt(a, n), u))
    {
      var m := StoreAt(a, n);
      assert Apply(Apply(m, u), u) == Apply(m, u);
    }
  }

  lemma HoldsOn(a: Stores, b: Stores, u: Mutation, homes: seq<NodeId>, n: NodeId)
    requires Advances(a, b, u, homes) && Holds(a, n, u)
    ensures Holds(b, n, u)
  {
  }

  lemma LocalSound(stores: Stores, self: NodeId, u: Mutation, replicas: seq<NodeId>, homes: seq<NodeId>)
    requires self in replicas ==> self in homes
    ensures Sound(stores, WriteLocal(stores, self, u, replicas), u, homes, [self])
    ensures self in replicas && Accepted(u) ==> Holds(WriteLocal(stores, self, u, replicas).stores, self, u)
  {
  }

  /** Two phases of one write combine if they count different nodes. */
  lemma SoundThen(a: Stores, w: Written, v: Written, u: Mutation, homes: seq<NodeId>, c: seq<NodeId>, d: seq<NodeId>)
    requires Sound(a, w, u, homes, c) && Sound(w.stores, v, u, homes, d)
    requires forall n :: n in c ==> n !in d
    ensures Sound(a, Written(v.stores, w.acks + v.acks), u, homes, c + d)
  {
    AdvancesTwice(a, w.stores, v.stores, u, homes);
    forall n | n in w.acks + v.acks
      ensures n in c + d && Holds(v.stores, n, u)
    {
      if n in w.acks {
        HoldsOn(w.stores, v.stores, u, homes, n);
      }
    }
    assert forall i, j :: 0 <= i < |w.acks| && 0 <= j < |v.acks| ==> w.acks[i] in c && v.acks[j] in d;
  }

  /** A put that every store would refuse must not be counted by a peer that needs no acknowledgement. */
  predicate Countable(setup: Setup, u: Mutation) {
    Accepted(u) || forall n :: n in Homes(setup, u.key) ==> setup.quorum(n) >= 1
  }

  lemma {:induction false} WriteSound(setup: Setup, stores: Stores, self: NodeId, u: Mutation, down: set<NodeId>,
                                      fates: seq<Fate>)
    requires Countable(setup, u)
    ensures var w := Write(setup, stores, self, u, down, fates);
            && Sound(stores, w, u, Homes(setup, u.key), Homes(setup, u.key))
            && (self in Homes(setup, u.key) && Accepted(u) ==> Holds(w.stores, self, u))
    decreases fates, 1
  {
    var homes := Homes(setup, u.key);
    var replicas := Replicas(setup, u.key, self, down);
    ReplicasAreHomes(setup, u.key, self, down);
    var mine := WriteLocal(stores, self, u, replicas);
    var peers := Erase(replicas, self);
    var others := ForwardAll(setup, mine.stores, peers, u, fates);
    LocalSound(stores, self, u, replicas, homes);
    ForwardAllSound(setup, mine.stores, peers, u, fates);
    SoundThen(stores, mine, others, u, homes, [self], peers);
    if self in homes && Accepted(u) {
      HoldsOn(mine.stores, others.stores, u, homes, self);
    }
  }

  lemma HeadAndTail(s: seq<NodeId>)
    requires s != [] && Distinct(s)
    ensures [s[0]] + s[1..] == s && Distinct(s[1..]) && s[0] !in s[1..] && s[0] in s
    ensures forall n :: n in s[1..] ==> n in s
  {
  }

  lemma {:induction false} ForwardAllSound(setup: Setup, stores: Stores, peers: seq<NodeId>, u: Mutation,
                                           fates: seq<Fate>)
    requires Countable(setup, u) && Distinct(peers)
    requires forall n :: n in peers ==> n in Homes(setup, u.key)
    ensures Sound(stores, ForwardAll(setup, stores, peers, u, fates), u, Homes(setup, u.key), peers)
    decreases fates, 0
  {
    if peers != [] && fates != [] {
      var homes := Homes(setup, u.key);
      var one := Forward(setup, stores, peers[0], u, fates[0]);
      var rest := ForwardAll(setup, one.stores, peers[1..], u, fates[1..]);
      HeadAndTail(peers);
      ForwardSound(setup, stores, peers[0], u, fates[0]);
      ForwardAllSound(setup, one.stores, peers[1..], u, fates[1..]);
      SoundThen(stores, one, rest, u, homes, [peers[0]], peers[1..]);
    }
  }

  /** A peer that answers OK holds the mutation: it is a home, and homes always write locally. */
  lemma {:induction false} ForwardSound(setup: Setup, stores: Stores, node: NodeId, u: Mutation, fate: Fate)
    requires Countable(setup, u) && node in Homes(setup, u.key)
    ensures Sound(stores, Forward(setup, stores, node, u, fate), u, Homes(setup, u.key), [node])
    decreases fate
  {
    if fate.Reached? {
      WriteSound(setup, stores, node, u, fate.down, fate.fates);
    }
  }

  // ---- When a peer's OK can be trusted ----

  /** Every node that any run counts holds the mutation. */
  ghost predicate CountsOnlyHolders(setup: Setup, u: Mutation) {
    forall stores, self, down, fates, n :: CountsHolder(setup, u, stores, self, down, fates, n)
  }

  predicate CountsHolder(setup: Setup, u: Mutation, stores: Stores, self: NodeId, down: set<NodeId>,
                         fates: seq<Fate>, n: NodeId)
  {
    var w := Write(setup, stores, self, u, down, fates);
    n in w.acks ==> Holds(w.stores, n, u)
  }

  lemma OnlyMember(s: seq<NodeId>, n: NodeId)
    requires Distinct(s) && n in s && forall x :: x in s ==> x == n
    ensures s == [n]
  {
    DistinctSize(s);
    assert Elements(s) == {n};
  }

  /** If every home but `n` looks down, `n` is the only peer. */
  lemma LonePeer(setup: Setup, key: Key, self: NodeId, n: NodeId)
    requires n in Homes(setup, key) && n != self
    ensures Erase(Replicas(setup, key, self, Elements(Homes(setup, key)) - {n}), self) == [n]
  {
    var down := Elements(Homes(setup, key)) - {n};
    ReplicasAreHomes(setup, key, self, down);
    HomesDistinct(setup, key);
    FilterIs(Homes(setup, key), self, down);
    OnlyMember(Erase(Replicas(setup, key, self, down), self), n);
  }

  lemma RefusedWrite(setup: Setup, stores: Stores, n: NodeId, u: Mutation)
    requires !Accepted(u) && setup.quorum(n) == 0
    ensures var w := Forward(setup, stores, n, u, Reached({}, [], false));
            w.acks == [n] && StoreAt(w.stores, n) == StoreAt(stores, n)
  {
    var w := Write(setup, stores, n, u, {}, []);
    assert w.acks == [];
  }

  /** A home with quorum 0 says OK to a put that no store takes, and its caller counts it. */
  lemma ZeroQuorumCounted(setup: Setup, u: Mutation, n: NodeId)
    requires !Accepted(u) && n in Homes(setup, u.key) && setup.quorum(n) == 0
    ensures !CountsOnlyHolders(setup, u)
  {
    var self := n + [0];
    assert |self| != |n|;
    LonePeer(setup, u.key, self, n);
    NotOnlyHolders(setup, self, u, Elements(Homes(setup, u.key)) - {n}, n);
  }

  lemma NotOnlyHolders(setup: Setup, self: NodeId, u: Mutation, down: set<NodeId>, n: NodeId)
    requires !Accepted(u) && setup.quorum(n) == 0
    requires Erase(Replicas(setup, u.key, self, down), self) == [n]
    ensures !CountsOnlyHolders(setup, u)
  {
    ThroughLonePeer(setup, map[], self, u, down, n);
  }

  lemma ThroughLonePeer(setup: Setup, stores: Stores, self: NodeId, u: Mutation, down: set<NodeId>, n: NodeId)
    requires !Accepted(u) && setup.quorum(n) == 0
    requires Erase(Replicas(setup, u.key, self, down), self) == [n]
    requires !Holds(stores, n, u)
    ensures !CountsHolder(setup, u, stores, self, down, [Reached({}, [], false)], n)
  {
    var mine := WriteLocal(stores, self, u, Replicas(setup, u.key, self, down));
    RefusedWrite(setup, mine.stores, n, u);
    OneForward(setup, mine.stores, n, u, Reached({}, [], false));
    var w := Write(setup, stores, self, u, down, [Reached({}, [], false)]);
    assert w.acks == [n] && StoreAt(w.stores, n) == StoreAt(stores, n);
  }

  lemma OneForward(setup: Setup, stores: Stores, n: NodeId, u: Mutation, fate: Fate)
    ensures ForwardAll(setup, stores, [n], u, [fate]) == Forward(setup, stores, n, u, fate)
  {
    var one := Forward(setup, stores, n, u, fate);
    assert ForwardAll(setup, one.stores, [], u, []) == Written(one.stores, []);
    assert one.acks + [] == one.acks;
    assert [n][1..] == [] && [fate][1..] == [];
  }

  /** Counted nodes hold the mutation in every run, exactly when the mutation is countable. */
  lemma CountableExact(setup: Setup, u: Mutation)
    ensures CountsOnlyHolders(setup, u) <==> Countable(setup, u)
  {
    if Countable(setup, u) {
      forall stores, self, down, fates, n
        ensures CountsHolder(setup, u, stores, self, down, fates, n)
      {
        WriteSound(setup, stores, self, u, down, fates);
      }
    } else {
      var n :| n in Homes(setup, u.key) && setup.quorum(n) < 1;
      ZeroQuorumCounted(setup, u, n);
    }
  }

  // ---- Quorums ----

  /** The constructor's quorum: the least majority of the replication factor. */
  function Majority(factor: nat): (q: nat)
    ensures q >= 1 && 2 * q > factor && 2 * (q - 1) <= factor
  {
    factor / 2 + 1
  }

  /** One run of `handlePut` or `handleDelete`. */
  datatype Run = Run(stores: Stores, self: NodeId, u: Mutation, down: set<NodeId>, fates: seq<Fate>)

  function Outcome(setup: Setup, r: Run): Written {
    Write(setup, r.stores, r.self, r.u, r.down, r.fates)
  }

  predicate AnsweredOk(setup: Setup, r: Run) {
    Answer(setup, r.self, Outcome(setup, r)).status == OK
  }

  /** An OK answer means that a quorum of distinct homes now holds the mutation. */
  lemma OkMeansQuorum(setup: Setup, r: Run)
    requires Countable(setup, r.u) && AnsweredOk(setup, r)
    ensures var w := Outcome(setup, r);
            && Distinct(w.acks) && |w.acks| >= setup.quorum(r.self)
            && forall n :: n in w.acks ==> n in Homes(setup, r.u.key) && Holds(w.stores, n, r.u)
  {
    WriteSound(setup, r.stores, r.self, r.u, r.down, r.fates);
  }

  /** Whatever the answer, only homes change, and they change by exactly this mutation. */
  lemma OnlyHomesChange(setup: Setup, r: Run, n: NodeId, k: Key)
    requires Countable(setup, r.u)
    ensures var m, m' := StoreAt(r.stores, n), StoreAt(Outcome(setup, r).stores, n);
            && (n !in Homes(setup, r.u.key) || k != r.u.key ==> Lookup(m', k) == Lookup(m, k))
            && (Lookup(m', r.u.key) == Lookup(m, r.u.key) || Lookup(m', r.u.key) == Effect(r.u))
  {
    WriteSound(setup, r.stores, r.self, r.u, r.down, r.fates);
  }

  /** Losing fewer nodes than the quorum leaves one that holds the mutation. */
  lemma SurvivesLoss(setup: Setup, r: Run, lost: set<NodeId>) returns (n: NodeId)
    requires Countable(setup, r.u) && AnsweredOk(setup, r) && |lost| < setup.quorum(r.self)
    ensures n !in lost && n in Homes(setup, r.u.key) && Holds(Outcome(setup, r).stores, n, r.u)
  {
    OkMeansQuorum(setup, r);
    n := Survivor(Outcome(setup, r).acks, lost);
  }

  lemma SplitSize<T>(a: set<T>, lost: set<T>)
    requires |lost| < |a|
    ensures a - lost != {}
  {
    SubsetSize(a * lost, lost);
    assert a == (a - lost) + a * lost;
  }

  lemma Survivor(s: seq<NodeId>, lost: set<NodeId>) returns (n: NodeId)
    requires Distinct(s) && |lost| < |s|
    ensures n in s && n !in lost
  {
    DistinctSize(s);
    var left := Elements(s) - lost;
    SplitSize(Elements(s), lost);
    n :| n in left;
  }

  lemma OverlapByCount(a: seq<NodeId>, b: seq<NodeId>, universe: seq<NodeId>) returns (n: NodeId)
    requires Distinct(a) && Distinct(b)
    requires forall x :: x in a || x in b ==> x in universe
    requires |a| + |b| > |universe|
    ensures n in a && n in b
  {
    DistinctSize(a);
    DistinctSize(b);
    var both := Elements(a) * Elements(b);
    SubsetSize(Elements(a) + Elements(b), Elements(universe));
    ElementsBound(universe);
    assert |Elements(a) + Elements(b)| + |both| == |a| + |b|;
    assert both != {};
    n :| n in both;
  }

  lemma {:induction false} ElementsBound(s: seq<NodeId>)
    ensures |Elements(s)| <= |s|
    decreases |s|
  {
    if s != [] {
      ElementsBound(s[1..]);
      assert Elements(s) == {s[0]} + Elements(s[1..]);
    }
  }

  /** Any two OK writes to one key share an acknowledging node, for any coordinators and health views. */
  lemma QuorumsIntersect(setup: Setup, r1: Run, r2: Run) returns (n: NodeId)
    requires Countable(setup, r1.u) && Countable(setup, r2.u) && r1.u.key == r2.u.key
    requires setup.quorum(r1.self) >= Majority(setup.factor) && setup.quorum(r2.self) >= Majority(setup.factor)
    requires AnsweredOk(setup, r1) && AnsweredOk(setup, r2)
    ensures n in Outcome(setup, r1).acks && n in Outcome(setup, r2).acks
  {
    OkMeansQuorum(setup, r1);
    OkMeansQuorum(setup, r2);
    HomesDistinct(setup, r1.u.key);
    n := OverlapByCount(Outcome(setup, r1).acks, Outcome(setup, r2).acks, Homes(setup, r1.u.key));
  }

  // ---- When a write can be answered OK ----

  /**
   The innermost handler of a run has nobody's answer to count but its own store's. If its quorum is
   larger it reports an error, so its caller counts nothing either, and so on outwards.
   */
  lemma {:induction false} AcksAtMostOne(setup: Setup, stores: Stores, self: NodeId, u: Mutation, down: set<NodeId>,
                                         fates: seq<Fate>)
    requires forall n :: n in Homes(setup, u.key) ==> setup.quorum(n) >= 2
    ensures |Write(setup, stores, self, u, down, fates).acks| <= 1
    decreases fates, 1
  {
    var replicas := Replicas(setup, u.key, self, down);
    ReplicasAreHomes(setup, u.key, self, down);
    NoPeerCounts(setup, WriteLocal(stores, self, u, replicas).stores, Erase(replicas, self), u, fates);
  }

  lemma {:induction false} NoPeerCounts(setup: Setup, stores: Stores, peers: seq<NodeId>, u: Mutation, fates: seq<Fate>)
    requires forall n :: n in Homes(setup, u.key) ==> setup.quorum(n) >= 2
    requires forall n :: n in peers ==> n in Homes(setup, u.key)
    ensures ForwardAll(setup, stores, peers, u, fates).acks == []
    decreases fates, 0
  {
    if peers != [] && fates != [] {
      PeerDoesNotCount(setup, stores, peers[0], u, fates[0]);
      NoPeerCounts(setup, Forward(setup, stores, peers[0], u, fates[0]).stores, peers[1..], u, fates[1..]);
    }
  }

  lemma {:induction false} PeerDoesNotCount(setup: Setup, stores: Stores, n: NodeId, u: Mutation, fate: Fate)
    requires forall n :: n in Homes(setup, u.key) ==> setup.quorum(n) >= 2
    requires n in Homes(setup, u.key)
    ensures Forward(setup, stores, n, u, fate).acks == []
    decreases fate
  {
    if fate.Reached? {
      AcksAtMostOne(setup, stores, n, u, fate.down, fate.fates);
    }
  }

  /** What a node's own write adds to its count, in any run. */
  function Own(setup: Setup, u: Mutation, n: NodeId): nat {
    if n in Homes(setup, u.key) && Accepted(u) then 1 else 0
  }

  ghost predicate CanAnswerOk(setup: Setup, u: Mutation, self: NodeId) {
    exists r: Run :: r.self == self && r.u == u && AnsweredOk(setup, r)
  }

  /** Even if every home outside `blocked` answers OK, no node of `blocked` reaches its quorum. */
  ghost predicate Blocks(setup: Setup, u: Mutation, blocked: set<NodeId>) {
    forall n :: n in blocked ==> setup.quorum(n) > Own(setup, u, n) + |Elements(Homes(setup, u.key)) - blocked|
  }

  lemma LocalAcks(setup: Setup, stores: Stores, self: NodeId, u: Mutation, down: set<NodeId>)
    ensures var mine := WriteLocal(stores, self, u, Replicas(setup, u.key, self, down));
            |mine.acks| == Own(setup, u, self) && forall n :: n in mine.acks ==> n == self
  {
    ReplicasAreHomes(setup, u.key, self, down);
  }

  lemma AtMost(s: seq<NodeId>, bound: set<NodeId>)
    requires Distinct(s) && forall n :: n in s ==> n in bound
    ensures |s| <= |bound|
  {
    DistinctSize(s);
    SubsetSize(Elements(s), bound);
  }

  /** A blocked node answers with an error in every run: it counts itself and unblocked homes at most. */
  lemma {:induction false} BlockedFails(setup: Setup, stores: Stores, self: NodeId, u: Mutation, down: set<NodeId>,
                                        fates: seq<Fate>, blocked: set<NodeId>)
    requires Blocks(setup, u, blocked) && self in blocked
    ensures |Write(setup, stores, self, u, down, fates).acks| < setup.quorum(self)
    decreases fates, 1
  {
    var replicas := Replicas(setup, u.key, self, down);
    var mine := WriteLocal(stores, self, u, replicas);
    ReplicasAreHomes(setup, u.key, self, down);
    LocalAcks(setup, stores, self, u, down);
    UnblockedCount(setup, mine.stores, Erase(replicas, self), u, fates, blocked);
    AtMost(ForwardAll(setup, mine.stores, Erase(replicas, self), u, fates).acks,
           Elements(Homes(setup, u.key)) - blocked);
  }

  lemma {:induction false} UnblockedCount(setup: Setup, stores: Stores, peers: seq<NodeId>, u: Mutation,
                                          fates: seq<Fate>, blocked: set<NodeId>)
    requires Blocks(setup, u, blocked) && Distinct(peers)
    ensures var acks := ForwardAll(setup, stores, peers, u, fates).acks;
            Distinct(acks) && forall n :: n in acks ==> n in peers && n !in blocked
    decreases fates, 0
  {
    if peers != [] && fates != [] {
      var one := Forward(setup, stores, peers[0], u, fates[0]);
      HeadAndTail(peers);
      AcksOfForward(setup, stores, peers[0], u, fates[0]);
      if peers[0] in blocked {
        BlockedPeer(setup, stores, peers[0], u, fates[0], blocked);
      }
      UnblockedCount(setup, one.stores, peers[1..], u, fates[1..], blocked);
    }
  }

  lemma {:induction false} AcksOfForward(setup: Setup, stores: Stores, n: NodeId, u: Mutation, fate: Fate)
    ensures Forward(setup, stores, n, u, fate).acks == [] || Forward(setup, stores, n, u, fate).acks == [n]
  {
  }

  lemma {:induction false} BlockedPeer(setup: Setup, stores: Stores, n: NodeId, u: Mutation, fate: Fate,
                                       blocked: set<NodeId>)
    requires Blocks(setup, u, blocked) && n in blocked
    ensures Forward(setup, stores, n, u, fate).acks == []
    decreases fate
  {
    if fate.Reached? {
      BlockedFails(setup, stores, n, u, fate.down, fate.fates, blocked);
    }
  }

  /** Who is counted does not depend on what the stores hold. */
  lemma {:induction false} AcksIgnoreStores(setup: Setup, a: Stores, b: Stores, self: NodeId, u: Mutation,
                                            down: set<NodeId>, fates: seq<Fate>)
    ensures Write(setup, a, self, u, down, fates).acks == Write(setup, b, self, u, down, fates).acks
    decreases fates, 1
  {
    var replicas := Replicas(setup, u.key, self, down);
    ForwardsIgnoreStores(setup, WriteLocal(a, self, u, replicas).stores, WriteLocal(b, self, u, replicas).stores,
                         Erase(replicas, self), u, fates);
  }

  lemma {:induction false} ForwardsIgnoreStores(setup: Setup, a: Stores, b: Stores, peers: seq<NodeId>, u: Mutation,
                                                fates: seq<Fate>)
    ensures ForwardAll(setup, a, peers, u, fates).acks == ForwardAll(setup, b, peers, u, fates).acks
    decreases fates, 0
  {
    if peers != [] && fates != [] {
      ForwardIgnoresStores(setup, a, b, peers[0], u, fates[0]);
      ForwardsIgnoreStores(setup, Forward(setup, a, peers[0], u, fates[0]).stores,
                           Forward(setup, b, peers[0], u, fates[0]).stores, peers[1..], u, fates[1..]);
    }
  }

  lemma {:induction false} ForwardIgnoresStores(setup: Setup, a: Stores, b: Stores, n: NodeId, u: Mutation, fate: Fate)
    ensures Forward(setup, a, n, u, fate).acks == Forward(setup, b, n, u, fate).acks
    decreases fate
  {
    if fate.Reached? {
      AcksIgnoreStores(setup, a, b, n, u, fate.down, fate.fates);
    }
  }

  /** A fate in which the node answers OK, if there is one. */
  ghost function BestFate(setup: Setup, u: Mutation, n: NodeId): Fate {
    if CanAnswerOk(setup, u, n) then
      var r: Run :| r.self == n && r.u == u && AnsweredOk(setup, r);
      Reached(r.down, r.fates, false)
    else Unreachable
  }

  ghost function BestFates(setup: Setup, u: Mutation, peers: seq<NodeId>): seq<Fate> {
    if peers == [] then [] else [BestFate(setup, u, peers[0])] + BestFates(setup, u, peers[1..])
  }

  lemma BestCounts(setup: Setup, stores: Stores, u: Mutation, n: NodeId)
    requires CanAnswerOk(setup, u, n)
    ensures Forward(setup, stores, n, u, BestFate(setup, u, n)).acks == [n]
  {
    var r: Run :| r.self == n && r.u == u && AnsweredOk(setup, r) &&
                  BestFate(setup, u, n) == Reached(r.down, r.fates, false);
    AcksIgnoreStores(setup, r.stores, stores, n, u, r.down, r.fates);
  }

  lemma {:induction false} BestAllCount(setup: Setup, stores: Stores, u: Mutation, peers: seq<NodeId>, n: NodeId)
    requires n in peers && CanAnswerOk(setup, u, n)
    ensures n in ForwardAll(setup, stores, peers, u, BestFates(setup, u, peers)).acks
    decreases |peers|
  {
    var fates := BestFates(setup, u, peers);
    var one := Forward(setup, stores, peers[0], u, fates[0]);
    assert fates[1..] == BestFates(setup, u, peers[1..]);
    if n == peers[0] {
      BestCounts(setup, stores, u, n);
    } else {
      BestAllCount(setup, one.stores, u, peers[1..], n);
    }
  }

  lemma AtLeast(s: seq<NodeId>, bound: set<NodeId>)
    requires forall n :: n in bound ==> n in s
    ensures |bound| <= |s|
  {
    ElementsBound(s);
    SubsetSize(bound, Elements(s));
  }

  /** The best run: every home that can answer OK does. */
  lemma BestRun(setup: Setup, u: Mutation, self: NodeId, able: set<NodeId>)
    requires forall n :: n in able ==> n in Homes(setup, u.key) && n != self && CanAnswerOk(setup, u, n)
    requires setup.quorum(self) <= Own(setup, u, self) + |able|
    ensures CanAnswerOk(setup, u, self)
  {
    var homes := Homes(setup, u.key);
    var peers := Erase(homes, self);
    var mine := WriteLocal(map[], self, u, homes);
    var r := Run(map[], self, u, {}, BestFates(setup, u, peers));
    AllVisible(homes, self, {});
    EraseMembers(homes, self);
    LocalAcks(setup, map[], self, u, {});
    forall n | n in able
      ensures n in ForwardAll(setup, mine.stores, peers, u, r.fates).acks
    {
      BestAllCount(setup, mine.stores, u, peers, n);
    }
    AtLeast(ForwardAll(setup, mine.stores, peers, u, r.fates).acks, able);
    assert r.self == self && r.u == u && AnsweredOk(setup, r);
  }

  lemma FailingBlock(setup: Setup, u: Mutation, self: NodeId) returns (blocked: set<NodeId>)
    requires !CanAnswerOk(setup, u, self)
    ensures self in blocked && Blocks(setup, u, blocked)
  {
    var homes := Elements(Homes(setup, u.key));
    blocked := set n | n in homes + {self} && !CanAnswerOk(setup, u, n);
    forall n | n in blocked
      ensures setup.quorum(n) > Own(setup, u, n) + |homes - blocked|
    {
      if setup.quorum(n) <= Own(setup, u, n) + |homes - blocked| {
        BestRun(setup, u, n, homes - blocked);
      }
    }
  }

  /** A node can answer a write with OK exactly when it belongs to no blocked set. */
  lemma OkPossible(setup: Setup, u: Mutation, self: NodeId)
    ensures CanAnswerOk(setup, u, self) <==>
            !exists blocked: set<NodeId> :: self in blocked && Blocks(setup, u, blocked)
  {
    if CanAnswerOk(setup, u, self) {
      var r: Run :| r.self == self && r.u == u && AnsweredOk(setup, r);
      forall blocked | self in blocked
        ensures !Blocks(setup, u, blocked)
      {
        if Blocks(setup, u, blocked) {
          BlockedFails(setup, r.stores, self, u, r.down, r.fates, blocked);
        }
      }
    } else {
      var blocked := FailingBlock(setup, u, self);
    }
  }

  /** All homes and one more node block each other if their quorum exceeds what one of them can count alone. */
  lemma HomesBlock(setup: Setup, u: Mutation, q: nat, self: NodeId)
    requires forall n :: setup.quorum(n) == q
    requires q >= 1 && (q == 1 ==> !Accepted(u) || Homes(setup, u.key) == [])
    ensures !CanAnswerOk(setup, u, self)
  {
    var blocked := Elements(Homes(setup, u.key)) + {self};
    assert Elements(Homes(setup, u.key)) - blocked == {};
    assert Blocks(setup, u, blocked);
    OkPossible(setup, u, self);
  }

  /** With one quorum for all, some node can answer OK exactly if it is 0, or is 1 and some home takes the write. */
  lemma OkPossibleUniform(setup: Setup, u: Mutation, q: nat)
    requires forall n :: setup.quorum(n) == q
    ensures (exists self :: CanAnswerOk(setup, u, self)) <==>
            q == 0 || (q == 1 && Accepted(u) && Homes(setup, u.key) != [])
  {
    if q == 0 {
      BestRun(setup, u, [], {});
    } else if q == 1 && Accepted(u) && Homes(setup, u.key) != [] {
      BestRun(setup, u, Homes(setup, u.key)[0], {});
    } else {
      forall self
        ensures !CanAnswerOk(setup, u, self)
      {
        HomesBlock(setup, u, q, self);
      }
    }
  }

  /** The majority quorum of two or more replicas is never met, whatever the run. */
  lemma MajorityNeverMet(setup: Setup, r: Run)
    requires setup.factor >= 2 && forall n :: setup.quorum(n) == Majority(setup.factor)
    ensures Answer(setup, r.self, Outcome(setup, r)).status == ERROR
  {
    AcksAtMostOne(setup, r.stores, r.self, r.u, r.down, r.fates);
  }

  /** A node none of whose peers is marked DOWN keeps the whole list. */
  lemma {:induction false} AllVisible(s: seq<NodeId>, self: NodeId, down: set<NodeId>)
    requires forall n :: n in s && n != self ==> n !in down
    ensures Filter(s, self, down) == s
    decreases |s|
  {
    if s != [] {
      AllVisible(s[..|s| - 1], self, down);
    }
  }

  /** A home that is reached stores the mutation, whatever it does next and whether or not its reply arrives. */
  lemma {:induction false} ReachedHolds(setup: Setup, stores: Stores, n: NodeId, u: Mutation, fate: Fate)
    requires Accepted(u) && n in Homes(setup, u.key) && fate.Reached?
    ensures Holds(Forward(setup, stores, n, u, fate).stores, n, u)
  {
    WriteSound(setup, stores, n, u, fate.down, fate.fates);
  }

  lemma {:induction false} HoldsThrough(setup: Setup, stores: Stores, peers: seq<NodeId>, u: Mutation,
                                        fates: seq<Fate>, n: NodeId)
    requires Accepted(u) && Distinct(peers) && Holds(stores, n, u)
    requires forall x :: x in peers ==> x in Homes(setup, u.key)
    ensures Holds(ForwardAll(setup, stores, peers, u, fates).stores, n, u)
  {
    ForwardAllSound(setup, stores, peers, u, fates);
    HoldsOn(stores, ForwardAll(setup, stores, peers, u, fates).stores, u, Homes(setup, u.key), n);
  }

  lemma {:induction false} ForwardAllRest(setup: Setup, stores: Stores, peers: seq<NodeId>, u: Mutation,
                                          fates: seq<Fate>)
    requires peers != [] && fates != []
    ensures var one := Forward(setup, stores, peers[0], u, fates[0]);
            ForwardAll(setup, stores, peers, u, fates).stores ==
            ForwardAll(setup, one.stores, peers[1..], u, fates[1..]).stores
  {
  }

  lemma {:induction false} FirstHolds(setup: Setup, stores: Stores, peers: seq<NodeId>, u: Mutation, fates: seq<Fate>)
    requires Accepted(u) && Distinct(peers) && peers != [] && fates != [] && fates[0].Reached?
    requires forall n :: n in peers ==> n in Homes(setup, u.key)
    ensures Holds(ForwardAll(setup, stores, peers, u, fates).stores, peers[0], u)
  {
    HeadAndTail(peers);
    ForwardAllRest(setup, stores, peers, u, fates);
    ReachedHolds(setup, stores, peers[0], u, fates[0]);
    HoldsThrough(setup, Forward(setup, stores, peers[0], u, fates[0]).stores, peers[1..], u, fates[1..], peers[0]);
  }

  lemma {:induction false} ForwardAllHolds(setup: Setup, stores: Stores, peers: seq<NodeId>, u: Mutation,
                                           fates: seq<Fate>, i: nat)
    requires Accepted(u) && Distinct(peers) && i < |peers| && i < |fates| && fates[i].Reached?
    requires forall n :: n in peers ==> n in Homes(setup, u.key)
    ensures Holds(ForwardAll(setup, stores, peers, u, fates).stores, peers[i], u)
    decreases i
  {
    HeadAndTail(peers);
    ForwardAllRest(setup, stores, peers, u, fates);
    if i == 0 {
      FirstHolds(setup, stores, peers, u, fates);
    } else {
      assert peers[1..][i - 1] == peers[i] && fates[1..][i - 1] == fates[i];
      ForwardAllHolds(setup, Forward(setup, stores, peers[0], u, fates[0]).stores, peers[1..], u, fates[1..], i - 1);
    }
  }

  /** The peers that a run forwards to, in order. */
  function Peers(setup: Setup, r: Run): seq<NodeId> {
    Erase(Replicas(setup, r.u.key, r.self, r.down), r.self)
  }

  /** Every home that a run reaches holds the mutation afterwards, whatever happens to the others. */
  lemma {:induction false} ReachedHomesHold(setup: Setup, r: Run, i: nat)
    requires Accepted(r.u) && i < |Peers(setup, r)| && i < |r.fates| && r.fates[i].Reached?
    ensures Holds(Outcome(setup, r).stores, Peers(setup, r)[i], r.u)
  {
    ReplicasAreHomes(setup, r.u.key, r.self, r.down);
    var mine := WriteLocal(r.stores, r.self, r.u, Replicas(setup, r.u.key, r.self, r.down));
    ForwardAllHolds(setup, mine.stores, Peers(setup, r), r.u, r.fates, i);
  }

  lemma {:induction false} ReplyCounts(setup: Setup, stores: Stores, n: NodeId, u: Mutation, fate: Fate)
    requires Accepted(u) && n in Homes(setup, u.key) && setup.quorum(n) <= 1
    requires fate.Reached? && !fate.replyLost
    ensures Forward(setup, stores, n, u, fate).acks == [n]
  {
    LocalAcks(setup, stores, n, u, fate.down);
  }

  ghost predicate Answering(fates: seq<Fate>) {
    forall i :: 0 <= i < |fates| ==> fates[i].Reached? && !fates[i].replyLost
  }

  lemma {:induction false} RepliesCount(setup: Setup, stores: Stores, peers: seq<NodeId>, u: Mutation,
                                        fates: seq<Fate>)
    requires Accepted(u) && |peers| <= |fates| && Answering(fates)
    requires forall n :: n in peers ==> n in Homes(setup, u.key) && setup.quorum(n) <= 1
    ensures ForwardAll(setup, stores, peers, u, fates).acks == peers
    decreases |peers|
  {
    if peers != [] {
      ReplyCounts(setup, stores, peers[0], u, fates[0]);
      RepliesCount(setup, Forward(setup, stores, peers[0], u, fates[0]).stores, peers[1..], u, fates[1..]);
      assert [peers[0]] + peers[1..] == peers;
    }
  }

  lemma {:induction false} EraseAbsent(s: seq<NodeId>, id: NodeId)
    ensures id !in s ==> Erase(s, id) == s
    ensures id in s && Distinct(s) ==> |Erase(s, id)| == |s| - 1
    decreases |s|
  {
    if s != [] {
      var init := s[..|s| - 1];
      EraseAbsent(init, id);
      assert s == init + [s[|s| - 1]];
    }
  }

  /** The node marks no home but perhaps itself DOWN. */
  ghost predicate SeesHomes(setup: Setup, key: Key, self: NodeId, down: set<NodeId>) {
    forall n :: n in Homes(setup, key) && n != self ==> n !in down
  }

  /** The count of a coordinator that hears every other home. */
  lemma AllHomesCount(setup: Setup, r: Run)
    requires Accepted(r.u) && SeesHomes(setup, r.u.key, r.self, r.down)
    requires |Homes(setup, r.u.key)| <= |r.fates| && Answering(r.fates)
    requires forall n :: n in Homes(setup, r.u.key) && n != r.self ==> setup.quorum(n) <= 1
    ensures |Outcome(setup, r).acks| == |Homes(setup, r.u.key)|
  {
    var homes := Homes(setup, r.u.key);
    AllVisible(homes, r.self, r.down);
    ReplicasAreHomes(setup, r.u.key, r.self, r.down);
    HomesDistinct(setup, r.u.key);
    EraseAbsent(homes, r.self);
    LocalAcks(setup, r.stores, r.self, r.u, r.down);
    RepliesCount(setup, WriteLocal(r.stores, r.self, r.u, homes).stores, Peers(setup, r), r.u, r.fates);
  }

  lemma PeersAreOthers(setup: Setup, r: Run)
    requires SeesHomes(setup, r.u.key, r.self, r.down)
    ensures forall n :: n in Peers(setup, r) <==> n in Homes(setup, r.u.key) && n != r.self
    ensures |Peers(setup, r)| <= |Homes(setup, r.u.key)|
  {
    AllVisible(Homes(setup, r.u.key), r.self, r.down);
    ReplicasAreHomes(setup, r.u.key, r.self, r.down);
    HomesDistinct(setup, r.u.key);
    EraseAbsent(Homes(setup, r.u.key), r.self);
  }

  /**
   A write that reaches every home leaves the mutation on all of them, whatever they forward and whether
   or not they are heard. If all are heard and their own quorums are at most 1 the coordinator counts them
   all; if not, it may still answer with an error.
   */
  lemma ReachingAllHomes(setup: Setup, r: Run)
    requires Accepted(r.u) && SeesHomes(setup, r.u.key, r.self, r.down)
    requires |Homes(setup, r.u.key)| <= |r.fates| && forall i :: 0 <= i < |r.fates| ==> r.fates[i].Reached?
    ensures forall n :: n in Homes(setup, r.u.key) ==> Holds(Outcome(setup, r).stores, n, r.u)
    ensures Answering(r.fates) && (forall n :: n in Homes(setup, r.u.key) && n != r.self ==> setup.quorum(n) <= 1) ==>
              |Outcome(setup, r).acks| == |Homes(setup, r.u.key)|
  {
    var homes := Homes(setup, r.u.key);
    PeersAreOthers(setup, r);
    WriteSound(setup, r.stores, r.self, r.u, r.down, r.fates);
    forall n | n in homes
      ensures Holds(Outcome(setup, r).stores, n, r.u)
    {
      if n != r.self {
        var i :| 0 <= i < |Peers(setup, r)| && Peers(setup, r)[i] == n;
        ReachedHomesHold(setup, r, i);
      }
    }
    if Answering(r.fates) && forall n :: n in homes && n != r.self ==> setup.quorum(n) <= 1 {
      AllHomesCount(setup, r);
    }
  }

  // ---- Reads ----

  function GetAt(stores: Stores, n: NodeId, key: Key): Response {
    var v := Lookup(StoreAt(stores, n), key);
    if v.Some? then Response(OK, v.value) else Response(NOT_FOUND, [])
  }

  /** `handleGet`: the primary answers from its own store; others ask the replicas in order. */
  function Read(setup: Setup, stores: Stores, self: NodeId, key: Key, down: set<NodeId>, fates: seq<Fate>): Response
    decreases fates, 1
  {
    if Primary(setup.ring, PointOf(setup.signedChar, key)) == self then GetAt(stores, self, key)
    else ReadFrom(setup, stores, self, Replicas(setup, key, self, down), key, fates)
  }

  function ReadFrom(setup: Setup, stores: Stores, self: NodeId, nodes: seq<NodeId>, key: Key,
                    fates: seq<Fate>): Response
    decreases fates, 0, |nodes|
  {
    if nodes == [] then Response(NOT_FOUND, [])
    else if nodes[0] == self then
      var r := GetAt(stores, self, key);
      if r.status == OK then r else ReadFrom(setup, stores, self, nodes[1..], key, fates)
    else if fates == [] then ReadFrom(setup, stores, self, nodes[1..], key, fates)
    else
      var r := ReadForward(setup, stores, nodes[0], key, fates[0]);
      if r.status == OK then r else ReadFrom(setup, stores, self, nodes[1..], key, fates[1..])
  }

  function ReadForward(setup: Setup, stores: Stores, node: NodeId, key: Key, fate: Fate): Response
    decreases fate
  {
    match fate
    case Unreachable => Response(NODE_UNAVAILABLE, [])
    case Reached(down, fates, replyLost) =>
      if replyLost then Response(NODE_UNAVAILABLE, []) else Read(setup, stores, node, key, down, fates)
  }

  /** Some home, or the primary, stores exactly this value. */
  ghost predicate Stored(setup: Setup, stores: Stores, key: Key, r: Response) {
    exists n :: (n in Homes(setup, key) || n == Primary(setup.ring, PointOf(setup.signedChar, key)))
             && Lookup(StoreAt(stores, n), key) == Some(r.value)
  }

  /** A read answered OK returns a value that some responsible node stores, at any depth of forwarding. */
  lemma {:induction false} ReadSound(setup: Setup, stores: Stores, self: NodeId, key: Key, down: set<NodeId>,
                                     fates: seq<Fate>)
    ensures var r := Read(setup, stores, self, key, down, fates);
            if r.status == OK then Stored(setup, stores, key, r) else r == Response(NOT_FOUND, [])
    decreases fates, 1
  {
    ReplicasAreHomes(setup, key, self, down);
    if Primary(setup.ring, PointOf(setup.signedChar, key)) != self {
      ReadFromSound(setup, stores, self, Replicas(setup, key, self, down), key, fates);
    }
  }

  lemma {:induction false} ReadFromSound(setup: Setup, stores: Stores, self: NodeId, nodes: seq<NodeId>, key: Key,
                                         fates: seq<Fate>)
    requires forall n :: n in nodes ==> n in Homes(setup, key)
    ensures var r := ReadFrom(setup, stores, self, nodes, key, fates);
            && (if r.status == OK then Stored(setup, stores, key, r) else r == Response(NOT_FOUND, []))
            && (r.status != OK && self in nodes ==> Lookup(StoreAt(stores, self), key) == None)
    decreases fates, 0, |nodes|
  {
    if nodes != [] {
      if nodes[0] == self {
        ReadFromSound(setup, stores, self, nodes[1..], key, fates);
      } else if fates == [] {
        ReadFromSound(setup, stores, self, nodes[1..], key, fates);
      } else {
        if fates[0].Reached? {
          ReadSound(setup, stores, nodes[0], key, fates[0].down, fates[0].fates);
        }
        ReadFromSound(setup, stores, self, nodes[1..], key, fates[1..]);
      }
    }
  }

  predicate HasKey(stores: Stores, n: NodeId, key: Key) {
    Lookup(StoreAt(stores, n), key).Some?
  }

  ghost predicate SomeHave(stores: Stores, nodes: seq<NodeId>, key: Key) {
    exists n :: n in nodes && HasKey(stores, n, key)
  }

  /** A home that has the key answers with it, whoever else it could or could not ask. */
  lemma {:induction false} HomeAnswers(setup: Setup, stores: Stores, n: NodeId, key: Key, fate: Fate)
    requires n in Homes(setup, key) && HasKey(stores, n, key) && fate.Reached? && !fate.replyLost
    ensures ReadForward(setup, stores, n, key, fate).status == OK
  {
    if Primary(setup.ring, PointOf(setup.signedChar, key)) != n {
      ReplicasAreHomes(setup, key, n, fate.down);
      ReadFromSound(setup, stores, n, Replicas(setup, key, n, fate.down), key, fate.fates);
    }
  }

  lemma {:induction false} ReadFromFinds(setup: Setup, stores: Stores, self: NodeId, nodes: seq<NodeId>, key: Key,
                                         fates: seq<Fate>, n: NodeId)
    requires forall x :: x in nodes ==> x in Homes(setup, key)
    requires |nodes| <= |fates| && Answering(fates)
    requires n in nodes && HasKey(stores, n, key)
    ensures ReadFrom(setup, stores, self, nodes, key, fates).status == OK
    decreases |nodes|
  {
    if nodes[0] == n {
      HomeAnswers(setup, stores, n, key, fates[0]);
    } else {
      ReadFromFinds(setup, stores, self, nodes[1..], key, if nodes[0] == self then fates else fates[1..], n);
    }
  }

  lemma PrimaryIsHome(setup: Setup, key: Key)
    requires Homes(setup, key) != []
    ensures Homes(setup, key)[0] == Primary(setup.ring, PointOf(setup.signedChar, key))
  {
    PreferenceIs(setup.ring, PointOf(setup.signedChar, key));
  }

  lemma ReadFromNone(setup: Setup, stores: Stores, self: NodeId, key: Key, fates: seq<Fate>)
    requires !SomeHave(stores, Homes(setup, key), key)
    ensures ReadFrom(setup, stores, self, Homes(setup, key), key, fates).status != OK
  {
    var homes := Homes(setup, key);
    var r := ReadFrom(setup, stores, self, homes, key, fates);
    ReadFromSound(setup, stores, self, homes, key, fates);
    if homes != [] && r.status == OK {
      PrimaryIsHome(setup, key);
      StoredAtHome(setup, stores, key, r);
    }
  }

  lemma StoredAtHome(setup: Setup, stores: Stores, key: Key, r: Response)
    requires Stored(setup, stores, key, r)
    requires Primary(setup.ring, PointOf(setup.signedChar, key)) in Homes(setup, key)
    ensures SomeHave(stores, Homes(setup, key), key)
  {
    var n :| (n in Homes(setup, key) || n == Primary(setup.ring, PointOf(setup.signedChar, key)))
          && Lookup(StoreAt(stores, n), key) == Some(r.value);
    assert HasKey(stores, n, key);
  }

  /**
   With every home reachable, at any forwarding depth below: the primary of the key answers OK exactly if
   it has the key itself, any other node exactly if some home has it.
   */
  lemma ReadFinds(setup: Setup, stores: Stores, self: NodeId, key: Key, down: set<NodeId>, fates: seq<Fate>)
    requires SeesHomes(setup, key, self, down) && |Homes(setup, key)| <= |fates| && Answering(fates)
    ensures Read(setup, stores, self, key, down, fates).status == OK <==>
            if Primary(setup.ring, PointOf(setup.signedChar, key)) == self then HasKey(stores, self, key)
            else SomeHave(stores, Homes(setup, key), key)
  {
    var homes := Homes(setup, key);
    if Primary(setup.ring, PointOf(setup.signedChar, key)) != self {
      AllVisible(homes, self, down);
      if SomeHave(stores, homes, key) {
        var n :| n in homes && HasKey(stores, n, key);
        ReadFromFinds(setup, stores, self, homes, key, fates, n);
      } else {
        ReadFromNone(setup, stores, self, key, fates);
      }
    }
  }

  /** The primary of the key answers NOT_FOUND although some home has it. */
  ghost predicate Misses(setup: Setup, stores: Stores, key: Key, down: set<NodeId>, fates: seq<Fate>) {
    && Read(setup, stores, Primary(setup.ring, PointOf(setup.signedChar, key)), key, down, fates).status == NOT_FOUND
    && SomeHave(stores, Homes(setup, key), key)
  }

  lemma MissesStored(setup: Setup, key: Key, v: Value, down: set<NodeId>, fates: seq<Fate>)
    requires |Homes(setup, key)| >= 2
    ensures Misses(setup, map[Homes(setup, key)[1] := map[key := v]], key, down, fates)
  {
    var second := Homes(setup, key)[1];
    var stores: Stores := map[second := map[key := v]];
    HomesDistinct(setup, key);
    PrimaryIsHome(setup, key);
    assert HasKey(stores, second, key) && second in Homes(setup, key);
  }

  /** A put at the second home while no other node can be reached. */
  lemma MissesSecond(setup: Setup, key: Key, v: Value, down: set<NodeId>, fates: seq<Fate>)
    requires |Homes(setup, key)| >= 2 && Accepted(Put(key, v))
    ensures Misses(setup, Write(setup, map[], Homes(setup, key)[1], Put(key, v), {}, []).stores, key, down, fates)
  {
    WrittenAlone(setup, Homes(setup, key)[1], Put(key, v));
    MissesStored(setup, key, v, down, fates);
  }

  lemma WrittenAlone(setup: Setup, n: NodeId, u: Mutation)
    requires u.Put? && Accepted(u) && n in Homes(setup, u.key)
    ensures Write(setup, map[], n, u, {}, []).stores == map[n := map[u.key := u.value]]
  {
    ReplicasAreHomes(setup, u.key, n, {});
    var none: Map := map[];
    assert none[u.key := u.value] == map[u.key := u.value];
  }

  /** It can miss a key, whoever it could have asked, exactly when the key has a second home. */
  lemma PrimaryMisses(setup: Setup, key: Key, down: set<NodeId>, fates: seq<Fate>)
    ensures (exists stores :: Misses(setup, stores, key, down, fates)) <==> |Homes(setup, key)| >= 2
  {
    if |Homes(setup, key)| >= 2 {
      MissesStored(setup, key, [], down, fates);
    } else if Homes(setup, key) != [] {
      PrimaryIsHome(setup, key);
    }
  }

  lemma OwnerPresent(r: Entries, v: Vnode)
    requires v in r
    ensures v.owner in Owners(r)
  {
    var i :| 0 <= i < |r| && r[i] == v;
    assert Owners(r)[i] == v.owner;
  }

  lemma TwoOwners(r: Entries, v: Vnode, w: Vnode, h: Point)
    requires v in r && w in r && v.owner != w.owner
    ensures |Preference(r, h)| >= 2
  {
    OwnerPresent(r, v);
    OwnerPresent(r, w);
    PreferenceIs(r, h);
    SubsetSize({v.owner, w.owner}, Elements(Owners(r)));
  }

  /** The first virtual node of the one-byte id `x`. */
  function FirstPoint(signedChar: bool, x: Byte): Point {
    PointOf(signedChar, VnodeKey([x], 0))
  }

  lemma FirstPointApart(signedChar: bool, x: Byte, y: Byte)
    requires x != y
    ensures FirstPoint(signedChar, x) != FirstPoint(signedChar, y)
  {
    SimilarIdsNeverCollide(signedChar, [x], [y], 0, 0);
  }

  /** The images of the bytes below `m` other than `b`. */
  ghost function Images(f: Byte -> Point, b: Byte, m: nat): set<Point> {
    set x: Byte | (x as nat) < m && x != b :: f(x)
  }

  lemma {:induction false} ImagesCount(f: Byte -> Point, b: Byte, m: nat)
    requires m <= 256 && forall x, y :: x != y ==> f(x) != f(y)
    ensures |Images(f, b, m)| == if b as nat < m then m - 1 else m
  {
    if m > 0 {
      var x := (m - 1) as Byte;
      ImagesCount(f, b, m - 1);
      if x == b {
        assert Images(f, b, m) == Images(f, b, m - 1);
      } else {
        assert Images(f, b, m) == Images(f, b, m - 1) + {f(x)};
      }
    }
  }

  ghost function PointSet(s: seq<Point>): set<Point> {
    set p | p in s
  }

  lemma {:induction false} PointCount(s: seq<Point>)
    ensures |PointSet(s)| <= |s|
    decreases |s|
  {
    if s != [] {
      PointCount(s[1..]);
      assert PointSet(s) == {s[0]} + PointSet(s[1..]);
    }
  }

  lemma ImageOutside(f: Byte -> Point, b: Byte, points: seq<Point>) returns (x: Byte)
    requires |points| < 255 && forall x, y :: x != y ==> f(x) != f(y)
    ensures x != b && f(x) !in points
  {
    ImagesCount(f, b, 256);
    PointCount(points);
    if Images(f, b, 256) <= PointSet(points) {
      SubsetSize(Images(f, b, 256), PointSet(points));
    }
    var p :| p in Images(f, b, 256) && p !in points;
    x :| x != b && f(x) == p;
  }

  /** Fewer than 255 points leave some one-byte id's first point free. */
  lemma FreeId(signedChar: bool, b: Byte, points: seq<Point>) returns (x: Byte)
    requires |points| < 255
    ensures x != b && FirstPoint(signedChar, x) !in points
  {
    var f := (y: Byte) => FirstPoint(signedChar, y);
    forall y, z | y != z
      ensures f(y) != f(z)
    {
      FirstPointApart(signedChar, y, z);
    }
    x := ImageOutside(f, b, points);
  }

  /** The ring that `initialize` builds for two configured nodes. */
  function TwoNodeRing(signedChar: bool, virtualNodes: nat, a: NodeId, b: NodeId): Entries {
    Build(Cluster.PointsOf(virtualNodes, signedChar), [a, b])
  }

  lemma OneNodeEntries(points: NodeId -> seq<Point>, a: NodeId)
    ensures Sorted(Build(points, [a]))
    ensures forall v :: v in Build(points, [a]) <==> v.owner == a && v.point in points(a)
  {
    assert [a][..0] == [];
    AssignAllIs([], points(a), a);
  }

  /** The second node keeps all its points, the first those that the second does not take. */
  lemma TwoNodeEntries(points: NodeId -> seq<Point>, a: NodeId, b: NodeId, p: Point, q: Point)
    requires p in points(a) && p !in points(b) && q in points(b)
    ensures Vnode(p, a) in Build(points, [a, b]) && Vnode(q, b) in Build(points, [a, b])
  {
    OneNodeEntries(points, a);
    assert [a, b][..1] == [a];
    var added := AssignAll(Build(points, [a]), points(b), b);
    assert Build(points, [a, b]) == added;
    AssignAllIs(Build(points, [a]), points(b), b);
    assert Vnode(p, a) in Build(points, [a]);
  }

  /** For each `y` some `x`: with fewer than 255 virtual nodes, both are in every preference list. */
  lemma TwoNodePreference(signedChar: bool, virtualNodes: nat, y: Byte) returns (x: Byte)
    requires 1 <= virtualNodes < 255
    ensures x != y && forall h: Point :: |Preference(TwoNodeRing(signedChar, virtualNodes, [x], [y]), h)| >= 2
  {
    var points := Cluster.PointsOf(virtualNodes, signedChar);
    x := FreeId(signedChar, y, points([y]));
    assert points([x])[0] == FirstPoint(signedChar, x) && points([y])[0] == FirstPoint(signedChar, y);
    TwoNodeEntries(points, [x], [y], FirstPoint(signedChar, x), FirstPoint(signedChar, y));
    forall h: Point
      ensures |Preference(TwoNodeRing(signedChar, virtualNodes, [x], [y]), h)| >= 2
    {
      TwoOwners(TwoNodeRing(signedChar, virtualNodes, [x], [y]), Vnode(FirstPoint(signedChar, x), [x]),
                Vnode(FirstPoint(signedChar, y), [y]), h);
    }
  }

  /**
   A cluster in which it does, for every key and value: two configured nodes, and a put at the one that is
   not the key's primary while the primary cannot be reached. The cluster manager has 150 virtual nodes.
   */
  lemma PrimaryMissesExample(signedChar: bool, virtualNodes: nat, quorum: NodeId -> nat, key: Key, v: Value)
    returns (setup: Setup, x: Byte, y: Byte)
    requires Accepted(Put(key, v)) && 1 <= virtualNodes < 255
    ensures x != y && setup == Setup(TwoNodeRing(signedChar, virtualNodes, [x], [y]), signedChar, 2, quorum)
    ensures |Homes(setup, key)| == 2
    ensures forall down, fates ::
              Misses(setup, Write(setup, map[], Homes(setup, key)[1], Put(key, v), {}, []).stores, key, down, fates)
  {
    y := 66;
    x := TwoNodePreference(signedChar, virtualNodes, y);
    setup := Setup(TwoNodeRing(signedChar, virtualNodes, [x], [y]), signedChar, 2, quorum);
    forall down, fates
      ensures Misses(setup, Write(setup, map[], Homes(setup, key)[1], Put(key, v), {}, []).stores, key, down, fates)
    {
      MissesSecond(setup, key, v, down, fates);
    }
  }

  // ---- The handlers ----

  lemma EraseFront(s: seq<NodeId>, id: NodeId)
    requires s != []
    ensures Erase(s, id) == (if s[0] == id then [] else [s[0]]) + Erase(s[1..], id)
    decreases |s|
  {
    if |s| > 1 {
      var init := s[..|s| - 1];
      EraseFront(init, id);
      assert s[1..][..|s[1..]| - 1] == init[1..];
    }
  }

  /** `n` acknowledgements already counted, then those of `w`. */
  predicate Counts(total: Written, n: nat, w: Written) {
    total.stores == w.stores && |total.acks| == n + |w.acks|
  }

  /** One turn of the loop: skip the node itself, or forward while the tree has a fate for it. */
  lemma ForwardTurn(setup: Setup, stores: Stores, nodes: seq<NodeId>, self: NodeId, u: Mutation, fates: seq<Fate>)
    requires nodes != []
    ensures var total := ForwardAll(setup, stores, Erase(nodes, self), u, fates);
            if nodes[0] == self || fates == [] then
              Counts(total, 0, ForwardAll(setup, stores, Erase(nodes[1..], self), u, fates))
            else
              var one := Forward(setup, stores, nodes[0], u, fates[0]);
              Counts(total, |one.acks|, ForwardAll(setup, one.stores, Erase(nodes[1..], self), u, fates[1..]))
  {
    EraseFront(nodes, self);
    if nodes[0] == self {
      assert Erase(nodes, self) == Erase(nodes[1..], self);
    } else {
      assert Erase(nodes, self)[1..] == Erase(nodes[1..], self);
    }
  }

  /** All nodes of the cluster and the stores they hold. */
  class Nodes {
    const setup: Setup
    var stores: Stores

    constructor (setup: Setup, stores: Stores)
      ensures this.setup == setup && this.stores == stores
    {
      this.setup, this.stores := setup, stores;
    }

    method HandlePut(self: NodeId, key: Key, value: Value, down: set<NodeId>, fates: seq<Fate>) returns (r: Response)
      modifies this
      ensures var w := Write(setup, old(stores), self, Put(key, value), down, fates);
              stores == w.stores && r == Response(if |w.acks| >= setup.quorum(self) then OK else ERROR, [])
      decreases fates, 1
    {
      var u := Put(key, value);
      var replicas := Replicas(setup, key, self, down);
      var acks := 0;
      var localWrite := false;
      for i := 0 to |replicas|
        invariant !localWrite && self !in replicas[..i]
      {
        if replicas[i] == self {
          localWrite := true;
          break;
        }
      }
      if localWrite {
        stores := stores[self := Apply(StoreAt(stores, self), u)];
        if Accepted(u) {
          acks := acks + 1;
        }
      }
      var more := ReplicateToNodes(self, replicas, u, fates);
      acks := acks + more;
      r := Response(if acks >= setup.quorum(self) then OK else ERROR, []);
    }

    method HandleDelete(self: NodeId, key: Key, down: set<NodeId>, fates: seq<Fate>) returns (r: Response)
      modifies this
      ensures var w := Write(setup, old(stores), self, Delete(key), down, fates);
              stores == w.stores && r == Response(if |w.acks| >= setup.quorum(self) then OK else ERROR, [])
      decreases fates, 1
    {
      var u := Delete(key);
      var replicas := Replicas(setup, key, self, down);
      var acks := 0;
      var localWrite := false;
      for i := 0 to |replicas|
        invariant !localWrite && self !in replicas[..i]
      {
        if replicas[i] == self {
          localWrite := true;
          break;
        }
      }
      if localWrite {
        stores := stores[self := Apply(StoreAt(stores, self), u)];
        acks := acks + 1;
      }
      var more := ReplicateToNodes(self, replicas, u, fates);
      acks := acks + more;
      r := Response(if acks >= setup.quorum(self) then OK else ERROR, []);
    }

    /** The primary answers from its own store; other nodes ask the replicas one after another. */
    method HandleGet(self: NodeId, key: Key, down: set<NodeId>, fates: seq<Fate>) returns (r: Response)
      ensures r == Read(setup, stores, self, key, down, fates)
      decreases fates
    {
      if Primary(setup.ring, PointOf(setup.signedChar, key)) == self {
        return GetAt(stores, self, key);
      }
      var nodes := Replicas(setup, key, self, down);
      var next := 0;
      assert nodes[0..] == nodes && fates[0..] == fates;
      for i := 0 to |nodes|
        invariant next <= |fates|
        invariant ReadFrom(setup, stores, self, nodes, key, fates) ==
                  ReadFrom(setup, stores, self, nodes[i..], key, fates[next..])
      {
        assert nodes[i..][1..] == nodes[i + 1..];
        if nodes[i] == self {
          r := GetAt(stores, self, key);
          if r.status == OK {
            return;
          }
        } else if next < |fates| {
          assert fates[next..][1..] == fates[next + 1..];
          if fates[next].Unreachable? || fates[next].replyLost {
            r := Response(NODE_UNAVAILABLE, []);
          } else {
            r := HandleGet(nodes[i], key, fates[next].down, fates[next].fates);
          }
          if r.status == OK {
            return;
          }
          next := next + 1;
        }
      }
      r := Response(NOT_FOUND, []);
    }

    /** Forwards to every replica but the node itself and counts the OK answers. */
    method ReplicateToNodes(self: NodeId, nodes: seq<NodeId>, u: Mutation, fates: seq<Fate>) returns (acks: nat)
      modifies this
      ensures var w := ForwardAll(setup, old(stores), Erase(nodes, self), u, fates);
              stores == w.stores && acks == |w.acks|
      decreases fates, 0
    {
      acks := 0;
      ghost var total := ForwardAll(setup, stores, Erase(nodes, self), u, fates);
      var next := 0;
      assert nodes[0..] == nodes && fates[0..] == fates;
      for i := 0 to |nodes|
        invariant next <= |fates|
        invariant Counts(total, acks, ForwardAll(setup, stores, Erase(nodes[i..], self), u, fates[next..]))
      {
        ForwardTurn(setup, stores, nodes[i..], self, u, fates[next..]);
        assert nodes[i..][1..] == nodes[i + 1..];
        if nodes[i] != self && next < |fates| {
          assert fates[next..][1..] == fates[next + 1..];
          var resp := ForwardRequest(nodes[i], u, fates[next]);
          if resp.status == OK || resp.status == NOT_FOUND {
            acks := acks + 1;
          }
          next := next + 1;
        }
      }
    }

    /** The peer's handler is this same code, run on the peer. */
    method ForwardRequest(node: NodeId, u: Mutation, fate: Fate) returns (resp: Response)
      modifies this
      ensures var w := Forward(setup, old(stores), node, u, fate);
              stores == w.stores && |w.acks| == if resp.status in {OK, NOT_FOUND} then 1 else 0
      decreases fate
    {
      match fate
      case Unreachable =>
        resp := Response(NODE_UNAVAILABLE, []);
      case Reached(down, fates, replyLost) =>
        if u.Put? {
          resp := HandlePut(node, u.key, u.value, down, fates);
        } else {
          resp := HandleDelete(node, u.key, down, fates);
        }
        if replyLost {
          resp := Response(NODE_UNAVAILABLE, []);
        }
    }
  }
}
