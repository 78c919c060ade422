/**
 What forwarding does, run by run: which nodes a write visits and counts, whose value a read returns, and
 when a request whose every forward is answered can end at all.
 */
module Forwarding {
  import opened Optional
  import opened Bytes
  import opened Store
  import opened Ring
  import opened HashRing
  import Cluster
  import opened Replication

  // ---- The replicas of the model are those of the cluster manager ----

  lemma HomesIndexed(setup: Setup, key: Key, nodes: seq<NodeId>)
    requires forall v :: v in setup.ring ==> v.owner in nodes
    ensures forall id :: id in Homes(setup, key) ==> id in nodes
  {
    HomesCount(setup, key);
    PreferenceIs(setup.ring, PointOf(setup.signedChar, key));
    forall id | id in Homes(setup, key)
      ensures id in nodes
    {
      assert id in Owners(setup.ring);
      var i :| 0 <= i < |setup.ring| && setup.ring[i].owner == id;
      assert setup.ring[i] in setup.ring;
    }
  }

  lemma SelectionIs(cluster: Cluster.ClusterManager, setup: Setup, key: Key)
    requires cluster.Valid() && cluster.ring.ring == setup.ring && cluster.ring.signedChar == setup.signedChar
    requires cluster.selfId in cluster.index ==> cluster.nodes[cluster.index[cluster.selfId]].status == Cluster.UP
    ensures Cluster.Live(cluster.index, cluster.nodes, Homes(setup, key)) ==
            Replicas(setup, key, cluster.selfId, DownIn(cluster.nodes))
  {
    HomesIndexed(setup, key, cluster.ring.nodes);
    FilterIsLive(cluster.index, cluster.nodes, cluster.selfId, Homes(setup, key));
  }

  /** `getReplicaNodes` with the replication factor returns exactly the replicas that the handlers work on. */
  method SelectReplicas(cluster: Cluster.ClusterManager, setup: Setup, key: Key) returns (ids: seq<NodeId>)
    requires cluster.Valid() && cluster.ring.ring == setup.ring && cluster.ring.signedChar == setup.signedChar
    requires cluster.selfId in cluster.index ==> cluster.nodes[cluster.index[cluster.selfId]].status == Cluster.UP
    ensures ids == Replicas(setup, key, cluster.selfId, DownIn(cluster.nodes))
  {
    var infos := cluster.GetReplicaNodes(key, setup.factor);
    SelectionIs(cluster, setup, key);
    ids := Cluster.Ids(infos);
  }

  // ---- Which nodes a write counts ----

  /** The request arrived and its answer came back. */
  predicate Heard(fate: Fate) {
    fate.Reached? && !fate.replyLost
  }

  /** The peer's own run of the handler, on whatever stores. */
  function PeerRun(n: NodeId, u: Mutation, fate: Fate): Run
    requires fate.Reached?
  {
    Run(map[], n, u, fate.down, fate.fates)
  }

  predicate Counted(setup: Setup, n: NodeId, u: Mutation, fate: Fate) {
    Heard(fate) && AnsweredOk(setup, PeerRun(n, u, fate))
  }

  lemma {:induction false} ForwardCounts(setup: Setup, stores: Stores, n: NodeId, u: Mutation, fate: Fate)
    ensures Forward(setup, stores, n, u, fate).acks == if Counted(setup, n, u, fate) then [n] else []
  {
    if fate.Reached? {
      AcksIgnoreStores(setup, stores, map[], n, u, fate.down, fate.fates);
    }
  }

  lemma {:induction false} ForwardAllCounts(setup: Setup, stores: Stores, peers: seq<NodeId>, u: Mutation,
                                            fates: seq<Fate>)
    requires Distinct(peers)
    ensures var acks := ForwardAll(setup, stores, peers, u, fates).acks;
            && (forall n :: n in acks ==> n in peers)
            && (forall i :: 0 <= i < |peers| ==>
                  (peers[i] in acks <==> i < |fates| && Counted(setup, peers[i], u, fates[i])))
    decreases |peers|
  {
    if peers != [] && fates != [] {
      var one := Forward(setup, stores, peers[0], u, fates[0]);
      var rest := ForwardAll(setup, one.stores, peers[1..], u, fates[1..]);
      HeadAndTail(peers);
      ForwardCounts(setup, stores, peers[0], u, fates[0]);
      ForwardAllCounts(setup, one.stores, peers[1..], u, fates[1..]);
      JoinCounts(setup, peers, u, fates, one.acks, rest.acks);
    }
  }

  lemma JoinCounts(setup: Setup, peers: seq<NodeId>, u: Mutation, fates: seq<Fate>, a: seq<NodeId>, b: seq<NodeId>)
    requires peers != [] && fates != [] && peers[0] !in peers[1..]
    requires a == if Counted(setup, peers[0], u, fates[0]) then [peers[0]] else []
    requires forall n :: n in b ==> n in peers[1..]
    requires forall i :: 0 <= i < |peers[1..]| ==>
               (peers[1..][i] in b <==> i < |fates[1..]| && Counted(setup, peers[1..][i], u, fates[1..][i]))
    ensures forall n :: n in a + b ==> n in peers
    ensures forall i :: 0 <= i < |peers| ==>
              (peers[i] in a + b <==> i < |fates| && Counted(setup, peers[i], u, fates[i]))
  {
    forall i | 0 <= i < |peers|
      ensures peers[i] in a + b <==> i < |fates| && Counted(setup, peers[i], u, fates[i])
    {
      if i > 0 {
        assert peers[1..][i - 1] == peers[i];
        if i < |fates| {
          assert fates[1..][i - 1] == fates[i];
        }
      }
    }
  }

  /**
   The handler counts itself exactly if it is a home and the store takes the write, and a peer exactly if
   the peer was reached, its own run ended with OK, and its answer was not lost.
   */
  lemma CountsExactly(setup: Setup, r: Run)
    ensures var acks := Outcome(setup, r).acks;
            && (r.self in acks <==> r.self in Homes(setup, r.u.key) && Accepted(r.u))
            && (forall n :: n in acks ==> n == r.self || n in Peers(setup, r))
            && (forall i :: 0 <= i < |Peers(setup, r)| ==>
                  (Peers(setup, r)[i] in acks <==>
                   i < |r.fates| && Counted(setup, Peers(setup, r)[i], r.u, r.fates[i])))
  {
    var replicas := Replicas(setup, r.u.key, r.self, r.down);
    var mine := WriteLocal(r.stores, r.self, r.u, replicas);
    var others := ForwardAll(setup, mine.stores, Peers(setup, r), r.u, r.fates).acks;
    ReplicasAreHomes(setup, r.u.key, r.self, r.down);
    ForwardAllCounts(setup, mine.stores, Peers(setup, r), r.u, r.fates);
    forall i | 0 <= i < |Peers(setup, r)|
      ensures Peers(setup, r)[i] in mine.acks + others <==>
              i < |r.fates| && Counted(setup, Peers(setup, r)[i], r.u, r.fates[i])
    {
      assert Peers(setup, r)[i] != r.self;
    }
  }

  // ---- Which nodes a write changes ----

  /** The nodes on which some handler runs. */
  ghost function Visited(setup: Setup, key: Key, self: NodeId, down: set<NodeId>, fates: seq<Fate>): set<NodeId>
    decreases fates, 1
  {
    {self} + VisitedAll(setup, key, Erase(Replicas(setup, key, self, down), self), fates)
  }

  ghost function VisitedAll(setup: Setup, key: Key, peers: seq<NodeId>, fates: seq<Fate>): set<NodeId>
    decreases fates, 0
  {
    if peers == [] || fates == [] then {}
    else VisitedBy(setup, key, peers[0], fates[0]) + VisitedAll(setup, key, peers[1..], fates[1..])
  }

  ghost function VisitedBy(setup: Setup, key: Key, n: NodeId, fate: Fate): set<NodeId>
    decreases fate
  {
    if fate.Reached? then Visited(setup, key, n, fate.down, fate.fates) else {}
  }

  /** Exactly the homes among `visited` have had the mutation applied. */
  ghost predicate Applied(a: Stores, b: Stores, u: Mutation, homes: seq<NodeId>, visited: set<NodeId>) {
    forall n :: StoreAt(b, n) == if n in visited && n in homes then Apply(StoreAt(a, n), u) else StoreAt(a, n)
  }

  lemma AppliedTwice(a: Stores, b: Stores, c: Stores, u: Mutation, homes: seq<NodeId>, v: set<NodeId>, w: set<NodeId>)
    requires Applied(a, b, u, homes, v) && Applied(b, c, u, homes, w)
    ensures Applied(a, c, u, homes, v + w)
  {
    forall n
      ensures StoreAt(c, n) == if n in v + w && n in homes then Apply(StoreAt(a, n), u) else StoreAt(a, n)
    {
      var m := StoreAt(a, n);
      assert Apply(Apply(m, u), u) == Apply(m, u);
    }
  }

  lemma LocalApplied(stores: Stores, self: NodeId, u: Mutation, replicas: seq<NodeId>, homes: seq<NodeId>)
    requires self in replicas <==> self in homes
    ensures Applied(stores, WriteLocal(stores, self, u, replicas).stores, u, homes, {self})
  {
  }

  /** A run of the handler changes exactly the homes it visits, at any forwarding depth, whatever it answers. */
  lemma {:induction false} WritesExactly(setup: Setup, stores: Stores, self: NodeId, u: Mutation, down: set<NodeId>,
                                         fates: seq<Fate>)
    ensures Applied(stores, Write(setup, stores, self, u, down, fates).stores, u, Homes(setup, u.key),
                    Visited(setup, u.key, self, down, fates))
    decreases fates, 1
  {
    var homes := Homes(setup, u.key);
    var replicas := Replicas(setup, u.key, self, down);
    var peers := Erase(replicas, self);
    var mine := WriteLocal(stores, self, u, replicas);
    ReplicasAreHomes(setup, u.key, self, down);
    LocalApplied(stores, self, u, replicas, homes);
    ForwardAllApplied(setup, mine.stores, peers, u, fates);
    AppliedTwice(stores, mine.stores, ForwardAll(setup, mine.stores, peers, u, fates).stores, u, homes, {self},
                 VisitedAll(setup, u.key, peers, fates));
  }

  lemma {:induction false} ForwardAllApplied(setup: Setup, stores: Stores, peers: seq<NodeId>, u: Mutation,
                                             fates: seq<Fate>)
    ensures Applied(stores, ForwardAll(setup, stores, peers, u, fates).stores, u, Homes(setup, u.key),
                    VisitedAll(setup, u.key, peers, fates))
    decreases fates, 0
  {
    if peers != [] && fates != [] {
      var one := Forward(setup, stores, peers[0], u, fates[0]);
      ForwardApplied(setup, stores, peers[0], u, fates[0]);
      ForwardAllApplied(setup, one.stores, peers[1..], u, fates[1..]);
      AppliedTwice(stores, one.stores, ForwardAll(setup, one.stores, peers[1..], u, fates[1..]).stores, u,
                   Homes(setup, u.key), VisitedBy(setup, u.key, peers[0], fates[0]),
                   VisitedAll(setup, u.key, peers[1..], fates[1..]));
    }
  }

  lemma {:induction false} ForwardApplied(setup: Setup, stores: Stores, n: NodeId, u: Mutation, fate: Fate)
    ensures Applied(stores, Forward(setup, stores, n, u, fate).stores, u, Homes(setup, u.key),
                    VisitedBy(setup, u.key, n, fate))
    decreases fate
  {
    match fate
    case Unreachable =>
    case Reached(peerDown, peerFates, lost) =>
      WritesExactly(setup, stores, n, u, peerDown, peerFates);
      ForwardStores(setup, stores, n, u, peerDown, peerFates, lost);
      VisitedByReached(setup, u.key, n, peerDown, peerFates, lost);
  }

  lemma {:induction false} ForwardStores(setup: Setup, stores: Stores, n: NodeId, u: Mutation, down: set<NodeId>,
                                         fates: seq<Fate>, lost: bool)
    ensures Forward(setup, stores, n, u, Reached(down, fates, lost)).stores ==
            Write(setup, stores, n, u, down, fates).stores
  {
  }

  lemma {:induction false} VisitedByReached(setup: Setup, key: Key, n: NodeId, down: set<NodeId>, fates: seq<Fate>,
                                            lost: bool)
    ensures VisitedBy(setup, key, n, Reached(down, fates, lost)) == Visited(setup, key, n, down, fates)
  {
  }

  // ---- When a write whose every forward arrives can end ----

  /** Nobody takes a home for DOWN and every forward arrives, at every depth. */
  ghost predicate AllArrive(setup: Setup, key: Key, self: NodeId, down: set<NodeId>, fates: seq<Fate>)
    decreases fates, 1
  {
    SeesHomes(setup, key, self, down) && AllArriveAt(setup, key, Erase(Replicas(setup, key, self, down), self), fates)
  }

  ghost predicate AllArriveAt(setup: Setup, key: Key, peers: seq<NodeId>, fates: seq<Fate>)
    decreases fates, 0
  {
    peers == [] ||
    (&& fates != [] && fates[0].Reached?
     && AllArrive(setup, key, peers[0], fates[0].down, fates[0].fates)
     && AllArriveAt(setup, key, peers[1..], fates[1..]))
  }

  /** Some run of the write in which every forward arrives comes to an end. */
  ghost predicate WriteCanEnd(setup: Setup, key: Key, self: NodeId) {
    exists down, fates :: AllArrive(setup, key, self, down, fates)
  }

  lemma OtherHomes(setup: Setup, key: Key, self: NodeId, down: set<NodeId>)
    requires SeesHomes(setup, key, self, down)
    ensures var peers := Erase(Replicas(setup, key, self, down), self);
            |peers| == |Homes(setup, key)| - if self in Homes(setup, key) then 1 else 0
  {
    AllVisible(Homes(setup, key), self, down);
    HomesDistinct(setup, key);
    EraseAbsent(Homes(setup, key), self);
  }

  lemma {:induction false} WriteNeverEnds(setup: Setup, key: Key, self: NodeId, down: set<NodeId>, fates: seq<Fate>)
    requires |Homes(setup, key)| >= 2
    ensures !AllArrive(setup, key, self, down, fates)
    decreases fates
  {
    if AllArrive(setup, key, self, down, fates) {
      var peers := Erase(Replicas(setup, key, self, down), self);
      OtherHomes(setup, key, self, down);
      assert AllArriveAt(setup, key, peers, fates);
      WriteNeverEnds(setup, key, peers[0], fates[0].down, fates[0].fates);
    }
  }

  lemma {:induction false} AlonePeer(setup: Setup, key: Key, n: NodeId)
    requires |Homes(setup, key)| == 1 && n in Homes(setup, key)
    ensures AllArrive(setup, key, n, {}, [])
  {
    OtherHomes(setup, key, n, {});
  }

  lemma {:induction false} LoneHome(setup: Setup, key: Key, self: NodeId)
    requires |Homes(setup, key)| <= 1
    ensures AllArrive(setup, key, self, {}, [Reached({}, [], false)])
  {
    var peers := Erase(Replicas(setup, key, self, {}), self);
    OtherHomes(setup, key, self, {});
    ReplicasAreHomes(setup, key, self, {});
    if peers != [] {
      assert peers[0] in peers && peers[1..] == [];
      AlonePeer(setup, key, peers[0]);
    }
    assert AllArriveAt(setup, key, peers, [Reached({}, [], false)]);
  }

  lemma {:induction false} LoneHomeEnds(setup: Setup, key: Key, self: NodeId)
    requires |Homes(setup, key)| <= 1
    ensures WriteCanEnd(setup, key, self)
  {
    LoneHome(setup, key, self);
  }

  /**
   Every peer replicates a forwarded write again. So while every forward arrives and nobody is taken for
   DOWN, a write ends exactly if its key has at most one home.
   */
  lemma {:induction false} WriteEndsExactly(setup: Setup, key: Key, self: NodeId)
    ensures WriteCanEnd(setup, key, self) <==> |Homes(setup, key)| <= 1
  {
    if |Homes(setup, key)| <= 1 {
      LoneHomeEnds(setup, key, self);
    } else if WriteCanEnd(setup, key, self) {
      var down, fates :| AllArrive(setup, key, self, down, fates);
      WriteNeverEnds(setup, key, self, down, fates);
    }
  }

  // ---- Whose value a read returns ----

  function PrimaryOf(setup: Setup, key: Key): NodeId {
    Primary(setup.ring, PointOf(setup.signedChar, key))
  }

  /** A home with the key, or the primary, answers from its own store. */
  function OwnAnswer(stores: Stores, n: NodeId, key: Key): Response {
    if key in StoreAt(stores, n) then Response(OK, StoreAt(stores, n)[key]) else Response(NOT_FOUND, [])
  }

  /** A node asked in vain uses up its fate. */
  lemma FirstSilent(setup: Setup, stores: Stores, self: NodeId, nodes: seq<NodeId>, key: Key, fates: seq<Fate>)
    requires nodes != [] && nodes[0] != self
    requires fates != [] ==> ReadForward(setup, stores, nodes[0], key, fates[0]).status != OK
    ensures ReadFrom(setup, stores, self, nodes, key, fates) ==
            ReadFrom(setup, stores, self, nodes[1..], key, if fates == [] then fates else fates[1..])
  {
  }

  lemma VisibleHead(setup: Setup, key: Key, self: NodeId, down: set<NodeId>) returns (rest: seq<NodeId>)
    requires Homes(setup, key) != []
    ensures rest == Filter(Homes(setup, key)[1..], self, down)
    ensures var h := Homes(setup, key)[0];
            Replicas(setup, key, self, down) == (if h == self || h !in down then [h] else []) + rest
  {
    var homes := Homes(setup, key);
    rest := Filter(homes[1..], self, down);
    assert homes == [homes[0]] + homes[1..];
    FilterAppend([homes[0]], homes[1..], self, down);
    FilterOne(homes[0], self, down);
  }

  lemma FilterOne(h: NodeId, self: NodeId, down: set<NodeId>)
    ensures Filter([h], self, down) == if h == self || h !in down then [h] else []
  {
    assert [h][..0] == [];
  }

  lemma AskPrimary(setup: Setup, stores: Stores, key: Key, fate: Fate)
    ensures Heard(fate) ==> ReadForward(setup, stores, PrimaryOf(setup, key), key, fate) ==
                            OwnAnswer(stores, PrimaryOf(setup, key), key)
    ensures !Heard(fate) ==> ReadForward(setup, stores, PrimaryOf(setup, key), key, fate).status == NODE_UNAVAILABLE
  {
  }

  lemma AskNode(setup: Setup, stores: Stores, n: NodeId, key: Key, fate: Fate)
    requires Heard(fate)
    ensures ReadForward(setup, stores, n, key, fate) == Read(setup, stores, n, key, fate.down, fate.fates)
  {
  }

  /** The answer of the first node asked, if it is one. */
  lemma FirstSettles(setup: Setup, stores: Stores, self: NodeId, nodes: seq<NodeId>, key: Key, fates: seq<Fate>)
    requires nodes != [] && nodes[0] != self && fates != []
    requires ReadForward(setup, stores, nodes[0], key, fates[0]).status == OK
    ensures ReadFrom(setup, stores, self, nodes, key, fates) == ReadForward(setup, stores, nodes[0], key, fates[0])
  {
  }

  /**
   If the primary of the key has it and can be heard, its value is the answer, whatever other homes hold:
   at the primary itself, and at any node that does not take it for DOWN.
   */
  lemma {:induction false} ReadReturnsPrimary(setup: Setup, stores: Stores, self: NodeId, key: Key, down: set<NodeId>,
                                              fates: seq<Fate>)
    requires key in StoreAt(stores, PrimaryOf(setup, key))
    requires self == PrimaryOf(setup, key) ||
             (Homes(setup, key) != [] && PrimaryOf(setup, key) !in down && fates != [] && Heard(fates[0]))
    ensures Read(setup, stores, self, key, down, fates) == Response(OK, StoreAt(stores, PrimaryOf(setup, key))[key])
  {
    if self != PrimaryOf(setup, key) {
      PrimaryIsHome(setup, key);
      var rest := VisibleHead(setup, key, self, down);
      AskPrimary(setup, stores, key, fates[0]);
      FirstSettles(setup, stores, self, [PrimaryOf(setup, key)] + rest, key, fates);
    }
  }

  /** Asked while the primary lacks the key, the second home answers from its own store if it can. */
  lemma {:induction false} SecondAnswers(setup: Setup, stores: Stores, key: Key, down: set<NodeId>, fates: seq<Fate>)
    requires |Homes(setup, key)| >= 2 && key !in StoreAt(stores, PrimaryOf(setup, key))
    requires key in StoreAt(stores, Homes(setup, key)[1])
    ensures Read(setup, stores, Homes(setup, key)[1], key, down, fates) ==
            Response(OK, StoreAt(stores, Homes(setup, key)[1])[key])
  {
    var homes := Homes(setup, key);
    var self := homes[1];
    HomesDistinct(setup, key);
    PrimaryIsHome(setup, key);
    var rest := VisibleHead(setup, key, self, down);
    SecondNext(setup, key, self, down, rest);
    SkipPrimary(setup, stores, self, key, down, fates, rest);
  }

  /** The visible rest begins with the second home. */
  lemma SecondNext(setup: Setup, key: Key, self: NodeId, down: set<NodeId>, rest: seq<NodeId>)
    requires |Homes(setup, key)| >= 2 && rest == Filter(Homes(setup, key)[1..], self, down)
    ensures var h := Homes(setup, key)[1];
            h == self || h !in down ==> rest != [] && rest[0] == h
  {
    var tail := Homes(setup, key)[1..];
    assert tail == [tail[0]] + tail[1..];
    FilterAppend([tail[0]], tail[1..], self, down);
    FilterOne(tail[0], self, down);
  }

  /** A primary without the key only uses up its fate. */
  lemma {:induction false} SkipPrimary(setup: Setup, stores: Stores, self: NodeId, key: Key, down: set<NodeId>,
                                       fates: seq<Fate>, rest: seq<NodeId>)
    requires Homes(setup, key) != [] && key !in StoreAt(stores, PrimaryOf(setup, key))
    requires self != PrimaryOf(setup, key)
    requires rest == Filter(Homes(setup, key)[1..], self, down)
    ensures Read(setup, stores, self, key, down, fates) ==
            ReadFrom(setup, stores, self, rest, key,
                     if PrimaryOf(setup, key) in down || fates == [] then fates else fates[1..])
  {
    PrimaryIsHome(setup, key);
    var _ := VisibleHead(setup, key, self, down);
    if PrimaryOf(setup, key) in down {
      assert [] + rest == rest;
    } else {
      var nodes := [PrimaryOf(setup, key)] + rest;
      assert nodes[0] == PrimaryOf(setup, key) && nodes[1..] == rest;
      if fates != [] {
        AskPrimary(setup, stores, key, fates[0]);
      }
      FirstSilent(setup, stores, self, nodes, key, fates);
    }
  }

  /** So the second home's value is the answer wherever that home is asked or heard. */
  lemma {:induction false} ReadReturnsSecond(setup: Setup, stores: Stores, self: NodeId, key: Key, down: set<NodeId>,
                                             fates: seq<Fate>)
    requires |Homes(setup, key)| >= 2 && self != PrimaryOf(setup, key)
    requires key !in StoreAt(stores, PrimaryOf(setup, key)) && key in StoreAt(stores, Homes(setup, key)[1])
    requires var i := if PrimaryOf(setup, key) in down then 0 else 1;
             self == Homes(setup, key)[1] || (Homes(setup, key)[1] !in down && i < |fates| && Heard(fates[i]))
    ensures Read(setup, stores, self, key, down, fates) == Response(OK, StoreAt(stores, Homes(setup, key)[1])[key])
  {
    var second := Homes(setup, key)[1];
    if self == second {
      SecondAnswers(setup, stores, key, down, fates);
    } else {
      var rest := VisibleHead(setup, key, self, down);
      SecondNext(setup, key, self, down, rest);
      SkipPrimary(setup, stores, self, key, down, fates, rest);
      var left := if PrimaryOf(setup, key) in down then fates else fates[1..];
      assert left != [] && Heard(left[0]) && rest[0] == second;
      assert Read(setup, stores, self, key, down, fates) == ReadFrom(setup, stores, self, rest, key, left);
      SecondAnswers(setup, stores, key, left[0].down, left[0].fates);
      AskNode(setup, stores, second, key, left[0]);
      FirstSettles(setup, stores, self, rest, key, left);
    }
  }

  /** A node that hears nobody answers from its own store if it is a home or the primary, and finds nothing else. */
  lemma {:induction false} ReadUnheard(setup: Setup, stores: Stores, self: NodeId, key: Key, down: set<NodeId>,
                                       fates: seq<Fate>)
    requires forall i :: 0 <= i < |fates| ==> !Heard(fates[i])
    ensures Read(setup, stores, self, key, down, fates) ==
            if self == PrimaryOf(setup, key) || self in Homes(setup, key) then OwnAnswer(stores, self, key)
            else Response(NOT_FOUND, [])
  {
    ReplicasAreHomes(setup, key, self, down);
    if self != PrimaryOf(setup, key) {
      ReadFromUnheard(setup, stores, self, Replicas(setup, key, self, down), key, fates);
    }
  }

  lemma {:induction false} ReadFromUnheard(setup: Setup, stores: Stores, self: NodeId, nodes: seq<NodeId>, key: Key,
                                           fates: seq<Fate>)
    requires forall i :: 0 <= i < |fates| ==> !Heard(fates[i])
    ensures ReadFrom(setup, stores, self, nodes, key, fates) ==
            if self in nodes then OwnAnswer(stores, self, key) else Response(NOT_FOUND, [])
    decreases |nodes|
  {
    if nodes != [] {
      ReadFromUnheard(setup, stores, self, nodes[1..], key,
                      if nodes[0] == self || fates == [] then fates else fates[1..]);
    }
  }

  // ---- Reads whose every forward is answered ----

  /** Nobody takes a home for DOWN, and every forward that is made is heard, at every depth. */
  ghost predicate AllHeard(setup: Setup, stores: Stores, self: NodeId, key: Key, down: set<NodeId>, fates: seq<Fate>)
    decreases fates, 1
  {
    || self == PrimaryOf(setup, key)
    || (SeesHomes(setup, key, self, down) && AllHeardFrom(setup, stores, self, Homes(setup, key), key, fates))
  }

  ghost predicate AllHeardFrom(setup: Setup, stores: Stores, self: NodeId, nodes: seq<NodeId>, key: Key,
                               fates: seq<Fate>)
    decreases fates, 0, |nodes|
  {
    nodes == [] ||
    if nodes[0] == self then HasKey(stores, self, key) || AllHeardFrom(setup, stores, self, nodes[1..], key, fates)
    else
      && fates != [] && Heard(fates[0])
      && AllHeard(setup, stores, nodes[0], key, fates[0].down, fates[0].fates)
      && (ReadForward(setup, stores, nodes[0], key, fates[0]).status == OK ||
          AllHeardFrom(setup, stores, self, nodes[1..], key, fates[1..]))
  }

  /** Some run of the read in which every forward is answered comes to an end. */
  ghost predicate ReadCanEnd(setup: Setup, stores: Stores, self: NodeId, key: Key) {
    exists down, fates :: AllHeard(setup, stores, self, key, down, fates)
  }

  /** The first node of the list that has the key. */
  function FirstAnswer(stores: Stores, nodes: seq<NodeId>, key: Key): Response {
    if nodes == [] then Response(NOT_FOUND, [])
    else if HasKey(stores, nodes[0], key) then OwnAnswer(stores, nodes[0], key)
    else FirstAnswer(stores, nodes[1..], key)
  }

  lemma {:induction false} FirstAnswerSkips(stores: Stores, nodes: seq<NodeId>, key: Key, i: nat)
    requires i <= |nodes| && forall j :: 0 <= j < i ==> !HasKey(stores, nodes[j], key)
    ensures FirstAnswer(stores, nodes, key) == FirstAnswer(stores, nodes[i..], key)
    decreases i
  {
    if i > 0 {
      FirstAnswerSkips(stores, nodes[1..], key, i - 1);
      assert nodes[1..][i - 1..] == nodes[i..];
    } else {
      assert nodes[0..] == nodes;
    }
  }

  lemma {:induction false} HeardReturnsFirst(setup: Setup, stores: Stores, self: NodeId, key: Key, down: set<NodeId>,
                                             fates: seq<Fate>)
    requires AllHeard(setup, stores, self, key, down, fates) && self != PrimaryOf(setup, key)
    ensures Read(setup, stores, self, key, down, fates) == FirstAnswer(stores, Homes(setup, key), key)
    decreases fates, 1
  {
    var homes := Homes(setup, key);
    AllVisible(homes, self, down);
    assert homes[0..] == homes;
    HeardFromReturnsFirst(setup, stores, self, 0, key, fates);
  }

  lemma {:induction false} HeardFromReturnsFirst(setup: Setup, stores: Stores, self: NodeId, i: nat, key: Key,
                                                 fates: seq<Fate>)
    requires i <= |Homes(setup, key)| && self != PrimaryOf(setup, key)
    requires AllHeardFrom(setup, stores, self, Homes(setup, key)[i..], key, fates)
    requires forall j :: 0 <= j < i ==> !HasKey(stores, Homes(setup, key)[j], key)
    ensures ReadFrom(setup, stores, self, Homes(setup, key)[i..], key, fates) ==
            FirstAnswer(stores, Homes(setup, key)[i..], key)
    decreases fates, 0, |Homes(setup, key)| - i
  {
    var homes := Homes(setup, key);
    var nodes := homes[i..];
    if nodes != [] {
      assert nodes[1..] == homes[i + 1..];
      if nodes[0] == self {
        if !HasKey(stores, self, key) {
          HeardFromReturnsFirst(setup, stores, self, i + 1, key, fates);
        }
      } else {
        PeerReturnsFirst(setup, stores, i, key, fates[0]);
        if ReadForward(setup, stores, nodes[0], key, fates[0]).status != OK {
          HeardFromReturnsFirst(setup, stores, self, i + 1, key, fates[1..]);
        }
      }
    }
  }

  /** What home `i` answers when no earlier home has the key. */
  lemma {:induction false} PeerReturnsFirst(setup: Setup, stores: Stores, i: nat, key: Key, fate: Fate)
    requires i < |Homes(setup, key)| && Heard(fate)
    requires AllHeard(setup, stores, Homes(setup, key)[i], key, fate.down, fate.fates)
    requires forall j :: 0 <= j < i ==> !HasKey(stores, Homes(setup, key)[j], key)
    ensures var r := ReadForward(setup, stores, Homes(setup, key)[i], key, fate);
            && (r.status == OK ==> r == FirstAnswer(stores, Homes(setup, key)[i..], key))
            && (r.status != OK ==> !HasKey(stores, Homes(setup, key)[i], key))
    decreases fate
  {
    var homes := Homes(setup, key);
    if homes[i] == PrimaryOf(setup, key) {
    } else {
      HeardReturnsFirst(setup, stores, homes[i], key, fate.down, fate.fates);
      FirstAnswerSkips(stores, homes, key, i);
    }
  }

  /** Where every forward is answered, a read returns the value of the first home that has the key. */
  lemma ReadReturnsFirstHolder(setup: Setup, stores: Stores, self: NodeId, key: Key, down: set<NodeId>,
                               fates: seq<Fate>, i: nat)
    requires AllHeard(setup, stores, self, key, down, fates) && self != PrimaryOf(setup, key)
    requires i <= |Homes(setup, key)| && forall j :: 0 <= j < i ==> key !in StoreAt(stores, Homes(setup, key)[j])
    requires i < |Homes(setup, key)| ==> key in StoreAt(stores, Homes(setup, key)[i])
    ensures Read(setup, stores, self, key, down, fates) ==
            if i < |Homes(setup, key)| then Response(OK, StoreAt(stores, Homes(setup, key)[i])[key])
            else Response(NOT_FOUND, [])
  {
    HeardReturnsFirst(setup, stores, self, key, down, fates);
    FirstAnswerSkips(stores, Homes(setup, key), key, i);
  }

  lemma {:induction false} HeardByHomes(setup: Setup, stores: Stores, self: NodeId, key: Key, down: set<NodeId>,
                                        fates: seq<Fate>)
    requires AllHeard(setup, stores, self, key, down, fates) && self != PrimaryOf(setup, key)
    ensures AllHeardFrom(setup, stores, self, Homes(setup, key), key, fates)
  {
  }

  lemma {:induction false} HeardByFirst(setup: Setup, stores: Stores, self: NodeId, nodes: seq<NodeId>, key: Key,
                                        fates: seq<Fate>)
    requires AllHeardFrom(setup, stores, self, nodes, key, fates) && nodes != []
    ensures nodes[0] != self ==>
              && fates != [] && Heard(fates[0])
              && AllHeard(setup, stores, nodes[0], key, fates[0].down, fates[0].fates)
              && (ReadForward(setup, stores, nodes[0], key, fates[0]).status == OK ||
                  AllHeardFrom(setup, stores, self, nodes[1..], key, fates[1..]))
    ensures nodes[0] == self && !HasKey(stores, self, key) ==>
              AllHeardFrom(setup, stores, self, nodes[1..], key, fates)
  {
  }

  /** With three homes and the key on neither of the first two, two homes ask each other for ever. */
  lemma {:induction false} ReadNeverEnds(setup: Setup, stores: Stores, self: NodeId, key: Key, down: set<NodeId>,
                                         fates: seq<Fate>)
    requires |Homes(setup, key)| >= 3 && self != PrimaryOf(setup, key)
    requires !HasKey(stores, Homes(setup, key)[0], key) && !HasKey(stores, Homes(setup, key)[1], key)
    ensures !AllHeard(setup, stores, self, key, down, fates)
    decreases fates
  {
    if AllHeard(setup, stores, self, key, down, fates) {
      var homes := Homes(setup, key);
      HomesDistinct(setup, key);
      PrimaryIsHome(setup, key);
      assert homes[1..][0] == homes[1] && homes[1..][1..] == homes[2..] && homes[2..][0] == homes[2];
      HeardByHomes(setup, stores, self, key, down, fates);
      HeardByFirst(setup, stores, self, homes, key, fates);
      AskPrimary(setup, stores, key, fates[0]);
      HeardByFirst(setup, stores, self, homes[1..], key, fates[1..]);
      if self != homes[1] {
        ReadNeverEnds(setup, stores, homes[1], key, fates[1].down, fates[1].fates);
      } else {
        HeardByFirst(setup, stores, self, homes[2..], key, fates[1..]);
        ReadNeverEnds(setup, stores, homes[2], key, fates[1].down, fates[1].fates);
      }
    }
  }

  const ASK_PRIMARY: Fate := Reached({}, [], false)

  /** The two forwards that such a read needs at most. */
  const TWO_ASKS: seq<Fate> := [ASK_PRIMARY, Reached({}, [ASK_PRIMARY], false)]

  predicate NearHolder(setup: Setup, stores: Stores, key: Key) {
    || |Homes(setup, key)| <= 2
    || HasKey(stores, Homes(setup, key)[0], key) || HasKey(stores, Homes(setup, key)[1], key)
  }

  /** The part of a read after the primary has answered that it lacks the key. */
  lemma SecondHeard(setup: Setup, stores: Stores, key: Key, self: NodeId)
    requires |Homes(setup, key)| >= 2 && NearHolder(setup, stores, key)
    requires !HasKey(stores, Homes(setup, key)[0], key) && self == Homes(setup, key)[1]
    ensures AllHeardFrom(setup, stores, self, Homes(setup, key)[1..], key, [])
  {
    var tail := Homes(setup, key)[1..];
    assert tail[0] == self;
    if !HasKey(stores, self, key) {
      assert tail[1..] == [];
    }
  }

  lemma SecondIsHeard(setup: Setup, stores: Stores, key: Key)
    requires |Homes(setup, key)| >= 2 && NearHolder(setup, stores, key) && !HasKey(stores, Homes(setup, key)[0], key)
    ensures AllHeard(setup, stores, Homes(setup, key)[1], key, {}, [ASK_PRIMARY])
  {
    var homes := Homes(setup, key);
    HomesDistinct(setup, key);
    PrimaryIsHome(setup, key);
    SecondHeard(setup, stores, key, homes[1]);
    assert [ASK_PRIMARY][1..] == [];
    assert AllHeard(setup, stores, homes[0], key, {}, []);
  }

  lemma NearIsHeard(setup: Setup, stores: Stores, self: NodeId, key: Key)
    requires NearHolder(setup, stores, key) && self != PrimaryOf(setup, key)
    ensures AllHeard(setup, stores, self, key, {}, TWO_ASKS)
  {
    var homes := Homes(setup, key);
    if homes != [] {
      HomesDistinct(setup, key);
      PrimaryIsHome(setup, key);
      assert AllHeard(setup, stores, homes[0], key, {}, []);
      assert TWO_ASKS[1..] == [Reached({}, [ASK_PRIMARY], false)];
      if !HasKey(stores, homes[0], key) {
        AfterPrimary(setup, stores, self, key);
      }
    }
  }

  lemma AfterPrimary(setup: Setup, stores: Stores, self: NodeId, key: Key)
    requires NearHolder(setup, stores, key) && self != PrimaryOf(setup, key)
    requires Homes(setup, key) != [] && !HasKey(stores, Homes(setup, key)[0], key)
    ensures AllHeardFrom(setup, stores, self, Homes(setup, key)[1..], key, [Reached({}, [ASK_PRIMARY], false)])
  {
    var homes := Homes(setup, key);
    var tail, fates := homes[1..], [Reached({}, [ASK_PRIMARY], false)];
    if tail != [] {
      assert tail[0] == homes[1];
      assert |homes| == 2 ==> tail[1..] == [];
      if self != homes[1] {
        SecondIsHeard(setup, stores, key);
        if HasKey(stores, homes[1], key) {
          HomeAnswers(setup, stores, homes[1], key, fates[0]);
        }
      }
    }
  }

  /**
   A home asks the homes before it in the list, and they ask the ones after them. So where every forward is
   answered, a read at another node than the primary ends exactly if the key has at most two homes or one
   of the first two has it.
   */
  lemma ReadEndsExactly(setup: Setup, stores: Stores, self: NodeId, key: Key)
    ensures ReadCanEnd(setup, stores, self, key) <==>
            self == PrimaryOf(setup, key) || NearHolder(setup, stores, key)
  {
    if self == PrimaryOf(setup, key) || NearHolder(setup, stores, key) {
      var down, fates := {}, TWO_ASKS;
      if self != PrimaryOf(setup, key) {
        NearIsHeard(setup, stores, self, key);
      }
      assert AllHeard(setup, stores, self, key, down, fates);
    } else if ReadCanEnd(setup, stores, self, key) {
      var down, fates :| AllHeard(setup, stores, self, key, down, fates);
      ReadNeverEnds(setup, stores, self, key, down, fates);
    }
  }
}
