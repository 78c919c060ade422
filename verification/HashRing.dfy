/** `ConsistentHashRing`: the ring as an object, its clockwise walk, and what its callers can rely on. */
module HashRing {
  import opened Bytes
  import opened Ring
  import Fnv

  // ---- Points ----

  /** `std::to_string`. */
  function Decimal(n: nat): Bytes {
    if n < 10 then [(48 + n) as Byte] else Decimal(n / 10) + [(48 + n % 10) as Byte]
  }

  function VnodeKey(id: NodeId, i: nat): Bytes {
    id + [0x23] + Decimal(i)
  }

  function PointOf(signedChar: bool, key: Bytes): Point {
    Fnv.Hash(signedChar, key) as nat
  }

  function VnodePoints(signedChar: bool, id: NodeId, n: nat): (s: seq<Point>) {
    seq(n, i requires 0 <= i < n => PointOf(signedChar, VnodeKey(id, i)))
  }

  predicate AllDigits(s: Bytes) {
    forall i :: 0 <= i < |s| ==> 48 <= s[i] <= 57
  }

  /** The number that a string of digits spells in base ten. */
  function Undecimal(s: Bytes): nat
    requires AllDigits(s)
  {
    if s == [] then 0 else 10 * Undecimal(s[..|s| - 1]) + (s[|s| - 1] as nat - 48)
  }

  /** Digits that spell the number, without a leading zero. */
  lemma {:induction false} DecimalIs(n: nat)
    ensures AllDigits(Decimal(n)) && Decimal(n) != [] && Undecimal(Decimal(n)) == n
    ensures if n == 0 then Decimal(n) == [48] else Decimal(n)[0] != 48
  {
    if n >= 10 {
      DecimalIs(n / 10);
      assert Decimal(n)[..|Decimal(n)| - 1] == Decimal(n / 10);
    } else {
      assert Decimal(n)[..0] == [];
    }
  }

  /** The string that is hashed for a virtual node: the id, a `#`, and the index in decimal. */
  lemma VnodeKeyLayout(id: NodeId, i: nat)
    ensures var key := VnodeKey(id, i);
            && |key| > |id| + 1 && key[..|id|] == id && key[|id|] == '#' as int as Byte
            && AllDigits(key[|id| + 1..]) && Undecimal(key[|id| + 1..]) == i
            && (key[|id| + 1] == 48 ==> i == 0 && |key| == |id| + 2)
  {
    DecimalIs(i);
    assert VnodeKey(id, i)[|id| + 1..] == Decimal(i);
  }

  /** The `#` is the last one in the string. */
  lemma LastHash(id: NodeId, i: nat, x: nat)
    requires |id| < x < |VnodeKey(id, i)|
    ensures VnodeKey(id, i)[x] != '#' as int as Byte
  {
    VnodeKeyLayout(id, i);
    assert VnodeKey(id, i)[x] == VnodeKey(id, i)[|id| + 1..][x - |id| - 1];
  }

  lemma NotLonger(id: NodeId, i: nat, id': NodeId, j: nat)
    requires VnodeKey(id, i) == VnodeKey(id', j)
    ensures |id| >= |id'|
  {
    VnodeKeyLayout(id', j);
    if |id| < |id'| {
      LastHash(id, i, |id'|);
    }
  }

  /** Different nodes or different indices give different strings, whatever bytes the ids hold. */
  lemma VnodeKeyInjective(id: NodeId, i: nat, id': NodeId, j: nat)
    ensures VnodeKey(id, i) == VnodeKey(id', j) <==> id == id' && i == j
  {
    if VnodeKey(id, i) == VnodeKey(id', j) {
      NotLonger(id, i, id', j);
      NotLonger(id', j, id, i);
      VnodeKeyLayout(id, i);
      VnodeKeyLayout(id', j);
    }
  }

  lemma PointAmong(signedChar: bool, id: NodeId, n: nat, p: Point)
    ensures p in VnodePoints(signedChar, id, n) <==>
            exists i :: 0 <= i < n && p == PointOf(signedChar, VnodeKey(id, i))
  {
    var points := VnodePoints(signedChar, id, n);
    forall i | 0 <= i < n
      ensures points[i] == PointOf(signedChar, VnodeKey(id, i))
    {
    }
  }

  /** After `addNode` the node owns exactly the hashes of its virtual nodes' strings, besides what it had. */
  lemma AddedPoints(r: Entries, signedChar: bool, id: NodeId, n: nat, p: Point)
    requires Sorted(r)
    ensures Vnode(p, id) in AssignAll(r, VnodePoints(signedChar, id, n), id) <==>
            Vnode(p, id) in r || exists i :: 0 <= i < n && p == PointOf(signedChar, VnodeKey(id, i))
  {
    AssignAllIs(r, VnodePoints(signedChar, id, n), id);
    PointAmong(signedChar, id, n, p);
  }

  // ---- Prefixes of the walk ----

  lemma {:induction false} DedupPrefix(s: seq<NodeId>, k: nat)
    requires k <= |s|
    ensures Dedup(s[..k]) <= Dedup(s)
    decreases |s|
  {
    if k < |s| {
      DedupPrefix(s[..|s| - 1], k);
      assert s[..|s| - 1][..k] == s[..k];
    } else {
      assert s[..k] == s;
    }
  }

  /** Once every owner has been met, the rest of the walk adds nothing. */
  lemma {:induction false} DedupComplete(s: seq<NodeId>, k: nat)
    requires k <= |s|
    requires forall x :: x in s ==> x in Dedup(s[..k])
    ensures Dedup(s) == Dedup(s[..k])
    decreases |s|
  {
    if k < |s| {
      var init := s[..|s| - 1];
      assert s == init + [s[|s| - 1]];
      assert init[..k] == s[..k];
      DedupComplete(init, k);
    } else {
      assert s[..k] == s;
    }
  }

  ghost function Elements(s: seq<NodeId>): set<NodeId> {
    set x | x in s
  }

  lemma {:induction false} DistinctSize(s: seq<NodeId>)
    requires Distinct(s)
    ensures |Elements(s)| == |s|
    decreases |s|
  {
    if s != [] {
      var init, x := s[..|s| - 1], s[|s| - 1];
      DistinctSize(init);
      assert Elements(s) == Elements(init) + {x};
    }
  }

  /** A duplicate-free list as long as its universe contains all of it. */
  lemma DistinctFills(s: seq<NodeId>, universe: seq<NodeId>)
    requires Distinct(s) && Distinct(universe) && |s| >= |universe|
    requires forall x :: x in s ==> x in universe
    ensures forall x :: x in universe ==> x in s
  {
    DistinctSize(s);
    DistinctSize(universe);
    SubsetSize(Elements(s), Elements(universe));
    assert Elements(s) == Elements(universe);
    forall x | x in universe
      ensures x in s
    {
      assert x in Elements(universe);
    }
  }

  lemma SubsetSize<T>(a: set<T>, b: set<T>)
    requires a <= b
    ensures |a| <= |b|
    ensures |a| == |b| ==> a == b
  {
    assert b == a + (b - a);
  }

  // ---- The object ----

  class ConsistentHashRing {
    const virtualNodes: nat
    const signedChar: bool
    var ring: Entries
    var nodes: seq<NodeId>

    /** Collisions may leave a listed node without any entry, never an entry without a listed node. */
    ghost predicate Valid()
      reads this
    {
      && Sorted(ring)
      && Distinct(nodes)
      && forall v :: v in ring ==> v.owner in nodes
    }

    constructor (virtualNodes: nat, signedChar: bool)
      ensures Valid() && ring == [] && nodes == []
      ensures this.virtualNodes == virtualNodes && this.signedChar == signedChar
    {
      this.virtualNodes := virtualNodes;
      this.signedChar := signedChar;
      ring, nodes := [], [];
    }

    method AddNode(id: NodeId)
      requires Valid()
      modifies this
      ensures Valid()
      ensures ring == AssignAll(old(ring), VnodePoints(signedChar, id, virtualNodes), id)
      ensures nodes == if id in old(nodes) then old(nodes) else old(nodes) + [id]
    {
      if id !in nodes {
        nodes := nodes + [id];
      }
      ghost var points := VnodePoints(signedChar, id, virtualNodes);
      for i := 0 to virtualNodes
        invariant ring == AssignAll(old(ring), points[..i], id)
        invariant nodes == if id in old(nodes) then old(nodes) else old(nodes) + [id]
      {
        AssignNext(old(ring), points, i, id);
        ring := Assign(ring, PointOf(signedChar, VnodeKey(id, i)), id);
      }
      assert points[..virtualNodes] == points;
      AddKeeps(old(ring), old(nodes), points, id);
    }

    method RemoveNode(id: NodeId)
      requires Valid()
      modifies this
      ensures Valid()
      ensures ring == Without(old(ring), id) && nodes == Erase(old(nodes), id)
    {
      nodes := Erase(nodes, id);
      var it := 0;
      assert ring[0..] == ring;
      while it < |ring|
        invariant it <= |ring| && nodes == Erase(old(nodes), id)
        invariant ring[..it] + Without(ring[it..], id) == Without(old(ring), id)
        decreases |ring| - it
      {
        KeepOrDrop(ring, it, id);
        if ring[it].owner == id {
          ring := ring[..it] + ring[it + 1..];
        } else {
          it := it + 1;
        }
      }
      assert ring[..it] + [] == ring;
      RemoveKeeps(old(ring), old(nodes), id);
    }

    method GetNode(key: Bytes) returns (id: NodeId)
      requires Valid()
      ensures id == Primary(ring, PointOf(signedChar, key))
    {
      if ring == [] {
        return [];
      }
      var it := LowerBound(ring, PointOf(signedChar, key));
      if it == |ring| {
        it := 0;
      }
      id := ring[it].owner;
    }

    /** The walk: skip owners already found, stop on wrap or when enough are found. */
    method GetNodes(key: Bytes, count: nat) returns (result: seq<NodeId>)
      requires Valid()
      ensures result == Take(Preference(ring, PointOf(signedChar, key)), count)
    {
      var hashVal := PointOf(signedChar, key);
      if ring == [] || count == 0 {
        NothingToWalk(ring, hashVal, count);
        return [];
      }
      ClockwiseTurns(ring, hashVal);
      var it := LowerBound(ring, hashVal);
      if it == |ring| {
        it := 0;
      }
      ghost var k;
      result, k := Walk(ring, it, count, |nodes|, Owners(Clockwise(ring, hashVal)));
      WalkStops(ring, nodes, hashVal, k, count);
    }
  }

  /** Position `j` steps clockwise of `start` on a ring of `n` entries. */
  function Turn(start: nat, j: nat, n: nat): (i: nat)
    requires start < n && j < n
    ensures i < n && (i == start <==> j == 0)
  {
    if start + j < n then start + j else start + j - n
  }

  lemma NothingToWalk(r: Entries, h: Point, count: nat)
    requires r == [] || count == 0
    ensures Take(Preference(r, h), count) == []
  {
  }

  lemma ClockwiseTurns(r: Entries, h: Point)
    requires r != []
    ensures var i := LowerBound(r, h);
            var start := if i == |r| then 0 else i;
            forall j :: 0 <= j < |r| ==> Owners(Clockwise(r, h))[j] == r[Turn(start, j, |r|)].owner
  {
  }

  method Walk(ring: Entries, startIt: nat, count: nat, nodeCount: nat, ghost walk: seq<NodeId>)
    returns (result: seq<NodeId>, ghost k: nat)
    requires startIt < |ring| == |walk|
    requires forall j :: 0 <= j < |ring| ==> walk[j] == ring[Turn(startIt, j, |ring|)].owner
    ensures k <= |ring| && result == Dedup(walk[..k]) && |result| <= count
    ensures k == |ring| || |result| >= count || |result| >= nodeCount
  {
    result, k := [], 0;
    var it := startIt;
    while |result| < count && |result| < nodeCount
      invariant k < |ring| && it == Turn(startIt, k, |ring|)
      invariant result == Dedup(walk[..k]) && |result| <= count
      decreases |ring| - k
    {
      assert walk[..k + 1][..k] == walk[..k];
      if ring[it].owner !in result {
        result := result + [ring[it].owner];
      }
      it := it + 1;
      if it == |ring| {
        it := 0;
      }
      k := k + 1;
      if it == startIt {
        break;
      }
    }
  }

  lemma AssignNext(r: Entries, points: seq<Point>, i: nat, id: NodeId)
    requires i < |points|
    ensures AssignAll(r, points[..i + 1], id) == Assign(AssignAll(r, points[..i], id), points[i], id)
  {
    assert points[..i + 1][..i] == points[..i];
  }

  lemma AddKeeps(r: Entries, nodes: seq<NodeId>, points: seq<Point>, id: NodeId)
    requires Sorted(r) && Distinct(nodes) && forall v :: v in r ==> v.owner in nodes
    ensures var nodes' := if id in nodes then nodes else nodes + [id];
            Sorted(AssignAll(r, points, id)) && Distinct(nodes')
            && forall v :: v in AssignAll(r, points, id) ==> v.owner in nodes'
  {
    AssignAllIs(r, points, id);
  }

  lemma KeepOrDrop(r: Entries, it: nat, id: NodeId)
    requires it < |r|
    ensures r[it].owner == id ==>
              var r' := r[..it] + r[it + 1..];
              r'[..it] + Without(r'[it..], id) == r[..it] + Without(r[it..], id)
    ensures r[it].owner != id ==>
              r[..it + 1] + Without(r[it + 1..], id) == r[..it] + Without(r[it..], id)
  {
    assert r[it..][1..] == r[it + 1..];
    var r' := r[..it] + r[it + 1..];
    assert r'[..it] == r[..it] && r'[it..] == r[it + 1..];
    assert r[..it + 1] == r[..it] + [r[it]];
  }

  lemma RemoveKeeps(r: Entries, nodes: seq<NodeId>, id: NodeId)
    requires Sorted(r) && Distinct(nodes) && forall v :: v in r ==> v.owner in nodes
    ensures Sorted(Without(r, id)) && Distinct(Erase(nodes, id))
    ensures forall v :: v in Without(r, id) ==> v.owner in Erase(nodes, id)
  {
    WithoutSorted(r, id);
    WithoutEntries(r, id);
    EraseMembers(nodes, id);
    EraseDistinct(nodes, id);
  }

  lemma WalkWithin(r: Entries, nodes: seq<NodeId>, h: Point)
    requires forall v :: v in r ==> v.owner in nodes
    ensures forall x :: x in Owners(Clockwise(r, h)) ==> x in nodes
  {
    var cw := Clockwise(r, h);
    assert forall j :: 0 <= j < |cw| ==> cw[j] in r;
  }

  /** Each way out of the walk leaves the first `count` distinct owners. */
  lemma WalkStops(r: Entries, nodes: seq<NodeId>, h: Point, k: nat, count: nat)
    requires Sorted(r) && Distinct(nodes) && forall v :: v in r ==> v.owner in nodes
    requires k <= |r|
    requires var found := Dedup(Owners(Clockwise(r, h))[..k]);
             |found| <= count && (k == |r| || |found| >= count || |found| >= |nodes|)
    ensures Dedup(Owners(Clockwise(r, h))[..k]) == Take(Preference(r, h), count)
  {
    var walk := Owners(Clockwise(r, h));
    var found := Dedup(walk[..k]);
    DedupPrefix(walk, k);
    if k == |r| {
      assert walk[..k] == walk;
    } else if |found| < count {
      DedupDistinct(walk[..k]);
      WalkWithin(r, nodes, h);
      DistinctFills(found, nodes);
      DedupComplete(walk, k);
    }
  }

  // ---- What callers rely on ----

  /** Distinct owners, exactly those on the ring, headed by the primary. */
  lemma PreferenceIs(r: Entries, h: Point)
    ensures Distinct(Preference(r, h))
    ensures forall x :: x in Preference(r, h) <==> x in Owners(r)
    ensures |Preference(r, h)| == |Elements(Owners(r))|
    ensures r != [] ==> Preference(r, h) != [] && Preference(r, h)[0] == Primary(r, h)
  {
    DedupDistinct(Owners(Clockwise(r, h)));
    SameOwners(r, h);
    DistinctSize(Preference(r, h));
    assert Elements(Preference(r, h)) == Elements(Owners(r));
  }

  /** The walk meets every entry. */
  lemma SameOwners(r: Entries, h: Point)
    ensures forall x :: x in Owners(Clockwise(r, h)) <==> x in Owners(r)
  {
    var i := LowerBound(r, h);
    OwnersAppend(r[i..], r[..i]);
    OwnersAppend(r[..i], r[i..]);
    assert r == r[..i] + r[i..];
  }

  /** Asking for more replicas only extends the list, and it has `min(count, owners)` entries. */
  lemma TakeIs(r: Entries, h: Point, count: nat, more: nat)
    requires count <= more
    ensures Take(Preference(r, h), count) <= Take(Preference(r, h), more) <= Preference(r, h)
    ensures var owners := |Elements(Owners(r))|;
            |Take(Preference(r, h), count)| == if count < owners then count else owners
  {
    PreferenceIs(r, h);
  }

  lemma EraseHead(s: seq<NodeId>, id: NodeId)
    requires s != [] && s[0] != id
    ensures Erase(s, id) != [] && Erase(s, id)[0] == s[0]
    decreases |s|
  {
    if |s| > 1 {
      EraseHead(s[..|s| - 1], id);
    } else {
      assert s[..0] == [];
    }
  }

  /** A key whose primary is not the removed node keeps its primary. */
  lemma RemovalKeepsOtherKeys(r: Entries, h: Point, id: NodeId)
    requires Sorted(r) && r != [] && Primary(r, h) != id
    ensures Primary(Without(r, id), h) == Primary(r, h)
  {
    RemovalErases(r, h, id);
    PreferenceIs(r, h);
    EraseHead(Preference(r, h), id);
    PreferenceIs(Without(r, id), h);
    EmptyRing(Without(r, id), h);
  }

  lemma EmptyRing(r: Entries, h: Point)
    ensures r == [] ==> Preference(r, h) == []
  {
  }

  lemma WordOfPoint(x: bv64)
    ensures (x as nat) as bv64 == x
  {
  }

  lemma PointInjective(x: bv64, y: bv64)
    requires x as nat == y as nat
    ensures x == y
  {
    WordOfPoint(x);
    WordOfPoint(y);
  }

  /** Ids of one length that differ in one byte never collide on virtual nodes with the same index. */
  lemma SimilarIdsNeverCollide(signedChar: bool, id: NodeId, id': NodeId, d: nat, i: nat)
    requires |id| == |id'| && d < |id| && id[d] != id'[d]
    requires forall j :: 0 <= j < |id| && j != d ==> id[j] == id'[j]
    ensures PointOf(signedChar, VnodeKey(id, i)) != PointOf(signedChar, VnodeKey(id', i))
  {
    Fnv.OneByteNeverCollides(signedChar, id, id', d);
    var suffix := [0x23] + Decimal(i);
    assert VnodeKey(id, i) == id + suffix && VnodeKey(id', i) == id' + suffix;
    Fnv.CommonSuffix(signedChar, id, id', suffix);
    if PointOf(signedChar, VnodeKey(id, i)) == PointOf(signedChar, VnodeKey(id', i)) {
      PointInjective(Fnv.Hash(signedChar, VnodeKey(id, i)), Fnv.Hash(signedChar, VnodeKey(id', i)));
    }
  }
}
