/**
 The consistent hash ring. A `std::map` is its entries in key order; the hash is a parameter of the
 proofs, so two virtual nodes may well share a point.
 */
module Ring {
  import opened Bytes

  type NodeId = Bytes
  type Point = nat

  datatype Vnode = Vnode(point: Point, owner: NodeId)
  type Entries = seq<Vnode>

  predicate Sorted(r: Entries) {
    forall i, j :: 0 <= i < j < |r| ==> r[i].point < r[j].point
  }

  // ---- The ordered map ----

  /** `lower_bound`: the first entry at or after `h`, or the end. */
  function LowerBound(r: Entries, h: Point): (i: nat)
    ensures i <= |r|
    ensures forall j :: 0 <= j < i ==> r[j].point < h
    ensures i < |r| ==> h <= r[i].point
  {
    if r == [] || h <= r[0].point then 0 else 1 + LowerBound(r[1..], h)
  }

  /** `ring_[h] = id`: insert, or overwrite whoever held the point. */
  function Assign(r: Entries, h: Point, id: NodeId): Entries {
    var i := LowerBound(r, h);
    var taken := i < |r| && r[i].point == h;
    r[..i] + [Vnode(h, id)] + (if taken then r[i + 1..] else r[i..])
  }

  function AssignAll(r: Entries, points: seq<Point>, id: NodeId): Entries {
    if points == [] then r else Assign(AssignAll(r, points[..|points| - 1], id), points[|points| - 1], id)
  }

  function Without(r: Entries, id: NodeId): Entries {
    if r == [] then []
    else (if r[0].owner == id then [] else [r[0]]) + Without(r[1..], id)
  }

  // ---- The clockwise walk ----

  /** All entries in the order a walk from `h` meets them: points at or after `h`, then the others. */
  function Clockwise(r: Entries, h: Point): Entries {
    r[LowerBound(r, h)..] + r[..LowerBound(r, h)]
  }

  function Owners(r: Entries): (s: seq<NodeId>)
    ensures |s| == |r|
    ensures forall i :: 0 <= i < |r| ==> s[i] == r[i].owner
  {
    seq(|r|, i requires 0 <= i < |r| => r[i].owner)
  }

  /** First occurrences only. */
  function Dedup(s: seq<NodeId>): seq<NodeId> {
    if s == [] then []
    else
      var d := Dedup(s[..|s| - 1]);
      if s[|s| - 1] in d then d else d + [s[|s| - 1]]
  }

  function Erase(s: seq<NodeId>, id: NodeId): seq<NodeId> {
    if s == [] then []
    else Erase(s[..|s| - 1], id) + (if s[|s| - 1] == id then [] else [s[|s| - 1]])
  }

  function Take(s: seq<NodeId>, n: nat): seq<NodeId> {
    if n < |s| then s[..n] else s
  }

  /** The distinct owners in the order a walk from `h` meets them. */
  function Preference(r: Entries, h: Point): seq<NodeId> {
    Dedup(Owners(Clockwise(r, h)))
  }

  /** The owner of the first entry clockwise; the empty string on an empty ring. */
  function Primary(r: Entries, h: Point): NodeId {
    if r == [] then [] else Clockwise(r, h)[0].owner
  }

  // ---- Lists of owners ----

  predicate Distinct(s: seq<NodeId>) {
    forall i, j :: 0 <= i < j < |s| ==> s[i] != s[j]
  }

  lemma {:induction false} DedupDistinct(s: seq<NodeId>)
    ensures Distinct(Dedup(s))
    ensures forall x :: x in Dedup(s) <==> x in s
    ensures s != [] ==> Dedup(s) != [] && Dedup(s)[0] == s[0]
    decreases |s|
  {
    if s != [] {
      var init := s[..|s| - 1];
      DedupDistinct(init);
      assert s == init + [s[|s| - 1]];
    }
  }

  lemma {:induction false} DedupOfDistinct(s: seq<NodeId>)
    requires Distinct(s)
    ensures Dedup(s) == s
    decreases |s|
  {
    if s != [] {
      var init := s[..|s| - 1];
      DedupOfDistinct(init);
      assert s == init + [s[|s| - 1]];
      assert s[|s| - 1] !in init;
    }
  }

  lemma {:induction false} EraseMembers(s: seq<NodeId>, id: NodeId)
    ensures forall x :: x in Erase(s, id) <==> x in s && x != id
    decreases |s|
  {
    if s != [] {
      EraseMembers(s[..|s| - 1], id);
      assert s == s[..|s| - 1] + [s[|s| - 1]];
    }
  }

  lemma {:induction false} EraseDistinct(s: seq<NodeId>, id: NodeId)
    requires Distinct(s)
    ensures Distinct(Erase(s, id))
    decreases |s|
  {
    if s != [] {
      var init, x := s[..|s| - 1], s[|s| - 1];
      EraseDistinct(init, id);
      EraseMembers(init, id);
      assert x !in init;
    }
  }

  lemma EraseSnoc(s: seq<NodeId>, x: NodeId, id: NodeId)
    ensures Erase(s + [x], id) == Erase(s, id) + (if x == id then [] else [x])
  {
    assert (s + [x])[..|s|] == s;
  }

  lemma DedupSnoc(s: seq<NodeId>, x: NodeId)
    ensures Dedup(s + [x]) == if x in Dedup(s) then Dedup(s) else Dedup(s) + [x]
  {
    assert (s + [x])[..|s|] == s;
  }

  /** Deleting a node from the walk deletes it from the preference list. */
  lemma {:induction false} DedupErase(s: seq<NodeId>, id: NodeId)
    ensures Dedup(Erase(s, id)) == Erase(Dedup(s), id)
    decreases |s|
  {
    if s != [] {
      var init, x := s[..|s| - 1], s[|s| - 1];
      DedupErase(init, id);
      EraseMembers(Dedup(init), id);
      if x == id {
        assert Erase(s, id) == Erase(init, id);
      } else {
        DedupSnoc(Erase(init, id), x);
      }
      EraseSnoc(Dedup(init), x, id);
    }
  }

  // ---- Removing a node ----

  lemma {:induction false} WithoutAppend(a: Entries, b: Entries, id: NodeId)
    ensures Without(a + b, id) == Without(a, id) + Without(b, id)
    decreases |a|
  {
    if a == [] {
      assert a + b == b;
    } else {
      WithoutAppend(a[1..], b, id);
      assert (a + b)[0] == a[0] && (a + b)[1..] == a[1..] + b;
      var head := if a[0].owner == id then [] else [a[0]];
      assert Without(a + b, id) == head + (Without(a[1..], id) + Without(b, id));
    }
  }

  lemma {:induction false} WithoutEntries(r: Entries, id: NodeId)
    ensures forall v :: v in Without(r, id) <==> v in r && v.owner != id
    decreases |r|
  {
    if r != [] {
      WithoutEntries(r[1..], id);
      assert r == [r[0]] + r[1..];
    }
  }

  lemma OwnersAppend(a: Entries, b: Entries)
    ensures Owners(a + b) == Owners(a) + Owners(b)
  {
  }

  lemma OwnersSnoc(r: Entries, v: Vnode, id: NodeId)
    ensures Owners(r + [v]) == Owners(r) + [v.owner]
    ensures Without(r + [v], id) == if v.owner == id then Without(r, id) else Without(r, id) + [v]
  {
    OwnersAppend(r, [v]);
    WithoutAppend(r, [v], id);
    assert [v][1..] == [];
  }

  lemma {:induction false} OwnersWithout(r: Entries, id: NodeId)
    ensures Owners(Without(r, id)) == Erase(Owners(r), id)
    decreases |r|
  {
    if r != [] {
      var init, v := r[..|r| - 1], r[|r| - 1];
      assert r == init + [v];
      OwnersWithout(init, id);
      OwnersSnoc(init, v, id);
      OwnersSnoc(Without(init, id), v, id);
      EraseSnoc(Owners(init), v.owner, id);
    }
  }

  lemma LowerBoundAt(a: Entries, b: Entries, h: Point)
    requires forall v :: v in a ==> v.point < h
    requires forall v :: v in b ==> h <= v.point
    ensures LowerBound(a + b, h) == |a|
  {
    var s := a + b;
    assert forall j :: 0 <= j < |a| ==> s[j] == a[j];
    assert b != [] ==> s[|a|] == b[0];
  }

  lemma SplitAt(r: Entries, h: Point)
    requires Sorted(r)
    ensures var i := LowerBound(r, h);
            && (forall v :: v in r[..i] ==> v.point < h) && (forall v :: v in r[i..] ==> h <= v.point)
  {
  }

  lemma ClockwiseWithout(r: Entries, h: Point, id: NodeId)
    requires Sorted(r)
    ensures Clockwise(Without(r, id), h) == Without(Clockwise(r, h), id)
  {
    var i := LowerBound(r, h);
    var a, b := r[..i], r[i..];
    assert r == a + b;
    SplitAt(r, h);
    WithoutAppend(a, b, id);
    WithoutAppend(b, a, id);
    WithoutEntries(a, id);
    WithoutEntries(b, id);
    LowerBoundAt(Without(a, id), Without(b, id), h);
    var w := Without(r, id);
    assert w[..|Without(a, id)|] == Without(a, id) && w[|Without(a, id)|..] == Without(b, id);
  }

  /** Removing a node deletes it from every preference list and changes nothing else. */
  lemma RemovalErases(r: Entries, h: Point, id: NodeId)
    requires Sorted(r)
    ensures Preference(Without(r, id), h) == Erase(Preference(r, h), id)
    ensures forall c: nat :: Take(Preference(Without(r, id), h), c) == Take(Erase(Preference(r, h), id), c)
  {
    ClockwiseWithout(r, h, id);
    OwnersWithout(Clockwise(r, h), id);
    DedupErase(Owners(Clockwise(r, h)), id);
  }

  // ---- Adding a node ----

  /** `a` lies wholly before point `h` and `b` wholly after it. */
  predicate Around(a: Entries, h: Point, b: Entries) {
    && Sorted(a) && Sorted(b)
    && (forall j :: 0 <= j < |a| ==> a[j].point < h)
    && (forall j :: 0 <= j < |b| ==> h < b[j].point)
  }

  lemma Between(a: Entries, v: Vnode, b: Entries)
    requires Around(a, v.point, b)
    ensures Sorted(a + [v] + b)
  {
  }

  /** `Assign` puts its entry between those with smaller and those with larger points. */
  lemma AssignShape(r: Entries, h: Point, id: NodeId) returns (a: Entries, mid: Entries, b: Entries)
    requires Sorted(r)
    ensures Assign(r, h, id) == a + [Vnode(h, id)] + b && r == a + mid + b
    ensures Around(a, h, b)
    ensures forall w :: w in mid ==> w.point == h
  {
    var i := LowerBound(r, h);
    a := r[..i];
    if i < |r| && r[i].point == h {
      mid, b := [r[i]], r[i + 1..];
      SplitAround(r, i, i + 1, h);
    } else {
      mid, b := [], r[i..];
      SplitAround(r, i, i, h);
    }
  }

  lemma SplitAround(r: Entries, i: nat, j: nat, h: Point)
    requires Sorted(r) && i <= j <= |r|
    requires forall k :: 0 <= k < i ==> r[k].point < h
    requires j < |r| ==> h < r[j].point
    ensures Around(r[..i], h, r[j..])
    ensures r == r[..i] + r[i..j] + r[j..]
  {
  }

  lemma AssignIs(r: Entries, h: Point, id: NodeId)
    requires Sorted(r)
    ensures Sorted(Assign(r, h, id))
    ensures forall v :: v in Assign(r, h, id) <==> v == Vnode(h, id) || (v in r && v.point != h)
  {
    var a, mid, b := AssignShape(r, h, id);
    Between(a, Vnode(h, id), b);
  }

  /** `r` with all of `points` owned by `id`, as a set of entries. */
  ghost predicate Overwrites(added: Entries, r: Entries, points: seq<Point>, id: NodeId) {
    forall v :: v in added <==> (v.owner == id && v.point in points) || (v in r && v.point !in points)
  }

  lemma OverwritesSnoc(r: Entries, init: seq<Point>, p: Point, id: NodeId, mid: Entries, added: Entries)
    requires Overwrites(mid, r, init, id) && Overwrites(added, mid, [p], id)
    ensures Overwrites(added, r, init + [p], id)
  {
    forall v
      ensures v in added <==> (v.owner == id && v.point in init + [p]) || (v in r && v.point !in init + [p])
    {
      assert v.point in init + [p] <==> v.point in init || v.point == p;
    }
  }

  lemma AssignOverwrites(r: Entries, p: Point, id: NodeId)
    requires Sorted(r)
    ensures Sorted(Assign(r, p, id)) && Overwrites(Assign(r, p, id), r, [p], id)
  {
    AssignIs(r, p, id);
  }

  lemma {:induction false} AssignAllOverwrites(r: Entries, points: seq<Point>, id: NodeId)
    requires Sorted(r)
    ensures Sorted(AssignAll(r, points, id)) && Overwrites(AssignAll(r, points, id), r, points, id)
    decreases |points|
  {
    if points != [] {
      var init, p := points[..|points| - 1], points[|points| - 1];
      AssignAllOverwrites(r, init, id);
      AssignOverwrites(AssignAll(r, init, id), p, id);
      OverwritesSnoc(r, init, p, id, AssignAll(r, init, id), AssignAll(r, points, id));
      assert points == init + [p];
    }
  }

  lemma AssignAllIs(r: Entries, points: seq<Point>, id: NodeId)
    requires Sorted(r)
    ensures Sorted(AssignAll(r, points, id))
    ensures forall v :: v in AssignAll(r, points, id) <==>
                        (v.owner == id && v.point in points) || (v in r && v.point !in points)
  {
    AssignAllOverwrites(r, points, id);
  }

  /** A sorted ring is determined by its set of entries. */
  lemma {:induction false} Canonical(a: Entries, b: Entries)
    requires Sorted(a) && Sorted(b)
    requires forall v :: v in a <==> v in b
    ensures a == b
    decreases |a|
  {
    HeadMember(a);
    HeadMember(b);
    if a != [] {
      SameHead(a, b);
      forall v
        ensures v in a[1..] <==> v in b[1..]
      {
        TailMembers(a, v);
        TailMembers(b, v);
      }
      Canonical(a[1..], b[1..]);
    }
  }

  lemma HeadMember(r: Entries)
    ensures r != [] ==> r[0] in r
  {
  }

  lemma TailMembers(r: Entries, v: Vnode)
    requires Sorted(r) && r != []
    ensures v in r[1..] <==> v in r && v != r[0]
  {
    assert r == [r[0]] + r[1..];
  }

  lemma SameHead(a: Entries, b: Entries)
    requires Sorted(a) && Sorted(b) && a != [] && b != []
    requires a[0] in b && b[0] in a
    ensures a[0] == b[0]
  {
  }

  lemma WithoutSorted(r: Entries, id: NodeId)
    requires Sorted(r)
    ensures Sorted(Without(r, id))
    decreases |r|
  {
    if r != [] {
      WithoutSorted(r[1..], id);
      WithoutEntries(r[1..], id);
    }
  }

  /** Node `id` is not on the ring and none of its points is taken. */
  predicate Untouched(r: Entries, points: seq<Point>, id: NodeId) {
    forall v :: v in r ==> v.owner != id && v.point !in points
  }

  /** What is left of the ring when a node takes its points and is then erased. */
  function Displaced(r: Entries, points: seq<Point>, id: NodeId): Entries {
    if r == [] then []
    else (if r[0].owner == id || r[0].point in points then [] else [r[0]]) + Displaced(r[1..], points, id)
  }

  lemma {:induction false} DisplacedEntries(r: Entries, points: seq<Point>, id: NodeId)
    ensures forall v :: v in Displaced(r, points, id) <==> v in r && v.owner != id && v.point !in points
    decreases |r|
  {
    if r != [] {
      DisplacedEntries(r[1..], points, id);
      assert r == [r[0]] + r[1..];
    }
  }

  lemma {:induction false} DisplacedSorted(r: Entries, points: seq<Point>, id: NodeId)
    requires Sorted(r)
    ensures Sorted(Displaced(r, points, id))
    decreases |r|
  {
    if r != [] {
      DisplacedSorted(r[1..], points, id);
      DisplacedEntries(r[1..], points, id);
    }
  }

  /** Adding a node and removing it again leaves the entries it did not displace. */
  lemma AddRemoveIs(r: Entries, points: seq<Point>, id: NodeId)
    requires Sorted(r)
    ensures Without(AssignAll(r, points, id), id) == Displaced(r, points, id)
  {
    var added := AssignAll(r, points, id);
    AssignAllIs(r, points, id);
    WithoutEntries(added, id);
    WithoutSorted(added, id);
    DisplacedEntries(r, points, id);
    DisplacedSorted(r, points, id);
    Canonical(Without(added, id), Displaced(r, points, id));
  }

  lemma NothingDisplaced(r: Entries, points: seq<Point>, id: NodeId)
    requires Sorted(r)
    ensures Displaced(r, points, id) == r <==> Untouched(r, points, id)
  {
    DisplacedEntries(r, points, id);
    DisplacedSorted(r, points, id);
    if Untouched(r, points, id) {
      Canonical(Displaced(r, points, id), r);
    }
  }

  /** Adding a node and removing it again restores the ring exactly when it was new and hit no taken point. */
  lemma AddRemoveRestores(r: Entries, points: seq<Point>, id: NodeId)
    requires Sorted(r)
    ensures Without(AssignAll(r, points, id), id) == r <==> Untouched(r, points, id)
  {
    AddRemoveIs(r, points, id);
    NothingDisplaced(r, points, id);
  }

  /**
   A node that joins is inserted into each preference list, and the other nodes keep the order that their
   undisplaced entries give them; with no collision that is the old list.
   */
  lemma AdditionInserts(r: Entries, points: seq<Point>, id: NodeId, h: Point)
    requires Sorted(r)
    ensures Erase(Preference(AssignAll(r, points, id), h), id) == Preference(Displaced(r, points, id), h)
    ensures Untouched(r, points, id) ==> Erase(Preference(AssignAll(r, points, id), h), id) == Preference(r, h)
  {
    AssignAllIs(r, points, id);
    AddRemoveIs(r, points, id);
    NothingDisplaced(r, points, id);
    RemovalErases(AssignAll(r, points, id), h, id);
  }

  /** `v` is the first entry clockwise from `h`. */
  predicate IsFirst(r: Entries, h: Point, v: Vnode) {
    && v in r
    && forall w :: w in r ==> if h <= w.point then h <= v.point <= w.point else h <= v.point || v.point <= w.point
  }

  lemma FirstClockwise(r: Entries, h: Point)
    requires Sorted(r) && r != []
    ensures IsFirst(r, h, Clockwise(r, h)[0])
    ensures forall v :: IsFirst(r, h, v) ==> v == Clockwise(r, h)[0]
  {
    var i := LowerBound(r, h);
    var f := if i < |r| then r[i] else r[0];
    assert Clockwise(r, h)[0] == f;
    forall w | w in r
      ensures if h <= w.point then h <= f.point <= w.point else h <= f.point || f.point <= w.point
    {
      var j :| 0 <= j < |r| && r[j] == w;
    }
  }

  /** Going clockwise from `h`, `v` is met before `w`. */
  predicate Earlier(h: Point, v: Vnode, w: Vnode) {
    if h <= v.point then w.point < h || v.point < w.point else v.point < w.point < h
  }

  lemma TwoHalves(a: Entries, b: Entries, h: Point)
    requires Sorted(a) && Sorted(b)
    requires (forall v :: v in a ==> v.point < h) && (forall v :: v in b ==> h <= v.point)
    ensures forall i, j :: 0 <= i < j < |b + a| ==> Earlier(h, (b + a)[i], (b + a)[j])
  {
    forall i, j | 0 <= i < j < |b + a|
      ensures Earlier(h, (b + a)[i], (b + a)[j])
    {
      if i < |b| {
        assert b[i] in b;
      } else {
        assert a[i - |b|] in a && a[j - |b|] in a;
      }
      if |b| <= j {
        assert a[j - |b|] in a;
      }
    }
  }

  /** The walk from `h` meets every entry once, in clockwise order. */
  lemma ClockwiseOrder(r: Entries, h: Point)
    requires Sorted(r)
    ensures |Clockwise(r, h)| == |r| && forall v :: v in Clockwise(r, h) <==> v in r
    ensures forall i, j :: 0 <= i < j < |r| ==> Earlier(h, Clockwise(r, h)[i], Clockwise(r, h)[j])
  {
    var k := LowerBound(r, h);
    assert r == r[..k] + r[k..];
    SplitAt(r, h);
    TwoHalves(r[..k], r[k..], h);
  }

  /** The primary is the owner of the one entry that nothing precedes going clockwise. */
  lemma PrimaryIs(r: Entries, h: Point, v: Vnode)
    requires Sorted(r) && v in r && forall w :: w in r && w != v ==> Earlier(h, v, w)
    ensures Primary(r, h) == v.owner
  {
    FirstClockwise(r, h);
    assert IsFirst(r, h, v);
  }

  /** Adding a node sends each key to its old owner or to the new node, collisions or not. */
  lemma AdditionMovesToNewNode(r: Entries, points: seq<Point>, id: NodeId, h: Point)
    requires Sorted(r) && r != []
    ensures Primary(AssignAll(r, points, id), h) == Primary(r, h) || Primary(AssignAll(r, points, id), h) == id
  {
    var added := AssignAll(r, points, id);
    AssignAllIs(r, points, id);
    assert added != [] by {
      assert r[0] in added || Vnode(r[0].point, id) in added;
    }
    FirstClockwise(added, h);
    FirstClockwise(r, h);
    var f := Clockwise(added, h)[0];
    if f.owner != id {
      forall w | w in r
        ensures if h <= w.point then h <= f.point <= w.point else h <= f.point || f.point <= w.point
      {
        assert w in added || Vnode(w.point, id) in added;
      }
      assert IsFirst(r, h, f);
    }
  }

  // ---- Insertion order ----

  function Build(points: NodeId -> seq<Point>, ids: seq<NodeId>): Entries {
    if ids == [] then []
    else AssignAll(Build(points, ids[..|ids| - 1]), points(ids[|ids| - 1]), ids[|ids| - 1])
  }

  /** Some point belongs to both nodes. */
  predicate Collide(points: NodeId -> seq<Point>, a: NodeId, b: NodeId) {
    exists p :: p in points(a) && p in points(b)
  }

  /** No two different nodes share a point. */
  ghost predicate CollisionFree(points: NodeId -> seq<Point>, ids: seq<NodeId>) {
    forall a, b :: a in ids && b in ids && a != b ==> !Collide(points, a, b)
  }

  lemma {:induction false} BuildSorted(points: NodeId -> seq<Point>, ids: seq<NodeId>)
    ensures Sorted(Build(points, ids))
    decreases |ids|
  {
    if ids != [] {
      BuildSorted(points, ids[..|ids| - 1]);
      AssignAllIs(Build(points, ids[..|ids| - 1]), points(ids[|ids| - 1]), ids[|ids| - 1]);
    }
  }

  lemma {:induction false} BuildEntries(points: NodeId -> seq<Point>, ids: seq<NodeId>)
    requires CollisionFree(points, ids)
    ensures forall v :: v in Build(points, ids) <==> v.owner in ids && v.point in points(v.owner)
    decreases |ids|
  {
    if ids != [] {
      var init, id := ids[..|ids| - 1], ids[|ids| - 1];
      assert ids == init + [id];
      BuildEntries(points, init);
      BuildSorted(points, init);
      AssignAllIs(Build(points, init), points(id), id);
      forall v
        ensures v in Build(points, ids) <==> v.owner in ids && v.point in points(v.owner)
      {
        if v.owner in init && v.owner != id && v.point in points(v.owner) && v.point in points(id) {
          assert Collide(points, v.owner, id);
        }
      }
    }
  }

  /** Without collisions the ring, hence all routing, depends only on which nodes were added. */
  lemma InsertionOrderIrrelevant(points: NodeId -> seq<Point>, ids: seq<NodeId>, ids': seq<NodeId>)
    requires CollisionFree(points, ids)
    requires forall x :: x in ids <==> x in ids'
    ensures Build(points, ids) == Build(points, ids')
  {
    BuildEntries(points, ids);
    BuildEntries(points, ids');
    BuildSorted(points, ids);
    BuildSorted(points, ids');
    Canonical(Build(points, ids), Build(points, ids'));
  }

  /** The node added last holds all its points. */
  lemma LastAddedWins(points: NodeId -> seq<Point>, ids: seq<NodeId>, b: NodeId, p: Point)
    requires p in points(b)
    ensures forall v :: v in Build(points, ids + [b]) && v.point == p ==> v.owner == b
    ensures Vnode(p, b) in Build(points, ids + [b])
  {
    assert (ids + [b])[..|ids|] == ids;
    BuildSorted(points, ids);
    AssignAllIs(Build(points, ids), points(b), b);
  }

  /** `ids` in another order. */
  ghost predicate Reorders(ids': seq<NodeId>, ids: seq<NodeId>) {
    Distinct(ids') && forall x :: x in ids' <==> x in ids
  }

  lemma MovedToEnd(ids: seq<NodeId>, b: NodeId)
    requires Distinct(ids) && b in ids
    ensures Reorders(Erase(ids, b) + [b], ids)
  {
    EraseMembers(ids, b);
    EraseDistinct(ids, b);
  }

  lemma DifferentLast(points: NodeId -> seq<Point>, s: seq<NodeId>, a: NodeId, s': seq<NodeId>, b: NodeId, p: Point)
    requires a != b && p in points(a) && p in points(b)
    ensures Build(points, s + [a]) != Build(points, s' + [b])
  {
    LastAddedWins(points, s, a, p);
    LastAddedWins(points, s', b, p);
    assert Vnode(p, a) !in Build(points, s' + [b]);
  }

  /** Two nodes that share a point leave different rings when each is added last. */
  lemma CollisionShows(points: NodeId -> seq<Point>, ids: seq<NodeId>) returns (x: seq<NodeId>, y: seq<NodeId>)
    requires Distinct(ids) && !CollisionFree(points, ids)
    ensures Reorders(x, ids) && Reorders(y, ids) && Build(points, x) != Build(points, y)
  {
    var a, b :| a in ids && b in ids && a != b && Collide(points, a, b);
    var p :| p in points(a) && p in points(b);
    x, y := Erase(ids, a) + [a], Erase(ids, b) + [b];
    MovedToEnd(ids, a);
    MovedToEnd(ids, b);
    DifferentLast(points, Erase(ids, a), a, Erase(ids, b), b, p);
  }

  /** Adding the nodes in any order builds the same ring exactly when no two of them share a point. */
  lemma InsertionOrderExact(points: NodeId -> seq<Point>, ids: seq<NodeId>)
    requires Distinct(ids)
    ensures (forall ids' :: Reorders(ids', ids) ==> Build(points, ids') == Build(points, ids)) <==>
            CollisionFree(points, ids)
  {
    if CollisionFree(points, ids) {
      forall ids' | Reorders(ids', ids)
        ensures Build(points, ids') == Build(points, ids)
      {
        InsertionOrderIrrelevant(points, ids, ids');
      }
    } else {
      var x, y := CollisionShows(points, ids);
    }
  }
}
