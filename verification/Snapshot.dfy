/** The snapshot file: a count, then every key and value with its length. */
module Snapshot {
  import opened Optional
  import opened Bytes
  import opened Store

  /** One pair of the map, in whatever order the hash table yields them. */
  datatype Item = Item(key: Key, value: Value)

  function Field(s: Bytes): Bytes {
    LittleEndian(U32(|s|)) + s[..U32(|s|)]
  }

  function ItemBytes(i: Item): Bytes {
    Field(i.key) + Field(i.value)
  }

  /** The file written by `save` for one enumeration of the map. */
  function File(items: seq<Item>): Bytes {
    LittleEndian(U32(|items|)) + Flatten(ItemBytes, items)
  }

  function Fill(m: Map, items: seq<Item>): Map
    decreases |items|
  {
    if items == [] then m else Fill(m[items[0].key := items[0].value], items[1..])
  }

  predicate DistinctKeys(items: seq<Item>) {
    forall i, j :: 0 <= i < j < |items| ==> items[i].key != items[j].key
  }

  ghost predicate Enumerates(items: seq<Item>, m: Map) {
    DistinctKeys(items) && Fill(map[], items) == m
  }

  predicate ItemFits(i: Item) {
    |i.key| < U32_RANGE && |i.value| < U32_RANGE
  }

  predicate AllFit(items: seq<Item>) {
    forall i :: 0 <= i < |items| ==> ItemFits(items[i])
  }

  function Nuls(n: nat): Bytes {
    seq(n, _ => 0)
  }

  /**
   What one turn of the load loop reads. A short key leaves the stream failed, so the next read ends the
   loop; a short value is stored all the same, padded with NULs.
   */
  datatype Piece =
    | Nothing
    | Short(key: Key, value: Value)
    | Full(key: Key, value: Value, rest: Bytes)

  function ReadPiece(s: Bytes): Piece {
    if |s| < 4 then Nothing else
    var keyLen := FromLittleEndian(s[..4]);
    if |s| < 8 + keyLen then Nothing else
    var key := s[4..4 + keyLen];
    var valLen := FromLittleEndian(s[4 + keyLen..8 + keyLen]);
    var tail := s[8 + keyLen..];
    if |tail| < valLen then Short(key, tail + Nuls(valLen - |tail|))
    else Full(key, tail[..valLen], tail[valLen..])
  }

  function LoadWith(read: Bytes -> Piece, s: Bytes, n: nat, m: Map): Map
    decreases n
  {
    if n == 0 then m else
    match read(s)
    case Nothing => m
    case Short(key, value) => m[key := value]
    case Full(key, value, rest) => LoadWith(read, rest, n - 1, m[key := value])
  }

  function LoadItems(s: Bytes, n: nat, m: Map): Map {
    LoadWith(ReadPiece, s, n, m)
  }

  function Load(s: Bytes): Map {
    if |s| < 4 then map[] else LoadItems(s[4..], FromLittleEndian(s[..4]), map[])
  }

  // ---- One item ----

  lemma FieldIs(s: Bytes)
    requires |s| < U32_RANGE
    ensures Field(s) == LittleEndian(|s|) + s
  {
    U32Small(|s|);
    assert s[..|s|] == s;
  }

  lemma Slices(a: Bytes, k: Bytes, b: Bytes, v: Bytes)
    requires |a| == |b| == 4
    ensures var s := a + k + (b + v);
            && s[..4] == a && s[4..4 + |k|] == k && s[4 + |k|..8 + |k|] == b && s[8 + |k|..] == v
  {
  }

  /** A file position where an item starts and at least its two lengths are present. */
  lemma ReadLengths(i: Item, v: Bytes)
    requires ItemFits(i)
    ensures ReadPiece(LittleEndian(|i.key|) + i.key + (LittleEndian(|i.value|) + v)) ==
            if |v| < |i.value| then Short(i.key, v + Nuls(|i.value| - |v|))
            else Full(i.key, v[..|i.value|], v[|i.value|..])
  {
    Slices(LittleEndian(|i.key|), i.key, LittleEndian(|i.value|), v);
    LittleEndianRoundTrip(|i.key|);
    LittleEndianRoundTrip(|i.value|);
  }

  lemma Regroup(a: Bytes, k: Bytes, b: Bytes, v: Bytes, rest: Bytes)
    ensures a + k + (b + v) + rest == a + k + (b + (v + rest))
  {
  }

  lemma ReadWhole(i: Item, rest: Bytes)
    requires ItemFits(i)
    ensures ReadPiece(ItemBytes(i) + rest) == Full(i.key, i.value, rest)
  {
    FieldIs(i.key);
    FieldIs(i.value);
    var v := i.value + rest;
    Regroup(LittleEndian(|i.key|), i.key, LittleEndian(|i.value|), i.value, rest);
    ReadLengths(i, v);
    assert v[|i.value|..] == rest && v[..|i.value|] == i.value;
  }

  /** Where each field of one pair lies. */
  lemma ItemLayout(i: Item)
    requires ItemFits(i)
    ensures var b, k := ItemBytes(i), |i.key|;
            && |b| == 8 + k + |i.value|
            && b[..4] == LittleEndian(k) && b[4..4 + k] == i.key
            && b[4 + k..8 + k] == LittleEndian(|i.value|) && b[8 + k..] == i.value
  {
    FieldIs(i.key);
    FieldIs(i.value);
    Slices(LittleEndian(|i.key|), i.key, LittleEndian(|i.value|), i.value);
  }

  /** A file is the number of pairs, least significant byte first, and then the pairs one after another. */
  lemma FileLayout(items: seq<Item>, x: Item)
    requires |items| < U32_RANGE
    ensures File(items)[..4] == LittleEndian(|items|)
    ensures |items| == 0 ==> File(items) == LittleEndian(0)
    ensures |items| + 1 < U32_RANGE ==> File(items + [x])[4..] == File(items)[4..] + ItemBytes(x)
  {
    U32Small(|items|);
    var body := Flatten(ItemBytes, items);
    assert File(items)[4..] == body;
    if |items| + 1 < U32_RANGE {
      U32Small(|items| + 1);
      FlattenSnoc(ItemBytes, items, x);
      assert File(items + [x])[4..] == Flatten(ItemBytes, items + [x]);
    }
  }

  ghost predicate Reads(read: Bytes -> Piece, encode: Item -> Bytes, i: Item) {
    forall rest :: read(encode(i) + rest) == Full(i.key, i.value, rest)
  }

  lemma {:induction false} LoadThen(read: Bytes -> Piece, encode: Item -> Bytes, items: seq<Item>, rest: Bytes,
                                    n: nat, m: Map)
    requires forall i :: 0 <= i < |items| ==> Reads(read, encode, items[i])
    requires n >= |items|
    ensures LoadWith(read, Flatten(encode, items) + rest, n, m) ==
            LoadWith(read, rest, n - |items|, Fill(m, items))
    decreases |items|
  {
    if items == [] {
      assert Flatten(encode, items) + rest == rest;
    } else {
      FlattenFront(encode, items, rest);
      assert Reads(read, encode, items[0]);
      LoadThen(read, encode, items[1..], rest, n - 1, m[items[0].key := items[0].value]);
    }
  }

  lemma ReadsItem(i: Item)
    requires ItemFits(i)
    ensures Reads(ReadPiece, ItemBytes, i)
  {
    forall rest
      ensures ReadPiece(ItemBytes(i) + rest) == Full(i.key, i.value, rest)
    {
      ReadWhole(i, rest);
    }
  }

  // ---- What a cut inside an item leaves ----

  /** What is read of a proper prefix `t` of item `i`. */
  function TornPiece(i: Item, t: Bytes): Piece {
    var header := 8 + |i.key|;
    if header <= |t| < header + |i.value| then Short(i.key, t[header..] + Nuls(header + |i.value| - |t|))
    else Nothing
  }

  function Keep(m: Map, p: Piece): Map {
    if p.Short? then m[p.key := p.value] else m
  }

  lemma TornShape(i: Item, t: Bytes)
    requires ItemFits(i) && t < ItemBytes(i)
    ensures 4 <= |t| ==> t[..4] == LittleEndian(|i.key|)
    ensures 8 + |i.key| <= |t| ==>
              && t[8 + |i.key|..] < i.value
              && t == LittleEndian(|i.key|) + i.key + (LittleEndian(|i.value|) + t[8 + |i.key|..])
  {
    FieldIs(i.key);
    FieldIs(i.value);
    PrefixShape(LittleEndian(|i.key|), i.key, LittleEndian(|i.value|), i.value, t);
  }

  lemma PrefixShape(a: Bytes, k: Bytes, b: Bytes, v: Bytes, t: Bytes)
    requires |a| == |b| == 4 && t < a + k + (b + v)
    ensures 4 <= |t| ==> t[..4] == a
    ensures 8 + |k| <= |t| ==> t[8 + |k|..] < v && t == a + k + (b + t[8 + |k|..])
  {
    var whole := a + k + (b + v);
    if 8 + |k| <= |t| {
      assert whole[..8 + |k|] == a + k + b;
      assert t == t[..8 + |k|] + t[8 + |k|..];
      assert t[..8 + |k|] == whole[..8 + |k|];
      assert whole[8 + |k|..] == v;
      assert t[8 + |k|..] == v[..|t| - 8 - |k|];
    }
  }

  lemma ReadTorn(i: Item, t: Bytes)
    requires ItemFits(i) && t < ItemBytes(i)
    ensures ReadPiece(t) == TornPiece(i, t)
  {
    TornShape(i, t);
    if 8 + |i.key| <= |t| {
      ReadLengths(i, t[8 + |i.key|..]);
    } else {
      LittleEndianRoundTrip(|i.key|);
    }
  }

  /** The first `c` entries up to byte `k` of the body: every whole one, then what a torn one leaves. */
  lemma LoadBody(items: seq<Item>, k: nat, t: Bytes, c: nat)
    requires AllFit(items) && c <= |items|
    requires k <= |Flatten(ItemBytes, items)|
    requires var n := WholeItems(ItemBytes, items, k);
             && Flatten(ItemBytes, items)[..k] == Flatten(ItemBytes, items[..n]) + t
             && (if n == |items| then t == [] else t < ItemBytes(items[n]))
    ensures var n := WholeItems(ItemBytes, items, k);
            LoadItems(Flatten(ItemBytes, items)[..k], c, map[]) ==
            if n >= c then Fill(map[], items[..c]) else Keep(Fill(map[], items[..n]), TornPiece(items[n], t))
  {
    var n := WholeItems(ItemBytes, items, k);
    if n >= c {
      LoadFirst(items, n, t, c);
    } else {
      ReadsAll(items, n);
      LoadThen(ReadPiece, ItemBytes, items[..n], t, c, map[]);
      ReadTorn(items[n], t);
    }
  }

  lemma ReadsAll(items: seq<Item>, n: nat)
    requires AllFit(items) && n <= |items|
    ensures forall i :: 0 <= i < n ==> Reads(ReadPiece, ItemBytes, items[..n][i])
  {
    forall i | 0 <= i < n
      ensures Reads(ReadPiece, ItemBytes, items[..n][i])
    {
      ReadsItem(items[i]);
    }
  }

  /** The loop stops at its count, whatever follows. */
  lemma LoadFirst(items: seq<Item>, n: nat, t: Bytes, c: nat)
    requires AllFit(items) && c <= n <= |items|
    ensures LoadItems(Flatten(ItemBytes, items[..n]) + t, c, map[]) == Fill(map[], items[..c])
  {
    assert items[..n] == items[..c] + items[c..n];
    ReadsAll(items, c);
    LoadCounted(ReadPiece, ItemBytes, items[..c], items[c..n], t, map[]);
  }

  lemma LoadCounted(read: Bytes -> Piece, encode: Item -> Bytes, a: seq<Item>, b: seq<Item>, t: Bytes, m: Map)
    requires forall i :: 0 <= i < |a| ==> Reads(read, encode, a[i])
    ensures LoadWith(read, Flatten(encode, a + b) + t, |a|, m) == Fill(m, a)
  {
    var rest := Flatten(encode, b) + t;
    FlattenAppend(encode, a, b);
    assert Flatten(encode, a) + Flatten(encode, b) + t == Flatten(encode, a) + rest;
    LoadThen(read, encode, a, rest, |a|, m);
  }

  /** Any prefix of a saved file: all whole entries it counts, then at most one more with a NUL-padded value. */
  lemma LoadCut(items: seq<Item>, k: nat) returns (t: Bytes)
    requires AllFit(items) && k <= |File(items)|
    ensures k < 4 ==> Load(File(items)[..k]) == map[]
    ensures k >= 4 ==>
              var n, c := WholeItems(ItemBytes, items, k - 4), U32(|items|);
              && File(items)[4..k] == Flatten(ItemBytes, items[..n]) + t
              && (if n == |items| then t == [] else t < ItemBytes(items[n]))
              && Load(File(items)[..k]) ==
                 if n >= c then Fill(map[], items[..c]) else Keep(Fill(map[], items[..n]), TornPiece(items[n], t))
  {
    t := [];
    if k >= 4 {
      HeaderOf(items, k);
      t := FlattenCut(ItemBytes, items, k - 4);
      LoadBody(items, k - 4, t, U32(|items|));
    }
  }

  lemma AfterHeader(header: Bytes, body: Bytes, k: nat)
    requires |header| == 4 && 4 <= k <= 4 + |body|
    ensures (header + body)[..k][..4] == header
    ensures (header + body)[..k][4..] == (header + body)[4..k] == body[..k - 4]
  {
  }

  lemma HeaderOf(items: seq<Item>, k: nat)
    requires 4 <= k <= |File(items)|
    ensures File(items)[4..k] == Flatten(ItemBytes, items)[..k - 4]
    ensures Load(File(items)[..k]) == LoadItems(Flatten(ItemBytes, items)[..k - 4], U32(|items|), map[])
  {
    LittleEndianRoundTrip(U32(|items|));
    AfterHeader(LittleEndian(U32(|items|)), Flatten(ItemBytes, items), k);
  }

  // ---- Which keys a cut file keeps ----

  lemma {:induction false} FillContents(m: Map, items: seq<Item>, i: nat)
    requires DistinctKeys(items)
    requires i < |items|
    ensures Lookup(Fill(m, items), items[i].key) == Some(items[i].value)
    decreases |items|
  {
    var m' := m[items[0].key := items[0].value];
    if i > 0 {
      FillContents(m', items[1..], i - 1);
    } else {
      FillOthers(m', items[1..], items[0].key);
    }
  }

  lemma {:induction false} FillOthers(m: Map, items: seq<Item>, k: Key)
    requires forall i :: 0 <= i < |items| ==> items[i].key != k
    ensures Lookup(Fill(m, items), k) == Lookup(m, k)
    decreases |items|
  {
    if items != [] {
      FillOthers(m[items[0].key := items[0].value], items[1..], k);
    }
  }

  /** Where a key is repeated, the last pair counts. */
  lemma {:induction false} FillLastWins(m: Map, items: seq<Item>, i: nat)
    requires i < |items| && forall j :: i < j < |items| ==> items[j].key != items[i].key
    ensures Lookup(Fill(m, items), items[i].key) == Some(items[i].value)
    decreases |items|
  {
    var m' := m[items[0].key := items[0].value];
    if i > 0 {
      FillLastWins(m', items[1..], i - 1);
    } else {
      FillOthers(m', items[1..], items[0].key);
    }
  }

  lemma {:induction false} FilledFrom(m: Map, items: seq<Item>, k: Key) returns (i: nat)
    requires k in Fill(m, items) && k !in m
    ensures i < |items| && items[i].key == k
    decreases |items|
  {
    if items[0].key == k {
      i := 0;
    } else {
      i := FilledFrom(m[items[0].key := items[0].value], items[1..], k);
      i := i + 1;
    }
  }

  /** `got` bytes of the item include both lengths and the key, and the value ends in NULs from there on. */
  predicate PaddedRight(i: Item, got: int) {
    8 + |i.key| <= got && forall j :: got - 8 - |i.key| <= j < |i.value| ==> i.value[j] == 0
  }

  /** Key `k` is in a counted item that ends by byte `n`, or in the torn one and its padding is right. */
  predicate KeptBy(items: seq<Item>, n: nat, k: Key) {
    n >= 4 &&
    var w, c := WholeItems(ItemBytes, items, n - 4), U32(|items|);
    || (exists i :: 0 <= i < w && i < c && items[i].key == k)
    || (w < c && items[w].key == k && PaddedRight(items[w], n - 4 - |Flatten(ItemBytes, items[..w])|))
  }

  lemma PaddingRight(v: Bytes, p: Bytes)
    requires p <= v
    ensures p + Nuls(|v| - |p|) == v <==> forall j :: |p| <= j < |v| ==> v[j] == 0
  {
    var q := p + Nuls(|v| - |p|);
    if forall j :: |p| <= j < |v| ==> v[j] == 0 {
      assert q == v;
    } else {
      var j :| |p| <= j < |v| && v[j] != 0;
      assert q[j] == 0;
    }
  }

  /** What a torn item leaves is right exactly if the padding is. */
  lemma TornRight(i: Item, t: Bytes)
    requires ItemFits(i) && t < ItemBytes(i)
    ensures TornPiece(i, t) == Short(i.key, i.value) <==> PaddedRight(i, |t|)
    ensures TornPiece(i, t).Nothing? || TornPiece(i, t).key == i.key
    ensures TornPiece(i, t).Nothing? || TornPiece(i, t).Short?
  {
    TornShape(i, t);
    if 8 + |i.key| <= |t| {
      PaddingRight(i.value, t[8 + |i.key|..]);
    }
  }

  /** Item `i` after a cut inside item `w`. */
  lemma CutItem(items: seq<Item>, w: nat, t: Bytes, i: nat)
    requires DistinctKeys(items) && AllFit(items) && w < |items| && i < |items| && t < ItemBytes(items[w])
    ensures Lookup(Keep(Fill(map[], items[..w]), TornPiece(items[w], t)), items[i].key) == Some(items[i].value) <==>
            i < w || (i == w && PaddedRight(items[w], |t|))
  {
    TornRight(items[w], t);
    if i < w {
      FillContents(map[], items[..w], i);
    } else {
      FillOthers(map[], items[..w], items[i].key);
    }
  }

  lemma KeptIs(items: seq<Item>, n: nat, i: nat)
    requires DistinctKeys(items) && i < |items| && n >= 4
    ensures KeptBy(items, n, items[i].key) <==>
            var w := WholeItems(ItemBytes, items, n - 4);
            i < U32(|items|) &&
            (i < w || (i == w && PaddedRight(items[w], n - 4 - |Flatten(ItemBytes, items[..w])|)))
  {
  }

  /** A cut file gives back the value of item `i` exactly if it keeps its key. */
  lemma CutKeeps(items: seq<Item>, n: nat, i: nat)
    requires DistinctKeys(items) && AllFit(items)
    requires n <= |File(items)| && i < |items|
    ensures Lookup(Load(File(items)[..n]), items[i].key) == Some(items[i].value) <==> KeptBy(items, n, items[i].key)
  {
    var t := LoadCut(items, n);
    if n >= 4 {
      var w, c := WholeItems(ItemBytes, items, n - 4), U32(|items|);
      KeptIs(items, n, i);
      if w < c {
        CutItem(items, w, t, i);
      } else if i < c {
        FillContents(map[], items[..c], i);
      } else {
        FillOthers(map[], items[..c], items[i].key);
      }
    }
  }

  /** And it never invents a key. */
  lemma CutInvents(items: seq<Item>, n: nat, k: Key)
    requires AllFit(items) && n <= |File(items)|
    requires forall i :: 0 <= i < |items| ==> items[i].key != k
    ensures Lookup(Load(File(items)[..n]), k) == None
  {
    var t := LoadCut(items, n);
    FillOthers(map[], items[..U32(|items|)], k);
    if n >= 4 {
      var w := WholeItems(ItemBytes, items, n - 4);
      FillOthers(map[], items[..w], k);
      if w < |items| {
        TornRight(items[w], t);
      }
    }
  }

  // ---- Load inverts save ----

  /** Loading a whole file gives as many items as the count field says. */
  lemma LoadOfFile(items: seq<Item>)
    requires AllFit(items)
    ensures Load(File(items)) == Fill(map[], items[..U32(|items|)])
  {
    var body := Flatten(ItemBytes, items);
    HeaderOf(items, |File(items)|);
    LoadFirst(items, |items|, [], U32(|items|));
    assert File(items)[..|File(items)|] == File(items) && body[..|body|] == body;
    assert items[..|items|] == items && body + [] == body;
  }

  lemma {:induction false} FillCount(m: Map, items: seq<Item>)
    requires DistinctKeys(items)
    requires forall i :: 0 <= i < |items| ==> items[i].key !in m
    ensures |Fill(m, items)| == |m| + |items|
    decreases |items|
  {
    if items != [] {
      FillCount(m[items[0].key := items[0].value], items[1..]);
    }
  }

  /** For every map and every enumeration, load inverts save exactly when the count fits its field. */
  lemma LoadInvertsSave(items: seq<Item>, m: Map)
    requires Enumerates(items, m) && AllFit(items)
    ensures Load(File(items)) == m <==> |m| < U32_RANGE
  {
    var c := U32(|items|);
    LoadOfFile(items);
    FillCount(map[], items);
    FillCount(map[], items[..c]);
    if |items| < U32_RANGE {
      U32Small(|items|);
      assert items[..c] == items;
    }
  }

  // ---- The loops ----

  lemma {:induction false} FillSnoc(m: Map, items: seq<Item>, x: Item)
    ensures Fill(m, items + [x]) == Fill(m, items)[x.key := x.value]
    decreases |items|
  {
    if items == [] {
      assert ([] + [x])[1..] == [];
    } else {
      FillSnoc(m[items[0].key := items[0].value], items[1..], x);
      assert (items + [x])[1..] == items[1..] + [x];
    }
  }

  /** The part of the map already written. */
  ghost function Written(data: Map, todo: set<Key>): Map {
    map k | k in data && k !in todo :: data[k]
  }

  lemma EnumeratesNext(items: seq<Item>, data: Map, todo: set<Key>, k: Key)
    requires todo <= data.Keys && k in todo
    requires Enumerates(items, Written(data, todo))
    requires forall i :: 0 <= i < |items| ==> items[i].key !in todo
    ensures Enumerates(items + [Item(k, data[k])], Written(data, todo - {k}))
  {
    FillSnoc(map[], items, Item(k, data[k]));
    assert Written(data, todo - {k}) == Written(data, todo)[k := data[k]];
  }

  /** `save`; the choice of the next key stands for any iteration order. */
  method Save(data: Map) returns (file: Bytes)
    ensures exists items :: Enumerates(items, data) && file == File(items)
  {
    var header := LittleEndian(U32(|data|));
    var body: Bytes := [];
    ghost var items: seq<Item> := [];
    var todo := data.Keys;
    while todo != {}
      invariant todo <= data.Keys
      invariant Enumerates(items, Written(data, todo))
      invariant forall i :: 0 <= i < |items| ==> items[i].key !in todo
      invariant |todo| + |items| == |data|
      invariant body == Flatten(ItemBytes, items)
      decreases todo
    {
      var k :| k in todo;
      var x := Item(k, data[k]);
      EnumeratesNext(items, data, todo, k);
      FlattenSnoc(ItemBytes, items, x);
      body := body + ItemBytes(x);
      items := items + [x];
      todo := todo - {k};
    }
    assert Written(data, {}) == data;
    file := header + body;
  }

  /** An `ifstream`: once a read falls short, every later read fails. */
  class InputStream {
    const data: Bytes
    var pos: nat
    var good: bool

    ghost predicate Valid()
      reads this
    {
      pos <= |data|
    }

    /** What can still be read. */
    ghost function Rest(): Bytes
      requires Valid()
      reads this
    {
      if good then data[pos..] else []
    }

    constructor (bytes: Bytes)
      ensures Valid() && good && Rest() == bytes
    {
      data, pos, good := bytes, 0, true;
    }

    /** Reads into a NUL-filled buffer of `n` bytes. */
    method Read(n: nat) returns (buffer: Bytes, ok: bool)
      requires Valid()
      modifies this
      ensures Valid() && ok == good == (old(good) && n <= |old(Rest())|)
      ensures ok ==> buffer == old(Rest())[..n] && Rest() == old(Rest())[n..]
      ensures !ok && |old(Rest())| <= n ==> buffer == old(Rest()) + Nuls(n - |old(Rest())|)
      ensures |buffer| == n
    {
      if good && n <= |data| - pos {
        buffer, ok := data[pos..pos + n], true;
        pos := pos + n;
      } else if good {
        buffer, ok := data[pos..] + Nuls(n - (|data| - pos)), false;
        good := false;
      } else {
        buffer, ok := Nuls(n), false;
      }
    }
  }

  /** One turn of the load loop; the key and the value are read without a check. */
  method ReadOne(stream: InputStream) returns (found: bool, key: Key, value: Value)
    requires stream.Valid()
    modifies stream
    ensures stream.Valid()
    ensures found == !ReadPiece(old(stream.Rest())).Nothing?
    ensures found ==>
              var p := ReadPiece(old(stream.Rest()));
              && key == p.key && value == p.value
              && stream.Rest() == if p.Full? then p.rest else []
  {
    key, value := [], [];
    ghost var s := stream.Rest();
    var field, ok := stream.Read(4);
    if !ok { return false, [], []; }
    var keyLen := FromLittleEndian(field);
    key, ok := stream.Read(keyLen);
    field, ok := stream.Read(4);
    if !ok { return false, [], []; }
    SplitFields(s, keyLen);
    var valLen := FromLittleEndian(field);
    value, ok := stream.Read(valLen);
    found := true;
  }

  lemma SplitFields(s: Bytes, keyLen: nat)
    requires 8 + keyLen <= |s|
    ensures s[4..][..keyLen] == s[4..4 + keyLen]
    ensures s[4..][keyLen..][..4] == s[4 + keyLen..8 + keyLen]
    ensures s[4..][keyLen..][4..] == s[8 + keyLen..]
  {
  }

  /** What the loop still has to do after one turn. */
  lemma LoadTurn(s: Bytes, n: nat, m: Map)
    requires n > 0
    ensures LoadItems(s, n, m) ==
            var p := ReadPiece(s);
            if p.Nothing? then m
            else LoadItems(if p.Full? then p.rest else [], n - 1, m[p.key := p.value])
  {
    assert ReadPiece([]) == Nothing;
  }

  method LoadFile(file: Bytes) returns (result: Map)
    ensures result == Load(file)
  {
    result := map[];
    var stream := new InputStream(file);
    var field, ok := stream.Read(4);
    if !ok { return; }
    var count := FromLittleEndian(field);
    var i := 0;
    while i < count
      invariant i <= count && stream.Valid()
      invariant LoadItems(file[4..], count, map[]) == LoadItems(stream.Rest(), count - i, result)
    {
      LoadTurn(stream.Rest(), count - i, result);
      var found, key, value := ReadOne(stream);
      if !found { break; }
      result := result[key := value];
      i := i + 1;
    }
  }
}
