/** The write-ahead log: entry format, append, replay. */
module Wal {
  import opened Optional
  import opened Bytes
  import opened Store
  import Crc32

  // ---- Entry format ----

  /** The buffer that `append` builds; both lengths pass through a `uint32_t`. */
  function Payload(cmd: Command, key: Key, value: Value): Bytes {
    var keyLen, valLen := U32(|key|), U32(|value|);
    [cmd] + LittleEndian(keyLen) + key[..keyLen] + LittleEndian(valLen) + value[..valLen]
  }

  /** One log entry: length, payload, checksum. */
  function Entry(cmd: Command, key: Key, value: Value): Bytes {
    Seal(Payload(cmd, key, value))
  }

  function Seal(payload: Bytes): Bytes {
    LittleEndian(U32(|payload|)) + payload + Crc32.FieldOf(Crc32.Checksum(payload))
  }

  function CommandOf(u: Mutation): Command {
    if u.Put? then PUT else DELETE
  }

  function ValueOf(u: Mutation): Value {
    if u.Put? then u.value else []
  }

  function EntryOf(u: Mutation): Bytes {
    Entry(CommandOf(u), u.key, ValueOf(u))
  }

  function Log(us: seq<Mutation>): Bytes {
    Flatten(EntryOf, us)
  }

  lemma LogSnoc(us: seq<Mutation>, u: Mutation)
    ensures Log(us + [u]) == Log(us) + EntryOf(u)
  {
    FlattenSnoc(EntryOf, us, u);
  }

  /** The entry length fits its 32-bit field. */
  predicate Fits(u: Mutation) {
    9 + |u.key| + |ValueOf(u)| < U32_RANGE
  }

  predicate AllFit(us: seq<Mutation>) {
    forall i :: 0 <= i < |us| ==> Fits(us[i])
  }

  // ---- Replay ----

  /**
   What one turn of the replay loop meets. `Undefined` is a checksummed payload whose inner lengths
   leave the buffer: the code follows them without a bounds check.
   */
  datatype Scan =
    | Torn
    | Corrupt
    | Undefined
    | Whole(cmd: Command, key: Key, value: Value, size: nat)

  function ScanPayload(p: Bytes, size: nat): Scan {
    if |p| < 5 then Undefined else
    var keyLen := FromLittleEndian(p[1..5]);
    if |p| < 9 + keyLen then Undefined else
    var valLen := FromLittleEndian(p[5 + keyLen..9 + keyLen]);
    if |p| < 9 + keyLen + valLen then Undefined else
    Whole(p[0], p[5..5 + keyLen], p[9 + keyLen..9 + keyLen + valLen], size)
  }

  function ScanEntry(s: Bytes): (r: Scan)
    ensures r.Whole? ==> 0 < r.size <= |s|
  {
    if |s| < 4 then Torn else
    var n := FromLittleEndian(s[..4]);
    if |s| < 8 + n then Torn else
    var payload, field := s[4..4 + n], s[4 + n..8 + n];
    if !Crc32.Accepts(payload, field) then Corrupt else
    ScanPayload(payload, 8 + n)
  }

  function ApplyScan(m: Map, cmd: Command, key: Key, value: Value): Map {
    if cmd == PUT then Apply(m, Put(key, value))
    else if cmd == DELETE then Apply(m, Delete(key))
    else m
  }

  /** The outcome of replay: how many entries were counted, and the store they produced. */
  datatype Outcome = Outcome(replayed: nat, store: Map, defined: bool)

  function Replay(s: Bytes, m: Map): Outcome
    decreases |s|
  {
    match ScanEntry(s)
    case Torn => Outcome(0, m, true)
    case Corrupt => Outcome(0, m, true)
    case Undefined => Outcome(0, m, false)
    case Whole(cmd, key, value, size) =>
      var r := Replay(s[size..], ApplyScan(m, cmd, key, value));
      Outcome(r.replayed + 1, r.store, r.defined)
  }

  // ---- Reading back what append wrote ----

  lemma PayloadIs(cmd: Command, key: Key, value: Value)
    requires 9 + |key| + |value| < U32_RANGE
    ensures Payload(cmd, key, value) == [cmd] + LittleEndian(|key|) + key + LittleEndian(|value|) + value
  {
    U32Small(|key|);
    U32Small(|value|);
    assert key[..|key|] == key && value[..|value|] == value;
  }

  lemma PayloadShape(cmd: Command, key: Key, value: Value)
    requires 9 + |key| + |value| < U32_RANGE
    ensures var p := Payload(cmd, key, value);
            && |p| == 9 + |key| + |value|
            && p[0] == cmd
            && p[1..5] == LittleEndian(|key|)
            && p[5..5 + |key|] == key
            && p[5 + |key|..9 + |key|] == LittleEndian(|value|)
            && p[9 + |key|..] == value
  {
    PayloadIs(cmd, key, value);
    TaggedPair(cmd, LittleEndian(|key|), key, LittleEndian(|value|), value);
  }

  lemma ScanPayloadOf(cmd: Command, key: Key, value: Value, size: nat)
    requires 9 + |key| + |value| < U32_RANGE
    ensures ScanPayload(Payload(cmd, key, value), size) == Whole(cmd, key, value, size)
  {
    PayloadShape(cmd, key, value);
    LittleEndianRoundTrip(|key|);
    LittleEndianRoundTrip(|value|);
  }

  lemma PayloadRejoined(p: Bytes, cmd: Command, a: Bytes, key: Bytes, b: Bytes, value: Bytes)
    requires |a| == |b| == 4 && 9 + |key| + |value| <= |p|
    requires cmd == p[0] && a == p[1..5] && key == p[5..5 + |key|]
    requires b == p[5 + |key|..9 + |key|] && value == p[9 + |key|..9 + |key| + |value|]
    ensures [cmd] + a + key + b + value <= p
  {
    var n := 9 + |key| + |value|;
    assert [p[0]] + p[1..5] + p[5..5 + |key|] + p[5 + |key|..9 + |key|] + p[9 + |key|..n] == p[..n];
  }

  /** The walk's own account of where each field came from. */
  lemma ScannedFields(p: Bytes, size: nat)
    requires ScanPayload(p, size).Whole?
    ensures var w := ScanPayload(p, size);
            var k, n := |w.key|, 9 + |w.key| + |w.value|;
            && n <= |p| && w.size == size && k == FromLittleEndian(p[1..5])
            && |w.value| == FromLittleEndian(p[5 + k..9 + k])
            && w.cmd == p[0] && w.key == p[5..5 + k] && w.value == p[9 + k..n]
  {
  }

  lemma ScannedIsPrefix(p: Bytes, size: nat)
    requires ScanPayload(p, size).Whole?
    ensures var w := ScanPayload(p, size);
            && |w.key| < U32_RANGE && |w.value| < U32_RANGE && w.size == size
            && [w.cmd] + LittleEndian(|w.key|) + w.key + LittleEndian(|w.value|) + w.value <= p
  {
    var w := ScanPayload(p, size);
    ScannedFields(p, size);
    LittleEndianOfRead(p[1..5]);
    LittleEndianOfRead(p[5 + |w.key|..9 + |w.key|]);
    PayloadRejoined(p, w.cmd, LittleEndian(|w.key|), w.key, LittleEndian(|w.value|), w.value);
  }

  lemma PrefixIsScanned(p: Bytes, size: nat, cmd: Command, key: Key, value: Value)
    requires |key| < U32_RANGE && |value| < U32_RANGE
    requires [cmd] + LittleEndian(|key|) + key + LittleEndian(|value|) + value <= p
    ensures ScanPayload(p, size) == Whole(cmd, key, value, size)
  {
    TaggedPairFront(cmd, LittleEndian(|key|), key, LittleEndian(|value|), value, p);
    LittleEndianRoundTrip(|key|);
    LittleEndianRoundTrip(|value|);
  }

  /** The walk along a buffer yields a command, key and value exactly if the buffer begins with them. */
  lemma ScanPayloadExact(p: Bytes, size: nat, cmd: Command, key: Key, value: Value)
    ensures ScanPayload(p, size) == Whole(cmd, key, value, size) <==>
            && |key| < U32_RANGE && |value| < U32_RANGE
            && [cmd] + LittleEndian(|key|) + key + LittleEndian(|value|) + value <= p
    ensures ScanPayload(p, size).Whole? || ScanPayload(p, size) == Undefined
  {
    if ScanPayload(p, size) == Whole(cmd, key, value, size) {
      ScannedIsPrefix(p, size);
    }
    if |key| < U32_RANGE && |value| < U32_RANGE {
      if [cmd] + LittleEndian(|key|) + key + LittleEndian(|value|) + value <= p {
        PrefixIsScanned(p, size, cmd, key, value);
      }
    }
  }

  lemma ScanFramed(p: Bytes, f: Bytes, rest: Bytes)
    requires |p| < U32_RANGE && |f| == 4
    ensures ScanEntry(LittleEndian(|p|) + p + f + rest) ==
            if Crc32.Accepts(p, f) then ScanPayload(p, 8 + |p|) else Corrupt
  {
    FourParts(LittleEndian(|p|), p, f, rest);
    LittleEndianRoundTrip(|p|);
  }

  lemma FourParts(a: Bytes, p: Bytes, f: Bytes, rest: Bytes)
    requires |a| == |f| == 4
    ensures var s := a + p + f + rest;
            && |s| == 8 + |p| + |rest| && s[..4] == a && s[4..4 + |p|] == p && s[4 + |p|..8 + |p|] == f
  {
  }

  lemma ScanSealed(p: Bytes, rest: Bytes)
    requires |p| < U32_RANGE
    ensures ScanEntry(Seal(p) + rest) == ScanPayload(p, 8 + |p|)
    ensures |Seal(p)| == 8 + |p|
  {
    U32Small(|p|);
    Crc32.FieldRoundTrip(Crc32.Checksum(p));
    ScanFramed(p, Crc32.FieldOf(Crc32.Checksum(p)), rest);
  }

  /** One entry written by `append` is read back whole, whatever follows it. */
  lemma ScanEntryOf(cmd: Command, key: Key, value: Value, rest: Bytes)
    requires 9 + |key| + |value| < U32_RANGE
    ensures ScanEntry(Entry(cmd, key, value) + rest) == Whole(cmd, key, value, |Entry(cmd, key, value)|)
    ensures |Entry(cmd, key, value)| == 17 + |key| + |value|
  {
    PayloadShape(cmd, key, value);
    ScanSealed(Payload(cmd, key, value), rest);
    ScanPayloadOf(cmd, key, value, 17 + |key| + |value|);
  }

  lemma ScanMutation(u: Mutation, rest: Bytes)
    requires Fits(u)
    ensures ScanEntry(EntryOf(u) + rest) == Whole(CommandOf(u), u.key, ValueOf(u), |EntryOf(u)|)
  {
    ScanEntryOf(CommandOf(u), u.key, ValueOf(u), rest);
  }

  lemma ApplyScanOf(m: Map, u: Mutation)
    ensures ApplyScan(m, CommandOf(u), u.key, ValueOf(u)) == Apply(m, u)
  {
  }

  lemma ReplayMutation(u: Mutation, rest: Bytes, m: Map)
    requires Fits(u)
    ensures Replay(EntryOf(u) + rest, m) == Counted(1, Replay(rest, Apply(m, u)))
  {
    ScanMutation(u, rest);
    ApplyScanOf(m, u);
    assert (EntryOf(u) + rest)[|EntryOf(u)|..] == rest;
  }

  /** An entry with any other command is counted and changes nothing. */
  lemma ReplayOtherCommand(cmd: Command, key: Key, value: Value, rest: Bytes, m: Map)
    requires 9 + |key| + |value| < U32_RANGE && cmd != PUT && cmd != DELETE
    ensures Replay(Entry(cmd, key, value) + rest, m) == Counted(1, Replay(rest, m))
  {
    ScanEntryOf(cmd, key, value, rest);
    assert (Entry(cmd, key, value) + rest)[|Entry(cmd, key, value)|..] == rest;
  }

  function Counted(n: nat, r: Outcome): Outcome {
    Outcome(r.replayed + n, r.store, r.defined)
  }

  lemma {:induction false} ApplyAllFront(m: Map, us: seq<Mutation>)
    requires us != []
    ensures ApplyAll(m, us) == ApplyAll(Apply(m, us[0]), us[1..])
  {
    ApplyAllAppend(m, us[..1], us[1..]);
    assert us == us[..1] + us[1..];
    assert us[..1][..0] == [];
  }

  /** Replay of logged mutations followed by anything: their fold, then the rest. */
  lemma {:induction false} ReplayLogThen(us: seq<Mutation>, rest: Bytes, m: Map)
    requires AllFit(us)
    ensures Replay(Log(us) + rest, m) == Counted(|us|, Replay(rest, ApplyAll(m, us)))
    decreases |us|
  {
    if us == [] {
      assert Log(us) + rest == rest;
    } else {
      FlattenFront(EntryOf, us, rest);
      ReplayMutation(us[0], Log(us[1..]) + rest, m);
      ReplayLogThen(us[1..], rest, Apply(m, us[0]));
      ApplyAllFront(m, us);
    }
  }

  lemma ReplayLog(us: seq<Mutation>, m: Map)
    requires AllFit(us)
    ensures Replay(Log(us), m) == Outcome(|us|, ApplyAll(m, us), true)
  {
    ReplayLogThen(us, [], m);
    assert Log(us) + [] == Log(us);
  }

  /** Replaying a whole log again over its own result changes nothing. */
  lemma ReplayIdempotent(us: seq<Mutation>, m: Map)
    requires AllFit(us)
    ensures Replay(Log(us), Replay(Log(us), m).store) == Replay(Log(us), m)
  {
    ReplayLog(us, m);
    ReplayLog(us, ApplyAll(m, us));
    ApplyAllIdempotent(m, us);
  }

  /** On every key the log mentions, replay gives the same value over any two base maps. */
  lemma ReplayForgetsBase(us: seq<Mutation>, m: Map, m': Map, k: Key)
    requires AllFit(us) && Mentions(us, k)
    ensures Lookup(Replay(Log(us), m).store, k) == Lookup(Replay(Log(us), m').store, k) == LastWrite(us, k)
  {
    ReplayLog(us, m);
    ReplayLog(us, m');
    LastWriterWins(m, us, k);
    LastWriterWins(m', us, k);
  }

  // ---- Torn, damaged and hidden entries ----

  lemma SealedParts(p: Bytes)
    requires |p| < U32_RANGE
    ensures |Seal(p)| == 8 + |p|
    ensures Seal(p)[..4] == LittleEndian(|p|)
    ensures Seal(p)[4..] == p + Crc32.FieldOf(Crc32.Checksum(p))
  {
    U32Small(|p|);
    TwoParts(LittleEndian(|p|), p, Crc32.FieldOf(Crc32.Checksum(p)));
  }

  lemma TwoParts(a: Bytes, p: Bytes, f: Bytes)
    ensures (a + p + f)[..|a|] == a && (a + p + f)[|a|..] == p + f
  {
  }

  /** An entry is the length of its payload, the payload, and the payload's checksum. */
  lemma EntryLayout(cmd: Command, key: Key, value: Value)
    requires 9 + |key| + |value| < U32_RANGE
    ensures var e, n := Entry(cmd, key, value), 9 + |key| + |value|;
            && |e| == 8 + n && e[..4] == LittleEndian(n)
            && e[4..] == Payload(cmd, key, value) + Crc32.FieldOf(Crc32.Checksum(Payload(cmd, key, value)))
  {
    PayloadLength(cmd, key, value);
    SealedParts(Payload(cmd, key, value));
  }

  lemma PayloadLength(cmd: Command, key: Key, value: Value)
    requires 9 + |key| + |value| < U32_RANGE
    ensures |Payload(cmd, key, value)| == 9 + |key| + |value|
  {
    PayloadIs(cmd, key, value);
  }

  lemma TornSeal(p: Bytes, t: Bytes, rest: Bytes)
    requires |p| < U32_RANGE
    requires t <= Seal(p) && |t| + |rest| < |Seal(p)|
    requires |t| < 4 ==> rest == []
    ensures ScanEntry(t + rest) == Torn
  {
    SealedParts(p);
    if |t| >= 4 {
      assert (t + rest)[..4] == Seal(p)[..4];
      LittleEndianRoundTrip(|p|);
    }
  }

  /** A proper prefix of an entry is recognised by length alone, and so is any short continuation of it. */
  lemma TornPrefix(u: Mutation, t: Bytes, rest: Bytes)
    requires Fits(u)
    requires t < EntryOf(u)
    requires |t| < 4 ==> rest == []
    requires |t| + |rest| < |EntryOf(u)|
    ensures ScanEntry(t + rest) == Torn
  {
    PayloadShape(CommandOf(u), u.key, ValueOf(u));
    TornSeal(Payload(CommandOf(u), u.key, ValueOf(u)), t, rest);
  }

  /** A log that ends in a torn entry replays as if the entry had not begun. */
  lemma ReplayTorn(us: seq<Mutation>, u: Mutation, t: Bytes, m: Map)
    requires AllFit(us) && Fits(u) && t < EntryOf(u)
    ensures Replay(Log(us) + t, m) == Outcome(|us|, ApplyAll(m, us), true)
  {
    ReplayLogThen(us, t, m);
    TornPrefix(u, t, []);
    assert t + [] == t;
  }

  /** Cutting the log after any `k` bytes leaves exactly the entries that end by then. */
  lemma ReplayCut(us: seq<Mutation>, k: nat, m: Map)
    requires AllFit(us) && k <= |Log(us)|
    ensures var n := WholeItems(EntryOf, us, k);
            Replay(Log(us)[..k], m) == Outcome(n, ApplyAll(m, us[..n]), true)
  {
    var n := WholeItems(EntryOf, us, k);
    var t := FlattenCut(EntryOf, us, k);
    ReplayWholeThenTorn(us, n, t, m);
  }

  lemma ReplayWholeThenTorn(us: seq<Mutation>, n: nat, t: Bytes, m: Map)
    requires AllFit(us) && n <= |us|
    requires if n == |us| then t == [] else t < EntryOf(us[n])
    ensures Replay(Log(us[..n]) + t, m) == Outcome(n, ApplyAll(m, us[..n]), true)
  {
    if n < |us| {
      ReplayTorn(us[..n], us[n], t, m);
    } else {
      ReplayLogThen(us[..n], [], m);
    }
  }

  /** `d` replaces the payload and checksum of `e`; only bytes `w` to `w + 3` of them may differ. */
  ghost predicate DamagedWithin(e: Bytes, d: Bytes, w: nat) {
    && |e| == |d| && e != d
    && forall x :: 0 <= x < |e| && !(w <= x < w + 4) ==> d[x] == e[x]
  }

  lemma DamageWindow(e: Bytes, d: Bytes, w: nat) returns (lo: nat, hi: nat)
    requires DamagedWithin(e, d, w)
    ensures lo <= hi <= |e| && hi <= lo + 4
    ensures e == e[..lo] + e[lo..hi] + e[hi..] && d == e[..lo] + d[lo..hi] + e[hi..]
    ensures e[lo..hi] != d[lo..hi]
  {
    assert w < |e|;
    lo := w;
    hi := if w + 4 < |e| then w + 4 else |e|;
    assert d == d[..lo] + d[lo..hi] + d[hi..];
    assert d[..lo] == e[..lo] && d[hi..] == e[hi..];
  }

  lemma DamageRejected(p: Bytes, d: Bytes, w: nat)
    requires DamagedWithin(p + Crc32.FieldOf(Crc32.Checksum(p)), d, w)
    ensures !Crc32.Accepts(d[..|p|], d[|p|..])
  {
    var f := Crc32.FieldOf(Crc32.Checksum(p));
    var e := p + f;
    var lo, hi := DamageWindow(e, d, w);
    assert d == d[..|p|] + d[|p|..];
    Crc32.FieldRoundTrip(Crc32.Checksum(p));
    Crc32.FourByteDamageRejected(p, f, d[..|p|], d[|p|..], e[..lo], e[lo..hi], d[lo..hi], e[hi..]);
  }

  lemma Regroup(a: Bytes, d: Bytes, i: nat, rest: Bytes)
    requires i <= |d|
    ensures a + d[..i] + d[i..] + rest == a + d + rest
  {
  }

  /** `d` stands where a payload of `n` bytes and its checksum should be. */
  lemma ScanMismatch(n: nat, d: Bytes, rest: Bytes)
    requires n < U32_RANGE && |d| == n + 4
    requires !Crc32.Accepts(d[..n], d[n..])
    ensures ScanEntry(LittleEndian(n) + d + rest) == Corrupt
  {
    ScanFramed(d[..n], d[n..], rest);
    Regroup(LittleEndian(n), d, n, rest);
  }

  lemma ScanRejected(p: Bytes, d: Bytes, rest: Bytes)
    requires |p| < U32_RANGE && |d| == |p| + 4
    requires !Crc32.Accepts(d[..|p|], d[|p|..])
    ensures ScanEntry(Seal(p)[..4] + d + rest) == Corrupt
  {
    SealedParts(p);
    ScanMismatch(|p|, d, rest);
  }

  lemma ScanDamaged(u: Mutation, d: Bytes, w: nat, rest: Bytes)
    requires Fits(u)
    requires DamagedWithin(EntryOf(u)[4..], d, w)
    ensures ScanEntry(EntryOf(u)[..4] + d + rest) == Corrupt
  {
    var p := Payload(CommandOf(u), u.key, ValueOf(u));
    PayloadShape(CommandOf(u), u.key, ValueOf(u));
    SealedParts(p);
    DamageRejected(p, d, w);
    ScanRejected(p, d, rest);
  }

  /** A burst of at most 32 bits anywhere in payload and checksum, aligned to bytes or not. */
  ghost predicate Burst(e: Bytes, d: Bytes, pre: seq<bool>, a: seq<bool>, b: seq<bool>, post: seq<bool>) {
    && |e| == |d| && |a| == |b| <= 32 && a != b
    && Crc32.Stream(e) == pre + a + post && Crc32.Stream(d) == pre + b + post
  }

  lemma ScanBurst(u: Mutation, d: Bytes, pre: seq<bool>, a: seq<bool>, b: seq<bool>, post: seq<bool>, rest: Bytes)
    requires Fits(u)
    requires Burst(EntryOf(u)[4..], d, pre, a, b, post)
    ensures ScanEntry(EntryOf(u)[..4] + d + rest) == Corrupt
  {
    var p := Payload(CommandOf(u), u.key, ValueOf(u));
    PayloadShape(CommandOf(u), u.key, ValueOf(u));
    SealedParts(p);
    BurstInSeal(p, d, pre, a, b, post);
    ScanRejected(p, d, rest);
  }

  lemma BurstInSeal(p: Bytes, d: Bytes, pre: seq<bool>, a: seq<bool>, b: seq<bool>, post: seq<bool>)
    requires Burst(p + Crc32.FieldOf(Crc32.Checksum(p)), d, pre, a, b, post)
    ensures !Crc32.Accepts(d[..|p|], d[|p|..])
  {
    Crc32.FieldRoundTrip(Crc32.Checksum(p));
    assert d == d[..|p|] + d[|p|..];
    Crc32.BurstRejected(p, Crc32.FieldOf(Crc32.Checksum(p)), d[..|p|], d[|p|..], pre, a, b, post);
  }

  /** Damage within four consecutive bytes of one entry stops replay exactly there. */
  lemma ReplayStopsAtDamage(us: seq<Mutation>, u: Mutation, d: Bytes, w: nat, rest: Bytes, m: Map)
    requires AllFit(us) && Fits(u)
    requires DamagedWithin(EntryOf(u)[4..], d, w)
    ensures Replay(Log(us) + (EntryOf(u)[..4] + d + rest), m) == Outcome(|us|, ApplyAll(m, us), true)
  {
    ReplayLogThen(us, EntryOf(u)[..4] + d + rest, m);
    ScanDamaged(u, d, w, rest);
  }

  /** The same for any burst of at most 32 bits: replay recovers exactly the entries before it. */
  lemma ReplayStopsAtBurst(us: seq<Mutation>, u: Mutation, d: Bytes, pre: seq<bool>, a: seq<bool>, b: seq<bool>,
                           post: seq<bool>, rest: Bytes, m: Map)
    requires AllFit(us) && Fits(u)
    requires Burst(EntryOf(u)[4..], d, pre, a, b, post)
    ensures Replay(Log(us) + (EntryOf(u)[..4] + d + rest), m) == Outcome(|us|, ApplyAll(m, us), true)
  {
    ReplayLogThen(us, EntryOf(u)[..4] + d + rest, m);
    ScanBurst(u, d, pre, a, b, post, rest);
  }

  /**
   Entries behind the damage are not replayed. Skipping the damaged entry alone would give the same store
   exactly when they change nothing.
   */
  lemma DamageLosesLater(us: seq<Mutation>, u: Mutation, d: Bytes, w: nat, later: seq<Mutation>, m: Map)
    requires AllFit(us) && Fits(u)
    requires DamagedWithin(EntryOf(u)[4..], d, w)
    ensures Replay(Log(us) + (EntryOf(u)[..4] + d + Log(later)), m).store == ApplyAll(m, us + later) <==>
            ApplyAll(ApplyAll(m, us), later) == ApplyAll(m, us)
  {
    ReplayStopsAtDamage(us, u, d, w, Log(later), m);
    ApplyAllAppend(m, us, later);
  }

  /** Such entries exist behind any damage: a put of any key with a value it does not have. */
  lemma DamageExample(us: seq<Mutation>, u: Mutation, d: Bytes, w: nat, m: Map, k: Key) returns (later: seq<Mutation>)
    requires AllFit(us) && Fits(u) && |k| <= MAX_KEY_SIZE
    requires DamagedWithin(EntryOf(u)[4..], d, w)
    ensures |later| == 1 && later[0].key == k && Accepted(later[0])
    ensures Replay(Log(us) + (EntryOf(u)[..4] + d + Log(later)), m).store != ApplyAll(m, us + later)
  {
    var v: Value := if Lookup(ApplyAll(m, us), k) == Some([]) then [0] else [];
    later := [Put(k, v)];
    PutChanges(ApplyAll(m, us), k, v);
    ApplyAllSnoc(ApplyAll(m, us), [], Put(k, v));
    assert [] + [Put(k, v)] == later;
    DamageLosesLater(us, u, d, w, later, m);
  }

  // ---- Where replay leaves its buffer ----

  const EIGHT_NULS: Bytes := [0, 0, 0, 0, 0, 0, 0, 0]

  lemma ZeroFields()
    ensures LittleEndian(0) == [0, 0, 0, 0]
    ensures Crc32.Accepts([], [0, 0, 0, 0])
  {
    Crc32.KnownAnswers();
    LittleEndianBytes(0);
    assert LittleEndian(0) == [0, 0, 0, 0];
    Crc32.FieldOfZero();
    Crc32.FieldRoundTrip(0);
  }

  /** Eight NULs read as an empty payload with a matching checksum, which replay then takes apart. */
  lemma ScanNuls(rest: Bytes)
    ensures ScanEntry(EIGHT_NULS + rest) == Undefined
  {
    ZeroFields();
    var f: Bytes := [0, 0, 0, 0];
    ScanFramed([], f, rest);
    assert LittleEndian(0) + [] + f + rest == EIGHT_NULS + rest;
  }

  /** A zero-filled tail behind any log makes replay read outside its buffer; the log alone never does. */
  lemma ReplayNuls(us: seq<Mutation>, rest: Bytes, m: Map)
    requires AllFit(us)
    ensures Replay(Log(us) + (EIGHT_NULS + rest), m) == Outcome(|us|, ApplyAll(m, us), false)
    ensures Replay(Log(us), m).defined
  {
    ReplayLogThen(us, EIGHT_NULS + rest, m);
    ScanNuls(rest);
    ReplayLog(us, m);
  }

  // ---- What a torn entry that stays in the file does to later ones ----

  /** A proper prefix of an entry whose payload has `n` bytes, as far as replay can tell. */
  predicate TailOf(t: Bytes, n: nat) {
    n < U32_RANGE && |t| < 8 + n && (4 <= |t| ==> t[..4] == LittleEndian(n))
  }

  lemma {:induction false} UndigitsPositive(s: Bytes, i: nat)
    requires i < |s| && s[i] != 0
    ensures Undigits(s) >= 1
  {
    if i > 0 {
      UndigitsPositive(s[1..], i - 1);
    }
  }

  lemma LowDigitFirst(n: nat)
    requires n < 256
    ensures LittleEndian(n)[0] as nat == n
  {
  }

  /** A tail of one to three bytes shifts the next length field up, to more than the file holds. */
  lemma ShiftedLength(t: Bytes, e: Bytes)
    requires 1 <= |t| < 4 <= |e| && e[0] != 0 && |t| + |e| < 256
    ensures ScanEntry(t + e) == Torn
  {
    var s := t + e;
    assert s[..4][1..][|t| - 1] == e[0];
    UndigitsPositive(s[..4][1..], |t| - 1);
    assert Undigits(s[..4]) >= 256;
  }

  lemma StillShort(n: nat, t: Bytes, e: Bytes)
    requires TailOf(t, n) && 4 <= |t| && |t| + |e| < 8 + n
    ensures ScanEntry(t + e) == Torn
  {
    assert (t + e)[..4] == t[..4];
    LittleEndianRoundTrip(n);
  }

  /** A longer tail followed by bytes that fill the gap: replay takes both for payload and checksum. */
  lemma MixtureScan(n: nat, t: Bytes, e: Bytes, gap: Bytes)
    requires TailOf(t, n) && 4 <= |t| && gap <= e && |t| + |gap| == 8 + n
    requires var d := t[4..] + gap; !Crc32.Accepts(d[..n], d[n..])
    ensures ScanEntry(t + e) == Corrupt
  {
    MixtureParts(t, e, gap);
    ScanMismatch(n, t[4..] + gap, e[|gap|..]);
  }

  lemma MixtureParts(t: Bytes, e: Bytes, gap: Bytes)
    requires 4 <= |t| && gap <= e
    ensures t + e == t[..4] + (t[4..] + gap) + e[|gap|..]
  {
  }

  /** Of two strings of payload and checksum that differ within four bytes, at most one is accepted. */
  lemma OneAccepted(d: Bytes, d': Bytes, n: nat, pre: Bytes, a: Bytes, b: Bytes, post: Bytes)
    requires d == pre + a + post && d' == pre + b + post && |d| == |d'| == n + 4
    requires |a| == |b| <= 4 && a != b
    ensures !Crc32.Accepts(d[..n], d[n..]) || !Crc32.Accepts(d'[..n], d'[n..])
  {
    Rejoined(d, n);
    Rejoined(d', n);
    OneOfTwoAccepted(d[..n], d[n..], d'[..n], d'[n..], pre, a, b, post);
  }

  lemma Rejoined(d: Bytes, n: nat)
    requires n <= |d|
    ensures d[..n] + d[n..] == d
  {
  }

  lemma OneOfTwoAccepted(p: Bytes, q: Bytes, p': Bytes, q': Bytes, pre: Bytes, a: Bytes, b: Bytes, post: Bytes)
    requires |q| == |q'| == 4 && p + q == pre + a + post && p' + q' == pre + b + post
    requires |a| == |b| <= 4 && a != b
    ensures !Crc32.Accepts(p, q) || !Crc32.Accepts(p', q')
  {
    if Crc32.Accepts(p, q) {
      Crc32.FourByteDamageRejected(p, q, p', q', pre, a, b, post);
    }
  }

  lemma Reassociate(x: Bytes, a: Bytes, post: Bytes)
    ensures x + (a + post) == x + a + post
  {
  }

  /** Replay stops at one of two continuations that differ, up to the gap, only within their first four bytes. */
  lemma OneLost(n: nat, t: Bytes, e: Bytes, e': Bytes, a: Bytes, b: Bytes, post: Bytes)
    requires TailOf(t, n) && 4 <= |t| && |t| + |a| + |post| == 8 + n
    requires a + post <= e && b + post <= e' && |a| == |b| <= 4 && a != b
    ensures ScanEntry(t + e) == Corrupt || ScanEntry(t + e') == Corrupt
  {
    var d, d' := t[4..] + (a + post), t[4..] + (b + post);
    Reassociate(t[4..], a, post);
    Reassociate(t[4..], b, post);
    OneAccepted(d, d', n, t[4..], a, b, post);
    if Crc32.Accepts(d[..n], d[n..]) {
      MixtureScan(n, t, e', b + post);
    } else {
      MixtureScan(n, t, e, a + post);
    }
  }

  /** Two strings that begin with different length fields and then agree for long enough. */
  lemma OneOfTwoLost(n: nat, t: Bytes, x: Bytes, x': Bytes, h: Bytes, e: Bytes, e': Bytes)
    requires TailOf(t, n) && 4 <= |t| && 8 + n <= |t| + 4 + |h|
    requires |x| == |x'| == 4 && x[0] != x'[0] && x + h <= e && x' + h <= e'
    ensures ScanEntry(t + e) == Corrupt || ScanEntry(t + e') == Corrupt
  {
    var g := 8 + n - |t|;
    var k := if g <= 4 then g else 4;
    var a, b, post := x[..k], x'[..k], h[..g - k];
    assert a[0] != b[0];
    PrefixOfParts(x, h, e, k, g - k);
    PrefixOfParts(x', h, e', k, g - k);
    OneLost(n, t, e, e', a, b, post);
  }

  lemma PrefixOfParts(x: Bytes, h: Bytes, e: Bytes, i: nat, j: nat)
    requires i <= |x| && j <= |h| && x + h <= e && (i < |x| ==> j == 0)
    ensures x[..i] + h[..j] <= e
  {
  }

  /** Everything of a put from its command up to its key. */
  function KeyPart(key: Key): (h: Bytes)
    requires |key| < U32_RANGE
    ensures |h| == 5 + |key|
  {
    [PUT] + LittleEndian(|key|) + key
  }

  lemma PayloadStarts(key: Key, value: Value)
    requires Fits(Put(key, value))
    ensures KeyPart(key) <= Payload(PUT, key, value) && |Payload(PUT, key, value)| == 9 + |key| + |value|
  {
    PayloadIs(PUT, key, value);
    Prefixed(KeyPart(key), LittleEndian(|value|), value);
  }

  lemma Prefixed(h: Bytes, b: Bytes, v: Bytes)
    ensures h <= h + b + v
  {
  }

  lemma SealStarts(p: Bytes, h: Bytes)
    requires |p| < U32_RANGE && h <= p
    ensures LittleEndian(|p|) + h <= Seal(p) && |Seal(p)| == 8 + |p|
  {
    U32Small(|p|);
    Behind(LittleEndian(|p|), h, p, Crc32.FieldOf(Crc32.Checksum(p)));
  }

  lemma Behind(a: Bytes, h: Bytes, p: Bytes, f: Bytes)
    requires h <= p
    ensures a + h <= a + p + f
  {
  }

  /** A short put's entry begins with its length, and its payload with its key part. */
  lemma PutStarts(key: Key, value: Value) returns (x: Bytes)
    requires 9 + |key| + |value| < 256
    ensures |x| == 4 && x[0] as nat == 9 + |key| + |value|
    ensures x + KeyPart(key) <= EntryOf(Put(key, value))
    ensures |EntryOf(Put(key, value))| == 17 + |key| + |value|
  {
    x := LittleEndian(9 + |key| + |value|);
    LowDigitFirst(9 + |key| + |value|);
    PayloadStarts(key, value);
    SealStarts(Payload(PUT, key, value), KeyPart(key));
  }

  lemma OnePutLost(n: nat, t: Bytes, key: Key, v: Value, v': Value)
    requires TailOf(t, n) && 4 <= |t| && 8 + n <= |t| + 9 + |key|
    requires 9 + |key| + |v| < 256 && 9 + |key| + |v'| < 256 && |v| != |v'|
    ensures ScanEntry(t + EntryOf(Put(key, v))) == Corrupt || ScanEntry(t + EntryOf(Put(key, v'))) == Corrupt
  {
    var x := PutStarts(key, v);
    var x' := PutStarts(key, v');
    OneOfTwoLost(n, t, x, x', KeyPart(key), EntryOf(Put(key, v)), EntryOf(Put(key, v')));
  }

  /** Nine NULs: long enough that two puts of this key differ only in their length field for 18 bytes. */
  const PROBE: Key := [0, 0, 0, 0, 0, 0, 0, 0, 0]

  lemma ProbeFits(v: Value)
    requires |v| <= 2
    ensures Fits(Put(PROBE, v)) && Accepted(Put(PROBE, v))
  {
  }

  /** Some value of at most two bytes other than `x` is lost in a gap of at most 18 bytes. */
  lemma ShortGapLoses(n: nat, t: Bytes, x: Option<Value>) returns (v: Value)
    requires TailOf(t, n) && 4 <= |t| && 8 + n <= |t| + 18
    ensures |v| <= 2 && Some(v) != x && ScanEntry(t + EntryOf(Put(PROBE, v))) == Corrupt
  {
    var v1: Value, v2: Value := [], [0];
    if x == Some([]) {
      v1 := [0, 0];
    } else if x == Some([0]) {
      v2 := [0, 0];
    }
    OnePutLost(n, t, PROBE, v1, v2);
    v := if ScanEntry(t + EntryOf(Put(PROBE, v1))) == Corrupt then v1 else v2;
  }

  /** Any short entry is lost after a tail of fewer than four bytes, or in a longer gap. */
  lemma OtherGapLoses(n: nat, t: Bytes, x: Bytes, h: Bytes, e: Bytes)
    requires TailOf(t, n) && t != [] && (|t| < 4 || 8 + n > |t| + |e|)
    requires |x| == 4 && x[0] != 0 && x + h <= e && |e| < 250
    ensures ScanEntry(t + e) == Torn
  {
    if |t| < 4 {
      assert e[0] == x[0];
      ShiftedLength(t, e);
    } else {
      StillShort(n, t, e);
    }
  }

  lemma EmptyKeyLost(n: nat, t: Bytes, v: Value)
    requires TailOf(t, n) && t != [] && |v| <= 1 && (|t| < 4 || 8 + n > |t| + 18)
    ensures ScanEntry(t + EntryOf(Put([], v))) == Torn
  {
    var x := PutStarts([], v);
    OtherGapLoses(n, t, x, KeyPart([]), EntryOf(Put([], v)));
  }

  lemma PutChanges(m: Map, k: Key, v: Value)
    requires Accepted(Put(k, v)) && Lookup(m, k) != Some(v)
    ensures Apply(m, Put(k, v)) != m
  {
    assert Lookup(Apply(m, Put(k, v)), k) == Some(v);
  }

  /** Every torn entry, however short, hides some accepted put that would have changed the store. */
  lemma TailHidesPut(n: nat, t: Bytes, m: Map) returns (w: Mutation)
    requires TailOf(t, n) && t != []
    ensures w.Put? && Accepted(w) && Fits(w) && Apply(m, w) != m
    ensures ScanEntry(t + EntryOf(w)) == Torn || ScanEntry(t + EntryOf(w)) == Corrupt
  {
    if 4 <= |t| && 8 + n <= |t| + 18 {
      var v := ShortGapLoses(n, t, Lookup(m, PROBE));
      w := Put(PROBE, v);
      ProbeFits(v);
      PutChanges(m, PROBE, v);
    } else {
      var v: Value := if Lookup(m, []) == Some([]) then [0] else [];
      w := Put([], v);
      EmptyKeyLost(n, t, v);
      PutChanges(m, [], v);
    }
  }

  lemma TailIs(p: Bytes, t: Bytes)
    requires |p| < U32_RANGE && t < Seal(p)
    ensures TailOf(t, |p|)
  {
    SealedParts(p);
    if 4 <= |t| {
      assert t[..4] == Seal(p)[..4];
    }
  }

  lemma TornTailHidesPut(u: Mutation, t: Bytes, m: Map) returns (w: Mutation)
    requires Fits(u) && t < EntryOf(u) && t != []
    ensures w.Put? && Accepted(w) && Fits(w) && Apply(m, w) != m
    ensures ScanEntry(t + EntryOf(w)) == Torn || ScanEntry(t + EntryOf(w)) == Corrupt
  {
    var p := Payload(CommandOf(u), u.key, ValueOf(u));
    PayloadIs(CommandOf(u), u.key, ValueOf(u));
    TailIs(p, t);
    w := TailHidesPut(|p|, t, m);
  }

  lemma TornTailLoses(us: seq<Mutation>, u: Mutation, t: Bytes, m: Map) returns (w: Mutation)
    requires AllFit(us) && Fits(u) && t < EntryOf(u) && t != []
    ensures w.Put? && Accepted(w) && Fits(w) && Apply(ApplyAll(m, us), w) != ApplyAll(m, us)
    ensures Replay(Log(us) + (t + EntryOf(w)), m) == Outcome(|us|, ApplyAll(m, us), true)
  {
    w := TornTailHidesPut(u, t, ApplyAll(m, us));
    ReplayLogThen(us, t + EntryOf(w), m);
  }

  lemma ReplayBoth(us: seq<Mutation>, later: seq<Mutation>, m: Map)
    requires AllFit(us) && AllFit(later)
    ensures Replay(Log(us) + ([] + Log(later)), m) == Outcome(|us| + |later|, ApplyAll(m, us + later), true)
  {
    FlattenAppend(EntryOf, us, later);
    ReplayLog(us + later, m);
    assert [] + Log(later) == Log(later);
  }

  /** Appends after `Log(us) + t` are all replayed, whatever they are. */
  ghost predicate KeepsLater(us: seq<Mutation>, t: Bytes, m: Map) {
    forall later :: AllFit(later) ==> Replay(Log(us) + (t + Log(later)), m).store == ApplyAll(m, us + later)
  }

  lemma NothingTornKeeps(us: seq<Mutation>, m: Map)
    requires AllFit(us)
    ensures KeepsLater(us, [], m)
  {
    forall later | AllFit(later)
      ensures Replay(Log(us) + ([] + Log(later)), m).store == ApplyAll(m, us + later)
    {
      ReplayBoth(us, later, m);
    }
  }

  lemma LostPut(us: seq<Mutation>, t: Bytes, m: Map, w: Mutation)
    requires Fits(w) && Apply(ApplyAll(m, us), w) != ApplyAll(m, us)
    requires Replay(Log(us) + (t + EntryOf(w)), m).store == ApplyAll(m, us)
    ensures !KeepsLater(us, t, m)
  {
    LoggedOnce(us, w, m);
    var later := [w];
    assert Replay(Log(us) + (t + Log(later)), m).store != ApplyAll(m, us + later);
  }

  /** Startup leaves a torn entry in place. What is appended later is always replayed exactly if it is empty. */
  lemma TornTailExact(us: seq<Mutation>, u: Mutation, t: Bytes, m: Map)
    requires AllFit(us) && Fits(u) && t < EntryOf(u)
    ensures KeepsLater(us, t, m) <==> t == []
  {
    if t == [] {
      NothingTornKeeps(us, m);
    } else {
      var w := TornTailLoses(us, u, t, m);
      LostPut(us, t, m, w);
    }
  }

  lemma LoggedOnce(us: seq<Mutation>, w: Mutation, m: Map)
    requires Fits(w)
    ensures Log([w]) == EntryOf(w) && AllFit([w]) && ApplyAll(m, us + [w]) == Apply(ApplyAll(m, us), w)
  {
    LogSnoc([], w);
    assert [] + [w] == [w] && [] + EntryOf(w) == EntryOf(w);
    ApplyAllSnoc(m, us, w);
  }

  method BuildBuffer(cmd: Command, key: Key, value: Value) returns (buffer: Bytes, entryLen: nat)
    ensures buffer == Payload(cmd, key, value) && entryLen == U32(|buffer|)
  {
    var keyLen, valLen := U32(|key|), U32(|value|);
    entryLen := 1 + 4 + keyLen + 4 + valLen;
    buffer := Assemble(cmd, LittleEndian(keyLen), key[..keyLen], LittleEndian(valLen), value[..valLen]);
    entryLen := U32(entryLen);
  }

  method Assemble(cmd: Command, keyField: Bytes, key: Bytes, valField: Bytes, value: Bytes) returns (buffer: Bytes)
    ensures buffer == [cmd] + keyField + key + valField + value
  {
    buffer := [cmd];
    buffer := buffer + keyField;
    buffer := buffer + key;
    buffer := buffer + valField;
    buffer := buffer + value;
  }

  /** One turn of the replay loop: three reads, the checksum test, and the walk along the buffer. */
  method ReadEntry(file: Bytes, pos: nat) returns (scan: Scan)
    requires pos <= |file|
    ensures scan == ScanEntry(file[pos..])
  {
    ghost var s := file[pos..];
    if |file| - pos < 4 {
      return Torn;
    }
    assert s[..4] == file[pos..pos + 4];
    var entryLen := FromLittleEndian(file[pos..pos + 4]);
    if |file| - pos < 4 + entryLen {
      return Torn;
    }
    var buffer := file[pos + 4..pos + 4 + entryLen];
    if |file| - pos < 8 + entryLen {
      return Torn;
    }
    var field := file[pos + 4 + entryLen..pos + 8 + entryLen];
    assert s[4..4 + entryLen] == buffer && s[4 + entryLen..8 + entryLen] == field;
    var actualCrc := Crc32.Compute(buffer);
    if actualCrc != Crc32.WordOf(field) {
      return Corrupt;
    }
    scan := ScanPayload(buffer, 8 + entryLen);
  }

  method ApplyEntry(store: KvStore, cmd: Command, key: Key, value: Value)
    modifies store
    ensures store.data == ApplyScan(old(store.data), cmd, key, value)
  {
    if cmd == PUT {
      var _ := store.Put(key, value);
    } else if cmd == DELETE {
      var _ := store.Del(key);
    }
  }

  /** One turn of the loop; `more` says that it goes round again, from `next`. */
  method Turn(file: Bytes, pos: nat, store: KvStore) returns (more: bool, next: nat, defined: bool)
    requires pos <= |file|
    modifies store
    ensures more ==> && pos < next <= |file|
                     && Replay(file[pos..], old(store.data)) == Counted(1, Replay(file[next..], store.data))
    ensures !more ==> && store.data == old(store.data)
                      && next == pos && Replay(file[pos..], store.data) == Outcome(0, store.data, defined)
  {
    var scan := ReadEntry(file, pos);
    ReplayTurn(file[pos..], store.data);
    if scan.Whole? {
      ApplyEntry(store, scan.cmd, scan.key, scan.value);
      assert file[pos..][scan.size..] == file[pos + scan.size..];
      return true, pos + scan.size, true;
    }
    return false, pos, !scan.Undefined?;
  }

  lemma ReplayTurn(s: Bytes, m: Map)
    ensures var scan := ScanEntry(s);
            if scan.Whole? then
              Replay(s, m) == Counted(1, Replay(s[scan.size..], ApplyScan(m, scan.cmd, scan.key, scan.value)))
            else Replay(s, m) == Outcome(0, m, !scan.Undefined?)
  {
  }

  class WriteAheadLog {
    var file: Bytes
    var entryCount: nat

    constructor (onDisk: Bytes)
      ensures file == onDisk && entryCount == 0
    {
      file := onDisk;
      entryCount := 0;
    }

    method Append(cmd: Command, key: Key, value: Value)
      modifies this
      ensures file == old(file) + Entry(cmd, key, value)
      ensures entryCount == old(entryCount) + 1
    {
      var buffer, entryLen := BuildBuffer(cmd, key, value);
      var crc := Crc32.Compute(buffer);
      file := file + (LittleEndian(entryLen) + buffer + Crc32.FieldOf(crc));
      entryCount := entryCount + 1;
    }

    /** `false` in `defined` means that the code would have read outside a buffer. */
    method ReplayInto(store: KvStore) returns (replayed: nat, defined: bool)
      modifies store
      ensures Outcome(replayed, store.data, defined) == Replay(file, old(store.data))
    {
      replayed, defined := 0, true;
      var pos, more := 0, true;
      assert file[0..] == file;
      while more
        invariant pos <= |file|
        invariant Replay(file, old(store.data)) ==
          Counted(replayed, if more then Replay(file[pos..], store.data) else Outcome(0, store.data, defined))
        decreases |file| - pos, more
      {
        more, pos, defined := Turn(file, pos, store);
        if more {
          replayed := replayed + 1;
        }
      }
    }

    method Truncate()
      modifies this
      ensures file == [] && entryCount == 0
    {
      file := [];
      entryCount := 0;
    }
  }
}
