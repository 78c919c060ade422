/** The wire protocol: request and response bodies, and length-prefixed frames over a byte stream. */
module Protocol {
  import opened Optional
  import opened Bytes
  import opened Store

  // ---- Bodies ----

  /** A length that passes through `htonl`. */
  function NetLength(n: nat): (s: Bytes)
    ensures |s| == 4
  {
    BigEndian(U32(n))
  }

  function RequestBytes(r: Request): Bytes {
    [r.command] + NetLength(|r.key|) + r.key + NetLength(|r.value|) + r.value
  }

  function ResponseBytes(r: Response): Bytes {
    [r.status] + NetLength(|r.value|) + r.value
  }

  method SerializeRequest(req: Request) returns (buf: Bytes)
    ensures buf == RequestBytes(req)
  {
    buf := [req.command];
    buf := buf + NetLength(|req.key|);
    buf := buf + req.key;
    buf := buf + NetLength(|req.value|);
    buf := buf + req.value;
  }

  method SerializeResponse(resp: Response) returns (buf: Bytes)
    ensures buf == ResponseBytes(resp)
  {
    buf := [resp.status];
    buf := buf + NetLength(|resp.value|);
    buf := buf + resp.value;
  }

  function ParseRequest(d: Bytes): Option<Request> {
    if |d| < 9 then None else
    var keyLen := FromBigEndian(d[1..5]);
    if |d| < 9 + keyLen then None else
    var valLen := FromBigEndian(d[5 + keyLen..9 + keyLen]);
    if |d| < 9 + keyLen + valLen then None else
    Some(Request(d[0], d[5..5 + keyLen], d[9 + keyLen..9 + keyLen + valLen]))
  }

  function ParseResponse(d: Bytes): Option<Response> {
    if |d| < 5 then None else
    var valLen := FromBigEndian(d[1..5]);
    if |d| < 5 + valLen then None else
    Some(Response(d[0], d[5..5 + valLen]))
  }

  method DeserializeRequest(data: Bytes) returns (req: Option<Request>)
    ensures req == ParseRequest(data)
    ensures forall r :: req == Some(r) <==> RequestFits(r) && RequestBytes(r) <= data
  {
    req := ScanRequest(data);
    RequestParsesAll(data);
  }

  method ScanRequest(data: Bytes) returns (req: Option<Request>)
    ensures req == ParseRequest(data)
  {
    if |data| < 1 + 4 + 4 { return None; }
    var command := data[0];
    var offset := 1;
    var keyLen := FromBigEndian(data[offset..offset + 4]);
    offset := offset + 4;
    if |data| < offset + keyLen + 4 { return None; }
    var key := data[offset..offset + keyLen];
    offset := offset + keyLen;
    var valLen := FromBigEndian(data[offset..offset + 4]);
    offset := offset + 4;
    if |data| < offset + valLen { return None; }
    return Some(Request(command, key, data[offset..offset + valLen]));
  }

  method DeserializeResponse(data: Bytes) returns (resp: Option<Response>)
    ensures resp == ParseResponse(data)
    ensures forall r :: resp == Some(r) <==> |r.value| < U32_RANGE && ResponseBytes(r) <= data
  {
    forall r
      ensures ParseResponse(data) == Some(r) <==> |r.value| < U32_RANGE && ResponseBytes(r) <= data
    {
      ResponseParses(data, r);
    }
    if |data| < 1 + 4 { return None; }
    var offset := 1;
    var valLen := FromBigEndian(data[offset..offset + 4]);
    offset := offset + 4;
    if |data| < offset + valLen { return None; }
    return Some(Response(data[0], data[offset..offset + valLen]));
  }

  // ---- Exactly what parses ----

  predicate RequestFits(r: Request) {
    |r.key| < U32_RANGE && |r.value| < U32_RANGE
  }

  lemma ReadNetLength(n: nat)
    requires n < U32_RANGE
    ensures FromBigEndian(NetLength(n)) == n
  {
    U32Small(n);
    BigEndianRoundTrip(n);
  }

  lemma WriteNetLength(s: Bytes)
    requires |s| == 4
    ensures NetLength(FromBigEndian(s)) == s
  {
    U32Small(FromBigEndian(s));
    BigEndianOfRead(s);
  }

  lemma RequestPrefixParses(r: Request, d: Bytes)
    requires RequestFits(r) && RequestBytes(r) <= d
    ensures ParseRequest(d) == Some(r)
  {
    TaggedPairFront(r.command, NetLength(|r.key|), r.key, NetLength(|r.value|), r.value, d);
    ReadNetLength(|r.key|);
    ReadNetLength(|r.value|);
    ParseFields(d, |r.key|, |r.value|);
  }

  lemma ParseFields(d: Bytes, k: nat, v: nat)
    requires 9 + k + v <= |d| && FromBigEndian(d[1..5]) == k && FromBigEndian(d[5 + k..9 + k]) == v
    ensures ParseRequest(d) == Some(Request(d[0], d[5..5 + k], d[9 + k..9 + k + v]))
  {
  }

  lemma SlicesOfPrefix(b: Bytes, d: Bytes)
    requires b <= d
    ensures forall i, j :: 0 <= i <= j <= |b| ==> d[i..j] == b[i..j]
  {
  }

  lemma ParsedRequestIsPrefix(d: Bytes, r: Request)
    requires ParseRequest(d) == Some(r)
    ensures RequestFits(r) && RequestBytes(r) <= d
  {
    var k, n := |r.key|, 9 + |r.key| + |r.value|;
    FieldsOf(d, r);
    WriteNetLength(d[1..5]);
    WriteNetLength(d[5 + k..9 + k]);
    Rejoin(d, k, n);
    assert RequestBytes(r) == d[..n];
  }

  /** The parser's own account of where each field came from. */
  lemma FieldsOf(d: Bytes, r: Request)
    requires ParseRequest(d) == Some(r)
    ensures var k := |r.key|;
            && 9 + k + |r.value| <= |d|
            && k == FromBigEndian(d[1..5]) && |r.value| == FromBigEndian(d[5 + k..9 + k])
            && r == Request(d[0], d[5..5 + k], d[9 + k..9 + k + |r.value|])
  {
  }

  lemma Rejoin(d: Bytes, k: nat, n: nat)
    requires 9 + k <= n <= |d|
    ensures [d[0]] + d[1..5] + d[5..5 + k] + d[5 + k..9 + k] + d[9 + k..n] == d[..n]
  {
  }

  /** Parsing yields `r` exactly on the strings that begin with the encoding of `r`. */
  lemma RequestParses(d: Bytes, r: Request)
    ensures ParseRequest(d) == Some(r) <==> RequestFits(r) && RequestBytes(r) <= d
  {
    if ParseRequest(d) == Some(r) {
      ParsedRequestIsPrefix(d, r);
    }
    if RequestFits(r) && RequestBytes(r) <= d {
      RequestPrefixParses(r, d);
    }
  }

  lemma RequestParsesAll(d: Bytes)
    ensures forall r :: ParseRequest(d) == Some(r) <==> RequestFits(r) && RequestBytes(r) <= d
  {
    forall r
      ensures ParseRequest(d) == Some(r) <==> RequestFits(r) && RequestBytes(r) <= d
    {
      RequestParses(d, r);
    }
  }

  /** Where each field of a request lies. */
  lemma RequestLayout(r: Request)
    requires RequestFits(r)
    ensures var b, k := RequestBytes(r), |r.key|;
            && |b| == 9 + k + |r.value| && b[0] == r.command
            && b[1..5] == BigEndian(k) && b[5..5 + k] == r.key
            && b[5 + k..9 + k] == BigEndian(|r.value|) && b[9 + k..] == r.value
  {
    U32Small(|r.key|);
    U32Small(|r.value|);
    TaggedPair(r.command, BigEndian(|r.key|), r.key, BigEndian(|r.value|), r.value);
  }

  /** Where each field of a response lies. */
  lemma ResponseLayout(r: Response)
    requires |r.value| < U32_RANGE
    ensures var b := ResponseBytes(r);
            |b| == 5 + |r.value| && b[0] == r.status && b[1..5] == BigEndian(|r.value|) && b[5..] == r.value
  {
    U32Small(|r.value|);
  }

  /** No proper prefix of an encoding parses. */
  lemma RequestPrefixRejected(r: Request, d: Bytes)
    requires RequestFits(r) && d < RequestBytes(r)
    ensures ParseRequest(d) == None
  {
    if ParseRequest(d).Some? {
      ParsedRequestIsPrefix(d, ParseRequest(d).value);
      RequestPrefixParses(ParseRequest(d).value, RequestBytes(r));
      RequestPrefixParses(r, RequestBytes(r));
    }
  }

  lemma ResponseParses(d: Bytes, r: Response)
    ensures ParseResponse(d) == Some(r) <==> |r.value| < U32_RANGE && ResponseBytes(r) <= d
  {
    if ParseResponse(d) == Some(r) {
      WriteNetLength(d[1..5]);
      var n := 5 + |r.value|;
      assert [d[0]] + d[1..5] + d[5..n] == d[..n];
    }
    if |r.value| < U32_RANGE && ResponseBytes(r) <= d {
      var b := ResponseBytes(r);
      ReadNetLength(|r.value|);
      assert b[1..5] == NetLength(|r.value|) && b[5..|b|] == r.value;
      SlicesOfPrefix(b, d);
    }
  }

  lemma ResponsePrefixRejected(r: Response, d: Bytes)
    requires |r.value| < U32_RANGE && d < ResponseBytes(r)
    ensures ParseResponse(d) == None
  {
    if ParseResponse(d).Some? {
      ResponseParses(d, ParseResponse(d).value);
      ResponseParses(ResponseBytes(r), ParseResponse(d).value);
      ResponseParses(ResponseBytes(r), r);
    }
  }

  // ---- Frames ----

  function FrameOf(payload: Bytes): Bytes {
    NetLength(|payload|) + payload
  }

  /** A frame is its payload behind four bytes of length, most significant first. */
  lemma FrameLayout(payload: Bytes)
    requires |payload| < U32_RANGE
    ensures var b := FrameOf(payload);
            |b| == 4 + |payload| && b[..4] == BigEndian(|payload|) && b[4..] == payload
  {
    U32Small(|payload|);
  }

  datatype Frame = Incomplete | Complete(payload: Bytes, rest: Bytes)

  function FirstFrame(s: Bytes): (f: Frame)
    ensures f.Complete? ==> |f.rest| < |s|
  {
    if |s| < 4 then Incomplete else
    var n := FromBigEndian(s[..4]);
    if |s| < 4 + n then Incomplete else Complete(s[4..4 + n], s[4 + n..])
  }

  /** The payloads that repeated `readFrame` calls return before the first `false`. */
  function Frames(s: Bytes): seq<Bytes>
    decreases |s|
  {
    var f := FirstFrame(s);
    if f.Incomplete? then [] else [f.payload] + Frames(f.rest)
  }

  lemma FirstFrameOf(p: Bytes, rest: Bytes)
    requires |p| < U32_RANGE
    ensures FirstFrame(FrameOf(p) + rest) == Complete(p, rest)
  {
    ReadNetLength(|p|);
    var s := FrameOf(p) + rest;
    assert s[..4] == NetLength(|p|) && s[4..4 + |p|] == p && s[4 + |p|..] == rest;
  }

  lemma FrameThen(p: Bytes, rest: Bytes)
    requires |p| < U32_RANGE
    ensures Frames(FrameOf(p) + rest) == [p] + Frames(rest)
  {
    FirstFrameOf(p, rest);
  }

  lemma TornFrame(p: Bytes, t: Bytes)
    requires |p| < U32_RANGE && t < FrameOf(p)
    ensures FirstFrame(t) == Incomplete
  {
    ReadNetLength(|p|);
    if |t| >= 4 {
      assert t[..4] == FrameOf(p)[..4] == NetLength(|p|);
    }
  }

  lemma HeadThenTail(ps: seq<Bytes>, qs: seq<Bytes>)
    requires ps != []
    ensures [ps[0]] + (ps[1..] + qs) == ps + qs
  {
  }

  lemma {:induction false} FramesThen(ps: seq<Bytes>, t: Bytes)
    requires forall i :: 0 <= i < |ps| ==> |ps[i]| < U32_RANGE
    ensures Frames(Flatten(FrameOf, ps) + t) == ps + Frames(t)
    decreases |ps|
  {
    if ps == [] {
      assert Flatten(FrameOf, ps) + t == t;
    } else {
      FlattenFront(FrameOf, ps, t);
      FrameThen(ps[0], Flatten(FrameOf, ps[1..]) + t);
      FramesThen(ps[1..], t);
      HeadThenTail(ps, Frames(t));
    }
  }

  /** A stream of frames cut anywhere yields exactly the payloads of the frames before the cut. */
  lemma FramesCut(ps: seq<Bytes>, k: nat)
    requires forall i :: 0 <= i < |ps| ==> |ps[i]| < U32_RANGE
    requires k <= |Flatten(FrameOf, ps)|
    ensures Frames(Flatten(FrameOf, ps)[..k]) == ps[..WholeItems(FrameOf, ps, k)]
  {
    var n := WholeItems(FrameOf, ps, k);
    var t := FlattenCut(FrameOf, ps, k);
    FramesThen(ps[..n], t);
    if n < |ps| {
      TornFrame(ps[n], t);
    }
  }

  /** What one side sends, the other receives: the whole stream gives back every payload. */
  lemma FramesRoundTrip(ps: seq<Bytes>)
    requires forall i :: 0 <= i < |ps| ==> |ps[i]| < U32_RANGE
    ensures Frames(Flatten(FrameOf, ps)) == ps
  {
    FramesThen(ps, []);
    assert Flatten(FrameOf, ps) + [] == Flatten(FrameOf, ps);
    assert ps + Frames([]) == ps;
  }

  /** A request written by one side and framed is the request the other side parses. */
  lemma RequestDelivered(r: Request)
    requires 9 + |r.key| + |r.value| < U32_RANGE
    ensures Frames(FrameOf(RequestBytes(r))) == [RequestBytes(r)] && ParseRequest(RequestBytes(r)) == Some(r)
  {
    FrameThen(RequestBytes(r), []);
    assert FrameOf(RequestBytes(r)) + [] == FrameOf(RequestBytes(r));
    RequestParses(RequestBytes(r), r);
  }

  // ---- The read and write loops ----

  /** The reading end of a connection; each `read` moves as many bytes as the system likes, or fails. */
  class Source {
    const data: Bytes
    var pos: nat
    var broken: bool

    ghost predicate Valid()
      reads this
    {
      pos <= |data|
    }

    constructor (bytes: Bytes)
      ensures Valid() && pos == 0 && data == bytes && !broken
    {
      data, pos, broken := bytes, 0, false;
    }

    /** `got` is empty at the end of the stream or on an error. */
    method Read(want: nat) returns (got: Bytes)
      requires Valid() && want > 0
      modifies this
      ensures Valid() && old(pos) <= pos && got == data[old(pos)..pos] && |got| <= want
      ensures old(broken) ==> broken
      ensures got == [] && !broken ==> pos == |data|
      ensures got != [] ==> !broken
    {
      var fail: bool := *;
      if fail || broken {
        broken := true;
        return [];
      }
      var most := if want <= |data| - pos then want else |data| - pos;
      var n: nat :| n <= most && (most > 0 ==> n > 0);
      got := data[pos..pos + n];
      pos := pos + n;
    }
  }

  /** Reads exactly `want` bytes, in however many pieces they come. */
  method ReadFully(source: Source, want: nat) returns (ok: bool, buffer: Bytes)
    requires source.Valid()
    modifies source
    ensures source.Valid() && old(source.pos) <= source.pos && (old(source.broken) ==> source.broken)
    ensures ok ==> source.pos == old(source.pos) + want && buffer == source.data[old(source.pos)..source.pos]
    ensures ok && want > 0 ==> !source.broken
    ensures ok ==> source.broken == old(source.broken)
    ensures !ok && !source.broken ==> |source.data| - old(source.pos) < want
  {
    buffer := [];
    while |buffer| < want
      invariant source.Valid() && |buffer| <= want && source.pos == old(source.pos) + |buffer|
      invariant buffer == source.data[old(source.pos)..source.pos]
      invariant source.broken == old(source.broken)
      invariant |buffer| > 0 ==> !source.broken
    {
      ghost var at := source.pos;
      var got := source.Read(want - |buffer|);
      if got == [] {
        return false, buffer;
      }
      assert source.data[old(source.pos)..at] + source.data[at..source.pos] ==
             source.data[old(source.pos)..source.pos];
      buffer := buffer + got;
    }
    ok := true;
  }

  /** `readFrame`: whatever the chunking, the next frame of the stream, or `false`. */
  method ReadFrame(source: Source) returns (ok: bool, buffer: Bytes)
    requires source.Valid()
    modifies source
    ensures source.Valid() && old(source.pos) <= source.pos && (old(source.broken) ==> source.broken)
    ensures var f := FirstFrame(source.data[old(source.pos)..]);
            && (ok ==> f == Complete(buffer, source.data[source.pos..]))
            && (ok <==> f.Complete? && !source.broken)
  {
    ghost var s, start := source.data[source.pos..], source.pos;
    var field;
    ok, field := ReadFully(source, 4);
    if !ok { return false, []; }
    assert s[..4] == field;
    var len := FromBigEndian(field);
    ok, buffer := ReadFully(source, len);
    if ok {
      assert s[4..4 + len] == buffer && s[4 + len..] == source.data[source.pos..];
    }
  }

  /** Repeated `readFrame` until it fails. */
  method ReadAll(source: Source) returns (frames: seq<Bytes>)
    requires source.Valid()
    modifies source
    ensures frames <= Frames(source.data[old(source.pos)..])
    ensures !source.broken ==> frames == Frames(source.data[old(source.pos)..])
  {
    frames := [];
    ghost var all := Frames(source.data[source.pos..]);
    while true
      invariant source.Valid()
      invariant all == frames + Frames(source.data[source.pos..])
      decreases |source.data| - source.pos
    {
      ghost var s := source.data[source.pos..];
      var ok, payload := ReadFrame(source);
      if !ok {
        break;
      }
      frames := frames + [payload];
    }
  }

  /** The writing end. */
  class Sink {
    var written: Bytes

    constructor ()
      ensures written == []
    {
      written := [];
    }

    /** Takes some of the bytes offered, or reports an error. */
    method Write(chunk: Bytes) returns (n: int)
      requires chunk != []
      modifies this
      ensures n <= |chunk| && written == old(written) + if n > 0 then chunk[..n] else []
    {
      n :| n <= |chunk|;
      if n > 0 {
        written := written + chunk[..n];
      }
    }
  }

  lemma Grow(start: Bytes, frame: Bytes, written: nat, n: nat)
    requires written + n <= |frame|
    ensures start + frame[..written] + frame[written..][..n] == start + frame[..written + n]
  {
  }

  /** `writeFrame`: all of the frame, or `false` after a proper prefix of it. */
  method WriteFrame(sink: Sink, data: Bytes) returns (ok: bool)
    modifies sink
    ensures ok ==> sink.written == old(sink.written) + FrameOf(data)
    ensures !ok ==> exists k :: 0 <= k < |FrameOf(data)| && sink.written == old(sink.written) + FrameOf(data)[..k]
  {
    var frame := NetLength(|data|) + data;
    var written := 0;
    while written < |frame|
      invariant written <= |frame| && sink.written == old(sink.written) + frame[..written]
    {
      var n := sink.Write(frame[written..]);
      if n <= 0 {
        assert frame == FrameOf(data);
        return false;
      }
      Grow(old(sink.written), frame, written, n);
      written := written + n;
    }
    assert frame[..|frame|] == frame;
    ok := true;
  }

  /** `writeFrame` for each payload in turn, up to the first failure. */
  method WriteAll(sink: Sink, payloads: seq<Bytes>) returns (ok: bool)
    requires sink.written == []
    modifies sink
    ensures sink.written <= Flatten(FrameOf, payloads)
    ensures ok ==> sink.written == Flatten(FrameOf, payloads)
  {
    for i := 0 to |payloads|
      invariant sink.written == Flatten(FrameOf, payloads[..i])
    {
      assert payloads[..i + 1] == payloads[..i] + [payloads[i]];
      FlattenSnoc(FrameOf, payloads[..i], payloads[i]);
      FlattenAppend(FrameOf, payloads[..i + 1], payloads[i + 1..]);
      assert payloads == payloads[..i + 1] + payloads[i + 1..];
      var sent := WriteFrame(sink, payloads[i]);
      if !sent {
        return false;
      }
    }
    assert payloads[..|payloads|] == payloads;
    ok := true;
  }
}
