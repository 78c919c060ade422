/** The shared types and the in-memory store that everything else refines. */
module Store {
  import opened Optional
  import opened Bytes

  type Key = Bytes
  type Value = Bytes

  const MAX_KEY_SIZE: nat := 256
  const MAX_VALUE_SIZE: nat := 65536

  /** `enum class Command : uint8_t`; any byte can arrive in one. */
  type Command = Byte

  const PUT: Command := 1
  const GET: Command := 2
  const DELETE: Command := 3
  const PING: Command := 4

  /** `enum class Status : uint8_t`. */
  type Status = Byte

  const OK: Status := 0
  const NOT_FOUND: Status := 1
  const ERROR: Status := 2
  const KEY_TOO_LARGE: Status := 3
  const VALUE_TOO_LARGE: Status := 4
  const INVALID_REQUEST: Status := 5
  const NODE_UNAVAILABLE: Status := 6

  /** The body of the answer to a ping. */
  const PONG: Value := [0x50, 0x4F, 0x4E, 0x47]

  datatype Request = Request(command: Command, key: Key, value: Value)
  datatype Response = Response(status: Status, value: Value)

  type Map = map<Key, Value>

  /** A change to the store. */
  datatype Mutation = Put(key: Key, value: Value) | Delete(key: Key)

  predicate Accepted(u: Mutation) {
    u.Put? ==> |u.key| <= MAX_KEY_SIZE && |u.value| <= MAX_VALUE_SIZE
  }

  /** The store after `u`; an oversized put changes nothing. */
  function Apply(m: Map, u: Mutation): Map {
    match u
    case Put(k, v) => if Accepted(u) then m[k := v] else m
    case Delete(k) => m - {k}
  }

  function ApplyAll(m: Map, us: seq<Mutation>): Map {
    if us == [] then m else Apply(ApplyAll(m, us[..|us| - 1]), us[|us| - 1])
  }

  function Lookup(m: Map, k: Key): Option<Value> {
    if k in m then Some(m[k]) else None
  }

  /** The size limits hold of everything stored. */
  predicate WithinLimits(m: Map) {
    forall k :: k in m ==> |k| <= MAX_KEY_SIZE && |m[k]| <= MAX_VALUE_SIZE
  }

  /** What a put of this size is answered with; the key is measured first. */
  function PutAnswer(key: Key, value: Value): Response {
    Response(if |key| > MAX_KEY_SIZE then KEY_TOO_LARGE
             else if |value| > MAX_VALUE_SIZE then VALUE_TOO_LARGE
             else OK, [])
  }

  /** The largest key and value that are taken, and the smallest that are not. */
  lemma PutLimits(key: Key, value: Value)
    ensures |key| == 256 && |value| == 65536 ==> PutAnswer(key, value).status == OK
    ensures |key| == 257 ==> PutAnswer(key, value).status == KEY_TOO_LARGE
    ensures |key| == 256 && |value| == 65537 ==> PutAnswer(key, value).status == VALUE_TOO_LARGE
  {
  }

  /** What a lookup is answered with. */
  function GetAnswer(m: Map, key: Key): Response {
    if key in m then Response(OK, m[key]) else Response(NOT_FOUND, [])
  }

  class KvStore {
    var data: Map

    constructor ()
      ensures data == map[]
    {
      data := map[];
    }

    method Put(key: Key, value: Value) returns (r: Response)
      modifies this
      ensures data == Apply(old(data), Mutation.Put(key, value))
      ensures data == if r.status == OK then old(data)[key := value] else old(data)
      ensures r.status == OK <==> Accepted(Mutation.Put(key, value))
      ensures r == PutAnswer(key, value)
    {
      if |key| > MAX_KEY_SIZE {
        return Response(KEY_TOO_LARGE, []);
      }
      if |value| > MAX_VALUE_SIZE {
        return Response(VALUE_TOO_LARGE, []);
      }
      data := data[key := value];
      return Response(OK, []);
    }

    method Get(key: Key) returns (r: Response)
      ensures r == GetAnswer(data, key)
      ensures Lookup(data, key) == if r.status == OK then Some(r.value) else None
    {
      if key in data {
        return Response(OK, data[key]);
      }
      return Response(NOT_FOUND, []);
    }

    method Del(key: Key) returns (r: Response)
      modifies this
      ensures data == Apply(old(data), Delete(key))
      ensures r == Response(if key in old(data) then OK else NOT_FOUND, [])
    {
      if key in data {
        data := data - {key};
        return Response(OK, []);
      }
      return Response(NOT_FOUND, []);
    }

    /** `loadFromSnapshot`: clear, then bulk load. */
    method LoadData(d: Map)
      modifies this
      ensures data == d
    {
      data := map[];
      data := d;
    }
  }

  // ---- Last writer wins ----

  /** Some accepted mutation in `us` concerns `k`. */
  predicate Mentions(us: seq<Mutation>, k: Key) {
    exists i :: 0 <= i < |us| && us[i].key == k && Accepted(us[i])
  }

  /** What the last accepted mutation of `k` left there, if there was one. */
  function LastWrite(us: seq<Mutation>, k: Key): Option<Value> {
    if us == [] then None
    else var u := us[|us| - 1];
      if u.key == k && Accepted(u) then (if u.Put? then Some(u.value) else None)
      else LastWrite(us[..|us| - 1], k)
  }

  lemma {:induction false} LastWriterWins(m: Map, us: seq<Mutation>, k: Key)
    ensures Lookup(ApplyAll(m, us), k) == if Mentions(us, k) then LastWrite(us, k) else Lookup(m, k)
    decreases |us|
  {
    if us != [] {
      var init, u := us[..|us| - 1], us[|us| - 1];
      LastWriterWins(m, init, k);
      if Mentions(init, k) {
        var i :| 0 <= i < |init| && init[i].key == k && Accepted(init[i]);
        assert us[i] == init[i];
      }
    }
  }

  lemma {:induction false} LastOfNone(us: seq<Mutation>, k: Key)
    ensures !Mentions(us, k) ==> LastWrite(us, k) == None
    decreases |us|
  {
    if us != [] {
      var init := us[..|us| - 1];
      LastOfNone(init, k);
      if Mentions(init, k) {
        var i :| 0 <= i < |init| && init[i].key == k && Accepted(init[i]);
        assert us[i] == init[i];
      }
    }
  }

  lemma SameLookups(m: Map, m': Map)
    requires forall k :: Lookup(m, k) == Lookup(m', k)
    ensures m == m'
  {
    forall k ensures k in m <==> k in m' { assert Lookup(m, k) == Lookup(m', k); }
    forall k | k in m ensures m[k] == m'[k] { assert Lookup(m, k) == Lookup(m', k); }
  }

  /** Running a list of mutations again over its own result changes nothing. */
  lemma ApplyAllIdempotent(m: Map, us: seq<Mutation>)
    ensures ApplyAll(ApplyAll(m, us), us) == ApplyAll(m, us)
  {
    var n := ApplyAll(m, us);
    forall k
      ensures Lookup(ApplyAll(n, us), k) == Lookup(n, k)
    {
      LastWriterWins(n, us, k);
      LastWriterWins(m, us, k);
    }
    SameLookups(ApplyAll(n, us), n);
  }

  lemma {:induction false} ApplyAllAppend(m: Map, us: seq<Mutation>, vs: seq<Mutation>)
    ensures ApplyAll(m, us + vs) == ApplyAll(ApplyAll(m, us), vs)
    decreases |vs|
  {
    if vs == [] {
      assert us + vs == us;
    } else {
      ApplyAllAppend(m, us, vs[..|vs| - 1]);
      assert (us + vs)[..|us + vs| - 1] == us + vs[..|vs| - 1];
    }
  }

  lemma ApplyAllSnoc(m: Map, us: seq<Mutation>, u: Mutation)
    ensures ApplyAll(m, us + [u]) == Apply(ApplyAll(m, us), u)
  {
    assert (us + [u])[..|us|] == us;
  }

  lemma {:induction false} ApplyAllWithinLimits(m: Map, us: seq<Mutation>)
    requires WithinLimits(m)
    ensures WithinLimits(ApplyAll(m, us))
    decreases |us|
  {
    if us != [] {
      ApplyAllWithinLimits(m, us[..|us| - 1]);
    }
  }
}
