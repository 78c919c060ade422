/** The standalone server as an object: startup, request handler, shutdown. */
module Server {
  import opened Optional
  import opened Bytes
  import opened Store
  import Wal
  import Snapshot
  import opened Durability

  /** A request served alone: the store write and its append with nothing in between. */
  ghost function Served(s: State, req: Request): (r: State)
    requires s.Up? && s.pending == map[]
    ensures r.Up? && r.pending == map[]
  {
    if req.command == PUT then Logged(s, Put(req.key, req.value))
    else if req.command == DELETE then Logged(s, Delete(req.key))
    else s
  }

  lemma ServedPut(s: State, req: Request)
    requires s.Up? && s.pending == map[] && req.command == PUT
    ensures var u := Put(req.key, req.value);
            Served(s, req) ==
            if Accepted(u) then s.(disk := s.disk.(wal := s.disk.wal + Wal.EntryOf(u)), live := Apply(s.live, u)) else s
  {
    LoggedState(s, Put(req.key, req.value));
  }

  lemma ServedDelete(s: State, req: Request)
    requires s.Up? && s.pending == map[] && req.command == DELETE
    ensures var u := Delete(req.key);
            Served(s, req) ==
            if req.key in s.live
            then s.(disk := s.disk.(wal := s.disk.wal + Wal.EntryOf(u)), live := Apply(s.live, u)) else s
  {
    LoggedState(s, Delete(req.key));
  }

  lemma ServedKeeps(s: State, req: Request)
    requires s.Up? && s.pending == map[]
    ensures Reachable(s) ==> Reachable(Served(s, req))
    ensures Settled(s) ==> Settled(Served(s, req)) && Recovery(Served(s, req).disk).store == Served(s, req).live
  {
    var u := if req.command == PUT then Put(req.key, req.value) else Delete(req.key);
    if Reachable(s) {
      LoggedReachable(s, u);
    }
    if Settled(s) {
      LoggedSettled(s, u);
      SettledRecovers(Served(s, req));
    }
  }

  lemma ShutDownRecovers(m: Map, items: seq<Snapshot.Item>)
    requires WithinLimits(m) && Snapshot.Enumerates(items, m)
    ensures Recovery(Disk([], Some(Snapshot.File(items)))).store == m <==> |m| < U32_RANGE
  {
    SavedFileLoads(items, m);
  }

  lemma ShutDownKeeps(s: State, items: seq<Snapshot.Item>)
    requires s.Up? && s.phase.Serving? && Snapshot.Enumerates(items, s.live)
    ensures Reachable(s) ==> Reachable(ShutDown(s, items))
    ensures Settled(s) ==>
              (Recovery(Disk([], Some(Snapshot.File(items)))).store == s.live <==> |s.live| < U32_RANGE)
  {
    if Reachable(s) {
      ShutDownReachable(s, items);
    }
    if Settled(s) {
      ShutDownRecovers(s.live, items);
    }
  }

  class StandaloneServer {
    const store: KvStore
    const wal: Wal.WriteAheadLog
    var snapshot: Option<Bytes>

    ghost function Disk(): Disk
      reads this, wal
    {
      Durability.Disk(wal.file, snapshot)
    }

    ghost function State(): (s: State)
      reads this, store, wal
    {
      Up(Disk(), store.data, map[], Serving)
    }

    /** Startup on any disk: load the snapshot if it exists, then replay the log. */
    constructor (disk: Disk)
      ensures State() == Do(Down(disk), Start)
      ensures Reachable(Down(disk)) ==> Reachable(State())
      ensures Settled(Down(disk)) ==> Settled(State())
      ensures fresh(store) && fresh(wal)
    {
      store := new KvStore();
      wal := new Wal.WriteAheadLog(disk.wal);
      snapshot := disk.snapshot;
      new;
      if disk.snapshot.Some? {
        var data := Snapshot.LoadFile(disk.snapshot.value);
        store.LoadData(data);
      }
      var replayed, defined := wal.ReplayInto(store);
      Started(Down(disk));
    }

    /** The standalone handler: store first, then the log if the store said OK. */
    method Handle(req: Request) returns (resp: Response)
      modifies store, wal
      ensures State() == Served(old(State()), req)
      ensures Reachable(old(State())) ==> Reachable(State())
      ensures Settled(old(State())) ==> Settled(State()) && Recovery(Disk()).store == store.data
      ensures req.command == PUT ==>
                && resp.value == []
                && (resp.status == KEY_TOO_LARGE <==> |req.key| > MAX_KEY_SIZE)
                && (resp.status == VALUE_TOO_LARGE <==> |req.key| <= MAX_KEY_SIZE && |req.value| > MAX_VALUE_SIZE)
                && (resp.status == OK <==> |req.key| <= MAX_KEY_SIZE && |req.value| <= MAX_VALUE_SIZE)
                && store.data == (if resp.status == OK then old(store.data)[req.key := req.value] else old(store.data))
      ensures req.command == GET ==>
                resp == if req.key in store.data then Response(OK, store.data[req.key]) else Response(NOT_FOUND, [])
      ensures req.command == DELETE ==>
                && resp == Response(if req.key in old(store.data) then OK else NOT_FOUND, [])
                && store.data == old(store.data) - {req.key}
      ensures req.command == PING ==> resp == Response(OK, PONG)
      ensures req.command !in {PUT, GET, DELETE, PING} ==> resp == Response(INVALID_REQUEST, [])
      ensures req.command !in {PUT, DELETE} ==> store.data == old(store.data)
      ensures wal.file == old(wal.file) +
                if resp.status != OK || req.command !in {PUT, DELETE} then []
                else Wal.Entry(req.command, req.key, if req.command == PUT then req.value else [])
    {
      ghost var s := State();
      ServedKeeps(s, req);
      if req.command == PUT {
        ServedPut(s, req);
        resp := HandlePut(req.key, req.value);
      } else if req.command == GET {
        resp := store.Get(req.key);
      } else if req.command == DELETE {
        ServedDelete(s, req);
        resp := HandleDelete(req.key);
      } else if req.command == PING {
        resp := Response(OK, PONG);
      } else {
        resp := Response(INVALID_REQUEST, []);
      }
    }

    method HandlePut(key: Key, value: Value) returns (resp: Response)
      modifies store, wal
      ensures store.data == Apply(old(store.data), Put(key, value))
      ensures wal.file == old(wal.file) + if Accepted(Put(key, value)) then Wal.EntryOf(Put(key, value)) else []
      ensures resp == PutAnswer(key, value)
    {
      resp := store.Put(key, value);
      if resp.status == OK {
        wal.Append(PUT, key, value);
      }
    }

    method HandleDelete(key: Key) returns (resp: Response)
      modifies store, wal
      ensures store.data == Apply(old(store.data), Delete(key))
      ensures wal.file == old(wal.file) + if key in old(store.data) then Wal.EntryOf(Delete(key)) else []
      ensures resp == Response(if key in old(store.data) then OK else NOT_FOUND, [])
    {
      resp := store.Del(key);
      if resp.status == OK {
        wal.Append(DELETE, key, []);
      }
    }

    /** Graceful shutdown with nothing in flight: save the snapshot, then truncate the log. */
    method Shutdown()
      modifies this, wal
      ensures store.data == old(store.data)
      ensures exists items :: Snapshot.Enumerates(items, store.data) &&
                              State().(phase := Truncated(store.data)) == ShutDown(old(State()), items)
      ensures Reachable(old(State())) ==> Reachable(State().(phase := Truncated(store.data)))
      ensures Settled(old(State())) ==> (Recovery(Disk()).store == store.data <==> |store.data| < U32_RANGE)
    {
      ghost var s := State();
      var file := Snapshot.Save(store.data);
      ghost var items :| Snapshot.Enumerates(items, store.data) && file == Snapshot.File(items);
      snapshot := Some(file);
      wal.Truncate();
      ShutDownState(s, items);
      ShutDownKeeps(s, items);
    }
  }

  lemma Started(s: State)
    requires s.Down?
    ensures Reachable(s) ==> Reachable(Do(s, Start))
    ensures Settled(s) ==> Settled(Do(s, Start))
  {
    if Reachable(s) {
      ReachableStep(s, Start);
    }
    if Settled(s) {
      SettledStep(s, Start);
    }
  }
}
