/** Crashes inside a file write: a torn log entry that stays in the file, and a snapshot cut short. */
module Crashes {
  import opened Optional
  import opened Bytes
  import opened Store
  import Wal
  import Snapshot
  import opened Durability

  // ---- A torn entry that stays in the file ----

  /** The next start after a crash that left `torn` at the end of the log. */
  ghost function Restarted(s: State, torn: Bytes): (r: State)
    ensures r.Up? && r.pending == map[]
  {
    Do(Down(s.disk.(wal := s.disk.wal + torn)), Start)
  }

  /** Requests served one after another; those the store refuses are not logged. */
  ghost function LoggedAll(s: State, us: seq<Mutation>): (r: State)
    requires s.Up? && s.pending == map[]
    ensures r.Up? && r.pending == map[]
    decreases |us|
  {
    if us == [] then s else LoggedAll(Logged(s, us[0]), us[1..])
  }

  lemma {:induction false} LoggedAllSettled(s: State, us: seq<Mutation>)
    requires Settled(s) && s.Up? && s.pending == map[]
    ensures Settled(LoggedAll(s, us))
    decreases |us|
  {
    if us != [] {
      LoggedSettled(s, us[0]);
      LoggedAllSettled(Logged(s, us[0]), us[1..]);
    }
  }

  /** The disk rebuilds the store after every list of requests. */
  ghost predicate StaysDurable(s: State)
    requires s.Up? && s.pending == map[]
  {
    forall later :: Recovery(LoggedAll(s, later).disk).store == LoggedAll(s, later).live
  }

  lemma CleanRestart(s: State, us: seq<Mutation>)
    requires LogHolds(s.disk, us)
    ensures StaysDurable(Restarted(s, []))
  {
    assert s.disk.(wal := s.disk.wal + []) == s.disk;
    assert Inv(Down(s.disk), us);
    SettledStep(Down(s.disk), Start);
    forall later
      ensures Recovery(LoggedAll(Restarted(s, []), later).disk).store == LoggedAll(Restarted(s, []), later).live
    {
      LoggedAllSettled(Restarted(s, []), later);
      SettledRecovers(LoggedAll(Restarted(s, []), later));
    }
  }

  lemma RestartedState(s: State, us: seq<Mutation>, u: Mutation, torn: Bytes)
    requires LogHolds(s.disk, us) && Loggable(u) && torn < Wal.EntryOf(u)
    ensures Restarted(s, torn) == Up(s.disk.(wal := s.disk.wal + torn), ApplyAll(Base(s.disk), us), map[], Serving)
  {
    Wal.ReplayTorn(us, u, torn, Base(s.disk));
    BaseUnlogged(s.disk, s.disk.wal + torn);
  }

  lemma LoggedPut(s: State, w: Mutation)
    requires s.Up? && s.pending == map[] && w.Put? && Accepted(w)
    ensures Logged(s, w) == s.(disk := s.disk.(wal := s.disk.wal + Wal.EntryOf(w)), live := s.live[w.key := w.value])
  {
    LoggedState(s, w);
  }

  lemma RecoversWithout(d: Disk, us: seq<Mutation>, torn: Bytes, e: Bytes)
    requires d.wal == Wal.Log(us)
    requires Wal.Replay(Wal.Log(us) + (torn + e), Base(d)).store == ApplyAll(Base(d), us)
    ensures Recovery(d.(wal := d.wal + torn + e)).store == ApplyAll(Base(d), us)
  {
    BaseUnlogged(d, d.wal + torn + e);
    assert d.wal + torn + e == d.wal + (torn + e);
  }

  /** One acknowledged put that the next recovery loses. */
  lemma LostAfterTorn(s: State, us: seq<Mutation>, u: Mutation, torn: Bytes) returns (w: Mutation)
    requires LogHolds(s.disk, us) && Loggable(u) && torn < Wal.EntryOf(u) && torn != []
    ensures var m, r := ApplyAll(Base(s.disk), us), Logged(Restarted(s, torn), w);
            w.Put? && r.live == m[w.key := w.value] != m && Recovery(r.disk).store == m
  {
    w := Wal.TornTailLoses(us, u, torn, Base(s.disk));
    RestartedState(s, us, u, torn);
    LoggedPut(Restarted(s, torn), w);
    RecoversWithout(s.disk, us, torn, Wal.EntryOf(w));
  }

  lemma LosesOne(s: State, w: Mutation)
    requires s.Up? && s.pending == map[]
    requires Recovery(Logged(s, w).disk).store != Logged(s, w).live
    ensures !StaysDurable(s)
  {
    assert [w][1..] == [];
    assert LoggedAll(s, [w]) == LoggedAll(Logged(s, w), []) == Logged(s, w);
  }

  /**
   A crash inside an append, then a restart: everything acknowledged from then on is recovered, whatever
   the requests, exactly when the crash fell between two entries.
   */
  lemma TornTailExact(s: State, t: nat, torn: Bytes)
    requires Reachable(s) && s.Up? && t in s.pending && torn < Wal.EntryOf(s.pending[t])
    ensures StaysDurable(Restarted(s, torn)) <==> torn == []
  {
    var us := ReachableLog(s);
    if torn == [] {
      CleanRestart(s, us);
    } else {
      var w := LostAfterTorn(s, us, s.pending[t], torn);
      LosesOne(Restarted(s, torn), w);
    }
  }

  /** A run in which it happens: the first put ever is torn anywhere, and a later one is lost. */
  lemma TornTailExample(u: Mutation, torn: Bytes) returns (s: State, w: Mutation)
    requires u.Put? && Accepted(u) && torn != [] && torn < Wal.EntryOf(u)
    ensures Reachable(s) && s.Up? && s.pending == map[0 := u] && w.Put?
    ensures var r := Logged(Restarted(s, torn), w);
            r.live == map[w.key := w.value] && Recovery(r.disk).store == map[]
  {
    var s0 := FirstStart();
    s := Do(s0, Mutate(0, u));
    ReachableStep(s0, Mutate(0, u));
    w := LostAfterTorn(s, [], u, torn);
  }

  // ---- A crash while the snapshot is being written ----

  /** The disk after `n` bytes of the new snapshot; the old one was truncated first. */
  ghost function CutAt(s: State, items: seq<Snapshot.Item>, n: nat): Disk
    requires n <= |Snapshot.File(items)|
  {
    s.disk.(snapshot := Some(Snapshot.File(items)[..n]))
  }

  lemma RecoveredKey(d: Disk, us: seq<Mutation>, k: Key)
    requires d.wal == Wal.Log(us) && AllLoggable(us)
    ensures Lookup(Recovery(d).store, k) == if Mentions(us, k) then LastWrite(us, k) else Lookup(Base(d), k)
  {
    Wal.ReplayLog(us, Base(d));
    LastWriterWins(Base(d), us, k);
  }

  /** In any run: a logged key is recovered as before the save, any other as the partial file has it. */
  lemma MidSaveCrash(s: State, items: seq<Snapshot.Item>, n: nat, k: Key) returns (us: seq<Mutation>)
    requires Reachable(s) && Can(s, WriteFile(items)) && n <= |Snapshot.File(items)|
    ensures s.disk.wal == Wal.Log(us) && AllLoggable(us)
    ensures Lookup(Recovery(CutAt(s, items, n)).store, k) ==
            if Mentions(us, k) then Lookup(Recovery(s.disk).store, k)
            else Lookup(Snapshot.Load(Snapshot.File(items)[..n]), k)
  {
    us := ReachableLog(s);
    RecoveredKey(s.disk, us, k);
    RecoveredKey(CutAt(s, items, n), us, k);
  }

  /** A log determines which keys it mentions, and what it does to a store. */
  lemma SameLog(us: seq<Mutation>, us': seq<Mutation>, m: Map, k: Key)
    requires AllLoggable(us) && AllLoggable(us') && Wal.Log(us) == Wal.Log(us')
    ensures ApplyAll(m, us) == ApplyAll(m, us') && (Mentions(us, k) <==> Mentions(us', k))
  {
    var probe: Map := map[k := []];
    Wal.ReplayLog(us, m);
    Wal.ReplayLog(us', m);
    Wal.ReplayLog(us, probe);
    Wal.ReplayLog(us', probe);
    Wal.ReplayLog(us, map[]);
    Wal.ReplayLog(us', map[]);
    Distinguishes(us, k);
    Distinguishes(us', k);
  }

  lemma Distinguishes(us: seq<Mutation>, k: Key)
    ensures Mentions(us, k) <==>
            Lookup(ApplyAll(map[], us), k) == Lookup(ApplyAll(map[k := []], us), k)
  {
    LastWriterWins(map[], us, k);
    LastWriterWins(map[k := []], us, k);
  }

  lemma CutFileKey(items: seq<Snapshot.Item>, n: nat, copy: Map, k: Key)
    requires Snapshot.Enumerates(items, copy) && WithinLimits(copy) && n <= |Snapshot.File(items)|
    ensures Lookup(Snapshot.Load(Snapshot.File(items)[..n]), k) == Lookup(copy, k) <==>
            (k in copy ==> Snapshot.KeptBy(items, n, k))
  {
    ItemsWithin(items, copy);
    if k in copy {
      var i := Snapshot.FilledFrom(map[], items, k);
      Snapshot.FillContents(map[], items, i);
      Snapshot.CutKeeps(items, n, i);
    } else {
      forall i | 0 <= i < |items|
        ensures items[i].key != k
      {
        Snapshot.FillContents(map[], items, i);
      }
      Snapshot.CutInvents(items, n, k);
    }
  }

  /** The condition, for a key on which the copy and the store agree unless the log mentions it. */
  predicate CutRebuilds(live: Map, items: seq<Snapshot.Item>, n: nat, us: seq<Mutation>, k: Key) {
    if Mentions(us, k) then LastWrite(us, k) == Lookup(live, k)
    else k in live ==> Snapshot.KeptBy(items, n, k)
  }

  lemma MidSaveKey(s: State, items: seq<Snapshot.Item>, n: nat, us: seq<Mutation>, k: Key)
    requires Can(s, WriteFile(items)) && n <= |Snapshot.File(items)| && WithinLimits(s.phase.copy)
    requires s.disk.wal == Wal.Log(us) && AllLoggable(us)
    requires !Mentions(us, k) ==> Lookup(s.phase.copy, k) == Lookup(s.live, k)
    ensures Lookup(Recovery(CutAt(s, items, n)).store, k) == Lookup(s.live, k) <==> CutRebuilds(s.live, items, n, us, k)
  {
    RecoveredKey(CutAt(s, items, n), us, k);
    CutFileKey(items, n, s.phase.copy, k);
  }

  /** In any run, a key neither in the log nor in flight is as it was at the last start, and as copied. */
  lemma UntouchedSinceCopy(s: State, h: History, us: seq<Mutation>, k: Key)
    requires Tracks(s, h, us) && s.Up? && s.phase.Copied? && !PendingOn(s.pending, k) && !Mentions(us, k)
    ensures Lookup(s.phase.copy, k) == Lookup(s.live, k)
  {
    LastWriterWins(h.base, h.writes, k);
    LastWriterWins(h.base, CopiedWrites(h), k);
    if Mentions(CopiedWrites(h), k) {
      MentionsPrefix(h.writes, h.copied, k);
    }
  }

  /**
   A crash after any `n` bytes of the new snapshot, in any run and with any handlers in flight: a key that
   is not pending is recovered right exactly if the log's last write of it is the live one or, where the
   log does not mention it, it is absent, in a whole item before the cut, or in the torn one with its
   padding right.
   */
  lemma MidSaveCrashLoses(s: State, items: seq<Snapshot.Item>, n: nat, us: seq<Mutation>)
    requires Reachable(s) && Can(s, WriteFile(items)) && n <= |Snapshot.File(items)|
    requires s.disk.wal == Wal.Log(us) && AllLoggable(us)
    ensures forall k :: !PendingOn(s.pending, k) ==>
              (Lookup(Recovery(CutAt(s, items, n)).store, k) == Lookup(s.live, k) <==>
               CutRebuilds(s.live, items, n, us, k))
    ensures AgreeElsewhere(s.live, Recovery(CutAt(s, items, n)).store, s.pending) <==>
            forall k :: !PendingOn(s.pending, k) ==> CutRebuilds(s.live, items, n, us, k)
  {
    var es :| Executes(FRESH, es) && After(FRESH, es) == s;
    var us' := TrackedFromFresh(es);
    forall k | !PendingOn(s.pending, k)
      ensures Lookup(Recovery(CutAt(s, items, n)).store, k) == Lookup(s.live, k) <==>
              CutRebuilds(s.live, items, n, us, k)
    {
      SameLog(us, us', map[], k);
      if !Mentions(us, k) {
        UntouchedSinceCopy(s, Since(es), us', k);
      }
      MidSaveKey(s, items, n, us, k);
    }
  }

  /** From a settled state the log is right about every key it mentions, so only the others are at stake. */
  lemma MidSaveCrashSettled(s: State, items: seq<Snapshot.Item>, n: nat, us: seq<Mutation>, k: Key)
    requires Settled(s) && Can(s, WriteFile(items)) && n <= |Snapshot.File(items)|
    requires s.disk.wal == Wal.Log(us) && AllLoggable(us) && !PendingOn(s.pending, k)
    ensures Lookup(Recovery(CutAt(s, items, n)).store, k) == Lookup(s.live, k) <==>
            (k in s.live && !Mentions(us, k) ==> Snapshot.KeptBy(items, n, k))
  {
    var us' :| Inv(s, us');
    SameLog(us, us', Base(s.disk), k);
    LastWriterWins(Base(s.disk), us, k);
    MidSaveKey(s, items, n, us, k);
  }

  /** A key that recovery finds although there was no snapshot is in the log, so a cut save changes nothing. */
  lemma LoggedBeforeSave(s: State, items: seq<Snapshot.Item>, n: nat, k: Key)
    requires Reachable(s) && Can(s, WriteFile(items)) && n <= |Snapshot.File(items)|
    requires s.disk.snapshot == None && Lookup(Recovery(s.disk).store, k).Some?
    ensures Lookup(Recovery(CutAt(s, items, n)).store, k) == Lookup(Recovery(s.disk).store, k)
  {
    var us := MidSaveCrash(s, items, n, k);
    RecoveredKey(s.disk, us, k);
  }

  /** A run that needs the first half of the condition: crossed puts, and a crash anywhere in the next save. */
  lemma MidSaveCrossedExample(k: Key, a: Value, b: Value) returns (s: State, items: seq<Snapshot.Item>)
    requires Accepted(Put(k, a)) && Accepted(Put(k, b))
    ensures Reachable(s) && Can(s, WriteFile(items)) && s.pending == map[] && s.live == map[k := b]
    ensures forall n: nat :: n <= |Snapshot.File(items)| ==>
              Lookup(Recovery(CutAt(s, items, n)).store, k) == Some(a)
  {
    var es := CrossedExample(k, a, b);
    var s0 := After(FRESH, es);
    items := [Snapshot.Item(k, b)];
    OneItem(k, b);
    assert Reachable(s0);
    ReachableStep(s0, Copy);
    s := Do(s0, Copy);
    forall n: nat | n <= |Snapshot.File(items)|
      ensures Lookup(Recovery(CutAt(s, items, n)).store, k) == Some(a)
    {
      LoggedBeforeSave(s, items, n, k);
    }
  }

  lemma OneItem(k: Key, v: Value)
    ensures Snapshot.Enumerates([Snapshot.Item(k, v)], map[k := v])
  {
    var items := [Snapshot.Item(k, v)];
    var m: Map := map[];
    assert items[1..] == [] && m[k := v] == map[k := v];
    assert Snapshot.Fill(m, items) == Snapshot.Fill(m[k := v], items[1..]);
  }

  /** A run in which it happens: put, shut down, start again, and crash as the next save begins. */
  lemma MidSaveExample(k: Key, v: Value) returns (s: State, items: seq<Snapshot.Item>)
    requires Accepted(Put(k, v))
    ensures Reachable(s) && Can(s, WriteFile(items)) && s.live == map[k := v] && s.pending == map[]
    ensures Recovery(CutAt(s, items, 0)).store == map[]
  {
    var s0 := FirstStart();
    items := [Snapshot.Item(k, v)];
    var s1 := Logged(s0, Put(k, v));
    LoggedPut(s0, Put(k, v));
    LoggedReachable(s0, Put(k, v));
    OneItem(k, v);
    ShutDownReachable(s1, items);
    ShutDownState(s1, items);
    var d := ShutDown(s1, items).disk;
    ReachableStep(ShutDown(s1, items), Crash);
    s := Do(Down(d), Start);
    ReachableStep(Down(d), Start);
    SavedFileLoads(items, map[k := v]);
    ReachableStep(s, Copy);
    s := Do(s, Copy);
  }
}
