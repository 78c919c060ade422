/**
 The standalone server as a machine over its disk: handlers that write the store and then the log,
 crashes, recovery, and a shutdown during which the handlers go on serving.
 */
module Durability {
  import opened Optional
  import opened Bytes
  import opened Store
  import Wal
  import Snapshot

  datatype Disk = Disk(wal: Bytes, snapshot: Option<Bytes>)

  function Base(d: Disk): Map {
    if d.snapshot.Some? then Snapshot.Load(d.snapshot.value) else map[]
  }

  /** Startup: load the snapshot if there is one, then replay the log over it. */
  function Recovery(d: Disk): Wal.Outcome {
    Wal.Replay(d.wal, Base(d))
  }

  /**
   How far shutdown has got: the store copied, the copy written to the snapshot, the log truncated. The
   server stops accepting connections, but its workers serve the open ones until the process ends.
   */
  datatype Phase =
    | Serving
    | Copied(copy: Map)
    | Written(copy: Map)
    | Truncated(copy: Map)

  /** `pending` holds the mutation each handler has stored but not yet logged. */
  datatype State =
    | Down(disk: Disk)
    | Up(disk: Disk, live: Map, pending: map<nat, Mutation>, phase: Phase)

  /** `Crash` ends the process at any point, after a shutdown too. */
  datatype Step =
    | Start
    | Mutate(thread: nat, u: Mutation)
    | Append(thread: nat)
    | Copy
    | WriteFile(items: seq<Snapshot.Item>)
    | Truncate
    | Crash

  const FRESH: State := Down(Disk([], None))

  /** The store answered OK, so the handler goes on to log. */
  predicate Effective(m: Map, u: Mutation) {
    if u.Put? then Accepted(u) else u.key in m
  }

  ghost predicate Can(s: State, e: Step) {
    match e
    case Start => s.Down?
    case Mutate(t, _) => s.Up? && t !in s.pending
    case Append(t) => s.Up? && t in s.pending
    case Copy => s.Up? && s.phase.Serving?
    case WriteFile(items) => s.Up? && s.phase.Copied? && Snapshot.Enumerates(items, s.phase.copy)
    case Truncate => s.Up? && s.phase.Written?
    case Crash => true
  }

  ghost function Do(s: State, e: Step): State
    requires Can(s, e)
  {
    match e
    case Start => Up(s.disk, Recovery(s.disk).store, map[], Serving)
    case Mutate(t, u) =>
      if Effective(s.live, u) then s.(live := Apply(s.live, u), pending := s.pending[t := u]) else s
    case Append(t) =>
      s.(disk := s.disk.(wal := s.disk.wal + Wal.EntryOf(s.pending[t])), pending := s.pending - {t})
    case Copy => s.(phase := Copied(s.live))
    case WriteFile(items) =>
      s.(disk := s.disk.(snapshot := Some(Snapshot.File(items))), phase := Written(s.phase.copy))
    case Truncate => s.(disk := s.disk.(wal := []), phase := Truncated(s.phase.copy))
    case Crash => Down(s.disk)
  }

  /** Any interleaving of handlers, shutdown and crashes, where a crash falls between two file writes. */
  ghost predicate Executes(s: State, es: seq<Step>)
    decreases |es|
  {
    es == [] || (Can(s, es[0]) && Executes(Do(s, es[0]), es[1..]))
  }

  /** The state at the end of a run, or where it gets stuck. */
  ghost function After(s: State, es: seq<Step>): State
    decreases |es|
  {
    if es == [] || !Can(s, es[0]) then s else After(Do(s, es[0]), es[1..])
  }

  ghost predicate PendingOn(pending: map<nat, Mutation>, k: Key) {
    exists t :: t in pending && pending[t].key == k
  }

  /** The two stores differ at most on keys with a pending mutation. */
  ghost predicate AgreeElsewhere(a: Map, b: Map, pending: map<nat, Mutation>) {
    forall k :: !PendingOn(pending, k) ==> Lookup(a, k) == Lookup(b, k)
  }

  /**
   A store write finds no other handler between its own store write and its log append on the same key;
   the keys saved can be counted in 32 bits; and when the log is truncated, every change to the store
   since it was copied is still pending.
   */
  ghost predicate Orderly(s: State, e: Step) {
    && (e.Mutate? && s.Up? && Effective(s.live, e.u) ==> !PendingOn(s.pending, e.u.key))
    && (e.WriteFile? && s.Up? && s.phase.Copied? ==> |s.phase.copy| < U32_RANGE)
    && (e.Truncate? && s.Up? && s.phase.Written? ==> AgreeElsewhere(s.live, s.phase.copy, s.pending))
  }

  ghost predicate Runs(s: State, es: seq<Step>)
    decreases |es|
  {
    es == [] || (Can(s, es[0]) && Orderly(s, es[0]) && Runs(Do(s, es[0]), es[1..]))
  }

  /** `live` is `durable` plus exactly the pending mutations, each on its own key. */
  ghost predicate Ahead(live: Map, durable: Map, pending: map<nat, Mutation>) {
    && (forall t :: t in pending ==>
          Lookup(live, pending[t].key) == Lookup(Apply(durable, pending[t]), pending[t].key))
    && AgreeElsewhere(live, durable, pending)
  }

  /** What a crash at this point would lose: nothing but the pending mutations. */
  ghost predicate Durable(s: State) {
    Recovery(s.disk).defined && (s.Up? ==> Ahead(s.live, Recovery(s.disk).store, s.pending))
  }

  // ---- The invariant ----

  predicate Loggable(u: Mutation) {
    Accepted(u) && |u.key| <= MAX_KEY_SIZE
  }

  predicate AllLoggable(us: seq<Mutation>) {
    forall i :: 0 <= i < |us| ==> Loggable(us[i])
  }

  ghost predicate LogHolds(d: Disk, us: seq<Mutation>) {
    && d.wal == Wal.Log(us)
    && AllLoggable(us)
    && WithinLimits(Base(d))
  }

  ghost predicate PendingOk(pending: map<nat, Mutation>) {
    && (forall t :: t in pending ==> Loggable(pending[t]))
    && (forall t, t' :: t in pending && t' in pending && t != t' ==> pending[t].key != pending[t'].key)
  }

  /** The copy is the store, up to what the log and the handlers in flight hold. */
  ghost predicate CopyAgrees(copy: Map, live: Map, us: seq<Mutation>, pending: map<nat, Mutation>) {
    forall k :: !Mentions(us, k) && !PendingOn(pending, k) ==> Lookup(copy, k) == Lookup(live, k)
  }

  ghost predicate PhaseInv(s: State, us: seq<Mutation>)
    requires s.Up?
  {
    match s.phase
    case Serving => true
    case Copied(copy) => WithinLimits(copy) && CopyAgrees(copy, s.live, us, s.pending)
    case Written(copy) => Base(s.disk) == copy
    case Truncated(_) => true
  }

  /** The log holds `us`, and the live store is ahead of it by the pending mutations alone. */
  ghost predicate Inv(s: State, us: seq<Mutation>) {
    && LogHolds(s.disk, us)
    && (s.Up? ==>
          && WithinLimits(s.live) && PendingOk(s.pending)
          && Ahead(s.live, ApplyAll(Base(s.disk), us), s.pending)
          && PhaseInv(s, us))
  }

  /** Every logged put is accepted again, so replay applies the whole log. */
  lemma RecoveryIsFold(d: Disk, us: seq<Mutation>)
    requires LogHolds(d, us)
    ensures Recovery(d) == Wal.Outcome(|us|, ApplyAll(Base(d), us), true)
  {
    Wal.ReplayLog(us, Base(d));
  }

  lemma InvIsDurable(s: State, us: seq<Mutation>)
    requires Inv(s, us)
    ensures Durable(s)
  {
    RecoveryIsFold(s.disk, us);
  }

  lemma PendingAdded(pending: map<nat, Mutation>, t: nat, u: Mutation, k: Key)
    requires t !in pending
    ensures PendingOn(pending[t := u], k) <==> PendingOn(pending, k) || u.key == k
  {
    var pending' := pending[t := u];
    assert pending'[t] == u;
    if PendingOn(pending, k) {
      var t' :| t' in pending && pending[t'].key == k;
      assert pending'[t'] == pending[t'];
    }
  }

  lemma PendingDropped(pending: map<nat, Mutation>, t: nat, k: Key)
    requires t in pending
    ensures PendingOn(pending, k) <==> PendingOn(pending - {t}, k) || pending[t].key == k
  {
    var rest := pending - {t};
    assert pending == rest[t := pending[t]];
    PendingAdded(rest, t, pending[t], k);
  }

  lemma AheadAfterMutate(live: Map, durable: Map, pending: map<nat, Mutation>, t: nat, u: Mutation)
    requires Ahead(live, durable, pending) && t !in pending && !PendingOn(pending, u.key)
    ensures Ahead(Apply(live, u), durable, pending[t := u])
  {
    var pending' := pending[t := u];
    assert Lookup(live, u.key) == Lookup(durable, u.key);
    AgreeAfterMutate(live, durable, pending, t, u);
    forall t' | t' in pending'
      ensures Lookup(Apply(live, u), pending'[t'].key) == Lookup(Apply(durable, pending'[t']), pending'[t'].key)
    {
      if t' != t {
        assert pending[t'].key != u.key;
      }
    }
  }

  lemma AgreeAfterMutate(live: Map, durable: Map, pending: map<nat, Mutation>, t: nat, u: Mutation)
    requires AgreeElsewhere(live, durable, pending) && t !in pending
    ensures AgreeElsewhere(Apply(live, u), durable, pending[t := u])
  {
    forall k | !PendingOn(pending[t := u], k)
      ensures Lookup(Apply(live, u), k) == Lookup(durable, k)
    {
      PendingAdded(pending, t, u, k);
    }
  }

  lemma AheadAfterAppend(live: Map, durable: Map, pending: map<nat, Mutation>, t: nat)
    requires Ahead(live, durable, pending) && PendingOk(pending) && t in pending
    ensures Ahead(live, Apply(durable, pending[t]), pending - {t})
    ensures PendingOk(pending - {t})
  {
    forall k | !PendingOn(pending - {t}, k)
      ensures Lookup(live, k) == Lookup(Apply(durable, pending[t]), k)
    {
      PendingDropped(pending, t, k);
    }
  }

  lemma CopyAgreesAfterMutate(copy: Map, live: Map, us: seq<Mutation>, pending: map<nat, Mutation>, t: nat, u: Mutation)
    requires CopyAgrees(copy, live, us, pending) && t !in pending
    ensures CopyAgrees(copy, Apply(live, u), us, pending[t := u])
  {
    forall k | !Mentions(us, k) && !PendingOn(pending[t := u], k)
      ensures Lookup(copy, k) == Lookup(Apply(live, u), k)
    {
      PendingAdded(pending, t, u, k);
    }
  }

  lemma CopyAgreesAfterAppend(copy: Map, live: Map, us: seq<Mutation>, pending: map<nat, Mutation>, t: nat)
    requires CopyAgrees(copy, live, us, pending) && t in pending && Accepted(pending[t])
    ensures CopyAgrees(copy, live, us + [pending[t]], pending - {t})
  {
    forall k | !Mentions(us + [pending[t]], k) && !PendingOn(pending - {t}, k)
      ensures Lookup(copy, k) == Lookup(live, k)
    {
      MentionsSnoc(us, pending[t], k);
      PendingDropped(pending, t, k);
    }
  }

  lemma MutateKeeps(s: State, us: seq<Mutation>, t: nat, u: Mutation)
    requires Inv(s, us) && Can(s, Mutate(t, u)) && Orderly(s, Mutate(t, u))
    ensures Inv(Do(s, Mutate(t, u)), us)
  {
    if Effective(s.live, u) {
      EffectiveLoggable(s.live, u);
      ApplyWithinLimits(s.live, u);
      AheadAfterMutate(s.live, ApplyAll(Base(s.disk), us), s.pending, t, u);
      PendingOkAdded(s.pending, t, u);
      if s.phase.Copied? {
        CopyAgreesAfterMutate(s.phase.copy, s.live, us, s.pending, t, u);
      }
    }
  }

  lemma PendingOkAdded(pending: map<nat, Mutation>, t: nat, u: Mutation)
    requires PendingOk(pending) && t !in pending && Loggable(u) && !PendingOn(pending, u.key)
    ensures PendingOk(pending[t := u])
  {
  }

  lemma LogAfterAppend(d: Disk, us: seq<Mutation>, u: Mutation)
    requires LogHolds(d, us) && Loggable(u)
    ensures LogHolds(d.(wal := d.wal + Wal.EntryOf(u)), us + [u])
    ensures ApplyAll(Base(d), us + [u]) == Apply(ApplyAll(Base(d), us), u)
  {
    Wal.LogSnoc(us, u);
    ApplyAllSnoc(Base(d), us, u);
    LoggableSnoc(us, u);
    BaseUnlogged(d, d.wal + Wal.EntryOf(u));
  }

  lemma LoggableSnoc(us: seq<Mutation>, u: Mutation)
    requires AllLoggable(us) && Loggable(u)
    ensures AllLoggable(us + [u])
  {
  }

  lemma BaseUnlogged(d: Disk, wal: Bytes)
    ensures Base(d.(wal := wal)) == Base(d)
  {
  }

  lemma AppendKeeps(s: State, us: seq<Mutation>, t: nat)
    requires Inv(s, us) && Can(s, Append(t))
    ensures Inv(Do(s, Append(t)), us + [s.pending[t]])
  {
    LogAfterAppend(s.disk, us, s.pending[t]);
    AheadAfterAppend(s.live, ApplyAll(Base(s.disk), us), s.pending, t);
    BaseUnlogged(s.disk, s.disk.wal + Wal.EntryOf(s.pending[t]));
    if s.phase.Copied? {
      CopyAgreesAfterAppend(s.phase.copy, s.live, us, s.pending, t);
    }
  }

  lemma StartKeeps(s: State, us: seq<Mutation>)
    requires Inv(s, us) && Can(s, Start)
    ensures Inv(Do(s, Start), us)
  {
    RecoveryIsFold(s.disk, us);
    ApplyAllWithinLimits(Base(s.disk), us);
  }

  lemma NothingPending(live: Map, durable: Map)
    requires Ahead(live, durable, map[])
    ensures live == durable
  {
    forall k
      ensures Lookup(live, k) == Lookup(durable, k)
    {
    }
    SameLookups(live, durable);
  }

  lemma ItemsWithin(items: seq<Snapshot.Item>, m: Map)
    requires Snapshot.Enumerates(items, m) && WithinLimits(m)
    ensures forall i :: 0 <= i < |items| ==> |items[i].key| <= MAX_KEY_SIZE && |items[i].value| <= MAX_VALUE_SIZE
    ensures Snapshot.AllFit(items)
  {
    forall i | 0 <= i < |items|
      ensures |items[i].key| <= MAX_KEY_SIZE && |items[i].value| <= MAX_VALUE_SIZE
    {
      Snapshot.FillContents(map[], items, i);
    }
  }

  lemma SavedFileLoads(items: seq<Snapshot.Item>, m: Map)
    requires Snapshot.Enumerates(items, m) && WithinLimits(m)
    ensures Snapshot.Load(Snapshot.File(items)) == m <==> |m| < U32_RANGE
  {
    ItemsWithin(items, m);
    Snapshot.LoadInvertsSave(items, m);
  }

  /** What an accepted mutation leaves on its key does not depend on what was there. */
  lemma ApplyForgets(m: Map, m': Map, u: Mutation)
    requires Accepted(u)
    ensures Lookup(Apply(m, u), u.key) == Lookup(Apply(m', u), u.key)
  {
  }

  /** The log over the copy is as good as the log over the old snapshot. */
  lemma AheadRebased(live: Map, base: Map, copy: Map, us: seq<Mutation>, pending: map<nat, Mutation>)
    requires Ahead(live, ApplyAll(base, us), pending) && PendingOk(pending) && CopyAgrees(copy, live, us, pending)
    ensures Ahead(live, ApplyAll(copy, us), pending)
  {
    AheadOver(live, ApplyAll(base, us), ApplyAll(copy, us), pending);
    forall k | !PendingOn(pending, k)
      ensures Lookup(live, k) == Lookup(ApplyAll(copy, us), k)
    {
      LastWriterWins(base, us, k);
      LastWriterWins(copy, us, k);
    }
  }

  lemma AheadOver(live: Map, durable: Map, durable': Map, pending: map<nat, Mutation>)
    requires Ahead(live, durable, pending) && PendingOk(pending)
    ensures Ahead(live, durable', pending) <==> AgreeElsewhere(live, durable', pending)
  {
    forall t | t in pending
      ensures Lookup(live, pending[t].key) == Lookup(Apply(durable', pending[t]), pending[t].key)
    {
      ApplyForgets(durable, durable', pending[t]);
    }
  }

  /** A log already contained in the snapshot replays over it without effect. */
  lemma WriteFileKeeps(s: State, us: seq<Mutation>, items: seq<Snapshot.Item>)
    requires Inv(s, us) && Can(s, WriteFile(items)) && Orderly(s, WriteFile(items))
    ensures Inv(Do(s, WriteFile(items)), us)
  {
    SavedFileLoads(items, s.phase.copy);
    AheadRebased(s.live, Base(s.disk), s.phase.copy, us, s.pending);
  }

  lemma TruncateKeeps(s: State, us: seq<Mutation>)
    requires Inv(s, us) && Can(s, Truncate) && Orderly(s, Truncate)
    ensures Inv(Do(s, Truncate), [])
  {
    AheadOver(s.live, ApplyAll(Base(s.disk), us), s.phase.copy, s.pending);
    BaseUnlogged(s.disk, []);
  }

  lemma StepKeeps(s: State, us: seq<Mutation>, e: Step) returns (us': seq<Mutation>)
    requires Inv(s, us) && Can(s, e) && Orderly(s, e)
    ensures Inv(Do(s, e), us')
  {
    us' := us;
    match e
    case Start => StartKeeps(s, us);
    case Mutate(t, u) => MutateKeeps(s, us, t, u);
    case Append(t) =>
      AppendKeeps(s, us, t);
      us' := us + [s.pending[t]];
    case Copy =>
    case WriteFile(items) => WriteFileKeeps(s, us, items);
    case Truncate =>
      TruncateKeeps(s, us);
      us' := [];
    case Crash =>
  }

  lemma {:induction false} RunKeeps(s: State, us: seq<Mutation>, es: seq<Step>) returns (us': seq<Mutation>)
    requires Inv(s, us) && Runs(s, es)
    ensures Inv(After(s, es), us')
    decreases |es|
  {
    us' := us;
    if es != [] {
      var mid := StepKeeps(s, us, es[0]);
      us' := RunKeeps(Do(s, es[0]), mid, es[1..]);
    }
  }

  /** In every run the disk alone rebuilds the live store, up to the mutations still pending. */
  lemma RunsAreDurable(es: seq<Step>)
    requires Runs(FRESH, es)
    ensures Durable(After(FRESH, es))
  {
    RunsSettle(es);
    var us :| Inv(After(FRESH, es), us);
    InvIsDurable(After(FRESH, es), us);
  }

  /** With no handler in flight, recovery gives back exactly the live store. */
  lemma QuiescentRecovery(es: seq<Step>)
    requires Runs(FRESH, es) && After(FRESH, es).Up? && After(FRESH, es).pending == map[]
    ensures Recovery(After(FRESH, es).disk).store == After(FRESH, es).live
  {
    RunsAreDurable(es);
    NothingPending(After(FRESH, es).live, Recovery(After(FRESH, es).disk).store);
  }

  // ---- Reachable and settled states ----

  /** Some run from an empty disk ends here. */
  ghost predicate Reachable(s: State) {
    exists es :: Executes(FRESH, es) && After(FRESH, es) == s
  }

  /** Orderly runs end in settled states; so does a start on any disk with a whole log. */
  ghost predicate Settled(s: State) {
    exists us :: Inv(s, us)
  }

  lemma RunsSettle(es: seq<Step>)
    requires Runs(FRESH, es)
    ensures Settled(After(FRESH, es))
  {
    assert Inv(FRESH, []);
    var us := RunKeeps(FRESH, [], es);
  }

  lemma {:induction false} ExecutesThen(s: State, es: seq<Step>, e: Step)
    requires Executes(s, es) && Can(After(s, es), e)
    ensures Executes(s, es + [e]) && After(s, es + [e]) == Do(After(s, es), e)
    decreases |es|
  {
    if es == [] {
      assert ([] + [e])[1..] == [];
    } else {
      ExecutesThen(Do(s, es[0]), es[1..], e);
      assert (es + [e])[1..] == es[1..] + [e];
    }
  }

  lemma ReachableStep(s: State, e: Step)
    requires Reachable(s) && Can(s, e)
    ensures Reachable(Do(s, e))
  {
    var es :| Executes(FRESH, es) && After(FRESH, es) == s;
    ExecutesThen(FRESH, es, e);
  }

  lemma SettledStep(s: State, e: Step)
    requires Settled(s) && Can(s, e) && Orderly(s, e)
    ensures Settled(Do(s, e))
  {
    var us :| Inv(s, us);
    var us' := StepKeeps(s, us, e);
  }

  /** In every reachable state the log is whole and the handlers hold only what can be logged. */
  lemma ReachableLog(s: State) returns (us: seq<Mutation>)
    requires Reachable(s)
    ensures LogHolds(s.disk, us)
    ensures s.Up? ==> WithinLimits(s.live) && forall t :: t in s.pending ==> Loggable(s.pending[t])
  {
    var es :| Executes(FRESH, es) && After(FRESH, es) == s;
    us := TrackedFromFresh(es);
  }

  /** The log is whole and the store within limits, however the two are related. */
  ghost predicate Sane(s: State) {
    exists us :: LogHolds(s.disk, us) && (s.Up? ==> WithinLimits(s.live))
  }

  lemma ReachableIsSane(s: State)
    requires Reachable(s)
    ensures Sane(s)
  {
    var us := ReachableLog(s);
  }

  /** With the log truncated only what is still in flight may be newer than the copy, and that is enough. */
  lemma TruncateExact(s: State)
    requires Settled(s) && Can(s, Truncate)
    ensures Durable(Do(s, Truncate)) <==> AgreeElsewhere(s.live, s.phase.copy, s.pending)
  {
    var us :| Inv(s, us);
    AheadOver(s.live, ApplyAll(Base(s.disk), us), s.phase.copy, s.pending);
    BaseUnlogged(s.disk, []);
    RecoveryIsFold(s.disk.(wal := []), []);
  }

  /** A crash inside an append leaves a torn entry, and recovery behaves as if it had not begun. */
  lemma TornAppendRecovers(s: State, t: nat, torn: Bytes)
    requires Reachable(s) && s.Up? && t in s.pending
    requires torn < Wal.EntryOf(s.pending[t])
    ensures Recovery(s.disk.(wal := s.disk.wal + torn)) == Recovery(s.disk)
  {
    var us := ReachableLog(s);
    RecoveryIsFold(s.disk, us);
    Wal.ReplayTorn(us, s.pending[t], torn, Base(s.disk));
    BaseUnlogged(s.disk, s.disk.wal + torn);
  }

  // ---- Why in-flight mutations must not share a key ----

  /**
   What two crossed mutations do to the store and to what the disk rebuilds: on their own keys the two agree
   exactly if the mutations do not conflict, and no other key changes.
   */
  ghost predicate CrossedLeaves(live: Map, disk: Map, live': Map, disk': Map, u1: Mutation, u2: Mutation) {
    && (Lookup(live', u1.key) == Lookup(disk', u1.key) && Lookup(live', u2.key) == Lookup(disk', u2.key) <==>
        u1.key != u2.key || u1 == u2)
    && (forall k :: k != u1.key && k != u2.key ==>
          Lookup(live', k) == Lookup(live, k) && Lookup(disk', k) == Lookup(disk, k))
    && (disk == live ==> (disk' == live' <==> u1.key != u2.key || u1 == u2))
  }

  lemma CrossedKeys(live: Map, disk: Map, u1: Mutation, u2: Mutation)
    requires Effective(live, u1) && Effective(Apply(live, u1), u2)
    ensures CrossedLeaves(live, disk, Apply(Apply(live, u1), u2), Apply(Apply(disk, u2), u1), u1, u2)
  {
    var live', disk' := Apply(Apply(live, u1), u2), Apply(Apply(disk, u2), u1);
    assert Lookup(live', u2.key) == if u2.Put? then Some(u2.value) else None;
    assert Lookup(disk', u1.key) == if u1.Put? then Some(u1.value) else None;
    if disk == live && (u1.key != u2.key || u1 == u2) {
      SameLookups(disk', live');
    }
  }

  ghost predicate Overlap(s: State, u1: Mutation, u2: Mutation) {
    s.Up? && s.pending == map[] && Effective(s.live, u1) && Effective(Apply(s.live, u1), u2)
  }

  /** Both handlers write the store, `u1` first; then the log receives `u2` before `u1`. */
  ghost function Crossed(s: State, u1: Mutation, u2: Mutation): State
    requires Overlap(s, u1, u2)
  {
    Do(Do(Do(Do(s, Mutate(1, u1)), Mutate(2, u2)), Append(2)), Append(1))
  }

  lemma CrossedState(s: State, u1: Mutation, u2: Mutation)
    requires Overlap(s, u1, u2)
    ensures var s' := Crossed(s, u1, u2);
            && s'.Up? && s'.live == Apply(Apply(s.live, u1), u2) && s'.phase == s.phase
            && s'.disk == s.disk.(wal := s.disk.wal + Wal.EntryOf(u2) + Wal.EntryOf(u1))
  {
    var pending := map[1 := u1][2 := u2];
    assert Do(Do(s, Mutate(1, u1)), Mutate(2, u2)).pending == pending;
    assert (pending - {2})[1] == u1;
  }

  lemma TwoAppends(d: Disk, us: seq<Mutation>, u1: Mutation, u2: Mutation)
    requires LogHolds(d, us) && Loggable(u1) && Loggable(u2)
    ensures Recovery(d.(wal := d.wal + Wal.EntryOf(u2) + Wal.EntryOf(u1))).store ==
            Apply(Apply(ApplyAll(Base(d), us), u2), u1)
  {
    LogAfterAppend(d, us, u2);
    var d2 := d.(wal := d.wal + Wal.EntryOf(u2));
    LogAfterAppend(d2, us + [u2], u1);
    var d1 := d2.(wal := d2.wal + Wal.EntryOf(u1));
    RecoveryIsFold(d1, us + [u2] + [u1]);
    BaseUnlogged(d, d2.wal);
    BaseUnlogged(d, d1.wal);
  }

  /** The store has `u2` last, the log `u1`. */
  lemma CrossedOutcome(s: State, us: seq<Mutation>, u1: Mutation, u2: Mutation)
    requires Overlap(s, u1, u2) && LogHolds(s.disk, us) && WithinLimits(s.live)
    ensures Crossed(s, u1, u2).Up? && Crossed(s, u1, u2).live == Apply(Apply(s.live, u1), u2)
    ensures Recovery(Crossed(s, u1, u2).disk).store == Apply(Apply(Recovery(s.disk).store, u2), u1)
  {
    CrossedState(s, u1, u2);
    EffectiveLoggable(s.live, u1);
    ApplyWithinLimits(s.live, u1);
    EffectiveLoggable(Apply(s.live, u1), u2);
    RecoveryIsFold(s.disk, us);
    TwoAppends(s.disk, us, u1, u2);
  }

  /** Two overlapping handlers whose appends cross, in any state of any run. */
  lemma CrossedAppends(s: State, u1: Mutation, u2: Mutation)
    requires Sane(s) && Overlap(s, u1, u2)
    ensures CrossedLeaves(s.live, Recovery(s.disk).store,
                          Crossed(s, u1, u2).live, Recovery(Crossed(s, u1, u2).disk).store, u1, u2)
  {
    var us :| LogHolds(s.disk, us);
    CrossedOutcome(s, us, u1, u2);
    CrossedKeys(s.live, Recovery(s.disk).store, u1, u2);
  }

  lemma CrossedPending(s: State, u1: Mutation, u2: Mutation)
    requires Overlap(s, u1, u2)
    ensures Do(s, Mutate(1, u1)) == s.(live := Apply(s.live, u1), pending := map[1 := u1])
    ensures Do(Do(s, Mutate(1, u1)), Mutate(2, u2)) ==
            s.(live := Apply(Apply(s.live, u1), u2), pending := map[1 := u1, 2 := u2])
    ensures map[1 := u1, 2 := u2] - {2} == map[1 := u1] && map[1 := u1] - {1} == map[]
  {
    assert map[1 := u1][2 := u2] == map[1 := u1, 2 := u2];
  }

  lemma AfterAppend(s: State, t: nat)
    requires Can(s, Append(t))
    ensures Do(s, Append(t)).Up? && Do(s, Append(t)).pending == s.pending - {t}
  {
  }

  lemma CrossedCan(s: State, u1: Mutation, u2: Mutation)
    requires Overlap(s, u1, u2)
    ensures var s2 := Do(Do(s, Mutate(1, u1)), Mutate(2, u2));
            && Can(s2, Append(2)) && Can(Do(s2, Append(2)), Append(1))
            && Do(Do(s2, Append(2)), Append(1)).Up? && Do(Do(s2, Append(2)), Append(1)).pending == map[]
  {
    CrossedPending(s, u1, u2);
    var s2 := Do(Do(s, Mutate(1, u1)), Mutate(2, u2));
    AfterAppend(s2, 2);
    AfterAppend(Do(s2, Append(2)), 1);
  }

  lemma ExecutesFrom(s: State, e: Step, es: seq<Step>)
    requires Can(s, e) && Executes(Do(s, e), es)
    ensures Executes(s, [e] + es) && After(s, [e] + es) == After(Do(s, e), es)
  {
    assert ([e] + es)[1..] == es;
  }

  lemma CrossedRun(s: State, u1: Mutation, u2: Mutation) returns (es: seq<Step>)
    requires Overlap(s, u1, u2)
    ensures Executes(s, es) && After(s, es) == Crossed(s, u1, u2)
  {
    CrossedCan(s, u1, u2);
    var s1 := Do(s, Mutate(1, u1));
    var s2 := Do(s1, Mutate(2, u2));
    var s3 := Do(s2, Append(2));
    es := [];
    ExecutesFrom(s3, Append(1), es);
    es := [Append(1)] + es;
    ExecutesFrom(s2, Append(2), es);
    es := [Append(2)] + es;
    ExecutesFrom(s1, Mutate(2, u2), es);
    es := [Mutate(2, u2)] + es;
    ExecutesFrom(s, Mutate(1, u1), es);
    es := [Mutate(1, u1)] + es;
  }

  lemma CrossedEnd(s: State, us: seq<Mutation>, u1: Mutation, u2: Mutation) returns (es: seq<Step>)
    requires Overlap(s, u1, u2) && LogHolds(s.disk, us) && WithinLimits(s.live)
    ensures Executes(s, es) && After(s, es).Up? && After(s, es).pending == map[]
    ensures After(s, es).live == Apply(Apply(s.live, u1), u2)
    ensures Recovery(After(s, es).disk).store == Apply(Apply(Recovery(s.disk).store, u2), u1)
    ensures After(s, es).disk.snapshot == s.disk.snapshot && After(s, es).phase == s.phase
  {
    es := CrossedRun(s, u1, u2);
    CrossedCan(s, u1, u2);
    CrossedState(s, u1, u2);
    CrossedOutcome(s, us, u1, u2);
  }

  /** A run in which it happens: two puts of one key, from an empty disk. */
  lemma CrossedExample(k: Key, a: Value, b: Value) returns (es: seq<Step>)
    requires Accepted(Put(k, a)) && Accepted(Put(k, b))
    ensures Executes(FRESH, es)
    ensures var s := After(FRESH, es);
            && s.Up? && s.pending == map[] && s.live == map[k := b] && Recovery(s.disk).store == map[k := a]
            && s.phase == Serving && s.disk.snapshot == None
  {
    var u1, u2 := Put(k, a), Put(k, b);
    var s := FirstStart();
    es := CrossedEnd(s, [], u1, u2);
    ExecutesFrom(FRESH, Start, es);
    es := [Start] + es;
    LastPutStays(k, a, b);
    LastPutStays(k, b, a);
  }

  lemma LastPutStays(k: Key, a: Value, b: Value)
    requires Accepted(Put(k, a)) && Accepted(Put(k, b))
    ensures Apply(Apply(map[], Put(k, a)), Put(k, b)) == map[k := b]
  {
    var none: Map := map[];
    assert none[k := a][k := b] == map[k := b];
  }

  /** The server's first start, on an empty disk. */
  lemma FirstStart() returns (s: State)
    ensures s == Up(Disk([], None), map[], map[], Serving) == Do(FRESH, Start)
    ensures Reachable(s) && Settled(s)
  {
    s := Do(FRESH, Start);
    assert Executes(FRESH, []) && After(FRESH, []) == FRESH;
    ReachableStep(FRESH, Start);
    assert Inv(FRESH, []);
    SettledStep(FRESH, Start);
  }

  lemma EffectiveLoggable(m: Map, u: Mutation)
    requires WithinLimits(m) && Effective(m, u)
    ensures Loggable(u)
  {
  }

  lemma ApplyWithinLimits(m: Map, u: Mutation)
    requires WithinLimits(m)
    ensures WithinLimits(Apply(m, u))
  {
  }

  // ---- Exactly when a run recovers, with no condition on its steps ----

  /**
   Since the last start: the store it began with, the store writes and the appends, each in its order; how
   many writes there were when the store was copied, and how many appends when the log was truncated.
   */
  datatype History = History(base: Map, writes: seq<Mutation>, appends: seq<Mutation>, copied: nat, dropped: nat)

  ghost function Note(h: History, s: State, e: Step): History
    requires Can(s, e)
  {
    match e
    case Start => History(Recovery(s.disk).store, [], [], 0, 0)
    case Mutate(_, u) => if Effective(s.live, u) then h.(writes := h.writes + [u]) else h
    case Append(t) => h.(appends := h.appends + [s.pending[t]])
    case Copy => h.(copied := |h.writes|)
    case WriteFile(_) => h
    case Truncate => h.(dropped := |h.appends|)
    case Crash => h
  }

  ghost function HistoryOf(h: History, s: State, es: seq<Step>): History
    decreases |es|
  {
    if es == [] || !Can(s, es[0]) then h else HistoryOf(Note(h, s, es[0]), Do(s, es[0]), es[1..])
  }

  /** The writes that the copy holds. */
  ghost function CopiedWrites(h: History): seq<Mutation>
    requires h.copied <= |h.writes|
  {
    h.writes[..h.copied]
  }

  /** What the disk holds of this uptime: all appends, or after the truncation the copy and the later ones. */
  ghost function Kept(phase: Phase, h: History): seq<Mutation>
    requires h.copied <= |h.writes| && h.dropped <= |h.appends|
  {
    if phase.Truncated? then CopiedWrites(h) + h.appends[h.dropped..] else h.appends
  }

  /** The items of the snapshot, if shutdown has written it, can be counted in 32 bits. */
  predicate FileFits(phase: Phase) {
    phase.Written? || phase.Truncated? ==> |phase.copy| < U32_RANGE
  }

  ghost predicate TracksPhase(s: State, h: History, us: seq<Mutation>)
    requires s.Up? && h.copied <= |h.writes| && h.dropped <= |h.appends|
  {
    && (!s.phase.Serving? ==> WithinLimits(s.phase.copy) && s.phase.copy == ApplyAll(h.base, CopiedWrites(h)))
    && (!s.phase.Truncated? ==> forall k :: Mentions(h.appends, k) ==> Mentions(us, k))
    && match s.phase
       case Serving => ApplyAll(Base(s.disk), us) == ApplyAll(h.base, h.appends)
       case Copied(_) => ApplyAll(Base(s.disk), us) == ApplyAll(h.base, h.appends)
       case Written(copy) =>
         FileFits(s.phase) ==> Base(s.disk) == copy && SameLogged(ApplyAll(copy, us), h)
       case Truncated(copy) =>
         FileFits(s.phase) ==> Base(s.disk) == copy && us == h.appends[h.dropped..]
  }

  /** The store rebuilt is the appends over the base, except on keys written but not yet appended. */
  ghost predicate SameLogged(m: Map, h: History) {
    forall k :: (Mentions(h.writes, k) ==> Mentions(h.appends, k)) ==>
                Lookup(m, k) == Lookup(ApplyAll(h.base, h.appends), k)
  }

  ghost predicate Tracks(s: State, h: History, us: seq<Mutation>) {
    && LogHolds(s.disk, us)
    && (s.Up? ==>
          && WithinLimits(s.live) && (forall t :: t in s.pending ==> Loggable(s.pending[t]))
          && s.live == ApplyAll(h.base, h.writes)
          && (forall k :: Mentions(h.writes, k) <==> Mentions(h.appends, k) || PendingOn(s.pending, k))
          && h.copied <= |h.writes| && h.dropped <= |h.appends|
          && TracksPhase(s, h, us))
  }

  lemma MentionsSnoc(us: seq<Mutation>, u: Mutation, k: Key)
    requires Accepted(u)
    ensures Mentions(us + [u], k) <==> Mentions(us, k) || u.key == k
  {
    if Mentions(us, k) {
      var i :| 0 <= i < |us| && us[i].key == k && Accepted(us[i]);
      assert (us + [u])[i] == us[i];
    }
    assert (us + [u])[|us|] == u;
  }

  lemma MutateTracks(s: State, h: History, us: seq<Mutation>, t: nat, u: Mutation)
    requires Tracks(s, h, us) && Can(s, Mutate(t, u)) && Effective(s.live, u)
    ensures Tracks(Do(s, Mutate(t, u)), Note(h, s, Mutate(t, u)), us)
  {
    EffectiveLoggable(s.live, u);
    ApplyWithinLimits(s.live, u);
    ApplyAllSnoc(h.base, h.writes, u);
    assert (h.writes + [u])[..h.copied] == h.writes[..h.copied];
    forall k
      ensures Mentions(h.writes + [u], k) <==> Mentions(h.appends, k) || PendingOn(s.pending[t := u], k)
      ensures Mentions(h.writes, k) ==> Mentions(h.writes + [u], k)
    {
      MentionsSnoc(h.writes, u, k);
      PendingAdded(s.pending, t, u, k);
    }
  }

  lemma SameLoggedAppend(m: Map, h: History, u: Mutation)
    requires SameLogged(m, h) && Accepted(u)
    ensures SameLogged(Apply(m, u), h.(appends := h.appends + [u]))
  {
    ApplyAllSnoc(h.base, h.appends, u);
    forall k | Mentions(h.writes, k) ==> Mentions(h.appends + [u], k)
      ensures Lookup(Apply(m, u), k) == Lookup(Apply(ApplyAll(h.base, h.appends), u), k)
    {
      MentionsSnoc(h.appends, u, k);
    }
  }

  lemma MentionsBoth(us: seq<Mutation>, vs: seq<Mutation>, u: Mutation)
    requires Accepted(u) && forall k :: Mentions(us, k) ==> Mentions(vs, k)
    ensures forall k :: Mentions(us + [u], k) ==> Mentions(vs + [u], k)
  {
    forall k | Mentions(us + [u], k)
      ensures Mentions(vs + [u], k)
    {
      MentionsSnoc(us, u, k);
      MentionsSnoc(vs, u, k);
    }
  }

  lemma SameFoldSnoc(m: Map, us: seq<Mutation>, m': Map, vs: seq<Mutation>, u: Mutation)
    requires ApplyAll(m, us) == ApplyAll(m', vs)
    ensures ApplyAll(m, us + [u]) == ApplyAll(m', vs + [u])
  {
    ApplyAllSnoc(m, us, u);
    ApplyAllSnoc(m', vs, u);
  }

  lemma AppendTracksWritten(copy: Map, h: History, us: seq<Mutation>, u: Mutation)
    requires SameLogged(ApplyAll(copy, us), h) && Accepted(u)
    ensures SameLogged(ApplyAll(copy, us + [u]), h.(appends := h.appends + [u]))
  {
    ApplyAllSnoc(copy, us, u);
    SameLoggedAppend(ApplyAll(copy, us), h, u);
  }

  /** The state after an append, without the entry's bytes. */
  lemma AppendedState(s: State, t: nat)
    requires Can(s, Append(t))
    ensures var s' := Do(s, Append(t));
            s'.Up? && s'.phase == s.phase && Base(s'.disk) == Base(s.disk)
  {
    BaseUnlogged(s.disk, s.disk.wal + Wal.EntryOf(s.pending[t]));
  }

  /** `TracksPhase` of a state with the same base and phase, one mutation later. */
  lemma TracksPhaseOn(s: State, s': State, h: History, us: seq<Mutation>, u: Mutation)
    requires s.Up? && s'.Up? && s'.phase == s.phase && Base(s'.disk) == Base(s.disk) && Accepted(u)
    requires h.copied <= |h.writes| && h.dropped <= |h.appends| && TracksPhase(s, h, us)
    ensures TracksPhase(s', h.(appends := h.appends + [u]), us + [u])
  {
    if s.phase.Truncated? {
      assert (h.appends + [u])[h.dropped..] == h.appends[h.dropped..] + [u];
    } else {
      MentionsBoth(h.appends, us, u);
      if s.phase.Written? && FileFits(s.phase) {
        AppendTracksWritten(s.phase.copy, h, us, u);
      } else if !s.phase.Written? {
        SameFoldSnoc(Base(s.disk), us, h.base, h.appends, u);
      }
    }
  }

  lemma AppendTracks(s: State, h: History, us: seq<Mutation>, t: nat)
    requires Tracks(s, h, us) && Can(s, Append(t))
    ensures Tracks(Do(s, Append(t)), Note(h, s, Append(t)), us + [s.pending[t]])
  {
    var u := s.pending[t];
    LogAfterAppend(s.disk, us, u);
    AppendedState(s, t);
    TracksPhaseOn(s, Do(s, Append(t)), h, us, u);
    forall k
      ensures Mentions(h.writes, k) <==> Mentions(h.appends + [u], k) || PendingOn(s.pending - {t}, k)
    {
      MentionsSnoc(h.appends, u, k);
      PendingDropped(s.pending, t, k);
    }
  }

  lemma {:induction false} FillWithin(m: Map, items: seq<Snapshot.Item>)
    requires WithinLimits(m)
    requires forall i :: 0 <= i < |items| ==> |items[i].key| <= MAX_KEY_SIZE && |items[i].value| <= MAX_VALUE_SIZE
    ensures WithinLimits(Snapshot.Fill(m, items))
    decreases |items|
  {
    if items != [] {
      FillWithin(m[items[0].key := items[0].value], items[1..]);
    }
  }

  /** Even a file whose count has wrapped around loads to a store within limits. */
  lemma SavedWithin(items: seq<Snapshot.Item>, m: Map)
    requires Snapshot.Enumerates(items, m) && WithinLimits(m)
    ensures WithinLimits(Snapshot.Load(Snapshot.File(items)))
  {
    ItemsWithin(items, m);
    Snapshot.LoadOfFile(items);
    FillWithin(map[], items[..U32(|items|)]);
  }

  lemma MentionsPrefix(us: seq<Mutation>, n: nat, k: Key)
    requires n <= |us| && Mentions(us[..n], k)
    ensures Mentions(us, k)
  {
    var i :| 0 <= i < n && us[..n][i].key == k && Accepted(us[..n][i]);
    assert us[i] == us[..n][i];
  }

  lemma CopyTracks(s: State, h: History, us: seq<Mutation>)
    requires Tracks(s, h, us) && Can(s, Copy)
    ensures Tracks(Do(s, Copy), Note(h, s, Copy), us)
  {
    assert h.writes[..|h.writes|] == h.writes;
  }

  /** Replaying the old log over the copy changes no key that was not written since the start. */
  lemma RebasedLog(base: Map, us: seq<Mutation>, copy: Map, h: History)
    requires h.copied <= |h.writes| && copy == ApplyAll(h.base, CopiedWrites(h))
    requires ApplyAll(base, us) == ApplyAll(h.base, h.appends)
    requires forall k :: Mentions(h.appends, k) ==> Mentions(us, k)
    ensures SameLogged(ApplyAll(copy, us), h)
  {
    forall k | Mentions(h.writes, k) ==> Mentions(h.appends, k)
      ensures Lookup(ApplyAll(copy, us), k) == Lookup(ApplyAll(h.base, h.appends), k)
    {
      LastWriterWins(base, us, k);
      LastWriterWins(copy, us, k);
      LastWriterWins(h.base, h.appends, k);
      LastWriterWins(h.base, CopiedWrites(h), k);
      if Mentions(CopiedWrites(h), k) {
        MentionsPrefix(h.writes, h.copied, k);
      }
    }
  }

  lemma WriteFileTracks(s: State, h: History, us: seq<Mutation>, items: seq<Snapshot.Item>)
    requires Tracks(s, h, us) && Can(s, WriteFile(items))
    ensures Tracks(Do(s, WriteFile(items)), h, us)
  {
    SavedWithin(items, s.phase.copy);
    SavedFileLoads(items, s.phase.copy);
    RebasedLog(Base(s.disk), us, s.phase.copy, h);
  }

  lemma TruncateTracks(s: State, h: History, us: seq<Mutation>)
    requires Tracks(s, h, us) && Can(s, Truncate)
    ensures Tracks(Do(s, Truncate), Note(h, s, Truncate), [])
  {
    BaseUnlogged(s.disk, []);
    assert h.appends[|h.appends|..] == [];
  }

  lemma StartTracks(s: State, h: History, us: seq<Mutation>)
    requires Tracks(s, h, us) && Can(s, Start)
    ensures Tracks(Do(s, Start), Note(h, s, Start), us)
  {
    RecoveryIsFold(s.disk, us);
    ApplyAllWithinLimits(Base(s.disk), us);
  }

  lemma StepTracks(s: State, h: History, us: seq<Mutation>, e: Step) returns (us': seq<Mutation>)
    requires Tracks(s, h, us) && Can(s, e)
    ensures Tracks(Do(s, e), Note(h, s, e), us')
  {
    us' := us;
    match e
    case Start => StartTracks(s, h, us);
    case Mutate(t, u) =>
      if Effective(s.live, u) {
        MutateTracks(s, h, us, t, u);
      }
    case Append(t) =>
      AppendTracks(s, h, us, t);
      us' := us + [s.pending[t]];
    case Copy => CopyTracks(s, h, us);
    case WriteFile(items) => WriteFileTracks(s, h, us, items);
    case Truncate =>
      TruncateTracks(s, h, us);
      us' := [];
    case Crash =>
  }

  lemma {:induction false} ExecutionTracks(s: State, h: History, us: seq<Mutation>, es: seq<Step>)
    returns (us': seq<Mutation>)
    requires Tracks(s, h, us) && Executes(s, es)
    ensures Tracks(After(s, es), HistoryOf(h, s, es), us')
    decreases |es|
  {
    us' := us;
    if es != [] {
      var mid := StepTracks(s, h, us, es[0]);
      us' := ExecutionTracks(Do(s, es[0]), Note(h, s, es[0]), mid, es[1..]);
    }
  }

  const NOTHING: History := History(map[], [], [], 0, 0)

  /** What happened since the last start of a run from an empty disk. */
  ghost function Since(es: seq<Step>): History {
    HistoryOf(NOTHING, FRESH, es)
  }

  lemma TrackedFromFresh(es: seq<Step>) returns (us: seq<Mutation>)
    requires Executes(FRESH, es)
    ensures Tracks(After(FRESH, es), Since(es), us)
  {
    assert Tracks(FRESH, NOTHING, []);
    us := ExecutionTracks(FRESH, NOTHING, [], es);
  }

  /** Key `k` gets its last write back from `kept`, or from the base if `kept` does not mention it. */
  predicate Rebuilds(base: Map, kept: seq<Mutation>, writes: seq<Mutation>, k: Key) {
    if Mentions(kept, k) then LastWrite(kept, k) == LastWrite(writes, k)
    else Mentions(writes, k) ==> LastWrite(writes, k) == Lookup(base, k)
  }

  lemma RebuildsKey(base: Map, kept: seq<Mutation>, writes: seq<Mutation>, k: Key)
    requires Mentions(kept, k) ==> Mentions(writes, k)
    ensures Lookup(ApplyAll(base, kept), k) == Lookup(ApplyAll(base, writes), k) <==> Rebuilds(base, kept, writes, k)
  {
    LastWriterWins(base, kept, k);
    LastWriterWins(base, writes, k);
  }

  lemma MentionsAppend(us: seq<Mutation>, vs: seq<Mutation>, k: Key)
    ensures Mentions(us + vs, k) ==> Mentions(us, k) || Mentions(vs, k)
  {
    if Mentions(us + vs, k) {
      var i :| 0 <= i < |us + vs| && (us + vs)[i].key == k && Accepted((us + vs)[i]);
      if i < |us| {
        assert us[i] == (us + vs)[i];
      } else {
        assert vs[i - |us|] == (us + vs)[i];
      }
    }
  }

  lemma MentionsSuffix(us: seq<Mutation>, n: nat, k: Key)
    requires n <= |us| && Mentions(us[n..], k)
    ensures Mentions(us, k)
  {
    var i :| 0 <= i < |us| - n && us[n..][i].key == k && Accepted(us[n..][i]);
    assert us[n + i] == us[n..][i];
  }

  /** Nothing is kept that was not written. */
  lemma KeptWasWritten(phase: Phase, h: History, k: Key)
    requires h.copied <= |h.writes| && h.dropped <= |h.appends|
    requires Mentions(h.appends, k) ==> Mentions(h.writes, k)
    ensures Mentions(Kept(phase, h), k) ==> Mentions(h.writes, k)
  {
    if phase.Truncated? && Mentions(Kept(phase, h), k) {
      MentionsAppend(CopiedWrites(h), h.appends[h.dropped..], k);
      if Mentions(CopiedWrites(h), k) {
        MentionsPrefix(h.writes, h.copied, k);
      } else {
        MentionsSuffix(h.appends, h.dropped, k);
      }
    }
  }

  /** On a key with nothing in flight, recovery is what was kept, over the store of the last start. */
  lemma RecoversKept(s: State, h: History, us: seq<Mutation>, k: Key)
    requires Tracks(s, h, us) && s.Up? && !PendingOn(s.pending, k) && FileFits(s.phase)
    ensures Lookup(Recovery(s.disk).store, k) == Lookup(ApplyAll(h.base, Kept(s.phase, h)), k)
  {
    RecoveryIsFold(s.disk, us);
    if s.phase.Truncated? {
      ApplyAllAppend(h.base, CopiedWrites(h), h.appends[h.dropped..]);
    }
  }

  lemma RecoversKey(s: State, h: History, us: seq<Mutation>, k: Key)
    requires Tracks(s, h, us) && s.Up? && !PendingOn(s.pending, k) && FileFits(s.phase)
    ensures Lookup(Recovery(s.disk).store, k) == Lookup(s.live, k) <==>
            Rebuilds(h.base, Kept(s.phase, h), h.writes, k)
  {
    RecoversKept(s, h, us, k);
    KeptWasWritten(s.phase, h, k);
    RebuildsKey(h.base, Kept(s.phase, h), h.writes, k);
  }

  /**
   Any run at all, whichever handlers overlapped each other or the shutdown and however their appends
   crossed: a key with no handler in flight is recovered right exactly if what was kept ends with its last
   store write, or keeps nothing of it and the last start already had that value.
   */
  lemma RecoversExactly(es: seq<Step>)
    requires Executes(FRESH, es) && After(FRESH, es).Up? && FileFits(After(FRESH, es).phase)
    ensures Since(es).copied <= |Since(es).writes| && Since(es).dropped <= |Since(es).appends|
    ensures var s, h := After(FRESH, es), Since(es);
            && (forall k :: !PendingOn(s.pending, k) ==>
                  (Lookup(Recovery(s.disk).store, k) == Lookup(s.live, k) <==>
                   Rebuilds(h.base, Kept(s.phase, h), h.writes, k)))
            && (s.pending == map[] ==>
                  (Recovery(s.disk).store == s.live <==> forall k :: Rebuilds(h.base, Kept(s.phase, h), h.writes, k)))
  {
    var s, h := After(FRESH, es), Since(es);
    var us := TrackedFromFresh(es);
    forall k | !PendingOn(s.pending, k)
      ensures Lookup(Recovery(s.disk).store, k) == Lookup(s.live, k) <==>
              Rebuilds(h.base, Kept(s.phase, h), h.writes, k)
    {
      RecoversKey(s, h, us, k);
    }
    if s.pending == map[] {
      assert forall k :: !PendingOn(s.pending, k);
      if forall k :: Rebuilds(h.base, Kept(s.phase, h), h.writes, k) {
        SameLookups(Recovery(s.disk).store, s.live);
      }
    }
  }

  /** While the log has not been truncated, that is: its last store write and its last append agree. */
  lemma RecoversUntruncated(es: seq<Step>, k: Key)
    requires Executes(FRESH, es) && After(FRESH, es).Up? && !PendingOn(After(FRESH, es).pending, k)
    requires !After(FRESH, es).phase.Truncated? && FileFits(After(FRESH, es).phase)
    ensures var s, h := After(FRESH, es), Since(es);
            Lookup(Recovery(s.disk).store, k) == Lookup(s.live, k) <==>
            LastWrite(h.writes, k) == LastWrite(h.appends, k)
  {
    var us := TrackedFromFresh(es);
    RecoversKey(After(FRESH, es), Since(es), us, k);
    LastOfNone(Since(es).writes, k);
    LastOfNone(Since(es).appends, k);
  }

  /** One more step of a run, and what it adds to the history. */
  lemma {:induction false} HistoryThen(h: History, s: State, es: seq<Step>, e: Step)
    requires Executes(s, es) && Can(After(s, es), e)
    ensures HistoryOf(h, s, es + [e]) == Note(HistoryOf(h, s, es), After(s, es), e)
    decreases |es|
  {
    if es == [] {
      assert ([] + [e])[1..] == [];
    } else {
      HistoryThen(Note(h, s, es[0]), Do(s, es[0]), es[1..], e);
      assert (es + [e])[1..] == es[1..] + [e];
    }
  }

  ghost predicate Leads(es: seq<Step>, s: State, h: History) {
    Executes(FRESH, es) && After(FRESH, es) == s && Since(es) == h
  }

  lemma LeadsOn(es: seq<Step>, s: State, h: History, e: Step)
    requires Leads(es, s, h) && Can(s, e)
    ensures Leads(es + [e], Do(s, e), Note(h, s, e))
  {
    ExecutesThen(FRESH, es, e);
    HistoryThen(NOTHING, FRESH, es, e);
  }

  /** A put served between the copy and the truncation: the copy does not have it and its entry is dropped. */
  lemma ServedInBetween(es: seq<Step>, s: State, h: History, u: Mutation, items: seq<Snapshot.Item>)
    returns (es': seq<Step>, h': History)
    requires Leads(es, s, h) && s.Up? && s.phase.Serving? && s.pending == map[]
    requires Effective(s.live, u) && Snapshot.Enumerates(items, s.live)
    ensures Leads(es', Up(Disk([], Some(Snapshot.File(items))), Apply(s.live, u), map[], Truncated(s.live)), h')
    ensures h'.writes == h.writes + [u] && h'.appends == h.appends + [u]
  {
    var s1 := Do(s, Copy);
    var s2 := Do(s1, Mutate(0, u));
    assert s2.pending == map[0 := u] && s2.pending - {0} == map[];
    var s3 := Do(s2, Append(0));
    var s4 := Do(s3, WriteFile(items));
    var h1 := Note(h, s, Copy);
    var h2 := Note(h1, s1, Mutate(0, u));
    var h3 := Note(h2, s2, Append(0));
    LeadsOn(es, s, h, Copy);
    LeadsOn(es + [Copy], s1, h1, Mutate(0, u));
    LeadsOn(es + [Copy] + [Mutate(0, u)], s2, h2, Append(0));
    es' := es + [Copy] + [Mutate(0, u)] + [Append(0)];
    LeadsOn(es', s3, h3, WriteFile(items));
    LeadsOn(es' + [WriteFile(items)], s4, h3, Truncate);
    es', h' := es' + [WriteFile(items)] + [Truncate], Note(h3, s4, Truncate);
  }

  /** A run in which a clean shutdown loses a put that was stored, logged and acknowledged. */
  lemma OverlapExample(k: Key, v: Value) returns (es: seq<Step>)
    requires Accepted(Put(k, v))
    ensures Executes(FRESH, es) && After(FRESH, es).Up? && After(FRESH, es).phase.Truncated?
    ensures After(FRESH, es).pending == map[] && After(FRESH, es).live == map[k := v]
    ensures Recovery(After(FRESH, es).disk).store == map[]
    ensures Since(es).writes == Since(es).appends == [Put(k, v)]
  {
    var s := FirstStart();
    var h := Note(NOTHING, FRESH, Start);
    assert Leads([], FRESH, NOTHING);
    LeadsOn([], FRESH, NOTHING, Start);
    assert Snapshot.Enumerates([], map[]);
    es, h := ServedInBetween([] + [Start], s, h, Put(k, v), []);
    SavedFileLoads([], map[]);
  }

  // ---- Requests served one at a time ----

  ghost function Logged(s: State, u: Mutation): (r: State)
    requires s.Up? && s.pending == map[]
    ensures r.Up? && r.pending == map[]
  {
    if Effective(s.live, u) then Do(Do(s, Mutate(0, u)), Append(0)) else s
  }

  lemma LoggedState(s: State, u: Mutation)
    requires s.Up? && s.pending == map[]
    ensures Logged(s, u) ==
            if Effective(s.live, u)
            then s.(disk := s.disk.(wal := s.disk.wal + Wal.EntryOf(u)), live := Apply(s.live, u)) else s
  {
    if Effective(s.live, u) {
      var s1 := Do(s, Mutate(0, u));
      assert s1.pending == map[0 := u];
      assert s1.pending - {0} == map[];
    }
  }

  lemma LoggedReachable(s: State, u: Mutation)
    requires s.Up? && s.pending == map[] && Reachable(s)
    ensures Reachable(Logged(s, u))
  {
    if Effective(s.live, u) {
      ReachableStep(s, Mutate(0, u));
      ReachableStep(Do(s, Mutate(0, u)), Append(0));
    }
  }

  lemma LoggedSettled(s: State, u: Mutation)
    requires s.Up? && s.pending == map[] && Settled(s)
    ensures Settled(Logged(s, u))
  {
    if Effective(s.live, u) {
      SettledStep(s, Mutate(0, u));
      SettledStep(Do(s, Mutate(0, u)), Append(0));
    }
  }

  lemma SettledRecovers(s: State)
    requires Settled(s) && s.Up? && s.pending == map[]
    ensures Recovery(s.disk).store == s.live
  {
    var us :| Inv(s, us);
    RecoveryIsFold(s.disk, us);
    NothingPending(s.live, ApplyAll(Base(s.disk), us));
  }

  // ---- A shutdown that nothing interrupts ----

  ghost function ShutDown(s: State, items: seq<Snapshot.Item>): State
    requires s.Up? && s.phase.Serving? && Snapshot.Enumerates(items, s.live)
  {
    Do(Do(Do(s, Copy), WriteFile(items)), Truncate)
  }

  lemma ShutDownState(s: State, items: seq<Snapshot.Item>)
    requires s.Up? && s.phase.Serving? && Snapshot.Enumerates(items, s.live)
    ensures ShutDown(s, items) == Up(Disk([], Some(Snapshot.File(items))), s.live, s.pending, Truncated(s.live))
  {
  }

  lemma ShutDownReachable(s: State, items: seq<Snapshot.Item>)
    requires s.Up? && s.phase.Serving? && Snapshot.Enumerates(items, s.live) && Reachable(s)
    ensures Reachable(ShutDown(s, items))
  {
    ReachableStep(s, Copy);
    ReachableStep(Do(s, Copy), WriteFile(items));
    ReachableStep(Do(Do(s, Copy), WriteFile(items)), Truncate);
  }

  /**
   A mutation stored before the copy and logged after the truncation outlives the shutdown, whatever other
   handlers are in flight throughout.
   */
  lemma SpansShutdown(s: State, t: nat, u: Mutation, items: seq<Snapshot.Item>) returns (s': State)
    requires Reachable(s) && Settled(s) && s.Up? && s.phase.Serving?
    requires t !in s.pending && Effective(s.live, u) && !PendingOn(s.pending, u.key)
    requires Snapshot.Enumerates(items, Apply(s.live, u)) && |Apply(s.live, u)| < U32_RANGE
    ensures Reachable(s') && Settled(s')
    ensures s' == Up(Disk(Wal.EntryOf(u), Some(Snapshot.File(items))), Apply(s.live, u), s.pending,
                     Truncated(Apply(s.live, u)))
  {
    var s1 := StoredBeside(s, t, u);
    SettledShutDown(s1, items);
    ShutDownReachable(s1, items);
    ShutDownState(s1, items);
    s' := LoggedBeside(ShutDown(s1, items), s.pending, t, u);
  }

  lemma StoredBeside(s: State, t: nat, u: Mutation) returns (s1: State)
    requires Reachable(s) && Settled(s) && s.Up? && s.phase.Serving?
    requires t !in s.pending && Effective(s.live, u) && !PendingOn(s.pending, u.key)
    ensures Reachable(s1) && Settled(s1)
    ensures s1 == s.(live := Apply(s.live, u), pending := s.pending[t := u])
  {
    s1 := Do(s, Mutate(t, u));
    ReachableStep(s, Mutate(t, u));
    SettledStep(s, Mutate(t, u));
  }

  lemma LoggedBeside(s: State, pending: map<nat, Mutation>, t: nat, u: Mutation) returns (s': State)
    requires Reachable(s) && Settled(s) && s.Up? && s.disk.wal == []
    requires t !in pending && s.pending == pending[t := u]
    ensures Reachable(s') && Settled(s')
    ensures s' == s.(disk := s.disk.(wal := Wal.EntryOf(u)), pending := pending)
  {
    s' := Do(s, Append(t));
    ReachableStep(s, Append(t));
    SettledStep(s, Append(t));
    FirstEntry(s, pending, t, u);
  }

  lemma FirstEntry(s: State, pending: map<nat, Mutation>, t: nat, u: Mutation)
    requires s.Up? && s.disk.wal == [] && t !in pending && s.pending == pending[t := u]
    ensures Do(s, Append(t)) == s.(disk := s.disk.(wal := Wal.EntryOf(u)), pending := pending)
  {
    TakenOut(pending, t, u);
    Prepend(Wal.EntryOf(u));
  }

  lemma TakenOut(pending: map<nat, Mutation>, t: nat, u: Mutation)
    requires t !in pending
    ensures t in pending[t := u] && pending[t := u][t] == u && pending[t := u] - {t} == pending
  {
  }

  lemma Prepend(e: Bytes)
    ensures [] + e == e
  {
  }

  lemma SettledShutDown(s: State, items: seq<Snapshot.Item>)
    requires Settled(s) && s.Up? && s.phase.Serving? && Snapshot.Enumerates(items, s.live) && |s.live| < U32_RANGE
    ensures Settled(ShutDown(s, items))
  {
    SettledStep(s, Copy);
    SettledStep(Do(s, Copy), WriteFile(items));
    SettledStep(Do(Do(s, Copy), WriteFile(items)), Truncate);
  }
}
