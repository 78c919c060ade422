/**
 The thread pool as interleaved steps. A step is one access to shared state; the shutdown flag is set
 without the mutex, so it may change between any two steps of a thread that holds it.
 */
module ThreadPool {
  import opened Optional

  /** A task is named by the `submit` call that brought it. */
  type Task = nat

  datatype Worker =
    | Idle            // outside the critical section, or waiting
    | Locked          // holds the mutex, about to evaluate the wait predicate
    | Admitted        // the predicate held; still holds the mutex
    | Running(task: Task)
    | Exited

  datatype Submit = Holding | Checked | Accepted | Rejected

  /** `shutdown`: the caller that flips the flag joins every worker, any other returns at once. */
  datatype Stop = Joining(next: nat) | Returned(winner: bool)

  datatype Holder = ByWorker(worker: nat) | BySubmit(call: nat)

  /**
   `accepted`, `started` and `finished` record history; `fault` records a `front` or `pop` on an empty
   queue.
   */
  datatype Pool = Pool(
    lock: Option<Holder>,
    shutdown: bool,
    tasks: seq<Task>,
    workers: seq<Worker>,
    submits: map<nat, Submit>,
    stops: map<nat, Stop>,
    accepted: seq<Task>,
    started: seq<Task>,
    finished: seq<Task>,
    fault: bool)

  datatype Step =
    | SubmitLock(call: nat)
    | SubmitTest(call: nat)
    | SubmitPush(call: nat)
    | Shut(caller: nat)
    | Join(caller: nat)
    | WorkerLock(w: nat)
    | WorkerTest(w: nat)
    | WorkerTake(w: nat)
    | WorkerFinish(w: nat)

  function Fresh(n: nat): Pool {
    Pool(None, false, [], seq(n, _ => Idle), map[], map[], [], [], [], false)
  }

  predicate Can(p: Pool, e: Step) {
    match e
    case SubmitLock(c) => c !in p.submits && p.lock.None?
    case SubmitTest(c) => c in p.submits && p.submits[c].Holding?
    case SubmitPush(c) => c in p.submits && p.submits[c].Checked?
    case Shut(c) => c !in p.stops
    case Join(c) =>
      && c in p.stops && p.stops[c].Joining?
      && (p.stops[c].next < |p.workers| ==> p.workers[p.stops[c].next].Exited?)
    case WorkerLock(w) => w < |p.workers| && p.workers[w].Idle? && p.lock.None?
    case WorkerTest(w) => w < |p.workers| && p.workers[w].Locked?
    case WorkerTake(w) => w < |p.workers| && p.workers[w].Admitted?
    case WorkerFinish(w) => w < |p.workers| && p.workers[w].Running?
  }

  function Do(p: Pool, e: Step): Pool
    requires Can(p, e)
  {
    match e
    case SubmitLock(c) => p.(lock := Some(BySubmit(c)), submits := p.submits[c := Holding])
    case SubmitTest(c) =>
      if p.shutdown then p.(lock := None, submits := p.submits[c := Rejected])
      else p.(submits := p.submits[c := Checked])
    case SubmitPush(c) =>
      p.(lock := None, submits := p.submits[c := Accepted], tasks := p.tasks + [c], accepted := p.accepted + [c])
    case Shut(c) =>
      if p.shutdown then p.(stops := p.stops[c := Returned(false)])
      else p.(shutdown := true, stops := p.stops[c := Joining(0)])
    case Join(c) =>
      if p.stops[c].next < |p.workers| then p.(stops := p.stops[c := Joining(p.stops[c].next + 1)])
      else p.(stops := p.stops[c := Returned(true)])
    case WorkerLock(w) => p.(lock := Some(ByWorker(w)), workers := p.workers[w := Locked])
    case WorkerTest(w) =>
      if p.shutdown || p.tasks != [] then p.(workers := p.workers[w := Admitted])
      else p.(lock := None, workers := p.workers[w := Idle])
    case WorkerTake(w) =>
      if p.shutdown && p.tasks == [] then p.(lock := None, workers := p.workers[w := Exited])
      else if p.tasks == [] then p.(fault := true)
      else p.(lock := None, workers := p.workers[w := Running(p.tasks[0])],
              tasks := p.tasks[1..], started := p.started + [p.tasks[0]])
    case WorkerFinish(w) =>
      p.(workers := p.workers[w := Idle], finished := p.finished + [p.workers[w].task])
  }

  predicate Runs(p: Pool, es: seq<Step>)
    decreases |es|
  {
    es == [] || (Can(p, es[0]) && Runs(Do(p, es[0]), es[1..]))
  }

  function After(p: Pool, es: seq<Step>): Pool
    requires Runs(p, es)
    decreases |es|
  {
    if es == [] then p else After(Do(p, es[0]), es[1..])
  }

  // ---- The invariant ----

  function One(w: Worker): multiset<Task> {
    if w.Running? then multiset{w.task} else multiset{}
  }

  /** What the workers are running. */
  function InHand(ws: seq<Worker>): multiset<Task> {
    if ws == [] then multiset{} else One(ws[0]) + InHand(ws[1..])
  }

  predicate LockInv(p: Pool) {
    && (forall w :: 0 <= w < |p.workers| ==>
          (p.workers[w].Locked? || p.workers[w].Admitted? <==> p.lock == Some(ByWorker(w))))
    && (forall c :: c in p.submits ==>
          (p.submits[c].Holding? || p.submits[c].Checked? <==> p.lock == Some(BySubmit(c))))
    && (p.lock.Some? ==> match p.lock.value
                         case ByWorker(w) => w < |p.workers|
                         case BySubmit(c) => c in p.submits)
  }

  /** Accepted tasks are exactly the started ones, in order, followed by the queue. */
  predicate QueueInv(p: Pool) {
    p.accepted == p.started + p.tasks
  }

  predicate HandInv(p: Pool) {
    multiset(p.started) == multiset(p.finished) + InHand(p.workers)
  }

  predicate OnceInv(p: Pool) {
    && (forall i, j :: 0 <= i < j < |p.accepted| ==> p.accepted[i] != p.accepted[j])
    && (forall i :: 0 <= i < |p.accepted| ==> p.accepted[i] in p.submits && p.submits[p.accepted[i]].Accepted?)
  }

  predicate AnyExited(p: Pool) {
    exists w :: 0 <= w < |p.workers| && p.workers[w].Exited?
  }

  predicate AllExited(p: Pool) {
    forall w :: 0 <= w < |p.workers| ==> p.workers[w].Exited?
  }

  predicate Closed(p: Pool) {
    && p.shutdown && p.tasks == []
    && forall c :: c in p.submits ==> !p.submits[c].Checked?
  }

  predicate ExitInv(p: Pool) {
    && (AnyExited(p) ==> Closed(p))
    && (forall w :: 0 <= w < |p.workers| && p.workers[w].Admitted? ==> p.shutdown || p.tasks != [])
  }

  predicate JoinInv(p: Pool) {
    forall c :: c in p.stops ==>
      match p.stops[c]
      case Joining(next) => next <= |p.workers| && forall w :: 0 <= w < next ==> p.workers[w].Exited?
      case Returned(winner) => winner ==> AllExited(p)
  }

  predicate Inv(p: Pool) {
    !p.fault && LockInv(p) && QueueInv(p) && HandInv(p) && OnceInv(p) && ExitInv(p) && JoinInv(p)
  }

  lemma {:induction false} InHandFront(ws: seq<Worker>, t: Task)
    requires ws != []
    ensures InHand(ws)[t] == One(ws[0])[t] + InHand(ws[1..])[t]
  {
  }

  lemma {:induction false} InHandCount(ws: seq<Worker>, i: nat, w: Worker, t: Task)
    requires i < |ws|
    ensures InHand(ws[i := w])[t] + One(ws[i])[t] == InHand(ws)[t] + One(w)[t]
    decreases |ws|
  {
    InHandFront(ws, t);
    InHandFront(ws[i := w], t);
    if i == 0 {
      assert ws[i := w][1..] == ws[1..];
    } else {
      InHandCount(ws[1..], i - 1, w, t);
      assert ws[i := w][1..] == ws[1..][i - 1 := w];
    }
  }

  lemma InHandUpdate(ws: seq<Worker>, i: nat, w: Worker)
    requires i < |ws|
    ensures InHand(ws[i := w]) + One(ws[i]) == InHand(ws) + One(w)
  {
    forall t
      ensures (InHand(ws[i := w]) + One(ws[i]))[t] == (InHand(ws) + One(w))[t]
    {
      InHandCount(ws, i, w, t);
    }
  }

  lemma WorkersLockKeeps(p: Pool, e: Step)
    requires LockInv(p) && Can(p, e) && (e.WorkerLock? || e.WorkerTest? || e.WorkerTake? || e.WorkerFinish?)
    requires !(e.WorkerTake? && p.tasks == [] && !p.shutdown)
    ensures LockInv(Do(p, e))
  {
  }

  lemma SubmitsLockKeeps(p: Pool, e: Step)
    requires LockInv(p) && Can(p, e) && (e.SubmitLock? || e.SubmitTest? || e.SubmitPush?)
    ensures LockInv(Do(p, e))
  {
  }

  lemma LockKeeps(p: Pool, e: Step)
    requires Inv(p) && Can(p, e)
    ensures LockInv(Do(p, e))
  {
    if e.SubmitLock? || e.SubmitTest? || e.SubmitPush? {
      SubmitsLockKeeps(p, e);
    } else if !e.Shut? && !e.Join? {
      WorkersLockKeeps(p, e);
    }
  }

  /** A worker that was not running changes state: nothing in hand changes unless it starts a task. */
  lemma InHandStart(ws: seq<Worker>, i: nat, w: Worker)
    requires i < |ws| && !ws[i].Running?
    ensures InHand(ws[i := w]) == InHand(ws) + One(w)
  {
    InHandUpdate(ws, i, w);
    assert InHand(ws[i := w]) + multiset{} == InHand(ws[i := w]);
  }

  lemma InHandEnd(ws: seq<Worker>, i: nat, w: Worker)
    requires i < |ws| && !w.Running?
    ensures InHand(ws[i := w]) + One(ws[i]) == InHand(ws)
  {
    InHandUpdate(ws, i, w);
    assert InHand(ws) + multiset{} == InHand(ws);
  }

  lemma InHandSame(ws: seq<Worker>, i: nat, w: Worker)
    requires i < |ws| && !ws[i].Running? && !w.Running?
    ensures InHand(ws[i := w]) == InHand(ws)
  {
    InHandStart(ws, i, w);
    assert InHand(ws) + multiset{} == InHand(ws);
  }

  lemma HandTake(p: Pool, w: nat)
    requires HandInv(p) && Can(p, WorkerTake(w)) && p.tasks != []
    ensures HandInv(Do(p, WorkerTake(w)))
  {
    var t := p.tasks[0];
    InHandStart(p.workers, w, Running(t));
    assert multiset(p.started + [t]) == multiset(p.started) + multiset{t};
    var hand := InHand(p.workers);
    assert (multiset(p.finished) + hand) + multiset{t} == multiset(p.finished) + (hand + multiset{t});
  }

  lemma HandFinish(p: Pool, w: nat)
    requires HandInv(p) && Can(p, WorkerFinish(w))
    ensures HandInv(Do(p, WorkerFinish(w)))
  {
    var t := p.workers[w].task;
    InHandEnd(p.workers, w, Idle);
    var rest := InHand(p.workers[w := Idle]);
    assert multiset(p.finished + [t]) == multiset(p.finished) + multiset{t};
    assert multiset(p.finished) + (rest + multiset{t}) == (multiset(p.finished) + multiset{t}) + rest;
  }

  lemma HandKeeps(p: Pool, e: Step)
    requires HandInv(p) && Can(p, e)
    ensures HandInv(Do(p, e))
  {
    match e
    case WorkerLock(w) => InHandSame(p.workers, w, Locked);
    case WorkerTest(w) => InHandSame(p.workers, w, if p.shutdown || p.tasks != [] then Admitted else Idle);
    case WorkerTake(w) =>
      if p.tasks == [] {
        InHandSame(p.workers, w, Exited);
      } else {
        HandTake(p, w);
      }
    case WorkerFinish(w) => HandFinish(p, w);
    case _ =>
  }

  lemma QueueKeeps(p: Pool, e: Step)
    requires QueueInv(p) && Can(p, e)
    ensures QueueInv(Do(p, e))
  {
    if e.WorkerTake? && p.tasks != [] {
      assert p.tasks == [p.tasks[0]] + p.tasks[1..];
    }
  }

  lemma OnceKeeps(p: Pool, e: Step)
    requires Inv(p) && Can(p, e)
    ensures OnceInv(Do(p, e))
  {
  }

  lemma ExitKeeps(p: Pool, e: Step)
    requires Inv(p) && Can(p, e)
    ensures ExitInv(Do(p, e))
  {
  }

  lemma ExitedForGood(p: Pool, e: Step)
    requires Can(p, e)
    ensures |Do(p, e).workers| == |p.workers|
    ensures forall w :: 0 <= w < |p.workers| && p.workers[w].Exited? ==> Do(p, e).workers[w].Exited?
  {
  }

  lemma JoinKeeps(p: Pool, e: Step)
    requires JoinInv(p) && Can(p, e)
    ensures JoinInv(Do(p, e))
  {
    ExitedForGood(p, e);
  }

  lemma StepKeeps(p: Pool, e: Step)
    requires Inv(p) && Can(p, e)
    ensures Inv(Do(p, e))
  {
    LockKeeps(p, e);
    QueueKeeps(p, e);
    HandKeeps(p, e);
    OnceKeeps(p, e);
    ExitKeeps(p, e);
    JoinKeeps(p, e);
  }

  lemma {:induction false} NoneInHand(ws: seq<Worker>)
    requires forall w :: 0 <= w < |ws| ==> !ws[w].Running?
    ensures InHand(ws) == multiset{}
  {
    if ws != [] {
      NoneInHand(ws[1..]);
    }
  }

  lemma FreshInv(n: nat)
    ensures Inv(Fresh(n))
  {
    NoneInHand(Fresh(n).workers);
  }

  lemma {:induction false} RunKeeps(p: Pool, es: seq<Step>)
    requires Inv(p) && Runs(p, es)
    ensures Inv(After(p, es))
    decreases |es|
  {
    if es != [] {
      StepKeeps(p, es[0]);
      RunKeeps(Do(p, es[0]), es[1..]);
    }
  }

  // ---- What every interleaving guarantees ----

  /** Accepted tasks are queued, running or finished; they start in order, each at most once. */
  lemma TasksConserved(n: nat, es: seq<Step>)
    requires Runs(Fresh(n), es)
    ensures var p := After(Fresh(n), es);
            && multiset(p.accepted) == multiset(p.tasks) + InHand(p.workers) + multiset(p.finished)
            && p.started <= p.accepted
            && (forall i, j :: 0 <= i < j < |p.started| ==> p.started[i] != p.started[j])
            && (forall t :: multiset(p.finished)[t] <= multiset(p.accepted)[t] <= 1)
  {
    FreshInv(n);
    RunKeeps(Fresh(n), es);
    var p := After(Fresh(n), es);
    forall t
      ensures multiset(p.accepted)[t] <= 1
    {
      DistinctOnce(p.accepted, t);
    }
    forall i, j | 0 <= i < j < |p.started|
      ensures p.started[i] != p.started[j]
    {
      assert p.accepted[i] == p.started[i] && p.accepted[j] == p.started[j];
    }
  }

  lemma {:induction false} DistinctOnce(s: seq<Task>, t: Task)
    requires forall i, j :: 0 <= i < j < |s| ==> s[i] != s[j]
    ensures multiset(s)[t] <= 1
    decreases |s|
  {
    if s != [] {
      var init, last := s[..|s| - 1], s[|s| - 1];
      DistinctOnce(init, t);
      assert s == init + [last];
      assert last !in init;
    }
  }

  /** No worker ever calls `front` on an empty queue, though the flag may flip after its predicate held. */
  lemma NeverPopsEmpty(n: nat, es: seq<Step>)
    requires Runs(Fresh(n), es)
    ensures !After(Fresh(n), es).fault
  {
    FreshInv(n);
    RunKeeps(Fresh(n), es);
  }

  lemma ExitStays(p: Pool, e: Step)
    requires Inv(p) && AnyExited(p) && Can(p, e)
    ensures AnyExited(Do(p, e)) && Do(p, e).accepted == p.accepted
  {
    var w :| 0 <= w < |p.workers| && p.workers[w].Exited?;
    assert Do(p, e).workers[w].Exited?;
  }

  lemma {:induction false} ExitIsFinal(p: Pool, es: seq<Step>)
    requires Inv(p) && AnyExited(p) && Runs(p, es)
    ensures AnyExited(After(p, es)) && After(p, es).tasks == [] && After(p, es).accepted == p.accepted
    decreases |es|
  {
    if es != [] {
      StepKeeps(p, es[0]);
      ExitStays(p, es[0]);
      ExitIsFinal(Do(p, es[0]), es[1..]);
    }
  }

  /** Once any worker has exited, the queue is empty for ever and nothing more is accepted. */
  lemma EmptyAfterExit(n: nat, es: seq<Step>, more: seq<Step>)
    requires Runs(Fresh(n), es) && AnyExited(After(Fresh(n), es)) && Runs(After(Fresh(n), es), more)
    ensures var p := After(Fresh(n), es);
            After(p, more).tasks == [] && After(p, more).accepted == p.accepted
  {
    FreshInv(n);
    RunKeeps(Fresh(n), es);
    ExitIsFinal(After(Fresh(n), es), more);
  }

  /** When all of at least one worker have exited, every accepted task has run. */
  lemma AllRun(p: Pool)
    requires Inv(p) && AllExited(p) && |p.workers| >= 1
    ensures multiset(p.finished) == multiset(p.accepted)
  {
    assert p.workers[0].Exited?;
    NoneInHand(p.workers);
  }

  /** Some `shutdown` call joined every worker and returned. */
  predicate ShutdownDone(p: Pool) {
    exists c :: c in p.stops && p.stops[c] == Returned(true)
  }

  lemma {:induction false} WorkerCount(p: Pool, es: seq<Step>)
    requires Runs(p, es)
    ensures |After(p, es).workers| == |p.workers|
    decreases |es|
  {
    if es != [] {
      WorkerCount(Do(p, es[0]), es[1..]);
    }
  }

  /** A completed shutdown means that every accepted task has run, exactly when there is a worker. */
  lemma ShutdownDrains(n: nat)
    ensures (forall es :: Runs(Fresh(n), es) && ShutdownDone(After(Fresh(n), es)) ==>
                          multiset(After(Fresh(n), es).finished) == multiset(After(Fresh(n), es).accepted))
            <==> n >= 1
  {
    if n >= 1 {
      forall es | Runs(Fresh(n), es) && ShutdownDone(After(Fresh(n), es))
        ensures multiset(After(Fresh(n), es).finished) == multiset(After(Fresh(n), es).accepted)
      {
        FreshInv(n);
        RunKeeps(Fresh(n), es);
        WorkerCount(Fresh(n), es);
        AllRun(After(Fresh(n), es));
      }
    } else {
      var es := LostWithoutWorkers();
    }
  }

  lemma LostWithoutWorkers() returns (es: seq<Step>)
    ensures Runs(Fresh(0), es) && ShutdownDone(After(Fresh(0), es))
    ensures After(Fresh(0), es).accepted == [7] && After(Fresh(0), es).finished == []
  {
    es := [SubmitLock(7), SubmitTest(7), SubmitPush(7), Shut(0), Join(0)];
    var p1 := Do(Fresh(0), es[0]);
    var p2 := Do(p1, es[1]);
    var p3 := Do(p2, es[2]);
    var p4 := Do(p3, es[3]);
    var p5 := Do(p4, es[4]);
    assert p5.stops[0] == Returned(true);
    Unroll5(Fresh(0), es, p1, p2, p3, p4, p5);
  }

  /** Only the call that flipped the flag waits: another one can return with work still to do, for any `n`. */
  lemma LoserReturnsEarly(n: nat) returns (es: seq<Step>)
    ensures Runs(Fresh(n), es)
    ensures var p := After(Fresh(n), es);
            1 in p.stops && p.stops[1] == Returned(false) && p.accepted == [7] && p.finished == []
  {
    es := [SubmitLock(7), SubmitTest(7), SubmitPush(7), Shut(0), Shut(1)];
    var p1 := Do(Fresh(n), es[0]);
    var p2 := Do(p1, es[1]);
    var p3 := Do(p2, es[2]);
    var p4 := Do(p3, es[3]);
    Unroll5(Fresh(n), es, p1, p2, p3, p4, Do(p4, es[4]));
  }

  lemma Unroll5(p: Pool, es: seq<Step>, p1: Pool, p2: Pool, p3: Pool, p4: Pool, p5: Pool)
    requires |es| == 5
    requires Can(p, es[0]) && p1 == Do(p, es[0])
    requires Can(p1, es[1]) && p2 == Do(p1, es[1])
    requires Can(p2, es[2]) && p3 == Do(p2, es[2])
    requires Can(p3, es[3]) && p4 == Do(p3, es[3])
    requires Can(p4, es[4]) && p5 == Do(p4, es[4])
    ensures Runs(p, es) && After(p, es) == p5
  {
    var e1, e2, e3, e4 := es[1..], es[2..], es[3..], es[4..];
    assert e1[1..] == e2 && e2[1..] == e3 && e3[1..] == e4 && e4[1..] == [];
    assert Runs(p4, e4) && After(p4, e4) == p5;
    assert Runs(p3, e3) && After(p3, e3) == p5;
    assert Runs(p2, e2) && After(p2, e2) == p5;
    assert Runs(p1, e1) && After(p1, e1) == p5;
  }

  // ---- Which submits are accepted ----

  /** The calls that push a task, in order. */
  function Pushes(es: seq<Step>): seq<Task> {
    if es == [] then [] else (if es[0].SubmitPush? then [es[0].call] else []) + Pushes(es[1..])
  }

  lemma {:induction false} AcceptedFrom(p: Pool, es: seq<Step>)
    requires Runs(p, es)
    ensures After(p, es).accepted == p.accepted + Pushes(es)
    decreases |es|
  {
    if es != [] {
      AcceptedFrom(Do(p, es[0]), es[1..]);
    }
  }

  /** Tasks are accepted, hence started, in the order in which they were pushed. */
  lemma AcceptedInOrder(n: nat, es: seq<Step>)
    requires Runs(Fresh(n), es)
    ensures After(Fresh(n), es).accepted == Pushes(es) && After(Fresh(n), es).started <= Pushes(es)
  {
    AcceptedFrom(Fresh(n), es);
    TasksConserved(n, es);
  }

  /** Call `c` tests the flag at some step `i` that a `Shut` precedes. */
  predicate TestsAfterShut(es: seq<Step>, c: nat) {
    exists i, j :: 0 <= j < i < |es| && es[i] == SubmitTest(c) && es[j].Shut?
  }

  /** The same with the flag possibly set at the outset. */
  predicate TestsShut(es: seq<Step>, shut: bool, c: nat) {
    es != [] && ((es[0] == SubmitTest(c) && shut) || TestsShut(es[1..], shut || es[0].Shut?, c))
  }

  lemma {:induction false} TestsShutIs(es: seq<Step>, c: nat)
    ensures TestsShut(es, true, c) <==> SubmitTest(c) in es
    ensures TestsShut(es, false, c) <==> TestsAfterShut(es, c)
    decreases |es|
  {
    if es != [] {
      TestsShutIs(es[1..], c);
      assert es == [es[0]] + es[1..];
      ShutFirst(es, c);
    }
  }

  lemma ShutFirst(es: seq<Step>, c: nat)
    requires es != []
    ensures TestsAfterShut(es, c) <==> (es[0].Shut? && SubmitTest(c) in es[1..]) || TestsAfterShut(es[1..], c)
  {
    var rest := es[1..];
    if TestsAfterShut(es, c) {
      var i, j :| 0 <= j < i < |es| && es[i] == SubmitTest(c) && es[j].Shut?;
      assert rest[i - 1] == SubmitTest(c);
      if j > 0 {
        assert rest[j - 1].Shut?;
      }
    }
    if TestsAfterShut(rest, c) {
      var i, j :| 0 <= j < i < |rest| && rest[i] == SubmitTest(c) && rest[j].Shut?;
      assert es[i + 1] == SubmitTest(c) && es[j + 1].Shut?;
    }
    if es[0].Shut? && SubmitTest(c) in rest {
      var i :| 0 <= i < |rest| && rest[i] == SubmitTest(c);
      assert es[i + 1] == SubmitTest(c);
    }
  }

  predicate IsRejected(p: Pool, c: nat) {
    c in p.submits && p.submits[c].Rejected?
  }

  lemma RejectStep(p: Pool, e: Step, c: nat)
    requires Can(p, e)
    ensures IsRejected(Do(p, e), c) <==> IsRejected(p, c) || (e == SubmitTest(c) && p.shutdown)
    ensures Do(p, e).shutdown <==> p.shutdown || e.Shut?
  {
  }

  lemma {:induction false} RejectedFrom(p: Pool, es: seq<Step>, c: nat)
    requires Runs(p, es)
    ensures IsRejected(After(p, es), c) <==> IsRejected(p, c) || TestsShut(es, p.shutdown, c)
    decreases |es|
  {
    if es != [] {
      RejectStep(p, es[0], c);
      RejectedFrom(Do(p, es[0]), es[1..], c);
    }
  }

  /** A submit is turned away exactly if it tests the flag after some `shutdown` call has set it. */
  lemma RejectedExactly(n: nat, es: seq<Step>, c: nat)
    requires Runs(Fresh(n), es)
    ensures IsRejected(After(Fresh(n), es), c) <==> TestsAfterShut(es, c)
  {
    RejectedFrom(Fresh(n), es, c);
    TestsShutIs(es, c);
  }

  /** So without a `shutdown` call every submit that has returned was accepted. */
  lemma AcceptsAll(n: nat, es: seq<Step>, c: nat)
    requires Runs(Fresh(n), es) && forall i :: 0 <= i < |es| ==> !es[i].Shut?
    requires c in After(Fresh(n), es).submits && After(Fresh(n), es).lock != Some(BySubmit(c))
    ensures c in After(Fresh(n), es).accepted
  {
    FreshInv(n);
    RunKeeps(Fresh(n), es);
    RejectedExactly(n, es, c);
    AcceptedRecorded(Fresh(n), es, c);
  }

  lemma {:induction false} AcceptedRecorded(p: Pool, es: seq<Step>, c: nat)
    requires Runs(p, es) && (c in p.submits && p.submits[c].Accepted? ==> c in p.accepted)
    ensures c in After(p, es).submits && After(p, es).submits[c].Accepted? ==> c in After(p, es).accepted
    decreases |es|
  {
    if es != [] {
      AcceptedRecorded(Do(p, es[0]), es[1..], c);
    }
  }

  // ---- What a worker does with the queue ----

  /** The three steps of one pass of the worker loop, from the lock to running or exiting. */
  function Pass(w: nat): seq<Step> {
    [WorkerLock(w), WorkerTest(w), WorkerTake(w)]
  }

  lemma Unroll3(p: Pool, es: seq<Step>, p1: Pool, p2: Pool, p3: Pool)
    requires |es| == 3
    requires Can(p, es[0]) && p1 == Do(p, es[0])
    requires Can(p1, es[1]) && p2 == Do(p1, es[1])
    requires Can(p2, es[2]) && p3 == Do(p2, es[2])
    ensures Runs(p, es) && After(p, es) == p3
  {
    var e1, e2 := es[1..], es[2..];
    assert e1[1..] == e2 && e2[1..] == [];
    assert Runs(p2, e2) && After(p2, e2) == p3;
    assert Runs(p1, e1) && After(p1, e1) == p3;
  }

  /**
   An idle worker that gets the lock runs the oldest task if there is one, with or without a shutdown, and
   exits if there is none and the flag is set.
   */
  lemma PassRuns(p: Pool, w: nat)
    requires p.lock.None? && w < |p.workers| && p.workers[w].Idle? && (p.shutdown || p.tasks != [])
    ensures Runs(p, Pass(w))
    ensures var q := After(p, Pass(w));
            if p.tasks != [] then
              && q.workers == p.workers[w := Running(p.tasks[0])] && q.tasks == p.tasks[1..]
              && q.started == p.started + [p.tasks[0]] && q.lock.None?
            else q.workers == p.workers[w := Exited] && q.tasks == [] && q.lock.None?
  {
    var p1 := Do(p, WorkerLock(w));
    var p2 := Do(p1, WorkerTest(w));
    var p3 := Do(p2, WorkerTake(w));
    assert p3.workers == p.workers[w := p3.workers[w]];
    Unroll3(p, Pass(w), p1, p2, p3);
  }

  /** With nothing to do and no shutdown it goes back to waiting. */
  lemma PassWaits(p: Pool, w: nat)
    requires p.lock.None? && w < |p.workers| && p.workers[w].Idle? && !p.shutdown && p.tasks == []
    ensures Runs(p, [WorkerLock(w), WorkerTest(w)]) && After(p, [WorkerLock(w), WorkerTest(w)]) == p
  {
    var es := [WorkerLock(w), WorkerTest(w)];
    var p1 := Do(p, es[0]);
    assert p1.workers[w := Idle] == p.workers;
    var p2 := Do(p1, es[1]);
    assert p2 == p;
    RunsFrom(p1, es[1], []);
    RunsFrom(p, es[0], [es[1]] + []);
    assert [es[0]] + ([es[1]] + []) == es;
  }

  // ---- No state is a dead end ----

  function Weight(w: Worker): nat {
    match w
    case Idle => 3
    case Locked => 2
    case Admitted => 1
    case Running(_) => 4
    case Exited => 0
  }

  function Weights(ws: seq<Worker>): nat {
    if ws == [] then 0 else Weight(ws[0]) + Weights(ws[1..])
  }

  lemma {:induction false} WeightsUpdate(ws: seq<Worker>, i: nat, w: Worker)
    requires i < |ws|
    ensures Weights(ws[i := w]) + Weight(ws[i]) == Weights(ws) + Weight(w)
    decreases |ws|
  {
    if i == 0 {
      assert ws[i := w][1..] == ws[1..];
    } else {
      WeightsUpdate(ws[1..], i - 1, w);
      assert ws[i := w][1..] == ws[1..][i - 1 := w];
    }
  }

  function HeldWeight(p: Pool): nat {
    if p.lock.Some? && p.lock.value.BySubmit? && p.lock.value.call in p.submits then
      (match p.submits[p.lock.value.call]
       case Holding => 1
       case Checked => 5
       case _ => 0)
    else 0
  }

  /** What is left to do before all workers have exited. */
  function Left(p: Pool): nat {
    Weights(p.workers) + 4 * |p.tasks| + HeldWeight(p)
  }

  /** The next useful step of whoever holds the lock. */
  lemma HolderStep(p: Pool) returns (e: Step)
    requires Inv(p) && p.shutdown && p.lock.Some?
    ensures Can(p, e) && Left(Do(p, e)) < Left(p) && Do(p, e).stops == p.stops
  {
    match p.lock.value
    case ByWorker(w) =>
      if p.workers[w].Locked? {
        e := WorkerTest(w);
        WeightsUpdate(p.workers, w, Admitted);
      } else {
        e := WorkerTake(w);
        WeightsUpdate(p.workers, w, if p.tasks == [] then Exited else Running(p.tasks[0]));
      }
    case BySubmit(c) =>
      e := if p.submits[c].Holding? then SubmitTest(c) else SubmitPush(c);
  }

  lemma WorkerStep(p: Pool, w: nat) returns (e: Step)
    requires Inv(p) && p.shutdown && p.lock.None? && w < |p.workers| && !p.workers[w].Exited?
    ensures Can(p, e) && Left(Do(p, e)) < Left(p) && Do(p, e).stops == p.stops
  {
    if p.workers[w].Running? {
      e := WorkerFinish(w);
      WeightsUpdate(p.workers, w, Idle);
    } else {
      e := WorkerLock(w);
      WeightsUpdate(p.workers, w, Locked);
    }
  }

  lemma RunsFrom(p: Pool, e: Step, es: seq<Step>)
    requires Can(p, e) && Runs(Do(p, e), es)
    ensures Runs(p, [e] + es) && After(p, [e] + es) == After(Do(p, e), es)
  {
    assert ([e] + es)[1..] == es;
  }

  /** Once the flag is set, all workers can finish what there is and exit. */
  lemma {:induction false} CanExit(p: Pool) returns (es: seq<Step>)
    requires Inv(p) && p.shutdown
    ensures Runs(p, es) && Inv(After(p, es)) && AllExited(After(p, es)) && After(p, es).stops == p.stops
    ensures After(p, es).shutdown
    decreases Left(p)
  {
    es := [];
    if !AllExited(p) || p.lock.Some? {
      var e;
      if p.lock.Some? {
        e := HolderStep(p);
      } else {
        var w :| 0 <= w < |p.workers| && !p.workers[w].Exited?;
        e := WorkerStep(p, w);
      }
      StepKeeps(p, e);
      es := CanExit(Do(p, e));
      RunsFrom(p, e, es);
      es := [e] + es;
    }
  }

  /** And the call that set it can then join them all and return. */
  lemma {:induction false} CanJoin(p: Pool, c: nat) returns (es: seq<Step>)
    requires Inv(p) && AllExited(p) && c in p.stops && p.stops[c].Joining?
    ensures Runs(p, es) && c in After(p, es).stops && After(p, es).stops[c] == Returned(true)
    decreases |p.workers| - p.stops[c].next
  {
    var q := Do(p, Join(c));
    StepKeeps(p, Join(c));
    if p.stops[c].next < |p.workers| {
      es := CanJoin(q, c);
    } else {
      es := [];
    }
    RunsFrom(p, Join(c), es);
    es := [Join(c)] + es;
  }

  lemma {:induction false} RunsThen(p: Pool, es: seq<Step>, fs: seq<Step>)
    requires Runs(p, es) && Runs(After(p, es), fs)
    ensures Runs(p, es + fs) && After(p, es + fs) == After(After(p, es), fs)
    decreases |es|
  {
    if es == [] {
      assert es + fs == fs;
    } else {
      RunsThen(Do(p, es[0]), es[1..], fs);
      assert (es + fs)[1..] == es[1..] + fs;
    }
  }

  /**
   From every reachable state in which a `shutdown` call is joining, some continuation completes it. A
   waiting worker may take the lock at any time here, so this speaks of deadlock and not of wake-ups.
   */
  lemma ShutdownCanComplete(n: nat, es: seq<Step>, c: nat) returns (more: seq<Step>)
    requires Runs(Fresh(n), es)
    requires c in After(Fresh(n), es).stops && After(Fresh(n), es).stops[c].Joining?
    ensures Runs(After(Fresh(n), es), more)
    ensures var q := After(After(Fresh(n), es), more);
            AllExited(q) && c in q.stops && q.stops[c] == Returned(true)
  {
    FreshInv(n);
    RunKeeps(Fresh(n), es);
    JoiningMeansShut(Fresh(n), es, c);
    var p := After(Fresh(n), es);
    more := CanExit(p);
    var rest := CanJoin(After(p, more), c);
    RunsThen(p, more, rest);
    RunKeeps(After(p, more), rest);
    more := more + rest;
  }

  lemma {:induction false} JoiningMeansShut(p: Pool, es: seq<Step>, c: nat)
    requires Runs(p, es) && (c in p.stops ==> p.shutdown)
    ensures c in After(p, es).stops ==> After(p, es).shutdown
    decreases |es|
  {
    if es != [] {
      JoiningMeansShut(Do(p, es[0]), es[1..], c);
    }
  }
}
