/** The process-wide cooperative scheduler of the asynchronous runtime
    (src/Async/Async.cpp): a FIFO ready queue of suspended tasks, an idle
    trigger that drains the queue once per loop iteration, and the start-up
    and shutdown of the event loop.

    A task's `resume()` is an opaque step: `Resume` records that the task ran
    and lets it schedule the tasks `spawns(t)` in order, which is all the
    scheduler can observe of it. The libuv loop is reduced to whether it
    exists, the handles it owns (each with its "closing" flag) and a trace of
    the observable effects (resumes, destroys, trigger arming, close requests). */
module AsyncRuntime {

  type TaskId = nat
  type HandleId = nat

  /** The id of the `uv_idle_t` handle that carries the drain trigger. */
  const IdleHandle: HandleId := 0

  /** The pool size `run` uses when the hardware concurrency is unknown. */
  const DefaultPoolSize: nat := 8

  datatype Event =
    | LoopInit                         // uv_loop_init on the loop instance
    | IdleStarted                      // uv_idle_start: the drain trigger is armed
    | IdleStopped                      // uv_idle_stop: the drain trigger is disarmed
    | Resumed(task: TaskId)            // task->resume()
    | Destroyed(task: TaskId)          // task->destroy()
    | CloseRequested(handle: HandleId) // uv_close on an open handle

  datatype Handle = Handle(id: HandleId, closing: bool)

  /** The tasks scheduled, in order, by resuming each task of `batch` in turn. */
  function Spawned(batch: seq<TaskId>, spawns: TaskId -> seq<TaskId>): seq<TaskId> {
    if batch == [] then []
    else Spawned(batch[..|batch| - 1], spawns) + spawns(batch[|batch| - 1])
  }

  /** The trace of resuming `batch` front to back, each task once. */
  function ResumeEvents(batch: seq<TaskId>): seq<Event> {
    seq(|batch|, k requires 0 <= k < |batch| => Resumed(batch[k]))
  }

  /** The leftover tasks that shutdown resumes: the cancelled ones, in queue order. */
  function CancelledTasks(leftover: seq<TaskId>, cancelled: TaskId -> bool): (r: seq<TaskId>)
    ensures |r| <= |leftover|
    ensures forall t :: t in r <==> t in leftover && cancelled(t)
  {
    if leftover == [] then []
    else
      var init, last := leftover[..|leftover| - 1], leftover[|leftover| - 1];
      assert leftover == init + [last];
      CancelledTasks(init, cancelled) + (if cancelled(last) then [last] else [])
  }

  /** Each leftover task is resumed at most as often as it is queued. */
  lemma {:induction false} CancelledTasksSubMultiset(leftover: seq<TaskId>, cancelled: TaskId -> bool)
    ensures multiset(CancelledTasks(leftover, cancelled)) <= multiset(leftover)
    decreases |leftover|
  {
    if leftover != [] {
      var init, last := leftover[..|leftover| - 1], leftover[|leftover| - 1];
      assert leftover == init + [last];
      CancelledTasksSubMultiset(init, cancelled);
    }
  }

  /** What shutdown does with one leftover task. */
  function FinalizeEvent(t: TaskId, cancelled: TaskId -> bool): Event {
    if cancelled(t) then Resumed(t) else Destroyed(t)
  }

  /** The trace of shutdown finalisation over the leftover queue. */
  function FinalizeEvents(leftover: seq<TaskId>, cancelled: TaskId -> bool): seq<Event> {
    if leftover == [] then []
    else
      FinalizeEvents(leftover[..|leftover| - 1], cancelled)
        + [FinalizeEvent(leftover[|leftover| - 1], cancelled)]
  }

  /** The close requests `stop` issues: one per handle not already closing, in walk order. */
  function CloseEvents(handles: seq<Handle>): seq<Event> {
    if handles == [] then []
    else
      var last := handles[|handles| - 1];
      CloseEvents(handles[..|handles| - 1]) + (if last.closing then [] else [CloseRequested(last.id)])
  }

  /** The handles after `stop`: the same handles, every one closing. */
  function AllClosing(handles: seq<Handle>): seq<Handle> {
    seq(|handles|, k requires 0 <= k < |handles| => Handle(handles[k].id, true))
  }

  function Count(trace: seq<Event>, e: Event -> bool): nat {
    if trace == [] then 0
    else Count(trace[..|trace| - 1], e) + (if e(trace[|trace| - 1]) then 1 else 0)
  }

  /** The worker-pool size `run` configures: the hardware concurrency, or the
      default when the platform reports 0. */
  function PoolSize(hardwareConcurrency: nat): (n: nat)
    ensures n >= 1
    ensures hardwareConcurrency != 0 ==> n == hardwareConcurrency
    ensures hardwareConcurrency == 0 ==> n == DefaultPoolSize
  {
    if hardwareConcurrency == 0 then DefaultPoolSize else hardwareConcurrency
  }

  lemma {:induction false} SpawnedAppend(a: seq<TaskId>, b: seq<TaskId>, spawns: TaskId -> seq<TaskId>)
    ensures Spawned(a + b, spawns) == Spawned(a, spawns) + Spawned(b, spawns)
    decreases |b|
  {
    if b == [] {
      assert a + b == a;
    } else {
      assert (a + b)[..|a + b| - 1] == a + b[..|b| - 1];
      SpawnedAppend(a, b[..|b| - 1], spawns);
    }
  }

  /** One step of the finalisation loop, in terms of its specification. */
  lemma FinalizeStep(leftover: seq<TaskId>, i: nat, cancelled: TaskId -> bool, spawns: TaskId -> seq<TaskId>)
    requires i < |leftover|
    ensures CancelledTasks(leftover[..i + 1], cancelled)
            == CancelledTasks(leftover[..i], cancelled) + (if cancelled(leftover[i]) then [leftover[i]] else [])
    ensures Spawned(CancelledTasks(leftover[..i + 1], cancelled), spawns)
            == Spawned(CancelledTasks(leftover[..i], cancelled), spawns)
               + (if cancelled(leftover[i]) then spawns(leftover[i]) else [])
    ensures FinalizeEvents(leftover[..i + 1], cancelled)
            == FinalizeEvents(leftover[..i], cancelled) + [FinalizeEvent(leftover[i], cancelled)]
  {
    assert leftover[..i + 1][..i] == leftover[..i];
    var c := CancelledTasks(leftover[..i], cancelled);
    if cancelled(leftover[i]) {
      assert (c + [leftover[i]])[..|c|] == c;
      assert Spawned(c + [leftover[i]], spawns) == Spawned(c, spawns) + spawns(leftover[i]);
    } else {
      assert c + [] == c;
      assert Spawned(c, spawns) + [] == Spawned(c, spawns);
    }
  }

  /** The loop invariant of finalisation is kept by one more task. */
  lemma FinalizeAdvance(leftover: seq<TaskId>, i: nat, cancelled: TaskId -> bool, spawns: TaskId -> seq<TaskId>,
                        queue: seq<TaskId>, trace: seq<Event>, start: seq<Event>)
    requires i < |leftover|
    requires queue == leftover + Spawned(CancelledTasks(leftover[..i], cancelled), spawns)
    requires trace == start + FinalizeEvents(leftover[..i], cancelled)
    ensures queue + (if cancelled(leftover[i]) then spawns(leftover[i]) else [])
            == leftover + Spawned(CancelledTasks(leftover[..i + 1], cancelled), spawns)
    ensures trace + [FinalizeEvent(leftover[i], cancelled)] == start + FinalizeEvents(leftover[..i + 1], cancelled)
  {
    FinalizeStep(leftover, i, cancelled, spawns);
    AppendAfter(queue, leftover, Spawned(CancelledTasks(leftover[..i], cancelled), spawns),
                if cancelled(leftover[i]) then spawns(leftover[i]) else [],
                Spawned(CancelledTasks(leftover[..i + 1], cancelled), spawns));
    AppendAfter(trace, start, FinalizeEvents(leftover[..i], cancelled), [FinalizeEvent(leftover[i], cancelled)],
                FinalizeEvents(leftover[..i + 1], cancelled));
  }

  /** Extending a sequence that ends in `before` extends `before` itself. */
  lemma AppendAfter<T>(whole: seq<T>, front: seq<T>, before: seq<T>, extra: seq<T>, after: seq<T>)
    requires whole == front + before && after == before + extra
    ensures whole + extra == front + after
  {
  }

  /** Finalisation visits every leftover task once, in queue order: the
      cancelled ones are resumed, the others destroyed. */
  lemma {:induction false} FinalizeEventsAt(leftover: seq<TaskId>, cancelled: TaskId -> bool, k: nat)
    requires k < |leftover|
    ensures |FinalizeEvents(leftover, cancelled)| == |leftover|
    ensures FinalizeEvents(leftover, cancelled)[k] ==
            (if cancelled(leftover[k]) then Resumed(leftover[k]) else Destroyed(leftover[k]))
    decreases |leftover|
  {
    var init := leftover[..|leftover| - 1];
    if k < |init| {
      FinalizeEventsAt(init, cancelled, k);
    } else {
      FinalizeEventsLength(init, cancelled);
    }
  }

  lemma {:induction false} FinalizeEventsLength(leftover: seq<TaskId>, cancelled: TaskId -> bool)
    ensures |FinalizeEvents(leftover, cancelled)| == |leftover|
    decreases |leftover|
  {
    if leftover != [] {
      FinalizeEventsLength(leftover[..|leftover| - 1], cancelled);
    }
  }

  /** With N leftover tasks of which M are cancelled, shutdown performs exactly
      M resumes and N - M destroys. */
  lemma {:induction false} FinalizeTally(leftover: seq<TaskId>, cancelled: TaskId -> bool)
    ensures Count(FinalizeEvents(leftover, cancelled), (e: Event) => e.Resumed?) == |CancelledTasks(leftover, cancelled)|
    ensures Count(FinalizeEvents(leftover, cancelled), (e: Event) => e.Destroyed?)
            == |leftover| - |CancelledTasks(leftover, cancelled)|
    decreases |leftover|
  {
    if leftover != [] {
      var init := leftover[..|leftover| - 1];
      FinalizeTally(init, cancelled);
      var ev := FinalizeEvents(leftover, cancelled);
      assert ev[..|ev| - 1] == FinalizeEvents(init, cancelled);
    }
  }

  lemma {:induction false} NoLoopInitInFinalize(leftover: seq<TaskId>, cancelled: TaskId -> bool)
    ensures LoopInit !in FinalizeEvents(leftover, cancelled)
    decreases |leftover|
  {
    if leftover != [] {
      NoLoopInitInFinalize(leftover[..|leftover| - 1], cancelled);
    }
  }

  lemma {:induction false} NoLoopInitInClose(handles: seq<Handle>)
    ensures LoopInit !in CloseEvents(handles)
    decreases |handles|
  {
    if handles != [] {
      NoLoopInitInClose(handles[..|handles| - 1]);
    }
  }

  // ---------------------------------------------------------------------
  // The drive of the loop, as a function of the scheduler's state
  // ---------------------------------------------------------------------

  /** The scheduler's view of the loop during a drive: the queue, whether the
      trigger is armed, and the events so far. */
  datatype Sched = Sched(tasks: seq<TaskId>, armed: bool, events: seq<Event>)

  /** `schedule(t)` on that state. */
  function ScheduleStep(s: Sched, loopSet: bool, t: TaskId): Sched {
    Sched(s.tasks + [t],
          s.armed || (loopSet && s.tasks == []),
          s.events + (if loopSet && !s.armed && s.tasks == [] then [IdleStarted] else []))
  }

  /** Scheduling `ts` in order. */
  function ScheduleAll(s: Sched, loopSet: bool, ts: seq<TaskId>): Sched
    decreases |ts|
  {
    if ts == [] then s
    else ScheduleStep(ScheduleAll(s, loopSet, ts[..|ts| - 1]), loopSet, ts[|ts| - 1])
  }

  /** The idle phase of one loop iteration: when the trigger is armed, `each`
      runs once. */
  function IdleStep(s: Sched, spawns: TaskId -> seq<TaskId>): Sched {
    if !s.armed then s
    else
      Sched(Spawned(s.tasks, spawns), s.tasks != [],
            s.events + (if s.tasks == [] then [IdleStopped] else []) + ResumeEvents(s.tasks))
  }

  /** `uv_run` over the iterations `io`: in each, the idle phase, then the
      I/O callbacks scheduling `io[k]`. */
  function DriveFrom(s: Sched, loopSet: bool, io: seq<seq<TaskId>>, spawns: TaskId -> seq<TaskId>): Sched
    decreases |io|
  {
    if io == [] then s
    else ScheduleAll(IdleStep(DriveFrom(s, loopSet, io[..|io| - 1], spawns), spawns), loopSet, io[|io| - 1])
  }

  /** The tasks a trace resumes, in order. */
  function Resumes(events: seq<Event>): seq<TaskId> {
    if events == [] then []
    else
      var last := events[|events| - 1];
      Resumes(events[..|events| - 1]) + (if last.Resumed? then [last.task] else [])
  }

  /** All the tasks the I/O callbacks schedule, in order. */
  function Flatten(io: seq<seq<TaskId>>): seq<TaskId> {
    if io == [] then [] else Flatten(io[..|io| - 1]) + io[|io| - 1]
  }

  lemma {:induction false} ResumesAppend(a: seq<Event>, b: seq<Event>)
    ensures Resumes(a + b) == Resumes(a) + Resumes(b)
    decreases |b|
  {
    if b == [] {
      assert a + b == a;
    } else {
      assert (a + b)[..|a + b| - 1] == a + b[..|b| - 1];
      ResumesAppend(a, b[..|b| - 1]);
    }
  }

  lemma {:induction false} ResumesOfBatch(batch: seq<TaskId>)
    ensures Resumes(ResumeEvents(batch)) == batch
    decreases |batch|
  {
    if batch != [] {
      var init := batch[..|batch| - 1];
      assert ResumeEvents(batch)[..|batch| - 1] == ResumeEvents(init);
      ResumesOfBatch(init);
    }
  }

  /** Every task that was queued, scheduled by I/O or spawned by a resumed task
      is accounted for: resumed, or still queued. */
  ghost predicate Conserved(s: Sched, arrived: multiset<TaskId>, spawns: TaskId -> seq<TaskId>) {
    multiset(Resumes(s.events)) + multiset(s.tasks) == arrived + multiset(Spawned(Resumes(s.events), spawns))
  }

  /** An event that is not a resume contributes no resumed task. */
  lemma ResumesOfOther(events: seq<Event>, e: Event)
    requires !e.Resumed?
    ensures Resumes(events + [e]) == Resumes(events)
  {
    assert (events + [e])[..|events|] == events;
  }

  lemma ScheduleStepConserves(s: Sched, loopSet: bool, t: TaskId, arrived: multiset<TaskId>, spawns: TaskId -> seq<TaskId>)
    requires Conserved(s, arrived, spawns)
    ensures Conserved(ScheduleStep(s, loopSet, t), arrived + multiset{t}, spawns)
  {
    var r := ScheduleStep(s, loopSet, t);
    if loopSet && !s.armed && s.tasks == [] {
      ResumesOfOther(s.events, IdleStarted);
    } else {
      assert r.events == s.events;
    }
    var resumed, queued := multiset(Resumes(s.events)), multiset(s.tasks);
    var spawned := multiset(Spawned(Resumes(s.events), spawns));
    assert Resumes(r.events) == Resumes(s.events);
    assert multiset(r.tasks) == queued + multiset{t};
    assert resumed + (queued + multiset{t}) == (resumed + queued) + multiset{t};
    assert (arrived + spawned) + multiset{t} == (arrived + multiset{t}) + spawned;
  }

  lemma {:induction false} ScheduleAllConserves(s: Sched, loopSet: bool, ts: seq<TaskId>,
                                               arrived: multiset<TaskId>, spawns: TaskId -> seq<TaskId>)
    requires Conserved(s, arrived, spawns)
    ensures Conserved(ScheduleAll(s, loopSet, ts), arrived + multiset(ts), spawns)
    decreases |ts|
  {
    if ts == [] {
      assert arrived + multiset(ts) == arrived;
    } else {
      var init, last := ts[..|ts| - 1], ts[|ts| - 1];
      ScheduleAllConserves(s, loopSet, init, arrived, spawns);
      ScheduleStepConserves(ScheduleAll(s, loopSet, init), loopSet, last, arrived + multiset(init), spawns);
      assert ts == init + [last];
      assert arrived + multiset(ts) == arrived + multiset(init) + multiset{last};
    }
  }

  lemma IdleStepConserves(s: Sched, arrived: multiset<TaskId>, spawns: TaskId -> seq<TaskId>)
    requires Conserved(s, arrived, spawns)
    ensures Conserved(IdleStep(s, spawns), arrived, spawns)
  {
    if s.armed {
      var r := IdleStep(s, spawns);
      var before := Resumes(s.events);
      var stopped := s.events + (if s.tasks == [] then [IdleStopped] else []);
      if s.tasks == [] {
        ResumesOfOther(s.events, IdleStopped);
      } else {
        assert stopped == s.events;
      }
      assert Resumes(stopped) == before;
      ResumesAppend(stopped, ResumeEvents(s.tasks));
      ResumesOfBatch(s.tasks);
      assert Resumes(r.events) == before + s.tasks;
      SpawnedAppend(before, s.tasks, spawns);
      assert multiset(Resumes(r.events)) == multiset(before) + multiset(s.tasks);
      assert multiset(Spawned(Resumes(r.events), spawns))
             == multiset(Spawned(before, spawns)) + multiset(Spawned(s.tasks, spawns));
    }
  }

  lemma {:induction false} DriveFromConserves(s: Sched, loopSet: bool, io: seq<seq<TaskId>>,
                                             arrived: multiset<TaskId>, spawns: TaskId -> seq<TaskId>)
    requires Conserved(s, arrived, spawns)
    ensures Conserved(DriveFrom(s, loopSet, io, spawns), arrived + multiset(Flatten(io)), spawns)
    decreases |io|
  {
    if io == [] {
      assert multiset(Flatten(io)) == multiset{};
    } else {
      var init := io[..|io| - 1];
      DriveFromConserves(s, loopSet, init, arrived, spawns);
      var d := DriveFrom(s, loopSet, init, spawns);
      IdleStepConserves(d, arrived + multiset(Flatten(init)), spawns);
      ScheduleAllConserves(IdleStep(d, spawns), loopSet, io[|io| - 1], arrived + multiset(Flatten(init)), spawns);
    }
  }

  /** A drive loses no task: each task that was queued at its start, that the
      I/O callbacks scheduled, or that a task resumed during the drive spawned,
      has either been resumed or is still queued at its end. */
  lemma DriveConserves(tasks: seq<TaskId>, armed: bool, loopSet: bool, io: seq<seq<TaskId>>,
                       spawns: TaskId -> seq<TaskId>)
    ensures var r := DriveFrom(Sched(tasks, armed, []), loopSet, io, spawns);
            multiset(Resumes(r.events)) + multiset(r.tasks)
            == multiset(tasks) + multiset(Flatten(io)) + multiset(Spawned(Resumes(r.events), spawns))
  {
    DriveFromConserves(Sched(tasks, armed, []), loopSet, io, multiset(tasks), spawns);
  }

  /** The scheduler's state: the ready queue, the trigger flag, whether the
      loop exists, the loop's handles, and the observable trace. */
  class Runtime {
    var tasks: seq<TaskId>
    var idleRunning: bool
    var loopSet: bool
    var handles: seq<Handle>
    var trace: seq<Event>

    /** While a loop exists, a non-empty queue always has the trigger armed,
        so no scheduled task is forgotten. */
    ghost predicate Valid()
      reads this
    {
      loopSet && tasks != [] ==> idleRunning
    }

    /** Program start: no loop, an empty queue, the trigger not running. */
    constructor ()
      ensures Valid()
      ensures tasks == [] && !idleRunning && !loopSet && handles == [] && trace == []
    {
      tasks := [];
      idleRunning := false;
      loopSet := false;
      handles := [];
      trace := [];
    }

    /** `promise_base::schedule`: append the task; arm the trigger when a loop
        exists, the trigger is not running and the queue was empty. */
    method Schedule(t: TaskId)
      requires Valid()
      modifies this
      ensures Valid()
      ensures tasks == old(tasks) + [t]
      ensures idleRunning == (old(idleRunning) || (loopSet && old(tasks) == []))
      ensures trace == old(trace) + (if old(loopSet && !idleRunning && tasks == []) then [IdleStarted] else [])
      ensures loopSet == old(loopSet) && handles == old(handles)
    {
      if loopSet && !idleRunning && tasks == [] {
        idleRunning := true;
        trace := trace + [IdleStarted];
      }
      tasks := tasks + [t];
    }

    /** A task's `resume()`: the task runs and schedules `spawns(t)`, in order. */
    method Resume(t: TaskId, spawns: TaskId -> seq<TaskId>)
      requires Valid()
      modifies this
      ensures Valid()
      ensures tasks == old(tasks) + spawns(t)
      ensures idleRunning == (old(idleRunning) || (loopSet && old(tasks) == [] && spawns(t) != []))
      ensures trace == old(trace) + [Resumed(t)]
                       + (if old(loopSet && !idleRunning && tasks == []) && spawns(t) != [] then [IdleStarted] else [])
      ensures loopSet == old(loopSet) && handles == old(handles)
    {
      trace := trace + [Resumed(t)];
      var news := spawns(t);
      ghost var armed := loopSet && !idleRunning && tasks == [] && news != [];
      ghost var t0 := trace;
      var i := 0;
      while i < |news|
        invariant 0 <= i <= |news|
        invariant Valid()
        invariant tasks == old(tasks) + news[..i]
        invariant idleRunning == (old(idleRunning) || (loopSet && old(tasks) == [] && i > 0))
        invariant trace == t0 + (if armed && i > 0 then [IdleStarted] else [])
        invariant loopSet == old(loopSet) && handles == old(handles)
      {
        Schedule(news[i]);
        i := i + 1;
      }
      assert news[..i] == news;
    }

    /** `each`, the idle callback: disarm the trigger if it finds the queue
        empty; otherwise move the whole queue into a batch and resume it front
        to back. Tasks scheduled meanwhile land in the (new) queue and wait for
        a later callback. */
    method Each(spawns: TaskId -> seq<TaskId>)
      requires Valid()
      modifies this
      ensures Valid()
      ensures tasks == Spawned(old(tasks), spawns)
      ensures idleRunning == (old(idleRunning) && old(tasks) != [])
      ensures trace == old(trace)
                       + (if old(idleRunning) && old(tasks) == [] then [IdleStopped] else [])
                       + ResumeEvents(old(tasks))
      ensures loopSet == old(loopSet) && handles == old(handles)
    {
      if idleRunning && tasks == [] {
        idleRunning := false;
        trace := trace + [IdleStopped];
      }
      var all := tasks;
      tasks := [];
      ghost var t0 := trace;
      var i := 0;
      while i < |all|
        invariant 0 <= i <= |all|
        invariant Valid()
        invariant tasks == Spawned(all[..i], spawns)
        invariant trace == t0 + ResumeEvents(all[..i])
        invariant idleRunning == (old(idleRunning) && old(tasks) != [])
        invariant all != [] ==> (loopSet ==> idleRunning)
        invariant loopSet == old(loopSet) && handles == old(handles)
      {
        assert all[..i + 1][..i] == all[..i];
        Resume(all[i], spawns);
        assert ResumeEvents(all[..i + 1]) == ResumeEvents(all[..i]) + [Resumed(all[i])];
        i := i + 1;
      }
      assert all[..i] == all;
    }

    /** `init`: set up the loop instance with its idle handle and arm the
        trigger unconditionally. */
    method Init()
      requires Valid()
      modifies this
      ensures Valid()
      ensures loopSet && idleRunning
      ensures handles == [Handle(IdleHandle, false)]
      ensures tasks == old(tasks)
      ensures trace == old(trace) + [LoopInit, IdleStarted]
    {
      loopSet := true;
      handles := [Handle(IdleHandle, false)];
      trace := trace + [LoopInit];
      idleRunning := true;
      trace := trace + [IdleStarted];
    }

    /** A handle opened on the loop by code outside this model (a pipe, a
        timer, a TCP socket): libuv appends it to the loop's handle queue. */
    method Register(h: HandleId)
      requires loopSet
      modifies this
      ensures handles == old(handles) + [Handle(h, false)]
      ensures tasks == old(tasks) && idleRunning == old(idleRunning)
      ensures loopSet == old(loopSet) && trace == old(trace)
    {
      handles := handles + [Handle(h, false)];
    }

    /** `stop`: walk the loop's handles and request closure of each one not
        already closing. */
    method Stop()
      requires loopSet
      modifies this
      ensures handles == AllClosing(old(handles))
      ensures trace == old(trace) + CloseEvents(old(handles))
      ensures tasks == old(tasks) && idleRunning == old(idleRunning) && loopSet == old(loopSet)
    {
      ghost var hs := handles;
      ghost var t0 := trace;
      var i := 0;
      while i < |handles|
        invariant 0 <= i <= |handles| == |hs|
        invariant forall k :: 0 <= k < i ==> handles[k] == Handle(hs[k].id, true)
        invariant forall k :: i <= k < |hs| ==> handles[k] == hs[k]
        invariant trace == t0 + CloseEvents(hs[..i])
        invariant tasks == old(tasks) && idleRunning == old(idleRunning) && loopSet == old(loopSet)
      {
        assert hs[..i + 1][..i] == hs[..i];
        if !handles[i].closing {
          trace := trace + [CloseRequested(handles[i].id)];
        }
        handles := handles[i := Handle(handles[i].id, true)];
        i := i + 1;
      }
      assert hs[..i] == hs;
    }

    /** The shutdown loop of `run` over the leftover queue: a cancelled task is
        resumed once (and may still schedule), any other task is destroyed.
        It iterates over a snapshot of the queue: the source walks the live
        deque, which a resumed task's `schedule` would invalidate. The queue is
        not emptied afterwards. */
    method Finalize(cancelled: TaskId -> bool, spawns: TaskId -> seq<TaskId>)
      requires Valid()
      modifies this
      ensures Valid()
      ensures tasks == old(tasks) + Spawned(CancelledTasks(old(tasks), cancelled), spawns)
      ensures trace == old(trace) + FinalizeEvents(old(tasks), cancelled)
      ensures idleRunning == old(idleRunning) && loopSet == old(loopSet) && handles == old(handles)
    {
      var leftover := tasks;
      ghost var t0 := trace;
      var i := 0;
      while i < |leftover|
        invariant 0 <= i <= |leftover|
        invariant Valid()
        invariant tasks == leftover + Spawned(CancelledTasks(leftover[..i], cancelled), spawns)
        invariant trace == t0 + FinalizeEvents(leftover[..i], cancelled)
        invariant idleRunning == old(idleRunning) && loopSet == old(loopSet) && handles == old(handles)
      {
        ghost var q, tr := tasks, trace;
        FinalizeOne(leftover[i], cancelled, spawns);
        FinalizeAdvance(leftover, i, cancelled, spawns, q, tr, t0);
        i := i + 1;
      }
      assert leftover[..i] == leftover;
    }

    /** The body of the shutdown loop for one leftover task `t`, while the
        queue is not empty. */
    method FinalizeOne(t: TaskId, cancelled: TaskId -> bool, spawns: TaskId -> seq<TaskId>)
      requires Valid() && tasks != []
      modifies this
      ensures Valid()
      ensures tasks == old(tasks) + (if cancelled(t) then spawns(t) else [])
      ensures trace == old(trace) + [FinalizeEvent(t, cancelled)]
      ensures idleRunning == old(idleRunning) && loopSet == old(loopSet) && handles == old(handles)
    {
      if cancelled(t) {
        Resume(t, spawns);
      } else {
        trace := trace + [Destroyed(t)];
      }
    }

    /** `uv_run` in its default mode, reduced to the scheduler's view: one
        loop iteration per element of `io`; in each, the idle callback drains
        the queue if the trigger is armed, then the I/O callbacks of that
        iteration schedule `io[k]`. */
    method Drive(io: seq<seq<TaskId>>, spawns: TaskId -> seq<TaskId>) returns (ghost events: seq<Event>)
      requires Valid()
      modifies this
      ensures Valid()
      ensures loopSet == old(loopSet) && handles == old(handles)
      ensures Sched(tasks, idleRunning, events) == DriveFrom(Sched(old(tasks), old(idleRunning), []), loopSet, io, spawns)
      ensures trace == old(trace) + events && LoopInit !in events
    {
      events := [];
      ghost var s0 := Sched(tasks, idleRunning, []);
      var k := 0;
      while k < |io|
        invariant 0 <= k <= |io|
        invariant Valid()
        invariant loopSet == old(loopSet) && handles == old(handles)
        invariant Sched(tasks, idleRunning, events) == DriveFrom(s0, loopSet, io[..k], spawns)
        invariant trace == old(trace) + events && LoopInit !in events
      {
        assert io[..k + 1][..k] == io[..k];
        events := IdlePhase(spawns, old(trace), events);
        events := ScheduleBatch(io[k], old(trace), events);
        k := k + 1;
      }
      assert io[..k] == io;
    }

    /** The idle phase of one drive iteration: the idle callback runs when
        the trigger is armed. */
    method IdlePhase(spawns: TaskId -> seq<TaskId>, ghost start: seq<Event>, ghost events0: seq<Event>)
      returns (ghost events: seq<Event>)
      requires Valid()
      requires trace == start + events0 && LoopInit !in events0
      modifies this
      ensures Valid()
      ensures loopSet == old(loopSet) && handles == old(handles)
      ensures Sched(tasks, idleRunning, events) == IdleStep(Sched(old(tasks), old(idleRunning), events0), spawns)
      ensures trace == start + events && LoopInit !in events
    {
      if !idleRunning {
        return events0;
      }
      Each(spawns);
      ghost var added := (if old(tasks) == [] then [IdleStopped] else []) + ResumeEvents(old(tasks));
      assert trace == old(trace) + added;
      events := events0 + added;
      assert LoopInit !in added;
    }

    /** The I/O callbacks of one drive iteration: `schedule` each of `ts`. */
    method ScheduleBatch(ts: seq<TaskId>, ghost start: seq<Event>, ghost events0: seq<Event>)
      returns (ghost events: seq<Event>)
      requires Valid()
      requires trace == start + events0 && LoopInit !in events0
      modifies this
      ensures Valid()
      ensures loopSet == old(loopSet) && handles == old(handles)
      ensures Sched(tasks, idleRunning, events) == ScheduleAll(Sched(old(tasks), old(idleRunning), events0), loopSet, ts)
      ensures trace == start + events && LoopInit !in events
    {
      events := events0;
      ghost var s0 := Sched(tasks, idleRunning, events0);
      var j := 0;
      while j < |ts|
        invariant 0 <= j <= |ts|
        invariant Valid()
        invariant loopSet == old(loopSet) && handles == old(handles)
        invariant Sched(tasks, idleRunning, events) == ScheduleAll(s0, loopSet, ts[..j])
        invariant trace == start + events && LoopInit !in events
      {
        assert ts[..j + 1][..j] == ts[..j];
        ghost var added := if loopSet && !idleRunning && tasks == [] then [IdleStarted] else [];
        Schedule(ts[j]);
        events := events + added;
        j := j + 1;
      }
      assert ts[..j] == ts;
    }

    /** The end of `run` once the loop has drained: `stop`, a second drive that
        completes the closes (every handle is closing, so the loop's handle
        queue empties and `uv_loop_close` succeeds), finalisation of the
        leftover tasks, and forgetting the loop. */
    method Teardown(cancelled: TaskId -> bool, spawns: TaskId -> seq<TaskId>)
      requires Valid() && loopSet
      modifies this
      ensures Valid()
      ensures !loopSet && handles == []
      ensures tasks == old(tasks) + Spawned(CancelledTasks(old(tasks), cancelled), spawns)
      ensures trace == old(trace) + CloseEvents(old(handles)) + FinalizeEvents(old(tasks), cancelled)
      ensures idleRunning == old(idleRunning)
    {
      Stop();
      handles := [];
      Finalize(cancelled, spawns);
      loopSet := false;
    }

    /** `run`: start the loop if there is none, size the worker pool, drive
        the loop, then tear it down. The ghost results name the phases of the
        trace: start-up, the drive, and the handles and tasks left at its end. */
    method Run(hardwareConcurrency: nat, io: seq<seq<TaskId>>,
               spawns: TaskId -> seq<TaskId>, cancelled: TaskId -> bool)
      returns (poolSize: nat, ghost startup: seq<Event>, ghost drive: seq<Event>,
               ghost open: seq<Handle>, ghost leftover: seq<TaskId>)
      requires Valid()
      modifies this
      ensures Valid()
      ensures poolSize == PoolSize(hardwareConcurrency)
      ensures startup == if old(loopSet) then [] else [LoopInit, IdleStarted]
      ensures var d := DriveFrom(Sched(old(tasks), old(idleRunning) || !old(loopSet), []), true, io, spawns);
              drive == d.events && leftover == d.tasks
      ensures LoopInit !in drive
      ensures open == if old(loopSet) then old(handles) else [Handle(IdleHandle, false)]
      ensures trace == old(trace) + startup + drive + CloseEvents(open) + FinalizeEvents(leftover, cancelled)
      ensures !loopSet && handles == []
      ensures tasks == leftover + Spawned(CancelledTasks(leftover, cancelled), spawns)
    {
      startup := if loopSet then [] else [LoopInit, IdleStarted];
      if !loopSet {
        Init();
      }
      poolSize := PoolSize(hardwareConcurrency);
      drive := Drive(io, spawns);
      open := handles;
      leftover := tasks;
      Teardown(cancelled, spawns);
    }
  }

  /** One idle callback on a non-empty queue, observed from outside: the
      events it logs are exactly the resumes of the queued batch. */
  method Drain(rt: Runtime, spawns: TaskId -> seq<TaskId>) returns (drained: seq<Event>)
    requires rt.Valid() && rt.tasks != []
    modifies rt
    ensures rt.Valid()
    ensures drained == ResumeEvents(old(rt.tasks))
    ensures rt.tasks == Spawned(old(rt.tasks), spawns)
    ensures rt.idleRunning == old(rt.idleRunning)
  {
    var n := |rt.trace|;
    rt.Each(spawns);
    drained := rt.trace[n..];
  }

  /** The scenario's resume step: task 1 schedules task 4, the others nothing. */
  function DeferralSpawns(t: TaskId): seq<TaskId> {
    if t == 1 then [4] else []
  }

  lemma DeferralBatch()
    ensures Spawned([1, 2, 3], DeferralSpawns) == [4]
  {
    assert [1, 2, 3][..2] == [1, 2];
    assert [1, 2][..1] == [1];
    assert [1][..0] == [];
  }

  /** The deferral scenario: schedule A, B and C; resuming A schedules D. The
      first drain resumes A, B, C in that order; D runs only in the next one. */
  method DeferralScenario() returns (firstDrain: seq<Event>, secondDrain: seq<Event>)
    ensures firstDrain == [Resumed(1), Resumed(2), Resumed(3)]
    ensures secondDrain == [Resumed(4)]
  {
    var rt := new Runtime();
    rt.Init();
    rt.Schedule(1);
    rt.Schedule(2);
    rt.Schedule(3);
    assert rt.tasks == [1, 2, 3];
    firstDrain := Drain(rt, DeferralSpawns);
    DeferralBatch();
    secondDrain := Drain(rt, DeferralSpawns);
  }
}
