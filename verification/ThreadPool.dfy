/**
 The thread pool of core/common/threadpool.h as a protocol of atomic steps.  A worker's critical
 section (lock, test the wait condition, then block, take a task or return) is one step, since
 `condition_variable::wait` releases the lock and blocks atomically; a notification comes after the
 lock is released and is a step of its own.  Tasks are numbered in the order they are accepted.
 */
module ThreadPool {
  import opened Assignment

  datatype Worker =
    | Ready               // about to take the lock, for the first time or after a wake-up
    | Waiting             // blocked on the condition variable
    | Running(task: nat)
    | Exited

  datatype Destructor =
    | NotCalled
    | MustNotify          // _stop is set, notify_all still to come
    | Joining(joined: nat)

  datatype Pool = Pool(
    workers: seq<Worker>,
    tasks: seq<nat>,      // _tasks
    stop: bool,           // _stop
    accepted: nat,        // tasks that enqueue has accepted
    pending: nat,         // accepted tasks whose notify_one is still to come
    destructor: Destructor,
    started: seq<nat>,    // the worker that took task 0, 1, 2, ...
    done: set<nat>)       // the tasks that have run to completion

  datatype Step =
    | Enqueue
    | NotifyNobody
    | NotifyOne(w: nat)
    | Check(w: nat)
    | Spurious(w: nat)
    | Finish(w: nat)
    | Stop
    | NotifyAll
    | Join

  function Start(n: nat): Pool {
    Pool(seq(n, _ => Ready), [], false, 0, 0, NotCalled, [], {})
  }

  ghost predicate IsWaiting(s: Pool, w: nat) {
    w < |s.workers| && s.workers[w].Waiting?
  }

  ghost predicate NobodyWaits(s: Pool) {
    forall w | 0 <= w < |s.workers| :: !s.workers[w].Waiting?
  }

  ghost predicate Enabled(s: Pool, step: Step) {
    match step
    case Enqueue => !s.stop
    case NotifyNobody => s.pending > 0 && NobodyWaits(s)
    case NotifyOne(w) => s.pending > 0 && IsWaiting(s, w)
    case Check(w) => w < |s.workers| && s.workers[w].Ready?
    case Spurious(w) => IsWaiting(s, w)
    case Finish(w) => w < |s.workers| && s.workers[w].Running?
    case Stop => s.destructor.NotCalled?
    case NotifyAll => s.destructor.MustNotify?
    case Join => s.destructor.Joining? && s.destructor.joined < |s.workers| && s.workers[s.destructor.joined].Exited?
  }

  function Woken(ws: seq<Worker>): (r: seq<Worker>)
    ensures |r| == |ws| && forall w | 0 <= w < |ws| :: r[w] == if ws[w].Waiting? then Ready else ws[w]
  {
    seq(|ws|, w requires 0 <= w < |ws| => if ws[w].Waiting? then Ready else ws[w])
  }

  /** The critical section of a worker. */
  function AfterCheck(s: Pool, w: nat): Pool
    requires w < |s.workers|
  {
    if !s.stop && s.tasks == [] then
      s.(workers := s.workers[w := Waiting])
    else if s.tasks == [] then
      s.(workers := s.workers[w := Exited])
    else
      s.(workers := s.workers[w := Running(s.tasks[0])], tasks := s.tasks[1..], started := s.started + [w])
  }

  ghost function Apply(s: Pool, step: Step): Pool
    requires Enabled(s, step)
  {
    match step
    case Enqueue => s.(tasks := s.tasks + [s.accepted], accepted := s.accepted + 1, pending := s.pending + 1)
    case NotifyNobody => s.(pending := s.pending - 1)
    case NotifyOne(w) => s.(pending := s.pending - 1, workers := s.workers[w := Ready])
    case Check(w) => AfterCheck(s, w)
    case Spurious(w) => s.(workers := s.workers[w := Ready])
    case Finish(w) => s.(workers := s.workers[w := Ready], done := s.done + {s.workers[w].task})
    case Stop => s.(stop := true, destructor := MustNotify)
    case NotifyAll => s.(workers := Woken(s.workers), destructor := Joining(0))
    case Join => s.(destructor := Joining(s.destructor.joined + 1))
  }

  /** `s` is reached from a new pool of `n` workers by the given steps, in any interleaving. */
  ghost predicate Reaches(n: nat, steps: seq<Step>, s: Pool)
    decreases |steps|
  {
    if steps == [] then
      s == Start(n)
    else
      var last := |steps| - 1;
      exists before ::
          Reaches(n, steps[..last], before) && Enabled(before, steps[last]) && s == Apply(before, steps[last])
  }

  // ----- invariants

  function IsReady(ws: seq<Worker>): (r: seq<bool>)
    ensures |r| == |ws| && forall w | 0 <= w < |ws| :: r[w] == ws[w].Ready?
  {
    seq(|ws|, w requires 0 <= w < |ws| => ws[w].Ready?)
  }

  /** The queue holds the accepted tasks that nobody has taken, oldest first. */
  ghost predicate InOrder(s: Pool) {
    && |s.started| + |s.tasks| == s.accepted
    && (forall k | 0 <= k < |s.tasks| :: s.tasks[k] == |s.started| + k)
  }

  /** A task that was taken is either done, or running in the one worker that took it. */
  ghost predicate TakenOnce(s: Pool) {
    && (forall t | t in s.done :: t < |s.started|)
    && (forall w | 0 <= w < |s.workers| && s.workers[w].Running? ::
          var t := s.workers[w].task; t < |s.started| && s.started[t] == w && t !in s.done)
    && (forall t | 0 <= t < |s.started| && t !in s.done ::
          var w := s.started[t]; w < |s.workers| && s.workers[w] == Running(t))
  }

  /** The wake-up bookkeeping: no queued task outnumbers the wake-ups under way while a worker sleeps. */
  ghost predicate WakeUps(s: Pool) {
    NobodyWaits(s) || |s.tasks| <= s.pending + Count(IsReady(s.workers))
  }

  ghost predicate Shutdown(s: Pool) {
    && (s.stop <==> !s.destructor.NotCalled?)
    && (s.stop && !s.destructor.MustNotify? ==> NobodyWaits(s))
    && (forall w | 0 <= w < |s.workers| && s.workers[w].Exited? :: s.stop && s.tasks == [])
    && (s.destructor.Joining? ==> s.destructor.joined <= |s.workers|)
    && (s.destructor.Joining? ==> forall w | 0 <= w < s.destructor.joined :: s.workers[w].Exited?)
  }

  ghost predicate Inv(s: Pool) {
    InOrder(s) && TakenOnce(s) && WakeUps(s) && Shutdown(s)
  }

  lemma StartInv(n: nat)
    ensures Inv(Start(n)) && |Start(n).workers| == n
  {
  }

  lemma InOrderKept(s: Pool, step: Step)
    requires InOrder(s) && Enabled(s, step)
    ensures InOrder(Apply(s, step)) && |Apply(s, step).workers| == |s.workers|
  {
  }

  lemma TakenOnceKept(s: Pool, step: Step)
    requires InOrder(s) && TakenOnce(s) && Enabled(s, step)
    ensures TakenOnce(Apply(s, step))
  {
  }

  lemma ShutdownKept(s: Pool, step: Step)
    requires Shutdown(s) && Enabled(s, step)
    ensures Shutdown(Apply(s, step))
  {
  }

  lemma ReadyUpdate(ws: seq<Worker>, w: nat, x: Worker)
    requires w < |ws|
    ensures Count(IsReady(ws[w := x])) ==
        Count(IsReady(ws)) - (if ws[w].Ready? then 1 else 0) + (if x.Ready? then 1 else 0)
  {
    assert IsReady(ws[w := x]) == IsReady(ws)[w := x.Ready?];
    CountUpdate(IsReady(ws), w, x.Ready?);
  }

  lemma WakeUpsKept(s: Pool, step: Step)
    requires WakeUps(s) && Enabled(s, step)
    ensures WakeUps(Apply(s, step))
  {
    match step
    case NotifyOne(w) => ReadyUpdate(s.workers, w, Ready);
    case Check(w) => ReadyUpdate(s.workers, w, AfterCheck(s, w).workers[w]);
    case Spurious(w) => ReadyUpdate(s.workers, w, Ready);
    case Finish(w) => ReadyUpdate(s.workers, w, Ready);
    case _ =>
  }

  lemma InvKept(s: Pool, step: Step)
    requires Inv(s) && Enabled(s, step)
    ensures Inv(Apply(s, step)) && |Apply(s, step).workers| == |s.workers|
  {
    InOrderKept(s, step);
    TakenOnceKept(s, step);
    ShutdownKept(s, step);
    WakeUpsKept(s, step);
  }

  /** Every reachable state satisfies the invariant. */
  lemma {:induction false} Invariant(n: nat, steps: seq<Step>, s: Pool)
    requires Reaches(n, steps, s)
    ensures Inv(s) && |s.workers| == n
    decreases |steps|
  {
    if steps == [] {
      StartInv(n);
    } else {
      var last := |steps| - 1;
      var before :| Reaches(n, steps[..last], before) && Enabled(before, steps[last])
          && s == Apply(before, steps[last]);
      Invariant(n, steps[..last], before);
      InvKept(before, steps[last]);
    }
  }

  // ----- no lost wake-up

  /** Work in the queue of a pool with workers: somebody is awake, or a notification is on its way. */
  lemma NoLostWakeUp(n: nat, steps: seq<Step>, s: Pool)
    requires Reaches(n, steps, s) && n >= 1 && s.tasks != []
    ensures (exists w | 0 <= w < |s.workers| :: s.workers[w].Ready? || s.workers[w].Running?) || s.pending > 0
  {
    Invariant(n, steps, s);
    if forall w | 0 <= w < n :: s.workers[w].Waiting? {
      CountBounds(IsReady(s.workers));
    } else {
      var w :| 0 <= w < n && !s.workers[w].Waiting?;
      assert s.workers[w].Ready? || s.workers[w].Running?;
    }
  }

  /** A worker sleeps only while every queued task has a wake-up of its own under way. */
  lemma NoIdleWorker(n: nat, steps: seq<Step>, s: Pool, w: nat)
    requires Reaches(n, steps, s) && IsWaiting(s, w)
    ensures |s.tasks| <= s.pending + Count(IsReady(s.workers))
  {
    Invariant(n, steps, s);
  }

  /** Once the pool is stopped, nobody is left asleep after notify_all. */
  lemma StopWakesAll(n: nat, steps: seq<Step>, s: Pool)
    requires Reaches(n, steps, s) && s.stop
    ensures s.destructor.MustNotify? || NobodyWaits(s)
  {
    Invariant(n, steps, s);
  }

  // ----- exactly once, in order

  /** No step forgets or changes who took a task, and tasks are taken in the order they were accepted. */
  lemma TakenForGood(s: Pool, step: Step)
    requires Inv(s) && Enabled(s, step)
    ensures s.started <= Apply(s, step).started && s.done <= Apply(s, step).done
        && s.accepted <= Apply(s, step).accepted
    ensures s.stop ==> Apply(s, step).accepted == s.accepted
    ensures forall w | 0 <= w < |s.workers| && !s.workers[w].Running? && Apply(s, step).workers[w].Running? ::
              Apply(s, step).workers[w].task == |s.started| && Apply(s, step).started == s.started + [w]
  {
  }

  /** When the destructor's joins are through, every accepted task has run, provided there was a worker. */
  lemma AllTasksRun(n: nat, steps: seq<Step>, s: Pool)
    requires Reaches(n, steps, s) && s.destructor == Joining(n)
    ensures (forall t | 0 <= t < s.accepted :: t in s.done) <==> n >= 1 || s.accepted == 0
  {
    Invariant(n, steps, s);
    if n >= 1 {
      assert s.workers[0].Exited?;
      forall t | 0 <= t < s.accepted
        ensures t in s.done
      {
        assert t < |s.started|;
      }
    } else if s.accepted > 0 {
      NoWorkerNoTask(steps, s);
      assert 0 !in s.done;
    }
  }

  lemma {:induction false} NoWorkerNoTask(steps: seq<Step>, s: Pool)
    requires Reaches(0, steps, s)
    ensures s.done == {} && s.started == []
    decreases |steps|
  {
    if steps != [] {
      var last := |steps| - 1;
      var before :| Reaches(0, steps[..last], before) && Enabled(before, steps[last])
          && s == Apply(before, steps[last]);
      NoWorkerNoTask(steps[..last], before);
      Invariant(0, steps[..last], before);
    }
  }

  // ----- the destructor returns

  function Weight(w: Worker): nat {
    match w
    case Exited => 0
    case Ready => 1
    case Waiting => 2
    case Running(_) => 2
  }

  function WeightSum(ws: seq<Worker>): nat {
    if |ws| == 0 then 0 else WeightSum(ws[..|ws| - 1]) + Weight(ws[|ws| - 1])
  }

  lemma {:induction false} WeightUpdate(ws: seq<Worker>, w: nat, x: Worker)
    requires w < |ws|
    ensures WeightSum(ws[w := x]) == WeightSum(ws) - Weight(ws[w]) + Weight(x)
  {
    var last := |ws| - 1;
    if w == last {
      assert ws[w := x][..last] == ws[..last];
    } else {
      assert ws[w := x][..last] == ws[..last][w := x];
      WeightUpdate(ws[..last], w, x);
    }
  }

  lemma {:induction false} WakingLightens(ws: seq<Worker>)
    ensures WeightSum(Woken(ws)) <= WeightSum(ws)
  {
    if |ws| > 0 {
      var last := |ws| - 1;
      assert Woken(ws)[..last] == Woken(ws[..last]);
      WakingLightens(ws[..last]);
    }
  }

  function DestructorSteps(s: Pool): nat {
    match s.destructor
    case NotCalled => |s.workers| + 2
    case MustNotify => |s.workers| + 1
    case Joining(k) => if k <= |s.workers| then |s.workers| - k else 0
  }

  /** What is left to do in a stopped pool. */
  function Remaining(s: Pool): nat {
    2 * |s.tasks| + s.pending + WeightSum(s.workers) + DestructorSteps(s)
  }

  /** In a stopped pool every step, even a spurious wake-up, brings the end nearer. */
  lemma StoppedPoolDrains(s: Pool, step: Step)
    requires Inv(s) && s.stop && Enabled(s, step)
    ensures Apply(s, step).stop && Remaining(Apply(s, step)) < Remaining(s)
  {
    match step
    case NotifyOne(w) => WeightUpdate(s.workers, w, Ready);
    case Check(w) => WeightUpdate(s.workers, w, AfterCheck(s, w).workers[w]);
    case Spurious(w) => WeightUpdate(s.workers, w, Ready);
    case Finish(w) => WeightUpdate(s.workers, w, Ready);
    case NotifyAll => WakingLightens(s.workers);
    case _ =>
  }

  /** Until the destructor has joined every worker, some step of a stopped pool is enabled. */
  lemma StoppedPoolIsLive(s: Pool) returns (step: Step)
    requires Inv(s) && s.stop && s.destructor != Joining(|s.workers|)
    ensures Enabled(s, step)
  {
    if s.destructor.MustNotify? {
      step := NotifyAll;
    } else {
      var w := s.destructor.joined;
      match s.workers[w]
      case Ready => step := Check(w);
      case Running(_) => step := Finish(w);
      case Exited => step := Join;
    }
  }

  /** `more` leads from `s` to `end`. */
  ghost predicate Continues(s: Pool, more: seq<Step>, end: Pool)
    decreases |more|
  {
    if more == [] then s == end else Enabled(s, more[0]) && Continues(Apply(s, more[0]), more[1..], end)
  }

  lemma {:induction false} DrainBound(s: Pool, more: seq<Step>, end: Pool)
    requires Inv(s) && s.stop && Continues(s, more, end)
    ensures |more| + Remaining(end) <= Remaining(s)
    ensures Inv(end) && end.stop && |end.workers| == |s.workers|
    decreases |more|
  {
    if more != [] {
      hide Inv, Enabled, Apply, Remaining;
      InvKept(s, more[0]);
      StoppedPoolDrains(s, more[0]);
      DrainBound(Apply(s, more[0]), more[1..], end);
    }
  }

  /**
   However a stopped pool goes on, it takes boundedly many steps, and it is not stuck before the
   destructor has joined every worker: the destructor returns.
   */
  lemma DestructorReturns(n: nat, steps: seq<Step>, s: Pool, more: seq<Step>, end: Pool)
    requires Reaches(n, steps, s) && s.stop && Continues(s, more, end)
    ensures |more| <= Remaining(s)
    ensures end.destructor == Joining(n) || exists step :: Enabled(end, step)
  {
    Invariant(n, steps, s);
    DrainBound(s, more, end);
    if end.destructor != Joining(n) {
      var step := StoppedPoolIsLive(end);
    }
  }

  // ----- a running pool gets its work done

  /** The work left, with or without a stop: only `Enqueue` and spurious wake-ups add to it. */
  function Effort(s: Pool): nat {
    2 * |s.tasks| + 2 * s.pending + LoadSum(s.workers) + DestructorEffort(s)
  }

  function Load(w: Worker): nat {
    match w
    case Exited => 0
    case Waiting => 0
    case Ready => 1
    case Running(_) => 2
  }

  function LoadSum(ws: seq<Worker>): nat {
    if |ws| == 0 then 0 else LoadSum(ws[..|ws| - 1]) + Load(ws[|ws| - 1])
  }

  function DestructorEffort(s: Pool): nat {
    match s.destructor
    case NotCalled => 2 * |s.workers| + 2
    case MustNotify => 2 * |s.workers| + 1
    case Joining(k) => if k <= |s.workers| then |s.workers| - k else 0
  }

  lemma {:induction false} LoadUpdate(ws: seq<Worker>, w: nat, x: Worker)
    requires w < |ws|
    ensures LoadSum(ws[w := x]) == LoadSum(ws) - Load(ws[w]) + Load(x)
  {
    var last := |ws| - 1;
    if w == last {
      assert ws[w := x][..last] == ws[..last];
    } else {
      assert ws[w := x][..last] == ws[..last][w := x];
      LoadUpdate(ws[..last], w, x);
    }
  }

  lemma {:induction false} WakingLoads(ws: seq<Worker>)
    ensures LoadSum(Woken(ws)) <= LoadSum(ws) + |ws|
  {
    if |ws| > 0 {
      var last := |ws| - 1;
      assert Woken(ws)[..last] == Woken(ws[..last]);
      WakingLoads(ws[..last]);
    }
  }

  /** What the environment adds: a new task costs four, a spurious wake-up one. */
  function Added(step: Step): nat {
    match step
    case Enqueue => 4
    case Spurious(_) => 1
    case _ => 0
  }

  predicate IsProgress(step: Step) {
    !step.Enqueue? && !step.Spurious?
  }

  /**
   Every step other than `Enqueue` and a spurious wake-up lowers the effort, in a running pool as in a
   stopped one.
   */
  lemma EveryStepHelps(s: Pool, step: Step)
    requires Inv(s) && Enabled(s, step)
    ensures Effort(Apply(s, step)) + (if IsProgress(step) then 1 else 0) <= Effort(s) + Added(step)
  {
    hide InOrder, TakenOnce, WakeUps;
    match step
    case NotifyOne(w) => LoadUpdate(s.workers, w, Ready);
    case Check(w) => LoadUpdate(s.workers, w, AfterCheck(s, w).workers[w]);
    case Spurious(w) => LoadUpdate(s.workers, w, Ready);
    case Finish(w) => LoadUpdate(s.workers, w, Ready);
    case NotifyAll => WakingLoads(s.workers);
    case _ =>
  }

  function AddedBy(more: seq<Step>): nat {
    if |more| == 0 then 0 else Added(more[0]) + AddedBy(more[1..])
  }

  function ProgressIn(more: seq<Step>): nat {
    if |more| == 0 then 0 else (if IsProgress(more[0]) then 1 else 0) + ProgressIn(more[1..])
  }

  /** However the pool goes on, it takes at most so many steps of its own. */
  lemma {:induction false} ProgressBound(s: Pool, more: seq<Step>, end: Pool)
    requires Inv(s) && Continues(s, more, end)
    ensures ProgressIn(more) + Effort(end) <= Effort(s) + AddedBy(more)
    ensures Inv(end) && |end.workers| == |s.workers|
    decreases |more|
  {
    if more != [] {
      hide Inv, Enabled, Apply, Effort;
      InvKept(s, more[0]);
      EveryStepHelps(s, more[0]);
      ProgressBound(Apply(s, more[0]), more[1..], end);
    }
  }

  ghost predicate AllDone(s: Pool) {
    forall t | 0 <= t < s.accepted :: t in s.done
  }

  /** A worker that takes the lock while a task is queued takes the oldest one, in a running pool too. */
  lemma CheckTakes(s: Pool, w: nat)
    requires w < |s.workers| && s.workers[w].Ready? && s.tasks != []
    ensures Enabled(s, Check(w))
    ensures
      var next := Apply(s, Check(w));
      && next.started == s.started + [w] && next.tasks == s.tasks[1..] && next.workers[w] == Running(s.tasks[0])
      && next.stop == s.stop && next.accepted == s.accepted && next.done == s.done
  {
  }

  /** A pending notification can be delivered: to any worker that sleeps, or to nobody if none does. */
  lemma NotificationIsDelivered(s: Pool)
    requires s.pending > 0
    ensures NobodyWaits(s) ==> Enabled(s, NotifyNobody) && Apply(s, NotifyNobody) == s.(pending := s.pending - 1)
    ensures forall w: nat | IsWaiting(s, w) ::
              Enabled(s, NotifyOne(w))
                  && Apply(s, NotifyOne(w)) == s.(pending := s.pending - 1, workers := s.workers[w := Ready])
  {
  }

  /** The steps that a worker or a notification takes, of which one is enabled while a task is not done. */
  predicate IsWork(step: Step) {
    step.NotifyOne? || step.Check? || step.Finish?
  }

  lemma WorkIsEnabled(s: Pool) returns (step: Step)
    requires Inv(s) && |s.workers| >= 1 && !AllDone(s)
    ensures Enabled(s, step) && IsWork(step)
  {
    var t :| 0 <= t < s.accepted && t !in s.done;
    if t < |s.started| {
      step := Finish(s.started[t]);
    } else {
      assert s.tasks != [];
      if w :| 0 <= w < |s.workers| && s.workers[w].Ready? {
        step := Check(w);
      } else if w :| 0 <= w < |s.workers| && s.workers[w].Running? {
        step := Finish(w);
      } else {
        assert forall w | 0 <= w < |s.workers| :: s.workers[w].Waiting?;
        NobodyReady(s.workers);
        assert IsWaiting(s, 0);
        step := NotifyOne(0);
      }
    }
  }

  lemma {:induction false} NobodyReady(ws: seq<Worker>)
    requires forall w | 0 <= w < |ws| :: !ws[w].Ready?
    ensures Count(IsReady(ws)) == 0
  {
    CountBounds(IsReady(ws));
  }

  /**
   Progress without a stop: from every reachable state of a pool with a worker, its own steps are bounded, however
   it goes on; and where it rests, with no work enabled, every accepted task has run.
   */
  lemma RunningPoolProgresses(n: nat, steps: seq<Step>, s: Pool, more: seq<Step>, end: Pool)
    requires Reaches(n, steps, s) && n >= 1 && Continues(s, more, end)
    ensures ProgressIn(more) <= Effort(s) + AddedBy(more)
    ensures AllDone(end) || exists step :: Enabled(end, step) && IsWork(step)
  {
    Invariant(n, steps, s);
    ProgressBound(s, more, end);
    if !AllDone(end) {
      var step := WorkIsEnabled(end);
    }
  }

  /** Doing the enabled work, one step after the other, runs every accepted task; the pool is not stopped for it. */
  lemma {:induction false} WorkGetsDone(s: Pool) returns (more: seq<Step>, end: Pool)
    requires Inv(s) && |s.workers| >= 1
    ensures Continues(s, more, end) && Inv(end) && AllDone(end) && |end.workers| == |s.workers|
    ensures end.accepted == s.accepted && end.stop == s.stop && forall k | 0 <= k < |more| :: IsWork(more[k])
    decreases Effort(s)
  {
    if AllDone(s) {
      more, end := [], s;
    } else {
      hide Inv, AllDone, Effort;
      var step := WorkIsEnabled(s);
      InvKept(s, step);
      EveryStepHelps(s, step);
      var rest;
      rest, end := WorkGetsDone(Apply(s, step));
      more := [step] + rest;
      assert more[1..] == rest;
    }
  }

  lemma {:induction false} ReachesOn(n: nat, steps: seq<Step>, s: Pool, more: seq<Step>, end: Pool)
    requires Reaches(n, steps, s) && Continues(s, more, end)
    ensures Reaches(n, steps + more, end)
    decreases |more|
  {
    hide Apply, Enabled;
    if more == [] {
      assert steps + more == steps;
    } else {
      var one := steps + [more[0]];
      assert one[..|one| - 1] == steps && one[|one| - 1] == more[0];
      ReachesOn(n, one, Apply(s, more[0]), more[1..], end);
      assert one + more[1..] == steps + more;
    }
  }

  /** Any number of tasks is accepted and run by a pool with a worker, without a stop. */
  lemma {:induction false} AnyNumberRuns(n: nat, k: nat) returns (steps: seq<Step>, s: Pool)
    requires n >= 1
    ensures Reaches(n, steps, s) && s.accepted == k && AllDone(s) && !s.stop
  {
    if k == 0 {
      steps, s := [], Start(n);
    } else {
      hide Reaches, Inv, AllDone;
      steps, s := AnyNumberRuns(n, k - 1);
      Invariant(n, steps, s);
      var next := Apply(s, Enqueue);
      InvKept(s, Enqueue);
      assert Continues(s, [Enqueue], next);
      ReachesOn(n, steps, s, [Enqueue], next);
      var more, end := WorkGetsDone(next);
      ReachesOn(n, steps + [Enqueue], next, more, end);
      steps, s := steps + [Enqueue] + more, end;
    }
  }

  /** A spurious wake-up of an idle pool is possible at any time, and puts the worker back to sleep. */
  lemma SpuriousIsHarmless(s: Pool, w: nat)
    requires IsWaiting(s, w) && !s.stop && s.tasks == []
    ensures Continues(s, [Spurious(w), Check(w)], s)
  {
    var two := [Spurious(w), Check(w)];
    assert two[1..] == [Check(w)] && [Check(w)][1..] == [];
    var awake := Apply(s, Spurious(w));
    assert s.workers[w := Ready][w := Waiting] == s.workers;
    assert Apply(awake, Check(w)) == s;
  }

  lemma {:induction false} StoppedPoolEnds(s: Pool) returns (more: seq<Step>, end: Pool)
    requires Inv(s) && s.stop
    ensures Continues(s, more, end) && end.destructor == Joining(|s.workers|) && end.accepted == s.accepted
    decreases Remaining(s)
  {
    if s.destructor == Joining(|s.workers|) {
      more, end := [], s;
    } else {
      hide Inv, Remaining;
      var step := StoppedPoolIsLive(s);
      InvKept(s, step);
      StoppedPoolDrains(s, step);
      var rest;
      rest, end := StoppedPoolEnds(Apply(s, step));
      more := [step] + rest;
      assert more[1..] == rest;
      AcceptedStays(s, step);
    }
  }

  lemma AcceptedStays(s: Pool, step: Step)
    requires Inv(s) && s.stop && Enabled(s, step)
    ensures Apply(s, step).accepted == s.accepted
  {
  }

  /** Every pool with a worker can be destroyed at any time, and then has run every task it accepted. */
  lemma AnyPoolCanBeDestroyed(n: nat, steps: seq<Step>, s: Pool) returns (more: seq<Step>, end: Pool)
    requires Reaches(n, steps, s) && !s.stop && n >= 1
    ensures Continues(s, [Stop] + more, end) && end.destructor == Joining(n) && AllDone(end)
    ensures end.accepted == s.accepted
  {
    hide Reaches, Inv, Apply;
    Invariant(n, steps, s);
    assert Enabled(s, Stop) by { UnstoppedCanStop(s); }
    var stopped := Apply(s, Stop);
    InvKept(s, Stop);
    AfterStop(s);
    more, end := StoppedPoolEnds(stopped);
    var all := [Stop] + more;
    assert all[1..] == more;
    ReachesOn(n, steps, s, all, end);
    AllTasksRun(n, steps + all, end);
  }

  lemma UnstoppedCanStop(s: Pool)
    requires Inv(s) && !s.stop
    ensures Enabled(s, Stop)
  {
  }

  lemma AfterStop(s: Pool)
    requires Enabled(s, Stop)
    ensures Apply(s, Stop).stop && Apply(s, Stop).accepted == s.accepted
  {
  }
}
