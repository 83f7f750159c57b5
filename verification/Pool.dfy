/**
 The worker pool of crates/rspacefs-fuse/src/pool.rs as a step system. Workers share one
 receiver behind a lock, hold the lock across the blocking `recv`, and run jobs unlocked.
 Jobs are numbered in the order of submission; a job, once running, finishes.
 */
module Pool {

  datatype Worker = Waiting | Receiving | Running(job: nat) | Exited

  /** `open` is whether the sender still exists; `submitted` counts the jobs accepted so far. */
  datatype State = State(open: bool, queue: seq<nat>, workers: seq<Worker>, submitted: nat, finished: seq<nat>)

  datatype Action = Submit | Close | Acquire(w: nat) | Receive(w: nat) | Finish(w: nat)

  function New(size: nat): State {
    State(true, [], seq(if size == 0 then 1 else size, _ => Waiting), 0, [])
  }

  predicate LockFree(s: State) {
    Receiving !in s.workers
  }

  /** A blocked `recv` is simply not enabled. */
  predicate Enabled(s: State, a: Action) {
    match a
    case Submit => true
    case Close => true
    case Acquire(w) => w < |s.workers| && s.workers[w] == Waiting && LockFree(s)
    case Receive(w) => w < |s.workers| && s.workers[w] == Receiving && (s.queue != [] || !s.open)
    case Finish(w) => w < |s.workers| && s.workers[w].Running?
  }

  /** A job offered after the sender is gone is dropped; an empty closed channel ends the worker. */
  function Next(s: State, a: Action): State
    requires Enabled(s, a)
  {
    match a
    case Submit => if s.open then s.(queue := s.queue + [s.submitted], submitted := s.submitted + 1) else s
    case Close => s.(open := false)
    case Acquire(w) => s.(workers := s.workers[w := Receiving])
    case Receive(w) =>
      if s.queue == [] then s.(workers := s.workers[w := Exited])
      else s.(queue := s.queue[1..], workers := s.workers[w := Running(s.queue[0])])
    case Finish(w) => s.(workers := s.workers[w := Waiting], finished := s.finished + [s.workers[w].job])
  }

  // ── Conservation ──────────────────────────────────────────────────────────

  /** How many workers are running job j. */
  function RunningCount(workers: seq<Worker>, j: nat): nat {
    if workers == [] then 0 else (if workers[0] == Running(j) then 1 else 0) + RunningCount(workers[1..], j)
  }

  /** How many times job j has finished. */
  function FinishedCount(finished: seq<nat>, j: nat): nat {
    if finished == [] then 0
    else FinishedCount(finished[..|finished| - 1], j) + (if finished[|finished| - 1] == j then 1 else 0)
  }

  /** Jobs taken from the queue so far; they are the first ones submitted. */
  function Taken(s: State): int {
    s.submitted - |s.queue|
  }

  ghost predicate Inv(s: State) {
    && s.workers != [] && Taken(s) >= 0
    && (forall i :: 0 <= i < |s.queue| ==> s.queue[i] == Taken(s) + i)
    && (forall j: nat :: RunningCount(s.workers, j) + FinishedCount(s.finished, j) == if j < Taken(s) then 1 else 0)
    && (forall v, w :: 0 <= v < |s.workers| && 0 <= w < |s.workers| && s.workers[v] == Receiving && s.workers[w] == Receiving ==> v == w)
    && (Exited in s.workers ==> !s.open && s.queue == [])
  }

  lemma {:induction false} RunningUpdate(workers: seq<Worker>, w: nat, x: Worker, j: nat)
    requires w < |workers|
    ensures RunningCount(workers[w := x], j) + (if workers[w] == Running(j) then 1 else 0)
         == RunningCount(workers, j) + (if x == Running(j) then 1 else 0)
    decreases |workers|
  {
    if w == 0 {
      assert workers[w := x][1..] == workers[1..];
    } else {
      RunningUpdate(workers[1..], w - 1, x, j);
      assert workers[w := x][1..] == workers[1..][w - 1 := x];
    }
  }

  lemma {:induction false} NoneRunning(workers: seq<Worker>, j: nat)
    requires forall w :: 0 <= w < |workers| ==> !workers[w].Running?
    ensures RunningCount(workers, j) == 0
    decreases |workers|
  {
    if workers != [] {
      forall w | 0 <= w < |workers[1..]|
        ensures !workers[1..][w].Running?
      {
        assert workers[1..][w] == workers[w + 1];
      }
      NoneRunning(workers[1..], j);
    }
  }

  lemma NewInv(size: nat)
    ensures Inv(New(size))
  {
    forall j: nat
      ensures RunningCount(New(size).workers, j) == 0
    {
      NoneRunning(New(size).workers, j);
    }
  }

  /** No step loses, duplicates or reorders a job, and the lock has at most one holder. */
  lemma StepKeepsInv(s: State, a: Action)
    requires Inv(s) && Enabled(s, a)
    ensures Inv(Next(s, a))
  {
    hide RunningCount, FinishedCount;
    var t := Next(s, a);
    forall j: nat
      ensures RunningCount(t.workers, j) + FinishedCount(t.finished, j) == if j < Taken(t) then 1 else 0
    {
      StepConserves(s, a, j);
    }
    ExitedAfter(s, a);
  }

  /** A step moves a job from the queue to a worker or from a worker to the finished ones. */
  lemma StepConserves(s: State, a: Action, j: nat)
    requires Enabled(s, a)
    ensures var t := Next(s, a);
      RunningCount(t.workers, j) + FinishedCount(t.finished, j)
      == RunningCount(s.workers, j) + FinishedCount(s.finished, j)
         + (if a.Receive? && s.queue != [] && s.queue[0] == j then 1 else 0)
  {
    var t := Next(s, a);
    if a.Acquire? || a.Receive? || a.Finish? {
      RunningUpdate(s.workers, a.w, t.workers[a.w], j);
    }
    if a.Finish? {
      assert t.finished[..|t.finished| - 1] == s.finished;
    }
  }

  lemma ExitedAfter(s: State, a: Action)
    requires Inv(s) && Enabled(s, a)
    ensures Exited in Next(s, a).workers ==> Exited in s.workers || (!s.open && s.queue == [])
  {
    var t := Next(s, a);
    if Exited in t.workers {
      var i :| 0 <= i < |t.workers| && t.workers[i] == Exited;
      assert t.workers[i] != s.workers[i] ==> a == Receive(i);
    }
  }

  // ── Runs ──────────────────────────────────────────────────────────────────

  predicate IsRun(s: State, actions: seq<Action>)
    decreases |actions|
  {
    actions == [] || (Enabled(s, actions[0]) && IsRun(Next(s, actions[0]), actions[1..]))
  }

  function Run(s: State, actions: seq<Action>): State
    requires IsRun(s, actions)
    decreases |actions|
  {
    if actions == [] then s else Run(Next(s, actions[0]), actions[1..])
  }

  lemma {:induction false} RunKeepsInv(s: State, actions: seq<Action>)
    requires Inv(s) && IsRun(s, actions)
    ensures Inv(Run(s, actions))
    decreases |actions|
  {
    if actions != [] {
      StepKeepsInv(s, actions[0]);
      RunKeepsInv(Next(s, actions[0]), actions[1..]);
    }
  }

  /** How many jobs were offered while the channel was open. */
  function Offered(actions: seq<Action>): nat
    decreases |actions|
  {
    if actions == [] || actions[0].Close? then 0 else (if actions[0].Submit? then 1 else 0) + Offered(actions[1..])
  }

  /** What an open pool accepts is what it was offered before it was closed. */
  lemma {:induction false} SubmittedIsOffered(s: State, actions: seq<Action>)
    requires IsRun(s, actions)
    ensures var t := Run(s, actions);
      && t.submitted == s.submitted + (if s.open then Offered(actions) else 0)
      && (t.open <==> s.open && Close !in actions)
      && |t.workers| == |s.workers|
    decreases |actions|
  {
    if actions != [] { SubmittedIsOffered(Next(s, actions[0]), actions[1..]); }
  }

  /**
   In every interleaving of a pool's life each job offered while the channel was open is in exactly
   one place: waiting in the queue, running on one worker, or finished, once. The jobs that wait are
   the last ones offered, in the order they came; the number of workers never changes.
   */
  lemma EveryJobOnce(size: nat, actions: seq<Action>, j: nat)
    requires IsRun(New(size), actions)
    ensures var s := Run(New(size), actions);
      && (if j in s.queue then 1 else 0) + RunningCount(s.workers, j) + FinishedCount(s.finished, j)
         == (if j < Offered(actions) then 1 else 0)
      && (forall i :: 0 <= i < |s.queue| ==> s.queue[i] == Offered(actions) - |s.queue| + i)
      && |s.workers| == if size == 0 then 1 else size
  {
    hide RunningCount, FinishedCount;
    NewInv(size);
    RunKeepsInv(New(size), actions);
    SubmittedIsOffered(New(size), actions);
    var s := Run(New(size), actions);
    if Taken(s) <= j < s.submitted {
      assert s.queue[j - Taken(s)] == j;
    }
  }

  // ── All workers at once ───────────────────────────────────────────────────

  /** Hand a job to each of the first n workers. */
  function Fill(n: nat): seq<Action> {
    if n == 0 then [] else Fill(n - 1) + [Submit, Acquire(n - 1), Receive(n - 1)]
  }

  lemma {:induction false} RunAppend(s: State, a: seq<Action>, b: seq<Action>)
    requires IsRun(s, a) && IsRun(Run(s, a), b)
    ensures IsRun(s, a + b) && Run(s, a + b) == Run(Run(s, a), b)
    decreases |a|
  {
    if a == [] {
      assert a + b == b;
    } else {
      assert (a + b)[1..] == a[1..] + b;
      RunAppend(Next(s, a[0]), a[1..], b);
    }
  }

  /** Jobs run fully in parallel: the lock is not held while one runs, so every worker can have one. */
  lemma {:induction false} FullyParallel(size: nat, n: nat)
    requires n <= |New(size).workers|
    ensures IsRun(New(size), Fill(n))
    ensures var s := Run(New(size), Fill(n));
      s.open && s.queue == [] && |s.workers| == |New(size).workers|
      && forall w :: 0 <= w < |s.workers| ==> s.workers[w] == if w < n then Running(w) else Waiting
  {
    if n > 0 {
      FullyParallel(size, n - 1);
      SubmittedIsOffered(New(size), Fill(n - 1));
      OfferedByFill(n - 1);
      var s := Run(New(size), Fill(n - 1));
      var w := n - 1;
      HandOver(s, w);
      RunAppend(New(size), Fill(n - 1), [Submit, Acquire(w), Receive(w)]);
    }
  }

  lemma {:induction false} OfferedByFill(n: nat)
    ensures Offered(Fill(n)) == n
  {
    if n > 0 {
      OfferedByFill(n - 1);
      FillOpen(n - 1);
      OfferedAppend(Fill(n - 1), [Submit, Acquire(n - 1), Receive(n - 1)]);
      OfferedByHandOver(n - 1);
    }
  }

  lemma OfferedByHandOver(w: nat)
    ensures Offered([Submit, Acquire(w), Receive(w)]) == 1
  {
    var a := [Submit, Acquire(w), Receive(w)];
    var b, c := a[1..], a[1..][1..];
    assert b == [Acquire(w), Receive(w)] && c == [Receive(w)] && c[1..] == [];
    assert Offered(c) == 0 && Offered(b) == Offered(c) && Offered(a) == 1 + Offered(b);
  }

  lemma {:induction false} FillOpen(n: nat)
    ensures Close !in Fill(n)
  {
    if n > 0 { FillOpen(n - 1); }
  }

  lemma {:induction false} OfferedAppend(a: seq<Action>, b: seq<Action>)
    requires Close !in a
    ensures Offered(a + b) == Offered(a) + Offered(b)
    decreases |a|
  {
    if a == [] {
      assert a + b == b;
    } else {
      assert (a + b)[1..] == a[1..] + b && a[0] in a;
      OfferedAppend(a[1..], b);
    }
  }

  /** One job goes from its submission to a waiting worker. */
  lemma HandOver(s: State, w: nat)
    requires s.open && s.queue == [] && w < |s.workers| && s.workers[w] == Waiting && LockFree(s)
    ensures IsRun(s, [Submit, Acquire(w), Receive(w)])
    ensures Run(s, [Submit, Acquire(w), Receive(w)])
         == State(true, [], s.workers[w := Running(s.submitted)], s.submitted + 1, s.finished)
  {
    var actions := [Submit, Acquire(w), Receive(w)];
    var rest, last := actions[1..], actions[1..][1..];
    assert rest == [Acquire(w), Receive(w)] && last == [Receive(w)] && last[1..] == [];
    var a := Next(s, Submit);
    assert LockFree(a);
    var b := Next(a, Acquire(w));
    assert b.workers[w] == Receiving && b.queue == [s.submitted] && b.queue[1..] == [];
    var c := Next(b, Receive(w));
    assert c.workers == s.workers[w := Running(s.submitted)];
    assert IsRun(c, last[1..]) && Run(c, last[1..]) == c;
    assert IsRun(b, last) && Run(b, last) == c;
    assert IsRun(a, rest) && Run(a, rest) == c;
  }

  // ── Shutdown ──────────────────────────────────────────────────────────────

  predicate AllExited(s: State) {
    forall w :: 0 <= w < |s.workers| ==> s.workers[w] == Exited
  }

  /** Steps a worker still has before it, the queue aside. */
  function StepsLeft(w: Worker): nat {
    match w
    case Running(_) => 3
    case Waiting => 2
    case Receiving => 1
    case Exited => 0
  }

  function SumLeft(workers: seq<Worker>): nat {
    if workers == [] then 0 else StepsLeft(workers[0]) + SumLeft(workers[1..])
  }

  function Measure(s: State): nat {
    3 * |s.queue| + SumLeft(s.workers)
  }

  lemma {:induction false} SumLeftUpdate(workers: seq<Worker>, w: nat, x: Worker)
    requires w < |workers|
    ensures SumLeft(workers[w := x]) + StepsLeft(workers[w]) == SumLeft(workers) + StepsLeft(x)
    decreases |workers|
  {
    if w == 0 {
      assert workers[w := x][1..] == workers[1..];
    } else {
      SumLeftUpdate(workers[1..], w - 1, x);
      assert workers[w := x][1..] == workers[1..][w - 1 := x];
    }
  }

  predicate WorkerStep(a: Action) {
    a.Acquire? || a.Receive? || a.Finish?
  }

  /** Once closed, each worker step lowers the measure by one; closing and offering jobs change nothing. */
  lemma ClosedStep(s: State, a: Action)
    requires !s.open && Enabled(s, a)
    ensures !Next(s, a).open
    ensures WorkerStep(a) ==> Measure(Next(s, a)) == Measure(s) - 1
    ensures !WorkerStep(a) ==> Next(s, a) == s
  {
    if WorkerStep(a) {
      SumLeftUpdate(s.workers, a.w, Next(s, a).workers[a.w]);
    }
  }

  /**
   Never stuck: with a job queued or the channel closed, some worker can move unless all have
   exited, although one worker may hold the lock across a blocking receive.
   */
  lemma SomeWorkerMoves(s: State) returns (a: Action)
    requires Inv(s) && (s.queue != [] || !s.open) && !AllExited(s)
    ensures WorkerStep(a) && Enabled(s, a)
  {
    if Receiving in s.workers {
      var w :| 0 <= w < |s.workers| && s.workers[w] == Receiving;
      a := Receive(w);
    } else {
      var w :| 0 <= w < |s.workers| && s.workers[w] != Exited;
      a := if s.workers[w] == Waiting then Acquire(w) else Finish(w);
    }
  }

  lemma {:induction false} SumLeftZero(workers: seq<Worker>)
    ensures SumLeft(workers) == 0 <==> forall w :: 0 <= w < |workers| ==> workers[w] == Exited
    decreases |workers|
  {
    if workers != [] {
      SumLeftZero(workers[1..]);
      assert forall w :: 1 <= w < |workers| ==> workers[w] == workers[1..][w - 1];
    }
  }

  /** Nothing waits, nothing runs, and each accepted job has finished exactly once. */
  ghost predicate AllDone(s: State) {
    s.queue == [] && forall j: nat :: FinishedCount(s.finished, j) == if j < s.submitted then 1 else 0
  }

  lemma ExitedMeansDone(s: State)
    requires Inv(s) && AllExited(s)
    ensures AllDone(s)
  {
    assert s.workers[0] == Exited;
    forall j: nat
      ensures FinishedCount(s.finished, j) == if j < s.submitted then 1 else 0
    {
      NoneRunning(s.workers, j);
    }
  }

  predicate WorkersOnly(actions: seq<Action>) {
    forall k :: 0 <= k < |actions| ==> WorkerStep(actions[k])
  }

  /** Once closed, a run of the workers has at most Measure steps, and ends with all exited exactly when it has that many. */
  lemma {:induction false} ClosedRunFinishes(s: State, actions: seq<Action>)
    requires Inv(s) && !s.open && IsRun(s, actions) && WorkersOnly(actions)
    ensures |actions| <= Measure(s)
    ensures var t := Run(s, actions);
      && Inv(t) && !t.open && t.submitted == s.submitted
      && (|actions| == Measure(s) <==> AllExited(t))
      && (AllExited(t) ==> AllDone(t))
    decreases |actions|
  {
    if actions == [] {
      SumLeftZero(s.workers);
      if AllExited(s) { ExitedMeansDone(s); }
    } else {
      assert WorkerStep(actions[0]);
      ClosedStep(s, actions[0]);
      StepKeepsInv(s, actions[0]);
      ClosedRunFinishes(Next(s, actions[0]), actions[1..]);
    }
  }

  /**
   Shutdown: after any life of a pool in which the channel was closed, a run of the workers has at
   most Measure steps, and one of exactly that length - which every shorter run can be continued
   to - ends with all workers exited, nothing waiting, and every job that was offered before the
   channel closed finished exactly once. This is when `drop` returns from its joins.
   */
  lemma ShutdownFinishes(size: nat, life: seq<Action>, actions: seq<Action>)
    requires IsRun(New(size), life) && Close in life
    requires IsRun(Run(New(size), life), actions) && WorkersOnly(actions)
    ensures var s := Run(New(size), life); var t := Run(s, actions);
      && |actions| <= Measure(s)
      && (|actions| == Measure(s) <==> AllExited(t))
      && (AllExited(t) ==>
            t.queue == [] && forall j: nat :: FinishedCount(t.finished, j) == if j < Offered(life) then 1 else 0)
  {
    NewInv(size);
    RunKeepsInv(New(size), life);
    SubmittedIsOffered(New(size), life);
    ClosedRunFinishes(Run(New(size), life), actions);
  }

  /** A shutdown run that has not ended can be continued. */
  lemma ShutdownContinues(s: State, actions: seq<Action>) returns (a: Action)
    requires Inv(s) && !s.open && IsRun(s, actions) && WorkersOnly(actions) && |actions| < Measure(s)
    ensures WorkerStep(a) && Enabled(Run(s, actions), a)
  {
    ClosedRunFinishes(s, actions);
    a := SomeWorkerMoves(Run(s, actions));
  }
}
