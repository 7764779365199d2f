/**
 Wake-ups and progress. A push over more than one queued task happens without the queue's mutex, so a
 notification can fall between a worker's test of an empty queue and its sleep and be lost. As long as no
 round has more than one event that push never happens, nor does it with every push under the mutex; then no
 wake-up is lost, and each round completes. PoolHang shows that two events in one round are enough to fail.
 */
module PoolProgress {
  import opened PoolMachine
  import opened PoolInvariant
  import opened PoolLogging

  // ---------------------------------------------------------------- lost wake-ups

  /** No worker sleeps, or is committed to sleep, over a task, unless its notification is still to come. */
  predicate NothingMissed(s: State) {
    forall w | 0 <= w < |s.workers| :: RestsOver(s.workers[w]) ==> s.producer == Pushed(w)
  }

  predicate RestsOver(x: Worker) {
    x.list != [] && (x.phase.Asleep? || x.phase.Window?)
  }

  /** The notification is sent while the worker holds the mutex between its test and its sleep, over a task. */
  predicate Misses(s: State, a: Action) {
    a.Notify? && s.producer.Pushed? && IsQueue(s, s.producer.q)
    && s.workers[s.producer.q].phase.Window? && s.workers[s.producer.q].list != []
  }

  lemma WorkersMissNothing(c: Config, s: State, a: Action)
    requires Inv(c, s) && NothingMissed(s) && Enabled(c, s, a) && (WorkerStep(a) || a.Wake?)
    ensures NothingMissed(Apply(c, s, a))
  {
    var t := Apply(c, s, a);
    assert History(s.workers[a.w]);
    assert t.producer == s.producer && |t.workers| == |s.workers|;
    forall w | 0 <= w < |t.workers| && RestsOver(t.workers[w]) ensures t.producer == Pushed(w) {
      if w != a.w { assert t.workers[w] == s.workers[w]; }
    }
  }

  /** Step by step: a wake-up is lost by exactly those notifications. */
  lemma StepLosesExactly(c: Config, s: State, a: Action)
    requires Inv(c, s) && NothingMissed(s) && Enabled(c, s, a)
    ensures NothingMissed(Apply(c, s, a)) <==> !Misses(s, a)
  {
    var t := Apply(c, s, a);
    if WorkerStep(a) || a.Wake? {
      WorkersMissNothing(c, s, a);
    } else if Misses(s, a) {
      assert t.workers[s.producer.q] == s.workers[s.producer.q];
      assert !NothingMissed(t);
    } else {
      forall w | 0 <= w < |t.workers| && RestsOver(t.workers[w]) ensures t.producer == Pushed(w) {
        assert t.workers[w].phase == s.workers[w].phase;
      }
    }
  }

  predicate AlwaysNothingMissed(c: Config, s: State, run: seq<Action>)
    requires IsRun(c, s, run)
    decreases run
  {
    NothingMissed(s) && (run == [] || AlwaysNothingMissed(c, Apply(c, s, run[0]), run[1..]))
  }

  predicate NeverMisses(c: Config, s: State, run: seq<Action>)
    requires IsRun(c, s, run)
    decreases run
  {
    run == [] || (!Misses(s, run[0]) && NeverMisses(c, Apply(c, s, run[0]), run[1..]))
  }

  /** For every run of the program as written: no wake-up is ever lost iff no notification of the run
      falls into its worker's window over a task. */
  lemma {:induction false} RunLosesExactly(c: Config, s: State, run: seq<Action>)
    requires Inv(c, s) && NothingMissed(s) && IsRun(c, s, run)
    ensures AlwaysNothingMissed(c, s, run) <==> NeverMisses(c, s, run)
    decreases run
  {
    if run != [] {
      StepLosesExactly(c, s, run[0]);
      StepKeepsInv(c, s, run[0]);
      var t := Apply(c, s, run[0]);
      if NothingMissed(t) {
        RunLosesExactly(c, t, run[1..]);
      } else if run[1..] != [] {
        assert !AlwaysNothingMissed(c, t, run[1..]);
      }
    }
  }

  /** From the start, for any pool. */
  lemma LostWakeUpsExactly(c: Config, run: seq<Action>)
    requires c.size > 0 && IsRun(c, Init(c), run)
    ensures AlwaysNothingMissed(c, Init(c), run) <==> NeverMisses(c, Init(c), run)
  {
    InitHolds(c);
    RunLosesExactly(c, Init(c), run);
  }

  // ---------------------------------------------------------------- rounds of at most b events

  /** So far, no round had more than b events. */
  predicate RoundsWithin(s: State, b: nat) {
    && (forall r | 0 <= r < |s.bounds| - 1 :: s.bounds[r + 1] <= s.bounds[r] + b)
    && (!s.producer.Polling? ==> |s.batch| <= b)
  }

  predicate PollsWithin(run: seq<Action>, b: nat) {
    forall i | 0 <= i < |run| :: run[i].Poll? ==> |run[i].events| <= b
  }

  lemma RoundsAfter(c: Config, s: State, a: Action, b: nat)
    requires LogInv(c, s) && Enabled(c, s, a)
    ensures RoundsWithin(Apply(c, s, a), b) <==> RoundsWithin(s, b) && (a.Poll? ==> |a.events| <= b)
  {
    var t := Apply(c, s, a);
    if a.Flush? {
      assert s.producer == Waiting(|s.batch|) && |s.tasks| == s.base + |s.batch|;
      RoundsAfterFlush(s, t, b);
    } else if !a.Poll? {
      RoundsUnchanged(c, s, a);
    }
  }

  lemma RoundsAfterFlush(s: State, t: State, b: nat)
    requires !s.producer.Polling? && t.producer.Polling? && |s.bounds| > 0
    requires t.bounds == s.bounds + [s.bounds[|s.bounds| - 1] + |s.batch|]
    ensures RoundsWithin(t, b) <==> RoundsWithin(s, b)
  {
    var last := |s.bounds| - 1;
    assert t.bounds[last + 1] == t.bounds[last] + |s.batch|;
    assert t.bounds[..last + 1] == s.bounds;
    if RoundsWithin(t, b) {
      forall r | 0 <= r < last ensures s.bounds[r + 1] <= s.bounds[r] + b {
        assert t.bounds[r + 1] <= t.bounds[r] + b;
      }
    }
  }

  /** Only Poll and Flush begin and end a round. */
  lemma RoundsUnchanged(c: Config, s: State, a: Action)
    requires Enabled(c, s, a) && !a.Poll? && !a.Flush?
    ensures var t := Apply(c, s, a);
            t.bounds == s.bounds && t.batch == s.batch && (t.producer.Polling? <==> s.producer.Polling?)
  {
  }

  /** What a state remembers of its rounds is what the run polled. */
  lemma {:induction false} RoundsAreThePolls(c: Config, s: State, run: seq<Action>, b: nat)
    requires LogInv(c, s) && IsRun(c, s, run)
    ensures RoundsWithin(Exec(c, s, run), b) <==> RoundsWithin(s, b) && PollsWithin(run, b)
    decreases run
  {
    if run != [] {
      RoundsAfter(c, s, run[0], b);
      StepKeepsLog(c, s, run[0]);
      RoundsAreThePolls(c, Apply(c, s, run[0]), run[1..], b);
      PollsOneByOne(run, b);
    }
  }

  lemma PollsOneByOne(run: seq<Action>, b: nat)
    requires run != []
    ensures PollsWithin(run, b) <==> (run[0].Poll? ==> |run[0].events| <= b) && PollsWithin(run[1..], b)
  {
    if PollsWithin(run, b) {
      forall i | 0 <= i < |run[1..]| && run[1..][i].Poll? ensures |run[1..][i].events| <= b {
        assert run[1..][i] == run[i + 1];
      }
    }
    if (run[0].Poll? ==> |run[0].events| <= b) && PollsWithin(run[1..], b) {
      forall i | 0 <= i < |run| && run[i].Poll? ensures |run[i].events| <= b {
        if i > 0 { assert run[i] == run[1..][i - 1]; }
      }
    }
  }

  // ---------------------------------------------------------------- calm states

  /** No wake-up is missed, no push is under way outside the mutex, and no worker is about to sleep over a task. */
  predicate Calm(s: State) {
    && NothingMissed(s)
    && !s.producer.Unlocked?
    && forall w | 0 <= w < |s.workers| :: s.workers[w].phase.Window? ==> s.workers[w].list == []
  }

  /** Every push is made under the queue's mutex, or there is no more than one event to push. */
  predicate Gentle(c: Config, s: State) {
    c.locked || |s.batch| <= 1
  }

  /** The first push of every round, however many events it has, finds at most one task in the queue, one that
      has finished; so it is made under the mutex, as all are if pushes are locked. */
  lemma FirstPushIsLocked(c: Config, s: State)
    requires Inv(c, s) && (c.locked || s.sent == 0) && Enabled(c, s, Lock)
    ensures Apply(c, s, Lock).producer.Pushed?
    ensures s.sent == 0 ==> |s.workers[s.producer.q].list| <= 1
  {
    if s.sent == 0 {
      ReadyMeansDrained(c, s);
      assert Unrun(s.workers[s.producer.q]) == [];
    }
  }

  lemma StepKeepsCalm(c: Config, s: State, a: Action)
    requires Inv(c, s) && Calm(s) && Enabled(c, s, a) && (Gentle(c, s) || a.Poll?)
    ensures Calm(Apply(c, s, a))
  {
    StepLosesExactly(c, s, a);
    if a.Lock? { FirstPushIsLocked(c, s); }
    assert !a.PushLate?;
    StepKeepsWindows(c, s, a);
  }

  /** Only a push outside the mutex can put a task before a worker that is about to sleep. */
  lemma StepKeepsWindows(c: Config, s: State, a: Action)
    requires Enabled(c, s, a) && !a.PushLate?
    requires forall w | 0 <= w < |s.workers| :: s.workers[w].phase.Window? ==> s.workers[w].list == []
    ensures forall w | 0 <= w < |Apply(c, s, a).workers| ::
              Apply(c, s, a).workers[w].phase.Window? ==> Apply(c, s, a).workers[w].list == []
  {
    var t := Apply(c, s, a);
    forall w | 0 <= w < |t.workers| && t.workers[w].phase.Window? ensures t.workers[w].list == [] {
      assert s.workers[w].phase.Window? ==> s.workers[w].list == [];
    }
  }

  lemma {:induction false} RunKeepsCalm(c: Config, s: State, run: seq<Action>)
    requires Inv(c, s) && Calm(s) && IsRun(c, s, run)
    requires c.locked || (|s.batch| <= 1 && PollsWithin(run, 1))
    ensures Calm(Exec(c, s, run))
    ensures NeverMisses(c, s, run)
    decreases run
  {
    if run != [] {
      StepKeepsCalm(c, s, run[0]);
      StepKeepsInv(c, s, run[0]);
      StepLosesExactly(c, s, run[0]);
      PollsOneByOne(run, 1);
      RunKeepsCalm(c, Apply(c, s, run[0]), run[1..]);
    }
  }

  /** With every push under the mutex, or as long as no round has more than one event, no wake-up is lost. */
  lemma NoWakeUpIsLost(c: Config, s: State)
    requires c.size > 0 && Reachable(c, s) && (c.locked || RoundsWithin(s, 1))
    ensures Calm(s)
  {
    var run :| IsRun(c, Init(c), run) && Exec(c, Init(c), run) == s;
    InitLog(c);
    RoundsAreThePolls(c, Init(c), run, 1);
    RunKeepsCalm(c, Init(c), run);
  }

  // ---------------------------------------------------------------- a worker can always move

  /** A worker is without a step exactly when it is asleep. */
  lemma OnlySleepersRest(c: Config, s: State, w: nat)
    requires LogInv(c, s) && w < |s.workers|
    ensures s.workers[w].phase.Asleep? <==>
            !(Enabled(c, s, Look(w)) || Enabled(c, s, Sleep(w)) || Enabled(c, s, Test(w)) || Enabled(c, s, Log(w))
              || Enabled(c, s, Finish(w)) || Enabled(c, s, Pop(w)) || Enabled(c, s, Decrement(w)))
  {
    var x := s.workers[w];
    assert History(x) && HandlerOk(c, s, w);
    QueueContents(c, s, w);
    match x.phase {
      case Top => assert Enabled(c, s, Look(w));
      case Window => assert Enabled(c, s, Sleep(w));
      case Asleep =>
      case Saw => assert Enabled(c, s, Test(w));
      case Running(k) => assert Enabled(c, s, Log(w)) || Enabled(c, s, Finish(w));
      case Ran => assert Enabled(c, s, Pop(w));
      case Popped => assert Enabled(c, s, Decrement(w));
      case Exited =>
    }
  }

  ghost predicate SomeWorkerMoves(c: Config, s: State) {
    exists a :: WorkerStep(a) && Enabled(c, s, a)
  }

  lemma RestingMeansAsleep(c: Config, s: State)
    requires LogInv(c, s) && !SomeWorkerMoves(c, s)
    ensures forall w | 0 <= w < |s.workers| :: s.workers[w].phase.Asleep?
  {
    forall w | 0 <= w < |s.workers| ensures s.workers[w].phase.Asleep? {
      OnlySleepersRest(c, s, w);
      assert WorkerStep(Look(w)) && WorkerStep(Sleep(w)) && WorkerStep(Test(w)) && WorkerStep(Log(w));
      assert WorkerStep(Finish(w)) && WorkerStep(Pop(w)) && WorkerStep(Decrement(w));
    }
  }

  /** Workers at rest with no wake-up missed have finished everything. */
  lemma RestingMeansFinished(c: Config, s: State)
    requires LogInv(c, s) && NothingMissed(s) && s.producer.Waiting? && !SomeWorkerMoves(c, s)
    ensures AllReady(s, |s.tasks|)
  {
    RestingMeansAsleep(c, s);
    forall id | 0 <= id < |s.tasks| ensures Ready(s, id) {
      var x := s.workers[s.owner[id]];
      assert x.phase.Asleep? && x.list == [] && History(x);
      assert id in x.given && x.given == x.ran + [];
    }
  }

  /** While the reactor waits for a future that is not ready, some worker has a step to take: with every push
      under the mutex, and as written as long as no round has more than one event. */
  lemma WaitingIsNotStuck(c: Config, s: State)
    requires c.size > 0 && Reachable(c, s) && (c.locked || RoundsWithin(s, 1))
    requires s.producer.Waiting? && !Enabled(c, s, Get) && !Enabled(c, s, Flush)
    ensures SomeWorkerMoves(c, s)
  {
    ReachableLog(c, s);
    NoWakeUpIsLost(c, s);
    if !SomeWorkerMoves(c, s) {
      RestingMeansFinished(c, s);
    }
  }

  // ---------------------------------------------------------------- the workers' work is finite

  function Cost(tasks: seq<Task>, list: seq<nat>): nat {
    if list == [] then 0
    else 10 + (if list[0] < |tasks| then |tasks[list[0]]| else 0) + Cost(tasks, list[1..])
  }

  function PhaseCost(tasks: seq<Task>, x: Worker): int {
    match x.phase
    case Popped => 7
    case Top => 6
    case Saw => 5
    case Running(k) => 4 - k
    case Ran => 3 - (if x.list != [] && x.list[0] < |tasks| then |tasks[x.list[0]]| else 0)
    case Window => 1
    case Asleep => 0
    case Exited => 0
  }

  function Weight(tasks: seq<Task>): Worker -> int {
    (x: Worker) => Cost(tasks, x.list) + PhaseCost(tasks, x)
  }

  function Measure(s: State): int {
    Total(s.workers, Weight(s.tasks))
  }

  lemma WorkerGetsLighter(c: Config, s: State, a: Action)
    requires Enabled(c, s, a) && WorkerStep(a) && HandlerOk(c, s, a.w) && History(s.workers[a.w])
    requires s.workers[a.w].list != [] ==> HasFront(s, a.w)
    requires a.Test? ==> s.taskcnt != -1
    ensures var t := Apply(c, s, a);
            && t.tasks == s.tasks && |t.workers| == |s.workers| && t.workers == s.workers[a.w := t.workers[a.w]]
            && Weight(s.tasks)(t.workers[a.w]) < Weight(s.tasks)(s.workers[a.w])
  {
    var x, y := s.workers[a.w], Apply(c, s, a).workers[a.w];
    if a.Pop? {
      assert Cost(s.tasks, x.list) == 10 + |FrontTask(s, a.w)| + Cost(s.tasks, y.list);
    } else {
      assert y.list == x.list;
    }
  }

  /** Every step of a worker, in whatever interleaving, uses up some of the remaining work. */
  lemma WorkerStepsCost(c: Config, s: State, a: Action)
    requires LogInv(c, s) && Enabled(c, s, a) && WorkerStep(a)
    ensures Measure(Apply(c, s, a)) < Measure(s)
  {
    if a.Test? { NeverReadsStop(c, s, a.w); }
    assert History(s.workers[a.w]) && HandlerOk(c, s, a.w);
    QueueContents(c, s, a.w);
    WorkerGetsLighter(c, s, a);
    TotalUpdate(s.workers, Weight(s.tasks), a.w, Apply(c, s, a).workers[a.w]);
  }

  lemma {:induction false} MeasureFromBelow(ws: seq<Worker>, tasks: seq<Task>)
    requires forall w | 0 <= w < |ws| :: ws[w].phase.Running? ==>
               ws[w].list != [] && ws[w].list[0] < |tasks| && ws[w].phase.k <= |tasks[ws[w].list[0]]|
    ensures 0 <= Total(ws, Weight(tasks))
  {
    if ws != [] {
      assert forall w | 0 <= w < |ws[1..]| :: ws[1..][w] == ws[w + 1];
      MeasureFromBelow(ws[1..], tasks);
      assert ws[0].phase.Running? ==> ws[0].phase.k <= |tasks[ws[0].list[0]]|;
    }
  }

  lemma MeasureIsNatural(c: Config, s: State)
    requires LogInv(c, s)
    ensures 0 <= Measure(s)
  {
    forall w | 0 <= w < |s.workers| && s.workers[w].phase.Running?
      ensures HasFront(s, w) && s.workers[w].phase.k <= |FrontTask(s, w)|
    {
      assert HandlerOk(c, s, w);
    }
    MeasureFromBelow(s.workers, s.tasks);
  }

  predicate OnlyWorkers(run: seq<Action>) {
    forall i | 0 <= i < |run| :: WorkerStep(run[i])
  }

  lemma {:induction false} WorkIsBounded(c: Config, s: State, run: seq<Action>)
    requires LogInv(c, s) && IsRun(c, s, run) && OnlyWorkers(run)
    ensures |run| <= Measure(s)
    ensures LogInv(c, Exec(c, s, run)) && Exec(c, s, run).producer == s.producer && Exec(c, s, run).tasks == s.tasks
    decreases run
  {
    MeasureIsNatural(c, s);
    if run != [] {
      WorkerStepsCost(c, s, run[0]);
      StepKeepsLog(c, s, run[0]);
      WorkIsBounded(c, Apply(c, s, run[0]), run[1..]);
    }
  }

  lemma {:induction false} ReachableRun(c: Config, s: State, run: seq<Action>)
    requires Reachable(c, s) && IsRun(c, s, run)
    ensures Reachable(c, Exec(c, s, run))
    decreases run
  {
    if run != [] {
      ReachableStep(c, s, run[0]);
      ReachableRun(c, Apply(c, s, run[0]), run[1..]);
    }
  }

  /** Workers do not change what is remembered of the rounds. */
  lemma WorkersKeepRounds(c: Config, s: State, run: seq<Action>, b: nat)
    requires LogInv(c, s) && IsRun(c, s, run) && OnlyWorkers(run) && RoundsWithin(s, b)
    ensures RoundsWithin(Exec(c, s, run), b)
  {
    RoundsAreThePolls(c, s, run, b);
  }

  /** Once a batch is submitted, the workers can take only finitely many steps, and when none is left to
      take, every future is ready: each round reaches its flush. This holds with every push under the mutex,
      and as written as long as no round has more than one event. */
  lemma EveryBatchCompletes(c: Config, s: State, run: seq<Action>)
    requires c.size > 0 && Reachable(c, s) && (c.locked || RoundsWithin(s, 1)) && s.producer.Waiting?
    requires IsRun(c, s, run) && OnlyWorkers(run)
    ensures |run| <= Measure(s)
    ensures !SomeWorkerMoves(c, Exec(c, s, run)) ==> AllReady(Exec(c, s, run), |s.tasks|)
  {
    ReachableLog(c, s);
    WorkIsBounded(c, s, run);
    ReachableRun(c, s, run);
    if !c.locked { WorkersKeepRounds(c, s, run, 1); }
    NoWakeUpIsLost(c, Exec(c, s, run));
    if !SomeWorkerMoves(c, Exec(c, s, run)) {
      RestingMeansFinished(c, Exec(c, s, run));
    }
  }
}
