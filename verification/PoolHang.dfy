/**
 The round that never completes, in pools of every size, and with it the exact condition under which the
 program as written completes every round.
 */
module PoolHang {
  import opened PoolMachine
  import opened PoolInvariant
  import opened PoolLogging
  import opened PoolSafety
  import opened PoolProgress

  /** The reactor waits for a task that sits in the queue of a sleeping worker, and nobody can move. */
  ghost predicate Hangs(c: Config, s: State) {
    && s.producer.Waiting? && s.producer.next < |s.batch|
    && !Ready(s, s.base + s.producer.next)
    && !SomeWorkerMoves(c, s)
    && exists w | 0 <= w < |s.workers| :: s.workers[w].phase.Asleep? && s.workers[w].list != []
  }

  /** A hang is always the work of a missed notification. */
  lemma HangNeedsAMiss(c: Config, run: seq<Action>)
    requires c.size > 0 && IsRun(c, Init(c), run) && Hangs(c, Exec(c, Init(c), run))
    ensures !NeverMisses(c, Init(c), run)
  {
    var s := Exec(c, Init(c), run);
    assert Reachable(c, s);
    if NeverMisses(c, Init(c), run) {
      LostWakeUpsExactly(c, run);
      AlwaysIncludesTheEnd(c, Init(c), run);
      ReachableLog(c, s);
      RestingMeansFinished(c, s);
    }
  }

  lemma {:induction false} AlwaysIncludesTheEnd(c: Config, s: State, run: seq<Action>)
    requires IsRun(c, s, run) && AlwaysNothingMissed(c, s, run)
    ensures NothingMissed(Exec(c, s, run))
    decreases run
  {
    if run != [] {
      AlwaysIncludesTheEnd(c, Apply(c, s, run[0]), run[1..]);
    }
  }

  // ---------------------------------------------------------------- pieces of runs

  /** Submitting one silent task to a worker that is awake and outside its window, over at most one task. */
  lemma SubmitOne(c: Config, s: State, q: nat) returns (t: State)
    requires Reachable(c, s) && s.producer.Picking? && s.sent < |s.batch|
    requires s.workercnt == |s.workers| > 0 && s.taskcnt >= 0 && q == s.taskcnt % |s.workers|
    requires (s.workers[q].phase.Top? || s.workers[q].phase.Ran?) && |s.workers[q].list| <= 1
    ensures Reachable(c, t)
    ensures var x, id := s.workers[q], |s.tasks|;
            t == SetWorker(s, q, x.(list := x.list + [id], given := x.given + [id]))
                 .(taskcnt := s.taskcnt + 1, sent := s.sent + 1,
                   tasks := s.tasks + [s.batch[s.sent]], owner := s.owner + [q])
  {
    ReachableStep(c, s, Pick);
    t := Apply(c, s, Pick);
    ReachableStep(c, t, Lock);
    t := Apply(c, t, Lock);
    ReachableStep(c, t, Notify);
    t := Apply(c, t, Notify);
    ReachableStep(c, t, Increment);
    t := Apply(c, t, Increment);
  }

  /** A worker at the top of its loop that finds nothing to do falls asleep. */
  lemma FallAsleep(c: Config, s: State, w: nat) returns (t: State)
    requires Reachable(c, s) && w < |s.workers| && s.workers[w].phase.Top? && s.workers[w].list == []
    ensures Reachable(c, t) && t == SetPhase(s, w, Asleep)
  {
    ReachableStep(c, s, Look(w));
    t := Apply(c, s, Look(w));
    ReachableStep(c, t, Sleep(w));
    t := Apply(c, t, Sleep(w));
  }

  // ---------------------------------------------------------------- one event a round

  /** Worker w has finished task w, its first, and not popped it. */
  predicate HoldsItsFirst(s: State, w: nat) {
    w < |s.workers| && s.workers[w] == Worker(Ran, [w], [w], [w])
  }

  /** After n rounds of one silent event each, in which no worker got further than its first task. */
  predicate Staged(c: Config, s: State, n: nat) {
    && |s.workers| == c.size == s.workercnt && n <= c.size
    && s.taskcnt == n == s.base == |s.tasks| == |s.owner| && s.producer.Polling?
    && (forall w | 0 <= w < n :: HoldsItsFirst(s, w))
    && (forall w | n <= w < c.size :: s.workers[w] == Worker(Top, [], [], []))
    && RoundsWithin(s, 1) && |s.bounds| > 0 && s.bounds[|s.bounds| - 1] == n
  }

  lemma OneMoreRound(c: Config, s: State) returns (t: State)
    requires Reachable(c, s) && Staged(c, s, s.base) && s.base < c.size
    ensures Reachable(c, t) && Staged(c, t, s.base + 1)
  {
    var n := s.base;
    ReachableStep(c, s, Poll([[]]));
    var u := Apply(c, s, Poll([[]]));
    assert n % c.size == n;
    var v := SubmitOne(c, u, n);
    assert v.workers[n] == Worker(Top, [n], [n], []);
    var x := FinishFront(c, v, n);
    assert x.workers[n] == Worker(Ran, [n], [n], [n]);
    t := CloseRound(c, x);
    assert t.workers == s.workers[n := Worker(Ran, [n], [n], [n])];
    assert t.bounds == s.bounds + [n + 1] && t.taskcnt == n + 1;
    StagedAfter(c, s, t);
  }

  lemma StagedAfter(c: Config, s: State, t: State)
    requires Staged(c, s, s.base) && s.base < c.size && t.producer.Polling?
    requires t.workers == s.workers[s.base := Worker(Ran, [s.base], [s.base], [s.base])]
    requires t.bounds == s.bounds + [s.base + 1] && t.workercnt == s.workercnt
    requires t.taskcnt == s.base + 1 == t.base == |t.tasks| == |t.owner|
    ensures Staged(c, t, s.base + 1)
  {
    forall w | 0 <= w < s.base ensures HoldsItsFirst(t, w) {
      assert HoldsItsFirst(s, w) && t.workers[w] == s.workers[w];
    }
    forall r | 0 <= r < |t.bounds| - 1 ensures t.bounds[r + 1] <= t.bounds[r] + 1 {
      if r < |s.bounds| - 1 { assert s.bounds[r + 1] <= s.bounds[r] + 1; }
    }
  }

  /** Waiting for the only future of a round, and flushing. */
  lemma CloseRound(c: Config, s: State) returns (t: State)
    requires Reachable(c, s) && s.producer.Picking? && |s.batch| == 1 == s.sent && s.workercnt > 0 && Ready(s, s.base)
    ensures Reachable(c, t) && t.workers == s.workers && t.workercnt == s.workercnt && t.taskcnt == s.taskcnt
    ensures t.tasks == s.tasks && t.owner == s.owner && t.base == |s.tasks| && t.bounds == s.bounds + [|s.tasks|]
    ensures t.producer.Polling?
  {
    ReachableStep(c, s, Pick);
    t := Apply(c, s, Pick);
    ReachableStep(c, t, Get);
    t := Apply(c, t, Get);
    ReachableStep(c, t, Flush);
    t := Apply(c, t, Flush);
  }

  lemma {:induction false} StageRounds(c: Config, n: nat) returns (s: State)
    requires n <= c.size && c.size > 0
    ensures Reachable(c, s) && Staged(c, s, n)
    decreases n
  {
    if n == 0 {
      s := Init(c);
      InitIsReachable(c);
    } else {
      s := StageRounds(c, n - 1);
      s := OneMoreRound(c, s);
    }
  }

  // ---------------------------------------------------------------- then two events in one round

  /** The second event of the round is about to be pushed, outside the mutex, to worker 0; worker 0 still holds
      a finished task and the round's first. */
  predicate Exposed(c: Config, s: State) {
    && |s.workers| == c.size == s.workercnt && c.size > 0
    && s.producer == Unlocked(0) && s.batch == [[], []] && s.sent == 1 && s.taskcnt >= 1
    && s.base == c.size && |s.tasks| == |s.owner| == c.size + 1 && s.owner[c.size] == 0 && s.tasks[c.size] == []
    && s.workers[0] == Worker(Ran, [0, c.size], [0, c.size], [0])
    && (forall w | 1 <= w < c.size :: Settling(s.workers[w]))
    && RoundsWithin(s, 2)
  }

  /** A worker that only has to drop a finished task, if that, before it can sleep. */
  predicate Settling(x: Worker) {
    (x.phase.Ran? && |x.list| == 1) || ((x.phase.Top? || x.phase.Asleep?) && x.list == [])
  }

  lemma Expose(c: Config, s: State) returns (t: State)
    requires c.size > 0 && !c.locked && Reachable(c, s) && Staged(c, s, c.size)
    ensures Reachable(c, t) && Exposed(c, t)
  {
    assert forall w | 0 <= w < c.size :: HoldsItsFirst(s, w) && s.workers[w] == Worker(Ran, [w], [w], [w]);
    ReachableStep(c, s, Poll([[], []]));
    var u := Apply(c, s, Poll([[], []]));
    var v := SubmitOne(c, u, 0);
    assert v.workers[0] == Worker(Ran, [0, c.size], [0, c.size], [0]);
    if c.size > 1 { v := DropFront(c, v, 1); }
    assert v.taskcnt % c.size == 0;
    ReachableStep(c, v, Pick);
    var x := Apply(c, v, Pick);
    assert x.producer == Chosen(0);
    ReachableStep(c, x, Lock);
    t := Apply(c, x, Lock);
    assert t == v.(producer := Unlocked(0));
  }

  /** Worker 0 works off its queue, tests it, and misses the notification of the push into its window. */
  lemma MissTheSecond(c: Config, s: State) returns (t: State)
    requires c.size > 0 && Reachable(c, s) && Exposed(c, s)
    ensures Reachable(c, t) && t.producer == Waiting(1) && |t.batch| == 2 && t.base == c.size && RoundsWithin(t, 2)
    ensures |t.workers| == c.size && t.workers[0].phase.Asleep? && t.workers[0].list == [c.size + 1]
    ensures |t.owner| > c.size + 1 && t.owner[c.size + 1] == 0 && c.size + 1 !in t.workers[0].ran
    ensures forall w | 1 <= w < c.size :: Settling(t.workers[w])
  {
    var u := DropFront(c, s, 0);
    assert u.workers[0] == Worker(Top, [c.size], [0, c.size], [0]);
    var v := RunSilentFront(c, u, 0);
    assert v.workers[0] == Worker(Top, [], [0, c.size], [0, c.size]);
    assert v == SetWorker(s, 0, v.workers[0]).(taskcnt := v.taskcnt);
    var x := PushIntoWindow(c, v);
    assert x.workers[0] == Worker(Asleep, [c.size + 1], [0, c.size, c.size + 1], [0, c.size]);
    t := WaitForTheSecond(c, x);
  }

  lemma PushIntoWindow(c: Config, s: State) returns (t: State)
    requires Reachable(c, s) && |s.workers| > 0 && s.producer == Unlocked(0) && s.sent < |s.batch|
    requires s.workers[0].phase.Top? && s.workers[0].list == []
    ensures Reachable(c, t)
    ensures var x, id := s.workers[0], |s.tasks|;
            t == SetWorker(s, 0, Worker(Asleep, [id], x.given + [id], x.ran))
                 .(tasks := s.tasks + [s.batch[s.sent]], owner := s.owner + [0], producer := Notified(0))
  {
    ReachableStep(c, s, Look(0));
    t := Apply(c, s, Look(0));
    ReachableStep(c, t, PushLate);
    t := Apply(c, t, PushLate);
    assert t.workers[0].list == [|s.tasks|];
    ReachableStep(c, t, Notify);
    t := Apply(c, t, Notify);
    ReachableStep(c, t, Sleep(0));
    t := Apply(c, t, Sleep(0));
  }

  lemma WaitForTheSecond(c: Config, s: State) returns (t: State)
    requires Reachable(c, s) && s.producer.Notified? && s.workercnt > 0
    requires |s.batch| == 2 && s.sent == 1 && Ready(s, s.base)
    ensures Reachable(c, t) && t == s.(taskcnt := s.taskcnt + 1, sent := 2, producer := Waiting(1))
  {
    ReachableStep(c, s, Increment);
    t := Apply(c, s, Increment);
    ReachableStep(c, t, Pick);
    t := Apply(c, t, Pick);
    assert Ready(t, t.base);
    ReachableStep(c, t, Get);
    t := Apply(c, t, Get);
  }

  /** The first n workers fall asleep. */
  lemma {:induction false} AllFallAsleep(c: Config, s: State, n: nat) returns (t: State)
    requires Reachable(c, s) && 1 <= n <= |s.workers| && s.workers[0].phase.Asleep?
    requires forall w | 1 <= w < |s.workers| :: Settling(s.workers[w]) && (w >= n ==> s.workers[w].phase.Asleep?)
    requires forall w | 1 <= w < |s.workers| && s.workers[w].list != [] :: HasFront(s, w)
    ensures Reachable(c, t) && |t.workers| == |s.workers| && t.workers[0] == s.workers[0]
    ensures t == s.(workers := t.workers, taskcnt := t.taskcnt)
    ensures forall w | 0 <= w < |t.workers| :: t.workers[w].phase.Asleep?
    decreases n
  {
    if n == 1 {
      t := s;
    } else {
      var w := n - 1;
      var u := s;
      if u.workers[w].phase.Ran? { u := DropFront(c, u, w); }
      if u.workers[w].phase.Top? { u := FallAsleep(c, u, w); }
      forall v | 1 <= v < |u.workers|
        ensures Settling(u.workers[v]) && (v >= w ==> u.workers[v].phase.Asleep?)
        ensures u.workers[v].list != [] ==> HasFront(u, v)
      {
        if v != w { assert u.workers[v] == s.workers[v] && Settling(s.workers[v]); }
      }
      t := AllFallAsleep(c, u, w);
    }
  }

  /** In a pool of any size, as written, a round of two events can hang after rounds of one event. */
  lemma TwoEventsCanHang(c: Config) returns (s: State)
    requires c.size > 0 && !c.locked
    ensures Reachable(c, s) && RoundsWithin(s, 2) && Hangs(c, s)
  {
    s := StageRounds(c, c.size);
    s := Expose(c, s);
    var u := MissTheSecond(c, s);
    ReachableInv(c, u);
    forall w | 1 <= w < |u.workers| && u.workers[w].list != [] ensures HasFront(u, w) { QueueContents(c, u, w); }
    s := AllFallAsleep(c, u, c.size);
    assert RoundsWithin(s, 2);
    assert !Ready(s, s.base + 1);
    forall a | WorkerStep(a) ensures !Enabled(c, s, a) {
      if a.w < |s.workers| { assert s.workers[a.w].phase.Asleep?; }
    }
  }

  // ---------------------------------------------------------------- exactly

  lemma WiderRounds(s: State, b: nat, d: nat)
    requires RoundsWithin(s, b) && b <= d
    ensures RoundsWithin(s, d)
  {
    forall r | 0 <= r < |s.bounds| - 1 ensures s.bounds[r + 1] <= s.bounds[r] + d {
      assert s.bounds[r + 1] <= s.bounds[r] + b;
    }
  }

  lemma SmallRoundsComplete(c: Config, run: seq<Action>)
    requires c.size > 0 && IsRun(c, Init(c), run) && PollsWithin(run, 1)
    ensures !Hangs(c, Exec(c, Init(c), run)) && NeverMisses(c, Init(c), run)
  {
    InitHolds(c);
    RunKeepsCalm(c, Init(c), run);
    if Hangs(c, Exec(c, Init(c), run)) {
      HangNeedsAMiss(c, run);
    }
  }

  lemma LargerRoundsCanHang(c: Config, b: nat) returns (run: seq<Action>)
    requires c.size > 0 && !c.locked && b >= 2
    ensures IsRun(c, Init(c), run) && PollsWithin(run, b)
    ensures Hangs(c, Exec(c, Init(c), run)) && !NeverMisses(c, Init(c), run)
  {
    var s := TwoEventsCanHang(c);
    run :| IsRun(c, Init(c), run) && Exec(c, Init(c), run) == s;
    WiderRounds(s, 2, b);
    InitLog(c);
    RoundsAreThePolls(c, Init(c), run, b);
    HangNeedsAMiss(c, run);
  }

  /** The program as written, with any number of workers: no schedule hangs a round, as long as no round has
      more than b events, iff b is at most 1; and the same holds of lost wake-ups. */
  lemma RoundsCompleteExactly(c: Config, b: nat)
    requires c.size > 0 && !c.locked
    ensures (forall run | IsRun(c, Init(c), run) && PollsWithin(run, b) :: !Hangs(c, Exec(c, Init(c), run)))
            <==> b <= 1
    ensures (forall run | IsRun(c, Init(c), run) && PollsWithin(run, b) :: NeverMisses(c, Init(c), run))
            <==> b <= 1
  {
    if b <= 1 {
      forall run | IsRun(c, Init(c), run) && PollsWithin(run, b)
        ensures !Hangs(c, Exec(c, Init(c), run)) && NeverMisses(c, Init(c), run)
      {
        SmallRoundsComplete(c, run);
      }
    } else {
      var run := LargerRoundsCanHang(c, b);
    }
  }
}
