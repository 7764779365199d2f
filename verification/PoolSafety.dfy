/** What holds in every reachable state: the counter, the stop signal, the queue index, the order of execution. */
module PoolSafety {
  import opened PoolMachine
  import opened PoolInvariant

  /** taskcnt is the queued tasks, plus those popped and not decremented, minus one pushed and not counted. */
  lemma CounterIsExact(c: Config, s: State)
    requires c.size > 0 && Reachable(c, s)
    ensures s.taskcnt == Total(s.workers, Account) - (if s.producer.Pushed? || s.producer.Notified? then 1 else 0)
  {
    ReachableInv(c, s);
  }

  /** taskcnt is -1 exactly while one task has been pushed, run, popped and decremented before it was counted. */
  lemma StopValueExactly(c: Config, s: State)
    requires c.size > 0 && Reachable(c, s)
    ensures s.taskcnt >= -1 && |s.workers| == c.size
    ensures s.taskcnt == -1 <==>
            && (s.producer.Pushed? || s.producer.Notified?)
            && forall w | 0 <= w < c.size :: s.workers[w].list == [] && !s.workers[w].phase.Popped?
  {
    ReachableInv(c, s);
    AccountsNonNegative(s.workers);
  }

  /** The stop value is reached in ordinary runs, whatever the pool's size. */
  lemma StopValueOccurs(c: Config)
    requires c.size > 0
    ensures exists s :: Reachable(c, s) && s.taskcnt == -1
  {
    var s0 := Init(c);
    InitIsReachable(c);
    var s1 := Apply(c, s0, Poll([[]]));
    ReachableStep(c, s0, Poll([[]]));
    var s2 := Apply(c, s1, Pick);
    ReachableStep(c, s1, Pick);
    assert s2.producer == Chosen(0);
    var s3 := Apply(c, s2, Lock);
    ReachableStep(c, s2, Lock);
    assert s2.workers[0] == Worker(Top, [], [], []) && s2.tasks == [];
    assert s3.workers[0] == Worker(Top, [0], [0], []) && s3.tasks == [[]] && s3.taskcnt == 0;
    var s4 := RunSilentFront(c, s3, 0);
    assert Reachable(c, s4) && s4.taskcnt == -1;
  }

  /** A worker at the top of its loop runs the silent task at the front of its queue. */
  lemma FinishFront(c: Config, s: State, w: nat) returns (t: State)
    requires Reachable(c, s) && HasFront(s, w) && FrontTask(s, w) == [] && s.workers[w].phase.Top? && s.taskcnt != -1
    ensures Reachable(c, t)
    ensures var x := s.workers[w]; t == SetWorker(s, w, x.(phase := Ran, ran := x.ran + [x.list[0]]))
  {
    ReachableStep(c, s, Look(w));
    t := Apply(c, s, Look(w));
    ReachableStep(c, t, Test(w));
    t := Apply(c, t, Test(w));
    ReachableStep(c, t, Finish(w));
    t := Apply(c, t, Finish(w));
  }

  /** It drops the finished task and returns to the top. */
  lemma DropFront(c: Config, s: State, w: nat) returns (t: State)
    requires Reachable(c, s) && HasFront(s, w) && s.workers[w].phase.Ran?
    ensures Reachable(c, t)
    ensures var x := s.workers[w];
            t == SetWorker(s, w, x.(phase := Top, list := x.list[1..])).(taskcnt := s.taskcnt - 1)
  {
    ReachableStep(c, s, Pop(w));
    t := Apply(c, s, Pop(w));
    ReachableStep(c, t, Decrement(w));
    t := Apply(c, t, Decrement(w));
  }

  lemma RunSilentFront(c: Config, s: State, w: nat) returns (t: State)
    requires Reachable(c, s) && HasFront(s, w) && FrontTask(s, w) == [] && s.workers[w].phase.Top? && s.taskcnt != -1
    ensures Reachable(c, t)
    ensures var x := s.workers[w];
            t == SetWorker(s, w, Worker(Top, x.list[1..], x.given, x.ran + [x.list[0]])).(taskcnt := s.taskcnt - 1)
  {
    t := FinishFront(c, s, w);
    t := DropFront(c, t, w);
  }

  /** Nevertheless no worker ever acts on it: one that saw a task never reads -1, so no worker leaves. */
  lemma NoWorkerEverLeaves(c: Config, s: State, w: nat)
    requires c.size > 0 && Reachable(c, s) && w < c.size
    ensures |s.workers| == c.size == s.workercnt
    ensures !s.workers[w].phase.Exited?
    ensures s.workers[w].phase.Saw? ==> s.taskcnt >= 0 && s.workers[w].list != []
  {
    ReachableInv(c, s);
    assert History(s.workers[w]);
    if s.workers[w].phase.Saw? {
      NeverReadsStop(c, s, w);
    }
  }

  /** The producer's queue index is always a queue, and the truncating remainder is the ordinary one. */
  lemma QueueIndexInRange(c: Config, s: State)
    requires c.size > 0 && Reachable(c, s)
    ensures s.producer.Picking? ==>
              s.workercnt == c.size && Remainder(s.taskcnt, s.workercnt) == s.taskcnt % c.size && s.taskcnt >= 0
    ensures s.producer.Chosen? || s.producer.Unlocked? || s.producer.Pushed? || s.producer.Notified? ==>
              0 <= s.producer.q < c.size
  {
    ReachableInv(c, s);
    if s.producer.Picking? {
      PickIsNonNegative(c, s);
    }
  }

  /** Over unboundedly many rounds the counter stays within one batch plus one task a worker. */
  lemma CounterBounds(c: Config, s: State)
    requires c.size > 0 && Reachable(c, s)
    ensures -1 <= s.taskcnt <= 1024 + c.size
    ensures s.producer.Polling? ==> 0 <= s.taskcnt <= c.size
  {
    ReachableInv(c, s);
    AccountsNonNegative(s.workers);
    SumsLinked(s.workers);
  }

  // ---------------------------------------------------------------- each task once, in order

  /** The tasks submitted to queue w, oldest first. */
  function Submitted(owner: seq<nat>, w: nat): seq<nat> {
    if owner == [] then []
    else Submitted(owner[..|owner| - 1], w) + if owner[|owner| - 1] == w then [|owner| - 1] else []
  }

  predicate GivenInOrder(s: State) {
    |s.owner| == |s.tasks| &&
    forall w | 0 <= w < |s.workers| :: s.workers[w].given == Submitted(s.owner, w)
  }

  lemma StepKeepsGiven(c: Config, s: State, a: Action)
    requires GivenInOrder(s) && Enabled(c, s, a)
    ensures GivenInOrder(Apply(c, s, a))
  {
    var t := Apply(c, s, a);
    if a.PushLate? || (a.Lock? && t.producer.Pushed?) {
      var q := s.producer.q;
      assert t.owner == s.owner + [q] && t.owner[..|s.owner|] == s.owner;
      forall w | 0 <= w < |t.workers| ensures t.workers[w].given == Submitted(t.owner, w) {
        assert s.workers[w].given == Submitted(s.owner, w);
        assert w != q ==> t.workers[w] == s.workers[w];
      }
    } else {
      assert t.owner == s.owner;
      assert forall w | 0 <= w < |t.workers| :: t.workers[w].given == s.workers[w].given;
    }
  }

  lemma {:induction false} RunKeepsGiven(c: Config, s: State, run: seq<Action>)
    requires GivenInOrder(s) && IsRun(c, s, run)
    ensures GivenInOrder(Exec(c, s, run))
    decreases run
  {
    if run != [] {
      StepKeepsGiven(c, s, run[0]);
      RunKeepsGiven(c, Apply(c, s, run[0]), run[1..]);
    }
  }

  /** Each worker has run a prefix of what was submitted to it, and its queue is the rest, except that
      the front may have run already. */
  lemma RunsInSubmissionOrder(c: Config, s: State, w: nat)
    requires c.size > 0 && Reachable(c, s) && w < c.size
    ensures w < |s.workers|
    ensures var x := s.workers[w];
            && (x.phase.Ran? ==> x.list != [] && x.ran != [] && x.list[0] == x.ran[|x.ran| - 1])
            && Submitted(s.owner, w) == x.ran + (if x.phase.Ran? then x.list[1..] else x.list)
  {
    ReachableInv(c, s);
    var run :| IsRun(c, Init(c), run) && Exec(c, Init(c), run) == s;
    RunKeepsGiven(c, Init(c), run);
    assert History(s.workers[w]);
  }

  /** Every submitted task has either run, once, or waits unrun, once, and always at its own worker. */
  lemma EachTaskOnce(c: Config, s: State, id: nat, v: nat)
    requires c.size > 0 && Reachable(c, s) && v < c.size
    ensures |s.workers| == c.size && |s.owner| == |s.tasks|
    ensures id in s.workers[v].ran || id in Unrun(s.workers[v]) <==> id < |s.tasks| && s.owner[id] == v
    ensures multiset(s.workers[v].ran + Unrun(s.workers[v]))[id] <= 1
  {
    ReachableInv(c, s);
    var x := s.workers[v];
    assert History(x) && AtHome(s, v);
    if id < |s.tasks| && s.owner[id] == v {
      assert id in x.given;
    }
    if id in x.given {
      var j :| 0 <= j < |x.given| && x.given[j] == id;
    }
    assert id in x.given <==> id in x.ran || id in Unrun(x);
    IncreasingOnce(x.given, id);
  }

  lemma {:induction false} IncreasingOnce(q: seq<nat>, id: nat)
    requires Increasing(q)
    ensures multiset(q)[id] <= 1
  {
    if q != [] {
      var last := |q| - 1;
      assert q == q[..last] + [q[last]];
      IncreasingOnce(q[..last], id);
      if id == q[last] {
        forall j | 0 <= j < last ensures q[..last][j] != id { }
        assert id !in q[..last];
      }
    }
  }

  // ---------------------------------------------------------------- batches and the stop value

  /** Any batch of at most 1024 events can be a round's, and no larger one. */
  lemma BatchesExactly(c: Config, events: seq<Task>)
    requires c.size > 0
    ensures (exists s :: Reachable(c, s) && s.batch == events) <==> |events| <= 1024
  {
    if |events| <= 1024 {
      InitIsReachable(c);
      ReachableStep(c, Init(c), Poll(events));
      assert Reachable(c, Apply(c, Init(c), Poll(events)));
    }
    forall s | Reachable(c, s) ensures |s.batch| <= 1024 { ReachableInv(c, s); }
  }

  /** What reading the stop value would do, were it ever read: that worker leaves, and one fewer is counted. */
  lemma ReadingTheStopValueLeaves(c: Config, s: State, w: nat)
    requires Enabled(c, s, Test(w))
    ensures var t := Apply(c, s, Test(w));
            && |t.workers| == |s.workers|
            && (t.workers[w].phase == if s.taskcnt == -1 then Exited else Running(0))
            && t.workercnt == s.workercnt - if s.taskcnt == -1 then 1 else 0
  {
  }
}
