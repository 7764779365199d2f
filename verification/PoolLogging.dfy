/** The reactor's barrier: what Logger::write appends in each round. */
module PoolLogging {
  import opened PoolMachine
  import opened PoolInvariant

  /** The texts of one task among a sequence of messages, in order. */
  function Project(q: seq<Message>, id: nat): seq<string> {
    if q == [] then []
    else Project(q[..|q| - 1], id) + if q[|q| - 1].author == id then [q[|q| - 1].text] else []
  }

  lemma ProjectAppend(q: seq<Message>, m: Message, id: nat)
    ensures Project(q + [m], id) == Project(q, id) + if m.author == id then [m.text] else []
  {
    assert (q + [m])[..|q|] == q;
  }

  function Concat<T>(chunks: seq<seq<T>>): seq<T> {
    if chunks == [] then [] else Concat(chunks[..|chunks| - 1]) + chunks[|chunks| - 1]
  }

  /** What task `id` has in the logger's queue: a prefix of its messages. */
  function Pending(c: Config, s: State, id: nat): seq<string>
    requires forall w | 0 <= w < |s.workers| :: HandlerOk(c, s, w)
  {
    if !c.info || id < s.base || id >= |s.tasks| then []
    else if Ready(s, id) then s.tasks[id]
    else if AtFront(s, id) then assert HandlerOk(c, s, s.owner[id]); s.tasks[id][..s.workers[s.owner[id]].phase.k]
    else []
  }

  /** Task `id` is being run right now. */
  predicate AtFront(s: State, id: nat) {
    && id < |s.owner| && s.owner[id] < |s.workers|
    && s.workers[s.owner[id]].phase.Running?
    && HasFront(s, s.owner[id]) && s.workers[s.owner[id]].list[0] == id
  }

  predicate HandlerOk(c: Config, s: State, w: nat)
    requires w < |s.workers|
  {
    s.workers[w].phase.Running? ==>
      HasFront(s, w) && s.workers[w].phase.k <= |FrontTask(s, w)| && (c.info || s.workers[w].phase.k == 0)
  }

  ghost predicate QueueInv(c: Config, s: State) {
    && (forall w | 0 <= w < |s.workers| :: HandlerOk(c, s, w))
    && (forall id: nat :: Project(s.queue, id) == Pending(c, s, id))
    && (!c.info ==> s.queue == [])
  }

  /** Chunk r holds exactly the messages of the tasks of round r, each task's in order. */
  ghost predicate ChunkOk(c: Config, s: State, r: nat)
    requires r < |s.chunks| && |s.bounds| == |s.chunks| + 1
  {
    && s.bounds[r] <= s.bounds[r + 1] <= |s.tasks|
    && forall id: nat :: Project(s.chunks[r], id) ==
                         if c.info && s.bounds[r] <= id < s.bounds[r + 1] then s.tasks[id] else []
  }

  ghost predicate OutputInv(c: Config, s: State) {
    && |s.bounds| == |s.chunks| + 1
    && s.bounds[0] == 0 && s.bounds[|s.chunks|] == s.base
    && s.output == Concat(s.chunks)
    && forall r | 0 <= r < |s.chunks| :: ChunkOk(c, s, r)
  }

  ghost predicate LogInv(c: Config, s: State) {
    Inv(c, s) && QueueInv(c, s) && OutputInv(c, s)
  }

  // ---------------------------------------------------------------- kept by every step

  /** A step that leaves the queue alone keeps it explained, if it changes no task's share. */
  lemma SameShares(c: Config, s: State, t: State)
    requires QueueInv(c, s) && t.queue == s.queue
    requires forall w | 0 <= w < |t.workers| :: HandlerOk(c, t, w)
    requires forall id: nat :: Pending(c, s, id) == Pending(c, t, id)
    ensures QueueInv(c, t)
  {
  }

  /** Only what a task's own worker shows decides its share. */
  lemma ShareIsLocal(c: Config, s: State, t: State, id: nat)
    requires forall w | 0 <= w < |s.workers| :: HandlerOk(c, s, w)
    requires forall w | 0 <= w < |t.workers| :: HandlerOk(c, t, w)
    requires t.base == s.base && id < |s.tasks| == |s.owner| && id < |t.tasks| && id < |t.owner|
    requires s.owner[id] == t.owner[id] < |s.workers| == |t.workers| && s.tasks[id] == t.tasks[id]
    requires var x, y := s.workers[s.owner[id]], t.workers[s.owner[id]];
             && (id in x.ran <==> id in y.ran)
             && (x == y || !(x.phase.Running? || y.phase.Running?)
                 || (x.phase == y.phase && x.list != [] && y.list != [] && x.list[0] == y.list[0]))
    ensures Pending(c, s, id) == Pending(c, t, id)
  {
  }

  lemma PushKeepsQueue(c: Config, s: State, q: nat)
    requires LogInv(c, s) && q < |s.workers| && s.sent < |s.batch|
    ensures QueueInv(c, Push(s, q))
  {
    var t := Push(s, q);
    forall w | 0 <= w < |t.workers| ensures HandlerOk(c, t, w) { assert HandlerOk(c, s, w); }
    forall id: nat ensures Pending(c, s, id) == Pending(c, t, id) {
      if id < |s.tasks| {
        if s.owner[id] == q { assert HandlerOk(c, s, q); }
        ShareIsLocal(c, s, t, id);
      } else if id == |s.tasks| {
        NewTaskIsUnknown(c, s, q);
      }
    }
    SameShares(c, s, t);
  }

  lemma NewTaskIsUnknown(c: Config, s: State, q: nat)
    requires Inv(c, s) && q < |s.workers| && s.sent < |s.batch|
    ensures !Ready(Push(s, q), |s.tasks|) && !AtFront(Push(s, q), |s.tasks|)
  {
    var x := s.workers[q];
    QueueContents(c, s, q);
    assert History(x) && AtHome(s, q);
    forall j | 0 <= j < |x.ran| ensures x.ran[j] != |s.tasks| { assert x.given[j] == x.ran[j]; }
  }

  /** The front of a running worker has not finished. */
  lemma FrontIsNotReady(c: Config, s: State, w: nat)
    requires Inv(c, s) && w < |s.workers| && HasFront(s, w) && !s.workers[w].phase.Ran?
    ensures s.owner[s.workers[w].list[0]] == w && !Ready(s, s.workers[w].list[0])
    ensures s.base <= s.workers[w].list[0]
  {
    QueueContents(c, s, w);
    var id := s.workers[w].list[0];
    assert id in Unrun(s.workers[w]) && id in s.workers[w].given && AtHome(s, w);
  }

  /** Only the handler at work is affected by a step of its worker. */
  lemma WorkerKeepsHandlers(c: Config, s: State, a: Action)
    requires LogInv(c, s) && Enabled(c, s, a) && (WorkerStep(a) || a.Wake?)
    ensures forall v | 0 <= v < |Apply(c, s, a).workers| :: HandlerOk(c, Apply(c, s, a), v)
  {
    var t, w := Apply(c, s, a), a.w;
    assert t.tasks == s.tasks && |t.workers| == |s.workers|;
    OwnHandler(c, s, a);
    forall v | 0 <= v < |t.workers| ensures HandlerOk(c, t, v) {
      assert HandlerOk(c, s, v);
      if v != w { assert t.workers[v] == s.workers[v]; }
    }
  }

  lemma OwnHandler(c: Config, s: State, a: Action)
    requires LogInv(c, s) && Enabled(c, s, a) && (WorkerStep(a) || a.Wake?)
    ensures HandlerOk(c, Apply(c, s, a), a.w)
  {
    assert History(s.workers[a.w]) && HandlerOk(c, s, a.w);
    if a.Test? || a.Log? {
      QueueContents(c, s, a.w);
    }
  }

  lemma WorkerKeepsQueue(c: Config, s: State, a: Action)
    requires LogInv(c, s) && Enabled(c, s, a) && (WorkerStep(a) || a.Wake?) && !a.Log?
    ensures QueueInv(c, Apply(c, s, a))
  {
    WorkerKeepsHandlers(c, s, a);
    if a.Test? {
      NeverReadsStop(c, s, a.w);
    } else if a.Finish? {
      FrontIsNotReady(c, s, a.w);
    }
    forall id: nat ensures Pending(c, s, id) == Pending(c, Apply(c, s, a), id) {
      if id < |s.tasks| { WorkerKeepsShare(c, s, a, id); }
    }
    SameShares(c, s, Apply(c, s, a));
  }

  lemma WorkerKeepsShare(c: Config, s: State, a: Action, id: nat)
    requires Enabled(c, s, a) && (WorkerStep(a) || a.Wake?) && !a.Log?
    requires id < |s.tasks| == |s.owner| && s.owner[id] < |s.workers|
    requires forall v | 0 <= v < |s.workers| :: HandlerOk(c, s, v)
    requires forall v | 0 <= v < |Apply(c, s, a).workers| :: HandlerOk(c, Apply(c, s, a), v)
    requires a.Test? ==> s.taskcnt != -1
    requires a.Finish? ==> !Ready(s, s.workers[a.w].list[0])
    ensures Pending(c, s, id) == Pending(c, Apply(c, s, a), id)
  {
    var t := Apply(c, s, a);
    if s.owner[id] != a.w {
      assert t.workers[s.owner[id]] == s.workers[s.owner[id]];
      ShareIsLocal(c, s, t, id);
    } else if a.Test? {
      assert Ready(t, id) == Ready(s, id) && !AtFront(s, id);
    } else if a.Finish? {
      FinishKeepsShare(c, s, a.w, id);
    } else {
      assert t.workers[a.w].ran == s.workers[a.w].ran;
      ShareIsLocal(c, s, t, id);
    }
  }

  /** A handler that returns has logged everything: its prefix is the whole. */
  lemma FinishKeepsShare(c: Config, s: State, w: nat, id: nat)
    requires Enabled(c, s, Finish(w)) && id < |s.owner| && s.owner[id] == w
    requires forall v | 0 <= v < |s.workers| :: HandlerOk(c, s, v)
    requires forall v | 0 <= v < |s.workers| :: HandlerOk(c, Apply(c, s, Finish(w)), v)
    requires !Ready(s, s.workers[w].list[0])
    ensures Pending(c, s, id) == Pending(c, Apply(c, s, Finish(w)), id)
  {
    var t, front := Apply(c, s, Finish(w)), s.workers[w].list[0];
    assert HandlerOk(c, s, w) && t.workers[w].ran == s.workers[w].ran + [front];
    if id == front {
      assert Ready(t, id) && AtFront(s, id) && !Ready(s, id);
      assert s.tasks[id][..|s.tasks[id]|] == s.tasks[id];
    } else {
      assert Ready(t, id) == Ready(s, id) && !AtFront(s, id) && !AtFront(t, id);
    }
  }

  lemma LogKeepsQueue(c: Config, s: State, w: nat)
    requires LogInv(c, s) && Enabled(c, s, Log(w))
    ensures QueueInv(c, Apply(c, s, Log(w)))
  {
    var t := Apply(c, s, Log(w));
    var front, k := s.workers[w].list[0], s.workers[w].phase.k;
    WorkerKeepsHandlers(c, s, Log(w));
    FrontIsNotReady(c, s, w);
    assert |t.workers| == |s.workers| && s.owner[front] == w && !Ready(s, front) && s.base <= front < |s.owner|;
    forall id: nat ensures Project(t.queue, id) == Pending(c, t, id) {
      ProjectAppend(s.queue, Message(front, s.tasks[front][k]), id);
      assert Project(s.queue, id) == Pending(c, s, id);
      LogAddsOne(c, s, w, id);
    }
  }

  /** One more message is pending for the handler that logs it, none for any other. */
  lemma LogAddsOne(c: Config, s: State, w: nat, id: nat)
    requires Enabled(c, s, Log(w))
    requires forall v | 0 <= v < |s.workers| :: HandlerOk(c, s, v)
    requires forall v | 0 <= v < |s.workers| :: HandlerOk(c, Apply(c, s, Log(w)), v)
    requires var front := s.workers[w].list[0];
             front < |s.owner| && s.owner[front] == w && s.base <= front && !Ready(s, front)
    ensures var front, k := s.workers[w].list[0], s.workers[w].phase.k;
            Pending(c, Apply(c, s, Log(w)), id) == Pending(c, s, id) + if id == front then [s.tasks[id][k]] else []
  {
    var t, k := Apply(c, s, Log(w)), s.workers[w].phase.k;
    assert Ready(t, id) == Ready(s, id) && AtFront(t, id) == AtFront(s, id);
    if id == s.workers[w].list[0] {
      assert AtFront(s, id);
      assert s.tasks[id][..k + 1] == s.tasks[id][..k] + [s.tasks[id][k]];
    }
  }

  lemma FlushKeepsLog(c: Config, s: State)
    requires LogInv(c, s) && Enabled(c, s, Flush)
    ensures QueueInv(c, Apply(c, s, Flush)) && OutputInv(c, Apply(c, s, Flush))
  {
    var t := Apply(c, s, Flush);
    forall w | 0 <= w < |t.workers| ensures HandlerOk(c, t, w) { assert HandlerOk(c, s, w); }
    assert t.chunks[..|s.chunks|] == s.chunks;
    LastChunk(c, s);
    forall r | 0 <= r < |t.chunks| ensures ChunkOk(c, t, r) {
      if r < |s.chunks| { assert ChunkOk(c, s, r); }
    }
  }

  /** A flush finds the messages of the round's tasks, all of them. */
  lemma LastChunk(c: Config, s: State)
    requires LogInv(c, s) && Enabled(c, s, Flush)
    ensures forall id: nat :: Project(if c.info then s.queue else [], id) ==
                              if c.info && s.base <= id < |s.tasks| then s.tasks[id] else []
  {
    forall id: nat
      ensures Project(if c.info then s.queue else [], id) ==
              if c.info && s.base <= id < |s.tasks| then s.tasks[id] else []
    {
      assert Project(s.queue, id) == Pending(c, s, id);
      if id < |s.tasks| { assert Ready(s, id); }
    }
  }

  lemma StepKeepsOutput(c: Config, s: State, t: State)
    requires OutputInv(c, s)
    requires t.bounds == s.bounds && t.chunks == s.chunks && t.output == s.output && t.base == s.base
    requires s.tasks <= t.tasks
    ensures OutputInv(c, t)
  {
    forall r | 0 <= r < |t.chunks| ensures ChunkOk(c, t, r) { assert ChunkOk(c, s, r); }
  }

  /** Steps that touch neither the workers nor the tasks. */
  lemma SameWorkersKeepQueue(c: Config, s: State, t: State)
    requires QueueInv(c, s) && t.queue == s.queue
    requires t.workers == s.workers && t.tasks == s.tasks && t.owner == s.owner && t.base == s.base
    ensures QueueInv(c, t)
  {
    forall w | 0 <= w < |t.workers| ensures HandlerOk(c, t, w) { assert HandlerOk(c, s, w); }
    forall id: nat ensures Pending(c, s, id) == Pending(c, t, id) {
      assert Ready(s, id) <==> Ready(t, id);
      assert AtFront(s, id) <==> AtFront(t, id);
    }
    SameShares(c, s, t);
  }

  lemma NotifyKeepsQueue(c: Config, s: State)
    requires LogInv(c, s) && Enabled(c, s, Notify)
    ensures QueueInv(c, Apply(c, s, Notify))
  {
    var t := Apply(c, s, Notify);
    var q := s.producer.q;
    if s.workers[q].phase.Asleep? {
      var u := SetPhase(s, q, Top);
      forall w | 0 <= w < |u.workers| ensures HandlerOk(c, u, w) { assert HandlerOk(c, s, w); }
      forall id: nat ensures Pending(c, s, id) == Pending(c, u, id) {
        if id < |s.tasks| { ShareIsLocal(c, s, u, id); }
      }
      SameShares(c, s, u);
      SameWorkersKeepQueue(c, u, t);
    } else {
      SameWorkersKeepQueue(c, s, t);
    }
  }

  lemma StepKeepsLog(c: Config, s: State, a: Action)
    requires LogInv(c, s) && Enabled(c, s, a)
    ensures LogInv(c, Apply(c, s, a))
  {
    StepKeepsInv(c, s, a);
    var t := Apply(c, s, a);
    if a.Flush? {
      FlushKeepsLog(c, s);
    } else {
      StepKeepsOutput(c, s, t);
      if a.Log? {
        LogKeepsQueue(c, s, a.w);
      } else if WorkerStep(a) || a.Wake? {
        WorkerKeepsQueue(c, s, a);
      } else if a.PushLate? || (a.Lock? && t.producer.Pushed?) {
        PushKeepsQueue(c, s, s.producer.q);
      } else if a.Notify? {
        NotifyKeepsQueue(c, s);
      } else {
        SameWorkersKeepQueue(c, s, t);
      }
    }
  }

  lemma {:induction false} RunKeepsLog(c: Config, s: State, run: seq<Action>)
    requires LogInv(c, s) && IsRun(c, s, run)
    ensures LogInv(c, Exec(c, s, run))
    decreases run
  {
    if run != [] {
      StepKeepsLog(c, s, run[0]);
      RunKeepsLog(c, Apply(c, s, run[0]), run[1..]);
    }
  }

  lemma InitLog(c: Config)
    requires c.size > 0
    ensures LogInv(c, Init(c))
  {
    InitHolds(c);
  }

  lemma ReachableLog(c: Config, s: State)
    requires c.size > 0 && Reachable(c, s)
    ensures LogInv(c, s)
  {
    var run :| IsRun(c, Init(c), run) && Exec(c, Init(c), run) == s;
    InitLog(c);
    RunKeepsLog(c, Init(c), run);
  }

  // ---------------------------------------------------------------- the barrier

  /** When the log is flushed, every handler of the run so far has returned, and the queue holds exactly
      the messages of this round's tasks: all of them, each task's in the order it logged them. */
  lemma FlushFindsTheWholeRound(c: Config, s: State)
    requires c.size > 0 && Reachable(c, s) && Enabled(c, s, Flush)
    ensures |s.tasks| == s.base + |s.batch| && AllReady(s, |s.tasks|)
    ensures forall w | 0 <= w < |s.workers| :: !s.workers[w].phase.Running?
    ensures forall id: nat ::
              Project(s.queue, id) == if c.info && s.base <= id < |s.tasks| then s.tasks[id] else []
  {
    ReachableLog(c, s);
    ReadyMeansDrained(c, s);
    forall w | 0 <= w < |s.workers| ensures !s.workers[w].phase.Running? {
      assert History(s.workers[w]) && Unrun(s.workers[w]) == [];
    }
    forall id: nat
      ensures Project(s.queue, id) == if c.info && s.base <= id < |s.tasks| then s.tasks[id] else []
    {
      assert Project(s.queue, id) == Pending(c, s, id);
      if id < |s.tasks| { assert Ready(s, id); }
    }
  }

  /** The log file is the concatenation, round by round, of an interleaving of that round's messages. */
  lemma LogIsRoundByRound(c: Config, s: State)
    requires c.size > 0 && Reachable(c, s)
    ensures |s.bounds| == |s.chunks| + 1 && s.bounds[0] == 0 && s.bounds[|s.chunks|] == s.base <= |s.tasks|
    ensures s.output == Concat(s.chunks)
    ensures forall r | 0 <= r < |s.chunks| :: ChunkOk(c, s, r)
  {
    ReachableLog(c, s);
  }

  /** The message that a step logs, if it logs one. */
  function LoggedBy(c: Config, s: State, a: Action): seq<Message>
    requires Enabled(c, s, a)
  {
    if a.Log? then [Message(s.workers[a.w].list[0], FrontTask(s, a.w)[s.workers[a.w].phase.k])] else []
  }

  /** All messages of a run, in the order they were logged, whoever logged them. */
  function Logged(c: Config, s: State, run: seq<Action>): seq<Message>
    requires IsRun(c, s, run)
    decreases run
  {
    if run == [] then [] else LoggedBy(c, s, run[0]) + Logged(c, Apply(c, s, run[0]), run[1..])
  }

  lemma StepKeepsLogOrder(c: Config, s: State, a: Action)
    requires Enabled(c, s, a)
    ensures var t := Apply(c, s, a); t.output + t.queue == (s.output + s.queue) + LoggedBy(c, s, a)
  {
    var t := Apply(c, s, a);
    if a.Log? {
      assert s.output + (s.queue + LoggedBy(c, s, a)) == (s.output + s.queue) + LoggedBy(c, s, a);
    } else {
      assert t.output + t.queue == s.output + s.queue;
    }
  }

  /** Nothing is lost, repeated or reordered: file and queue together are what was logged, in that order. */
  lemma {:induction false} OutputIsInLogOrder(c: Config, s: State, run: seq<Action>)
    requires IsRun(c, s, run)
    ensures Exec(c, s, run).output + Exec(c, s, run).queue == (s.output + s.queue) + Logged(c, s, run)
    decreases run
  {
    if run != [] {
      var t, before, first := Apply(c, s, run[0]), s.output + s.queue, LoggedBy(c, s, run[0]);
      StepKeepsLogOrder(c, s, run[0]);
      OutputIsInLogOrder(c, t, run[1..]);
      var more := Logged(c, t, run[1..]);
      assert (before + first) + more == before + (first + more);
    } else {
      assert s.output + s.queue + [] == s.output + s.queue;
    }
  }

  /** So between rounds the file is exactly what the run has logged, in the order it was logged. */
  lemma FileIsTheRunsLog(c: Config, run: seq<Action>)
    requires c.size > 0 && IsRun(c, Init(c), run) && Exec(c, Init(c), run).producer.Polling?
    ensures Exec(c, Init(c), run).output == Logged(c, Init(c), run)
  {
    var s := Exec(c, Init(c), run);
    assert Reachable(c, s);
    NothingLeftOver(c, s);
    OutputIsInLogOrder(c, Init(c), run);
    assert s.output + s.queue == s.output && Init(c).output + Init(c).queue == [];
    assert [] + Logged(c, Init(c), run) == Logged(c, Init(c), run);
  }

  /** Between rounds nothing waits to be written. */
  lemma NothingLeftOver(c: Config, s: State)
    requires c.size > 0 && Reachable(c, s) && s.producer.Polling?
    ensures s.queue == []
  {
    ReachableLog(c, s);
    AuthorShows(s.queue);
    assert forall id: nat :: Project(s.queue, id) == Pending(c, s, id) == [];
  }

  lemma AuthorShows(q: seq<Message>)
    ensures q != [] ==> Project(q, q[|q| - 1].author) != []
  {
  }
}
