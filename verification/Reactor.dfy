/**
 emplace_back, the reactor's round, a worker's turn and the logger as they run, with everybody else taking any
 number of steps in between. Every atomic access is one step of the pool machine, so what is proved of all its
 reachable states holds at each line.
 */
module Reactor {
  import opened PoolMachine
  import opened PoolInvariant
  import opened PoolLogging
  import opened PoolHang
  import opened PoolProgress
  import opened PoolSafety
  import opened Chars

  class Logger {
    var messList: seq<Message>
    var file: seq<Message>

    constructor ()
      ensures messList == [] && file == []
    {
      messList, file := [], [];
    }

    /** Logger::log, under the logger's mutex. */
    method Log(mess: Message)
      modifies this
      ensures messList == old(messList) + [mess] && file == old(file)
    {
      messList := messList + [mess];
    }

    /** Logger::write, under the logger's mutex: oldest message first, until the queue is empty. */
    method Write()
      modifies this
      ensures messList == [] && file == old(file) + old(messList)
    {
      ghost var before := messList;
      ghost var i := 0;
      while messList != []
        invariant i <= |before| && messList == before[i..]
        invariant file == old(file) + before[..i]
        decreases |messList|
      {
        var mess := messList[0];
        file := file + [mess];
        messList := messList[1..];
        assert before[..i + 1] == before[..i] + [mess];
        i := i + 1;
      }
      assert before[..i] == before;
    }
  }

  /** The step a worker takes next, unless it is asleep. */
  function NextStep(c: Config, s: State, w: nat): Option<Action>
    requires w < |s.workers|
  {
    match s.workers[w].phase
    case Top => Some(Look(w))
    case Window => Some(Sleep(w))
    case Asleep => None
    case Saw => Some(Test(w))
    case Running(k) => if Enabled(c, s, Log(w)) then Some(Log(w)) else Some(Finish(w))
    case Ran => Some(Pop(w))
    case Popped => Some(Decrement(w))
    case Exited => None
  }

  lemma NextStepIsEnabled(c: Config, s: State, w: nat)
    requires LogInv(c, s) && w < |s.workers|
    ensures NextStep(c, s, w) == None <==> s.workers[w].phase.Asleep?
    ensures NextStep(c, s, w).Some? ==>
              Enabled(c, s, NextStep(c, s, w).value) && WorkerStep(NextStep(c, s, w).value)
  {
    assert History(s.workers[w]) && HandlerOk(c, s, w);
    match s.workers[w].phase {
      case Running(k) => assert Enabled(c, s, Log(w)) || Enabled(c, s, Finish(w));
      case Ran =>
        QueueContents(c, s, w);
        assert HasFront(s, w);
      case _ =>
    }
  }

  /** What the workers cannot change. */
  predicate SameRound(s: State, t: State) {
    && t.producer == s.producer && t.batch == s.batch && t.sent == s.sent && t.tasks == s.tasks && t.owner == s.owner
    && t.base == s.base && t.output == s.output && t.chunks == s.chunks && t.bounds == s.bounds
  }

  /** The next event of the batch has become a task of queue q. */
  function Pushing(s: State, q: nat): State
    requires s.sent < |s.batch|
  {
    s.(tasks := s.tasks + [s.batch[s.sent]], owner := s.owner + [q])
  }

  lemma WorkersKeepRound(c: Config, s: State, a: Action)
    requires Enabled(c, s, a) && (WorkerStep(a) || a.Wake?)
    ensures SameRound(s, Apply(c, s, a))
  {
  }

  /** What the others may do to a worker: lengthen its queue, and wake it. */
  predicate LeftAlone(x: Worker, y: Worker) {
    (y.phase == x.phase || (x.phase.Asleep? && y.phase.Top?)) && y.ran == x.ran && x.list <= y.list
  }

  lemma OthersLeaveAlone(c: Config, s: State, a: Action, w: nat)
    requires Enabled(c, s, a) && w < |s.workers| && !(WorkerStep(a) && a.w == w)
    ensures var t := Apply(c, s, a);
            |t.workers| == |s.workers| && LeftAlone(s.workers[w], t.workers[w]) && s.tasks <= t.tasks
  {
    var t := Apply(c, s, a);
    if (WorkerStep(a) || a.Wake?) && a.w != w {
      assert t.workers[w] == s.workers[w];
    }
  }

  class Server {
    const c: Config
    const logger: Logger
    var workers: seq<Worker>
    var taskcnt: int
    var workercnt: int
    var producer: Producer
    var batch: seq<Task>
    var sent: nat
    var tasks: seq<Task>
    var owner: seq<nat>
    var base: nat
    var chunks: seq<seq<Message>>
    var bounds: seq<nat>

    function S(): State
      reads this, logger
    {
      State(workers, taskcnt, workercnt, producer, batch, sent, tasks, owner, base,
            logger.messList, logger.file, chunks, bounds)
    }

    ghost predicate Valid()
      reads this, logger
    {
      c.size > 0 && Reachable(c, S())
    }

    constructor (c: Config)
      requires c.size > 0
      ensures Valid() && S() == Init(c) && this.c == c && fresh(logger)
    {
      this.c := c;
      logger := new Logger();
      var s := Init(c);
      workers, taskcnt, workercnt, producer := s.workers, s.taskcnt, s.workercnt, s.producer;
      batch, sent, tasks, owner, base := s.batch, s.sent, s.tasks, s.owner, s.base;
      chunks, bounds := s.chunks, s.bounds;
      new;
      InitIsReachable(c);
    }

    /** The environment: somebody takes a step of the machine. */
    method Happens(a: Action)
      requires Valid() && Enabled(c, S(), a)
      modifies this, logger
      ensures Valid() && S() == Apply(c, old(S()), a)
    {
      ReachableStep(c, S(), a);
      Become(Apply(c, S(), a));
    }

    method Become(t: State)
      modifies this, logger
      ensures S() == t
    {
      workers, taskcnt, workercnt, producer := t.workers, t.taskcnt, t.workercnt, t.producer;
      batch, sent, tasks, owner, base := t.batch, t.sent, t.tasks, t.owner, t.base;
      chunks, bounds := t.chunks, t.bounds;
      logger.messList, logger.file := t.queue, t.output;
    }

    // ---------------------------------------------------------------- a worker's turn

    /** Everybody but worker w runs while w is between two of its accesses. */
    method Others(w: nat)
      requires Valid() && w < |workers|
      modifies this, logger
      ensures Valid() && |workers| == old(|workers|) && LeftAlone(old(workers[w]), workers[w]) && old(tasks) <= tasks
    {
      var n: nat := *;
      while n > 0
        invariant Valid() && |workers| == old(|workers|)
        invariant LeftAlone(old(workers[w]), workers[w]) && old(tasks) <= tasks
      {
        var a: Action := *;
        if !(WorkerStep(a) && a.w == w) && Enabled(c, S(), a) {
          OthersLeaveAlone(c, S(), a, w);
          Happens(a);
        }
        n := n - 1;
      }
    }

    /** Under the mutex: test the queue, and wait if it is empty. */
    method TestQueue(w: nat) returns (found: bool)
      requires Valid() && w < |workers| && workers[w].phase.Top?
      modifies this, logger
      ensures Valid() && |workers| == old(|workers|) && workers[w].ran == old(workers[w].ran)
      ensures if found then workers[w].phase.Saw? else workers[w].phase.Asleep? || workers[w].phase.Top?
      ensures old(workers[w].list) <= workers[w].list && (old(workers[w].list) != [] ==> found)
    {
      Others(w);
      ReachableStep(c, S(), Look(w));
      if workers[w].list == [] {
        workers := workers[w := workers[w].(phase := Window)];
        Others(w);
        ReachableStep(c, S(), Sleep(w));
        workers := workers[w := workers[w].(phase := Asleep)];
        Others(w);
        return false;
      }
      workers := workers[w := workers[w].(phase := Saw)];
      return true;
    }

    /** if(taskcnt.load() != -1) ... else workercnt--, break: the second branch is never taken. */
    method LoadCounter(w: nat)
      requires Valid() && w < |workers| && workers[w].phase.Saw?
      modifies this, logger
      ensures Valid() && |workers| == old(|workers|)
      ensures workers[w].phase == Running(0) && workers[w].ran == old(workers[w].ran)
      ensures old(workers[w].list) <= workers[w].list
    {
      Others(w);
      ReachableStep(c, S(), Test(w));
      if taskcnt != -1 {
        workers := workers[w := workers[w].(phase := Running(0))];
      } else {
        workers := workers[w := workers[w].(phase := Exited)];
        workercnt := workercnt - 1;
      }
      NoWorkerEverLeaves(c, S(), 0);
      NoWorkerEverLeaves(c, S(), w);
    }

    /** list[i].front()(): the handler logs its messages, if the log level is high enough, and returns. */
    method RunFront(w: nat)
      requires Valid() && w < |workers| && workers[w].phase == Running(0)
      modifies this, logger
      ensures Valid() && |workers| == old(|workers|)
      ensures workers[w].phase.Ran? && workers[w].list != []
      ensures workers[w].ran == old(workers[w].ran) + [workers[w].list[0]] && old(workers[w].list) <= workers[w].list
    {
      FrontExists(w);
      var id := workers[w].list[0];
      var task := tasks[id];
      var k := 0;
      while c.info && k < |task|
        invariant Valid() && |workers| == old(|workers|) && workers[w].phase == Running(k) && k <= |task|
        invariant workers[w].list != [] && workers[w].list[0] == id && workers[w].ran == old(workers[w].ran)
        invariant old(workers[w].list) <= workers[w].list
        invariant id < |tasks| && tasks[id] == task && (!c.info ==> k == 0)
      {
        Others(w);
        ReachableStep(c, S(), Log(w));
        logger.Log(Message(id, task[k]));
        k := k + 1;
        workers := workers[w := workers[w].(phase := Running(k))];
      }
      Others(w);
      ReachableStep(c, S(), Finish(w));
      workers := workers[w := workers[w].(phase := Ran, ran := workers[w].ran + [id])];
    }

    /** pop_front, then taskcnt--. */
    method PopFront(w: nat)
      requires Valid() && w < |workers| && workers[w].phase.Ran? && workers[w].list != []
      modifies this, logger
      ensures Valid() && |workers| == old(|workers|)
      ensures workers[w].phase.Top? && workers[w].ran == old(workers[w].ran)
      ensures old(workers[w].list)[1..] <= workers[w].list
    {
      Others(w);
      FrontExists(w);
      ReachableStep(c, S(), Pop(w));
      workers := workers[w := workers[w].(phase := Popped, list := workers[w].list[1..])];
      CountDown(w);
    }

    method CountDown(w: nat)
      requires Valid() && w < |workers| && workers[w].phase.Popped?
      modifies this, logger
      ensures Valid() && |workers| == old(|workers|)
      ensures workers[w].phase.Top? && workers[w].ran == old(workers[w].ran)
      ensures old(workers[w].list) <= workers[w].list
    {
      Others(w);
      ReachableStep(c, S(), Decrement(w));
      taskcnt := taskcnt - 1;
      workers := workers[w := workers[w].(phase := Top)];
    }

    /** One turn of a worker's loop, among all others: it runs the task at the front of its queue, the next
        submitted to it, exactly that, and drops it; or it goes to sleep over a queue that was empty. It never
        leaves its loop. */
    method WorkerTurn(w: nat) returns (worked: bool)
      requires Valid() && w < |workers| && workers[w].phase.Top?
      modifies this, logger
      ensures Valid() && |workers| == old(|workers|)
      ensures worked ==>
                && workers[w].phase.Top? && workers[w].ran <= Submitted(owner, w)
                && |workers[w].ran| == |old(workers[w].ran)| + 1 && old(workers[w].ran) <= workers[w].ran
      ensures old(workers[w].list) != [] ==>
                && worked && workers[w].ran == old(workers[w].ran) + [old(workers[w].list)[0]]
                && old(workers[w].list)[1..] <= workers[w].list
      ensures !worked ==>
                (workers[w].phase.Asleep? || workers[w].phase.Top?) && workers[w].ran == old(workers[w].ran)
    {
      worked := TestQueue(w);
      if worked {
        LoadCounter(w);
        RunFront(w);
        PopFront(w);
        NoWorkerEverLeaves(c, S(), 0);
        RunsInSubmissionOrder(c, S(), w);
      }
    }

    lemma FrontExists(w: nat)
      requires Valid() && w < |workers| && (workers[w].phase.Running? || workers[w].phase.Ran?)
      ensures HasFront(S(), w)
    {
      ReachableInv(c, S());
      assert History(workers[w]);
      QueueContents(c, S(), w);
    }

    // ---------------------------------------------------------------- the reactor

    /** The workers run while the reactor is between two of its accesses: any steps, any number of them. */
    method Interference()
      requires Valid()
      modifies this, logger
      ensures Valid() && SameRound(old(S()), S())
    {
      var n: nat := *;
      while n > 0
        invariant Valid() && SameRound(old(S()), S())
      {
        var a: Action := *;
        if (WorkerStep(a) || a.Wake?) && Enabled(c, S(), a) {
          WorkersKeepRound(c, S(), a);
          Happens(a);
        }
        n := n - 1;
      }
    }

    /** Taking mutex q: its worker may hold it until it sleeps. */
    method LockMutex(q: nat)
      requires Valid() && q < |workers|
      modifies this, logger
      ensures Valid() && SameRound(old(S()), S()) && |workers| == old(|workers|) && !workers[q].phase.Window?
    {
      NoWorkerEverLeaves(c, S(), 0);
      Interference();
      NoWorkerEverLeaves(c, S(), 0);
      if workers[q].phase.Window? {
        Happens(Sleep(q));
      }
    }

    /** thread_id = taskcnt % workercnt */
    method ChooseQueue() returns (threadId: nat)
      requires Valid() && producer.Picking? && sent < |batch|
      modifies this, logger
      ensures Valid() && SameRound(old(S()).(producer := Chosen(threadId)), S())
      ensures threadId < |workers| == c.size && threadId == taskcnt % c.size
    {
      Interference();
      QueueIndexInRange(c, S());
      threadId := Remainder(taskcnt, workercnt);
      ReachableStep(c, S(), Pick);
      producer := Chosen(threadId);
      NoWorkerEverLeaves(c, S(), 0);
    }

    /** Locks the queue and pushes, or, over more than one task, unlocks it first. */
    method PushTask(threadId: nat)
      requires Valid() && producer == Chosen(threadId) && threadId < |workers| && sent < |batch|
      modifies this, logger
      ensures Valid() && threadId < |workers|
      ensures SameRound(Pushing(old(S()), threadId).(producer := Pushed(threadId)), S())
    {
      LockMutex(threadId);
      ReachableStep(c, S(), Lock);
      if c.locked || |workers[threadId].list| <= 1 {
        PushBack(threadId);
      } else {
        producer := Unlocked(threadId);
        PushUnlocked(threadId);
      }
    }

    method PushUnlocked(threadId: nat)
      requires Valid() && producer == Unlocked(threadId) && threadId < |workers| && sent < |batch|
      modifies this, logger
      ensures Valid() && threadId < |workers|
      ensures SameRound(Pushing(old(S()), threadId).(producer := Pushed(threadId)), S())
    {
      NoWorkerEverLeaves(c, S(), 0);
      Interference();
      NoWorkerEverLeaves(c, S(), 0);
      ReachableStep(c, S(), PushLate);
      PushBack(threadId);
    }

    /** cv_jobaddvec[thread_id].notify_one() */
    method NotifyOne(threadId: nat)
      requires Valid() && producer == Pushed(threadId) && threadId < |workers|
      modifies this, logger
      ensures Valid() && SameRound(old(S()).(producer := Notified(threadId)), S())
      ensures threadId < |workers| && !workers[threadId].phase.Asleep?
    {
      NoWorkerEverLeaves(c, S(), 0);
      Interference();
      NoWorkerEverLeaves(c, S(), 0);
      ReachableStep(c, S(), Notify);
      if workers[threadId].phase.Asleep? {
        workers := workers[threadId := workers[threadId].(phase := Top)];
      }
      producer := Notified(threadId);
    }

    /** taskcnt++. Now the counter is exactly the tasks that workers still owe it. */
    method CountTask()
      requires Valid() && producer.Notified?
      modifies this, logger
      ensures Valid() && SameRound(old(S()).(producer := Picking, sent := old(sent) + 1), S())
      ensures taskcnt == Total(workers, Account)
    {
      Interference();
      ReachableStep(c, S(), Increment);
      taskcnt := taskcnt + 1;
      sent := sent + 1;
      producer := Picking;
      CounterIsExact(c, S());
    }

    /** ThreadPool::emplace_back of the next event of the batch. The queue index is a queue, the task goes to
        the end of it, and is counted last, whatever the workers do meanwhile. */
    method EmplaceBack()
      requires Valid() && producer.Picking? && sent < |batch|
      modifies this, logger
      ensures Valid()
      ensures taskcnt == Total(workers, Account)
      ensures exists q: nat :: q < c.size &&
                SameRound(Pushing(old(S()), q).(sent := old(sent) + 1), S())
    {
      var threadId := ChooseQueue();
      PushTask(threadId);
      NotifyOne(threadId);
      NoWorkerEverLeaves(c, S(), 0);
      CountTask();
      assert threadId < c.size;
      assert SameRound(Pushing(old(S()), threadId).(sent := old(sent) + 1), S());
    }

    method PushBack(q: nat)
      requires q < |workers| && sent < |batch|
      modifies this
      ensures S() == Push(old(S()), q)
      ensures q < |workers| && workers[q].list == old(workers[q].list) + [|old(tasks)|]
      ensures tasks == old(tasks) + [old(batch[sent])]
    {
      var id := |tasks|;
      var x := workers[q];
      workers := workers[q := x.(list := x.list + [id], given := x.given + [id])];
      tasks := tasks + [batch[sent]];
      owner := owner + [q];
      producer := Pushed(q);
    }

    /** The workers run, in any order, until task `id` has finished or all of them are asleep. */
    method RunWorkersUntil(id: nat)
      requires Valid()
      modifies this, logger
      ensures Valid() && SameRound(old(S()), S())
      ensures Ready(S(), id) || forall w | 0 <= w < |workers| :: NextStep(c, S(), w) == None
    {
      ReachableLog(c, S());
      MeasureIsNatural(c, S());
      while !Ready(S(), id) && exists w :: 0 <= w < |workers| && NextStep(c, S(), w).Some?
        invariant Valid() && SameRound(old(S()), S()) && 0 <= Measure(S())
        decreases Measure(S())
      {
        var w :| 0 <= w < |workers| && NextStep(c, S(), w).Some?;
        WorkerMoves(w);
      }
    }

    method WorkerMoves(w: nat)
      requires Valid() && w < |workers| && NextStep(c, S(), w).Some?
      modifies this, logger
      ensures Valid() && SameRound(old(S()), S()) && 0 <= Measure(S()) < Measure(old(S()))
    {
      var a := NextStep(c, S(), w).value;
      ReachableLog(c, S());
      NextStepIsEnabled(c, S(), w);
      WorkerStepsCost(c, S(), a);
      WorkersKeepRound(c, S(), a);
      Happens(a);
      ReachableLog(c, S());
      MeasureIsNatural(c, S());
    }

    /** fut[i].get(). If all workers fall asleep first, the call never returns (false); with every push under
        the mutex that cannot happen. */
    method WaitForFuture() returns (ready: bool)
      requires Valid() && producer.Waiting? && producer.next < |batch|
      modifies this, logger
      ensures Valid()
      ensures c.locked || RoundsWithin(S(), 1) ==> ready
      ensures ready ==> SameRound(old(S()).(producer := Waiting(old(producer.next) + 1)), S())
      ensures !ready ==> Hangs(c, S()) && batch == old(batch) && bounds == old(bounds)
    {
      RunWorkersUntil(base + producer.next);
      ready := Ready(S(), base + producer.next);
      if ready {
        GetFuture();
      } else {
        NobodyMoves();
      }
    }

    method GetFuture()
      requires Valid() && producer.Waiting? && producer.next < |batch| && Ready(S(), base + producer.next)
      modifies this
      ensures Valid() && S() == old(S()).(producer := Waiting(old(producer.next) + 1))
    {
      ReachableStep(c, S(), Get);
      producer := Waiting(producer.next + 1);
    }

    /** One turn of handle_events: submit the batch, wait for every future, flush the log. */
    method HandleRound(events: seq<Task>) returns (done: bool)
      requires Valid() && producer.Polling? && |events| <= MAX_EVENT
      modifies this, logger
      ensures Valid()
      ensures c.locked || RoundsWithin(S(), 1) ==> done
      ensures !done ==> Hangs(c, S()) && batch == events && bounds == old(bounds)
      ensures done ==>
                && producer.Polling? && logger.messList == [] && tasks == old(tasks) + events
                && (exists chunk :: chunks == old(chunks) + [chunk] && logger.file == old(logger.file) + chunk)
                && |bounds| == |chunks| + 1 && bounds == old(bounds) + [|tasks|]
                && ChunkOk(c, S(), |chunks| - 1)
    {
      Interference();
      ReachableStep(c, S(), Poll(events));
      producer, batch, sent := Picking, events, 0;
      SubmitBatch();
      done := AwaitBatch();
      if done {
        FlushRound();
      }
    }

    method SubmitBatch()
      requires Valid() && producer.Picking? && sent == 0
      modifies this, logger
      ensures Valid() && producer == Waiting(0) && batch == old(batch) && tasks == old(tasks) + batch
      ensures base == old(base) && logger.file == old(logger.file) && chunks == old(chunks) && bounds == old(bounds)
    {
      assert batch[..0] == [] && tasks == tasks + [];
      while sent < |batch|
        invariant Valid() && producer.Picking? && sent <= |batch| && batch == old(batch)
        invariant tasks == old(tasks) + batch[..sent]
        invariant base == old(base) && logger.file == old(logger.file) && chunks == old(chunks) && bounds == old(bounds)
        decreases |batch| - sent
      {
        ghost var before := sent;
        EmplaceBack();
        assert batch[..before + 1] == batch[..before] + [batch[before]];
      }
      assert batch[..sent] == batch;
      Interference();
      QueueIndexInRange(c, S());
      ReachableStep(c, S(), Pick);
      producer := Waiting(0);
    }

    method AwaitBatch() returns (done: bool)
      requires Valid() && producer == Waiting(0)
      modifies this, logger
      ensures Valid()
      ensures c.locked || RoundsWithin(S(), 1) ==> done
      ensures !done ==> Hangs(c, S()) && batch == old(batch) && bounds == old(bounds)
      ensures done ==> SameRound(old(S()).(producer := Waiting(|batch|)), S())
    {
      while producer.next < |batch|
        invariant Valid() && producer.Waiting? && producer.next <= |batch|
        invariant SameRound(old(S()).(producer := producer), S())
        decreases |batch| - if producer.Waiting? then producer.next else 0
      {
        var ready := WaitForFuture();
        if !ready { return false; }
      }
      return true;
    }

    /** if(Conf::loglevel() >= Info) logger.write(); every handler has returned by now. */
    method FlushRound()
      requires Valid() && producer == Waiting(|batch|)
      modifies this, logger
      ensures Valid() && producer.Polling? && tasks == old(tasks) && logger.messList == []
      ensures exists chunk :: chunks == old(chunks) + [chunk] && logger.file == old(logger.file) + chunk
      ensures |bounds| == |chunks| + 1 && bounds == old(bounds) + [|tasks|]
      ensures ChunkOk(c, S(), |chunks| - 1)
    {
      Interference();
      ReachableStep(c, S(), Flush);
      ghost var t := Apply(c, S(), Flush);
      var chunk := if c.info then logger.messList else [];
      if c.info {
        logger.Write();
      }
      chunks := chunks + [chunk];
      bounds := bounds + [|tasks|];
      base := |tasks|;
      producer := Polling;
      assert S() == t;
      ReachableLog(c, S());
      NothingLeftOver(c, S());
    }

    /** Workers that all sleep while a future is open hang the round, which needs a push outside the mutex. */
    lemma NobodyMoves()
      requires Valid() && producer.Waiting? && producer.next < |batch|
      requires !Ready(S(), base + producer.next)
      requires forall w | 0 <= w < |workers| :: NextStep(c, S(), w) == None
      ensures Hangs(c, S()) && !c.locked && !RoundsWithin(S(), 1)
    {
      var s := S();
      ReachableLog(c, s);
      forall w | 0 <= w < |workers| ensures workers[w].phase.Asleep? { NextStepIsEnabled(c, s, w); }
      forall a | WorkerStep(a) ensures !Enabled(c, s, a) {
        if a.w < |workers| { assert workers[a.w].phase.Asleep?; }
      }
      SleepersHang(c, s);
      if c.locked || RoundsWithin(s, 1) { WaitingIsNotStuck(c, s); }
    }
  }

  /** The reactor over any number of rounds, from the start. With every push under the mutex it never hangs;
      whenever it does not, every event has become a task, in order, and the log file is one chunk a round,
      each with exactly its round's messages. */
  method HandleEvents(c: Config, rounds: seq<seq<Task>>) returns (done: bool, server: Server)
    requires c.size > 0 && forall i | 0 <= i < |rounds| :: |rounds[i]| <= MAX_EVENT
    ensures server.c == c && server.Valid()
    ensures c.locked || (forall i | 0 <= i < |rounds| :: |rounds[i]| <= 1) ==> done
    ensures !done ==> Hangs(c, server.S())
    ensures done ==>
              && |server.chunks| == |rounds| && server.tasks == Concat(rounds) && server.logger.messList == []
              && server.logger.file == Concat(server.chunks)
              && |server.bounds| == |server.chunks| + 1
              && forall r | 0 <= r < |rounds| :: ChunkOk(c, server.S(), r)
  {
    server := new Server(c);
    var i := 0;
    while i < |rounds|
      invariant 0 <= i == |server.chunks| <= |rounds|
      invariant server.c == c && server.Valid() && server.producer.Polling? && server.logger.messList == []
      invariant server.tasks == Concat(rounds[..i])
      invariant |server.bounds| == i + 1 && server.bounds[i] == |server.tasks|
      invariant forall r | 0 <= r < i :: server.bounds[r + 1] == server.bounds[r] + |rounds[r]|
      invariant fresh(server) && fresh(server.logger)
    {
      done := server.HandleRound(rounds[i]);
      if !done {
        if forall r | 0 <= r < |rounds| :: |rounds[r]| <= 1 { SmallRounds(server.S(), rounds, i); }
        return;
      }
      assert rounds[..i + 1][..i] == rounds[..i];
      i := i + 1;
    }
    done := true;
    assert rounds[..i] == rounds;
    LogIsRoundByRound(c, server.S());
  }

  lemma SmallRounds(s: State, rounds: seq<seq<Task>>, i: nat)
    requires i < |rounds| && |s.bounds| == i + 1 && s.batch == rounds[i]
    requires forall r | 0 <= r < i :: s.bounds[r + 1] == s.bounds[r] + |rounds[r]|
    requires forall r | 0 <= r < |rounds| :: |rounds[r]| <= 1
    ensures RoundsWithin(s, 1)
  {
  }

  lemma SleepersHang(c: Config, s: State)
    requires LogInv(c, s) && s.producer.Waiting? && s.producer.next < |s.batch| && !Ready(s, s.base + s.producer.next)
    requires !SomeWorkerMoves(c, s)
    ensures Hangs(c, s)
  {
    RestingMeansAsleep(c, s);
    if forall w | 0 <= w < |s.workers| :: s.workers[w].list == [] {
      RestingMeansFinished(c, s);
    }
  }
}
