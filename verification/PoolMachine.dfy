/**
 The thread pool, the reactor loop that feeds it and the message queue of the logger, as one
 machine of atomic steps. One producer (the reactor loop) and any number of workers interleave
 freely; every step below is one shared-memory access of the program, or a critical section that
 the program runs under one mutex.

 Tasks are numbered in submission order. Mutex i is held across steps only by worker i, between
 its test of an empty queue and its sleep, so "mutex i is free" is "worker i is not in Window".
 */
module PoolMachine {

  const MAX_EVENT: nat := 1024

  /** A terminating handler, seen from outside: the messages it logs, in order. */
  type Task = seq<string>

  /** A logged text; the author is the number of the task that logged it. */
  datatype Message = Message(author: nat, text: string)

  /** Where worker i stands in its endless loop. */
  datatype Phase =
    | Top                // about to lock its mutex and test its queue
    | Window             // holds the mutex, has seen an empty queue, not asleep yet
    | Asleep             // waiting on its condition variable, mutex released
    | Saw                // saw a non-empty queue, about to load taskcnt
    | Running(k: nat)    // inside front()(), k messages logged
    | Ran                // handler returned, front not popped yet
    | Popped             // front popped, taskcnt not decremented yet
    | Exited             // left its loop after reading the stop signal

  /** `given` and `ran` are histories: tasks pushed to this queue, tasks this worker finished. */
  datatype Worker = Worker(phase: Phase, list: seq<nat>, given: seq<nat>, ran: seq<nat>)

  /** Where the reactor loop stands. */
  datatype Producer =
    | Polling              // in epoll_wait
    | Picking              // at the head of the submission loop
    | Chosen(q: int)       // queue index computed from taskcnt
    | Unlocked(q: int)     // saw more than one task queued, mutex released, task not pushed yet
    | Pushed(q: int)       // task pushed, worker not notified yet
    | Notified(q: int)     // worker notified, taskcnt not incremented yet
    | Waiting(next: nat)   // about to get the future number `next` of the batch

  /** `locked` makes every push happen under the queue's mutex; the program as written has it false.
      `info` is "log level at least Info". */
  datatype Config = Config(size: nat, locked: bool, info: bool)

  datatype State = State(
    workers: seq<Worker>,
    taskcnt: int,
    workercnt: int,
    producer: Producer,
    batch: seq<Task>,            // events of the current round
    sent: nat,                   // of which so many are counted in taskcnt
    tasks: seq<Task>,            // every task ever pushed
    owner: seq<nat>,             // the queue it was pushed to
    base: nat,                   // tasks pushed before the current round
    queue: seq<Message>,         // Logger::mess_list
    output: seq<Message>,        // what the log file holds
    chunks: seq<seq<Message>>,   // history: what each round's flush appended
    bounds: seq<nat>)            // history: base of every round so far, the current one included

  datatype Action =
    | Poll(events: seq<Task>) | Pick | Lock | PushLate | Notify | Increment | Get | Flush
    | Look(w: nat) | Sleep(w: nat) | Wake(w: nat) | Test(w: nat) | Log(w: nat) | Finish(w: nat)
    | Pop(w: nat) | Decrement(w: nat)

  /** The steps of the workers, without the wake-ups that a condition variable may produce on its own. */
  predicate WorkerStep(a: Action) {
    a.Look? || a.Sleep? || a.Test? || a.Log? || a.Finish? || a.Pop? || a.Decrement?
  }

  function Init(c: Config): State {
    State(seq(c.size, _ => Worker(Top, [], [], [])), 0, c.size, Polling, [], 0, [], [], 0, [], [], [], [0])
  }

  /** C++'s `%`, which truncates toward zero. */
  function Remainder(a: int, b: int): int
    requires b > 0
  {
    if a >= 0 then a % b else -((-a) % b)
  }

  predicate Ready(s: State, id: nat) {
    id < |s.owner| && s.owner[id] < |s.workers| && id in s.workers[s.owner[id]].ran
  }

  predicate IsQueue(s: State, q: int) {
    0 <= q < |s.workers|
  }

  /** The handler at the front of worker w's queue exists. */
  predicate HasFront(s: State, w: nat) {
    w < |s.workers| && s.workers[w].list != [] && s.workers[w].list[0] < |s.tasks|
  }

  function FrontTask(s: State, w: nat): Task
    requires HasFront(s, w)
  {
    s.tasks[s.workers[w].list[0]]
  }

  predicate Enabled(c: Config, s: State, a: Action) {
    match a
    case Poll(events) => s.producer.Polling? && |events| <= MAX_EVENT
    case Pick => s.producer.Picking? && s.workercnt > 0
    case Lock =>
      s.producer.Chosen? && IsQueue(s, s.producer.q) && s.sent < |s.batch| && !s.workers[s.producer.q].phase.Window?
    case PushLate => s.producer.Unlocked? && IsQueue(s, s.producer.q) && s.sent < |s.batch|
    case Notify => s.producer.Pushed? && IsQueue(s, s.producer.q)
    case Increment => s.producer.Notified?
    case Get => s.producer.Waiting? && s.producer.next < |s.batch| && Ready(s, s.base + s.producer.next)
    case Flush => s.producer.Waiting? && s.producer.next == |s.batch|
    case Look(w) => w < |s.workers| && s.workers[w].phase.Top?
    case Sleep(w) => w < |s.workers| && s.workers[w].phase.Window?
    case Wake(w) => w < |s.workers| && s.workers[w].phase.Asleep?
    case Test(w) => w < |s.workers| && s.workers[w].phase.Saw?
    case Log(w) =>
      HasFront(s, w) && s.workers[w].phase.Running? && c.info && s.workers[w].phase.k < |FrontTask(s, w)|
    case Finish(w) =>
      HasFront(s, w) && s.workers[w].phase.Running? && (c.info ==> s.workers[w].phase.k == |FrontTask(s, w)|)
    case Pop(w) => HasFront(s, w) && s.workers[w].phase.Ran?
    case Decrement(w) => w < |s.workers| && s.workers[w].phase.Popped?
  }

  function SetWorker(s: State, w: nat, x: Worker): State
    requires w < |s.workers|
  {
    s.(workers := s.workers[w := x])
  }

  function SetPhase(s: State, w: nat, p: Phase): State
    requires w < |s.workers|
  {
    SetWorker(s, w, s.workers[w].(phase := p))
  }

  /** list[q].push_back of the next task of the batch. */
  function Push(s: State, q: nat): State
    requires q < |s.workers| && s.sent < |s.batch|
  {
    var id := |s.tasks|;
    var x := s.workers[q];
    SetWorker(s, q, x.(list := x.list + [id], given := x.given + [id]))
      .(tasks := s.tasks + [s.batch[s.sent]], owner := s.owner + [q], producer := Pushed(q))
  }

  function Apply(c: Config, s: State, a: Action): State
    requires Enabled(c, s, a)
  {
    match a
    case Poll(events) => s.(producer := Picking, batch := events, sent := 0)
    case Pick =>
      if s.sent < |s.batch|
      then s.(producer := Chosen(Remainder(s.taskcnt, s.workercnt)))
      else s.(producer := Waiting(0))
    case Lock =>
      if c.locked || |s.workers[s.producer.q].list| <= 1
      then Push(s, s.producer.q)
      else s.(producer := Unlocked(s.producer.q))
    case PushLate => Push(s, s.producer.q)
    case Notify =>
      var q := s.producer.q;
      (if s.workers[q].phase.Asleep? then SetPhase(s, q, Top) else s).(producer := Notified(q))
    case Increment => s.(taskcnt := s.taskcnt + 1, sent := s.sent + 1, producer := Picking)
    case Get => s.(producer := Waiting(s.producer.next + 1))
    case Flush =>
      var chunk := if c.info then s.queue else [];
      s.(producer := Polling, base := |s.tasks|, queue := if c.info then [] else s.queue,
         output := s.output + chunk, chunks := s.chunks + [chunk], bounds := s.bounds + [|s.tasks|])
    case Look(w) => SetPhase(s, w, if s.workers[w].list == [] then Window else Saw)
    case Sleep(w) => SetPhase(s, w, Asleep)
    case Wake(w) => SetPhase(s, w, Top)
    case Test(w) =>
      if s.taskcnt != -1
      then SetPhase(s, w, Running(0))
      else SetPhase(s, w, Exited).(workercnt := s.workercnt - 1)
    case Log(w) =>
      var k := s.workers[w].phase.k;
      SetPhase(s, w, Running(k + 1)).(queue := s.queue + [Message(s.workers[w].list[0], FrontTask(s, w)[k])])
    case Finish(w) =>
      SetWorker(s, w, s.workers[w].(phase := Ran, ran := s.workers[w].ran + [s.workers[w].list[0]]))
    case Pop(w) => SetWorker(s, w, s.workers[w].(phase := Popped, list := s.workers[w].list[1..]))
    case Decrement(w) => SetPhase(s, w, Top).(taskcnt := s.taskcnt - 1)
  }

  /** A run: every step is enabled where it is taken. */
  predicate IsRun(c: Config, s: State, run: seq<Action>)
    decreases run
  {
    run == [] || (Enabled(c, s, run[0]) && IsRun(c, Apply(c, s, run[0]), run[1..]))
  }

  function Exec(c: Config, s: State, run: seq<Action>): State
    requires IsRun(c, s, run)
    decreases run
  {
    if run == [] then s else Exec(c, Apply(c, s, run[0]), run[1..])
  }

  /** A state that some run reaches from the start. */
  ghost predicate Reachable(c: Config, s: State) {
    exists run :: IsRun(c, Init(c), run) && Exec(c, Init(c), run) == s
  }

  lemma InitIsReachable(c: Config)
    ensures Reachable(c, Init(c))
  {
    assert IsRun(c, Init(c), []) && Exec(c, Init(c), []) == Init(c);
  }

  lemma {:induction false} RunThenStep(c: Config, s: State, run: seq<Action>, a: Action)
    requires IsRun(c, s, run) && Enabled(c, Exec(c, s, run), a)
    ensures IsRun(c, s, run + [a]) && Exec(c, s, run + [a]) == Apply(c, Exec(c, s, run), a)
    decreases run
  {
    if run == [] {
      assert (run + [a])[1..] == [];
    } else {
      assert (run + [a])[1..] == run[1..] + [a];
      RunThenStep(c, Apply(c, s, run[0]), run[1..], a);
    }
  }

  lemma ReachableStep(c: Config, s: State, a: Action)
    requires Reachable(c, s) && Enabled(c, s, a)
    ensures Reachable(c, Apply(c, s, a))
  {
    var run :| IsRun(c, Init(c), run) && Exec(c, Init(c), run) == s;
    RunThenStep(c, Init(c), run, a);
    assert IsRun(c, Init(c), run + [a]);
  }
}
