/** The inductive invariant of the pool machine, and that every step of every interleaving keeps it. */
module PoolInvariant {
  import opened PoolMachine

  // ---------------------------------------------------------------- sums over the workers

  function Total(ws: seq<Worker>, f: Worker -> int): int {
    if ws == [] then 0 else f(ws[0]) + Total(ws[1..], f)
  }

  lemma {:induction false} TotalUpdate(ws: seq<Worker>, f: Worker -> int, w: nat, x: Worker)
    requires w < |ws|
    ensures Total(ws[w := x], f) == Total(ws, f) - f(ws[w]) + f(x)
  {
    if w == 0 {
      assert ws[w := x][1..] == ws[1..];
    } else {
      assert ws[w := x][1..] == ws[1..][w - 1 := x];
      TotalUpdate(ws[1..], f, w - 1, x);
    }
  }

  /** Tasks of a queue whose handler has not returned yet. */
  function Unrun(x: Worker): seq<nat> {
    if x.phase.Ran? && x.list != [] then x.list[1..] else x.list
  }

  /** What a worker contributes to taskcnt: its queue, plus a popped task not decremented yet. */
  function Account(x: Worker): int {
    |x.list| + if x.phase.Popped? then 1 else 0
  }

  function GivenCount(x: Worker): int { |x.given| }

  function RanCount(x: Worker): int { |x.ran| }

  // ---------------------------------------------------------------- the invariant

  predicate Uncounted(p: Producer) {
    p.Pushed? || p.Notified?
  }

  predicate Increasing(q: seq<nat>) {
    forall i, j :: 0 <= i < j < |q| ==> q[i] < q[j]
  }

  /** Each queue is worked off in submission order: finished, then maybe a finished front, then the rest. */
  predicate History(x: Worker) {
    && x.given == x.ran + Unrun(x)
    && Increasing(x.given)
    && (x.phase.Ran? ==> x.list != [] && x.ran != [] && x.ran[|x.ran| - 1] == x.list[0])
    && (x.phase.Saw? || x.phase.Running? ==> x.list != [])
    && !x.phase.Exited?
  }

  /** Whatever was pushed to queue w is a task owned by worker w. */
  predicate AtHome(s: State, w: nat)
    requires w < |s.workers| && |s.owner| == |s.tasks|
  {
    forall j | 0 <= j < |s.workers[w].given| ::
      s.workers[w].given[j] < |s.tasks| && s.owner[s.workers[w].given[j]] == w
  }

  predicate Placed(c: Config, s: State) {
    && |s.workers| == c.size == s.workercnt
    && c.size > 0
    && |s.owner| == |s.tasks|
    && (forall w | 0 <= w < |s.workers| :: History(s.workers[w]))
    && (forall w | 0 <= w < |s.workers| :: AtHome(s, w))
    && (forall id | 0 <= id < |s.tasks| :: s.owner[id] < c.size && id in s.workers[s.owner[id]].given)
  }

  predicate Counted(s: State) {
    && s.taskcnt == Total(s.workers, Account) - (if Uncounted(s.producer) then 1 else 0)
    && Total(s.workers, GivenCount) == |s.tasks|
    && s.base <= Total(s.workers, RanCount)
  }

  predicate AllReady(s: State, n: nat) {
    forall id | 0 <= id < n :: Ready(s, id)
  }

  predicate InRound(s: State)
  {
    && |s.batch| <= MAX_EVENT
    && s.base <= |s.tasks|
    && AllReady(s, s.base)
    && match s.producer
       case Polling => |s.tasks| == s.base
       case Picking => s.sent <= |s.batch| && |s.tasks| == s.base + s.sent
       case Chosen(q) => s.sent < |s.batch| && |s.tasks| == s.base + s.sent && IsQueue(s, q)
       case Unlocked(q) => s.sent < |s.batch| && |s.tasks| == s.base + s.sent && IsQueue(s, q)
       case Pushed(q) => s.sent < |s.batch| && |s.tasks| == s.base + s.sent + 1 && IsQueue(s, q)
       case Notified(q) => s.sent < |s.batch| && |s.tasks| == s.base + s.sent + 1 && IsQueue(s, q)
       case Waiting(i) => i <= |s.batch| && |s.tasks| == s.base + |s.batch| && AllReady(s, s.base + i)
  }

  predicate Inv(c: Config, s: State) {
    Placed(c, s) && Counted(s) && InRound(s)
  }

  // ---------------------------------------------------------------- consequences of one state

  /** A queue holds tasks that exist, and only the front may have finished. */
  lemma QueueContents(c: Config, s: State, w: nat)
    requires Placed(c, s) && w < |s.workers|
    ensures forall id | id in s.workers[w].list :: id in s.workers[w].given
    ensures s.workers[w].list != [] ==> HasFront(s, w)
    ensures forall id | id in Unrun(s.workers[w]) :: id !in s.workers[w].ran
  {
    var x := s.workers[w];
    assert History(x);
    forall id | id in x.list ensures id in x.given {
      if x.phase.Ran? && id == x.list[0] {
        assert x.given[|x.ran| - 1] == id;
      } else {
        assert id in Unrun(x);
        assert id in x.ran + Unrun(x);
      }
    }
    if x.list != [] {
      assert AtHome(s, w);
      assert x.list[0] in x.given;
    }
    forall id | id in Unrun(x) ensures id !in x.ran {
      var j :| 0 <= j < |Unrun(x)| && Unrun(x)[j] == id;
      assert x.given[|x.ran| + j] == id;
      forall i | 0 <= i < |x.ran| ensures x.ran[i] != id { assert x.given[i] == x.ran[i]; }
    }
  }

  lemma {:induction false} AccountPositive(ws: seq<Worker>, w: nat)
    requires w < |ws|
    ensures Account(ws[w]) <= Total(ws, Account)
  {
    if w > 0 {
      AccountPositive(ws[1..], w - 1);
    } else {
      AccountsNonNegative(ws[1..]);
    }
  }

  lemma {:induction false} AccountsNonNegative(ws: seq<Worker>)
    ensures 0 <= Total(ws, Account)
    ensures Total(ws, Account) == 0 ==> forall w | 0 <= w < |ws| :: ws[w].list == [] && !ws[w].phase.Popped?
    ensures (forall w | 0 <= w < |ws| :: ws[w].list == [] && !ws[w].phase.Popped?) ==> Total(ws, Account) == 0
  {
    if ws != [] {
      AccountsNonNegative(ws[1..]);
      assert forall w | 0 <= w < |ws[1..]| :: ws[1..][w] == ws[w + 1];
      if Total(ws, Account) == 0 {
        forall w | 0 <= w < |ws| ensures ws[w].list == [] && !ws[w].phase.Popped? {
          if w > 0 { assert ws[w] == ws[1..][w - 1]; }
        }
      }
    }
  }

  /** The three sums are linked by the queues: what was given is what ran plus what is left. */
  lemma {:induction false} SumsLinked(ws: seq<Worker>)
    requires forall w | 0 <= w < |ws| :: History(ws[w])
    ensures Total(ws, RanCount) <= Total(ws, GivenCount)
    ensures Total(ws, Account) <= Total(ws, GivenCount) - Total(ws, RanCount) + |ws|
    ensures (forall w | 0 <= w < |ws| :: Unrun(ws[w]) == []) ==> Total(ws, RanCount) == Total(ws, GivenCount)
  {
    if ws != [] {
      assert History(ws[0]);
      assert forall w | 0 <= w < |ws[1..]| :: ws[1..][w] == ws[w + 1];
      SumsLinked(ws[1..]);
    }
  }

  lemma UnfinishedIsNotReady(c: Config, s: State, w: nat)
    requires Placed(c, s) && w < |s.workers| && Unrun(s.workers[w]) != []
    ensures var id := Unrun(s.workers[w])[0]; id < |s.tasks| && !Ready(s, id)
  {
    QueueContents(c, s, w);
    var id := Unrun(s.workers[w])[0];
    assert id in s.workers[w].list && AtHome(s, w) && id in s.workers[w].given;
  }

  /** When every future of the run so far is ready, no queue holds unfinished work. */
  lemma ReadyMeansDrained(c: Config, s: State)
    requires Placed(c, s) && AllReady(s, |s.tasks|)
    ensures forall w | 0 <= w < |s.workers| :: Unrun(s.workers[w]) == []
    ensures Total(s.workers, RanCount) == Total(s.workers, GivenCount)
  {
    forall w | 0 <= w < |s.workers| ensures Unrun(s.workers[w]) == [] {
      if Unrun(s.workers[w]) != [] {
        UnfinishedIsNotReady(c, s, w);
      }
    }
    SumsLinked(s.workers);
  }

  // ---------------------------------------------------------------- the invariant is kept

  lemma {:induction false} InitialSums(n: nat)
    ensures var ws := seq(n, _ => Worker(Top, [], [], []));
            Total(ws, Account) == 0 && Total(ws, GivenCount) == 0 && Total(ws, RanCount) == 0
  {
    if n > 0 {
      var ws := seq(n, _ => Worker(Top, [], [], []));
      assert ws[1..] == seq(n - 1, _ => Worker(Top, [], [], []));
      InitialSums(n - 1);
    }
  }

  lemma InitHolds(c: Config)
    requires c.size > 0
    ensures Inv(c, Init(c))
  {
    InitialSums(c.size);
  }

  lemma SumsAfter(s: State, w: nat, x: Worker)
    requires w < |s.workers|
    ensures var ws := s.workers[w := x];
            && Total(ws, Account) == Total(s.workers, Account) - Account(s.workers[w]) + Account(x)
            && Total(ws, GivenCount) == Total(s.workers, GivenCount) - |s.workers[w].given| + |x.given|
            && Total(ws, RanCount) == Total(s.workers, RanCount) - |s.workers[w].ran| + |x.ran|
  {
    TotalUpdate(s.workers, Account, w, x);
    TotalUpdate(s.workers, GivenCount, w, x);
    TotalUpdate(s.workers, RanCount, w, x);
  }

  /** A worker that saw its queue non-empty finds taskcnt >= 0: nobody else empties that queue. */
  lemma NeverReadsStop(c: Config, s: State, w: nat)
    requires Inv(c, s) && w < |s.workers| && s.workers[w].phase.Saw?
    ensures s.taskcnt >= 0
  {
    assert History(s.workers[w]);
    AccountPositive(s.workers, w);
  }

  /** When the producer computes a queue index, every pushed task has been counted. */
  lemma PickIsNonNegative(c: Config, s: State)
    requires Inv(c, s) && s.producer.Picking?
    ensures s.taskcnt >= 0
  {
    AccountsNonNegative(s.workers);
  }

  /** The queue a task is pushed to. */
  lemma PushedQueue(c: Config, s: State, q: nat)
    requires Placed(c, s) && q < |s.workers| && s.sent < |s.batch|
    ensures History(Push(s, q).workers[q]) && AtHome(Push(s, q), q)
  {
    var x, y := s.workers[q], Push(s, q).workers[q];
    assert History(x) && AtHome(s, q);
    assert Unrun(y) == Unrun(x) + [|s.tasks|];
    assert y.given == y.ran + Unrun(y);
  }

  lemma PushKeepsPlaced(c: Config, s: State, q: nat)
    requires Placed(c, s) && q < |s.workers| && s.sent < |s.batch|
    ensures Placed(c, Push(s, q))
    ensures forall id: nat | Ready(s, id) :: Ready(Push(s, q), id)
  {
    var t := Push(s, q);
    PushedQueue(c, s, q);
    forall w | 0 <= w < |t.workers| ensures AtHome(t, w) {
      if w != q { assert t.workers[w] == s.workers[w] && AtHome(s, w); }
    }
    forall id | 0 <= id < |t.tasks| ensures t.owner[id] < c.size && id in t.workers[t.owner[id]].given {
      if id < |s.tasks| { assert id in s.workers[s.owner[id]].given; }
    }
    forall w | 0 <= w < |t.workers| ensures History(t.workers[w]) {
      if w != q { assert t.workers[w] == s.workers[w] && History(s.workers[w]); }
    }
  }

  lemma PushKeepsInv(c: Config, s: State, q: nat)
    requires Inv(c, s) && q < |s.workers| && s.sent < |s.batch|
    requires s.producer == Chosen(q) || s.producer == Unlocked(q)
    ensures Inv(c, Push(s, q))
  {
    PushKeepsPlaced(c, s, q);
    SumsAfter(s, q, Push(s, q).workers[q]);
    forall id | 0 <= id < s.base ensures Ready(Push(s, q), id) { assert Ready(s, id); }
  }

  /** A step of worker w that leaves `given` alone keeps every task at its place. */
  lemma WorkerKeepsPlaced(c: Config, s: State, w: nat, x: Worker)
    requires Placed(c, s) && w < |s.workers|
    requires x.given == s.workers[w].given && History(x) && s.workers[w].ran <= x.ran
    ensures Placed(c, SetWorker(s, w, x))
    ensures forall id: nat | Ready(s, id) :: Ready(SetWorker(s, w, x), id)
  {
    var t := SetWorker(s, w, x);
    forall v | 0 <= v < |t.workers| ensures History(t.workers[v]) {
      if v != w { assert t.workers[v] == s.workers[v]; }
    }
    forall v | 0 <= v < |t.workers| ensures AtHome(t, v) {
      assert AtHome(s, v);
    }
    forall id: nat | Ready(s, id) ensures Ready(t, id) {
      if s.owner[id] == w {
        var j :| 0 <= j < |s.workers[w].ran| && s.workers[w].ran[j] == id;
        assert x.ran[j] == id;
      }
    }
  }

  lemma WorkerKeepsRound(s: State, t: State)
    requires InRound(s)
    requires |t.workers| == |s.workers| && t.batch == s.batch && t.base == s.base && t.tasks == s.tasks
    requires t.sent == s.sent && t.producer == s.producer
    requires forall id: nat | Ready(s, id) :: Ready(t, id)
    ensures InRound(t)
  {
    forall id | 0 <= id < s.base ensures Ready(t, id) { assert Ready(s, id); }
    if s.producer.Waiting? {
      forall id | 0 <= id < s.base + s.producer.next ensures Ready(t, id) { assert Ready(s, id); }
    }
  }

  lemma WorkerStepKeepsInv(c: Config, s: State, w: nat, x: Worker, t: State)
    requires Inv(c, s) && w < |s.workers|
    requires x.given == s.workers[w].given && History(x) && s.workers[w].ran <= x.ran
    requires t == SetWorker(s, w, x).(taskcnt := t.taskcnt, queue := t.queue)
    requires t.taskcnt - s.taskcnt == Account(x) - Account(s.workers[w])
    ensures Inv(c, t)
  {
    WorkerKeepsPlaced(c, s, w, x);
    SumsAfter(s, w, x);
    forall v | 0 <= v < |t.workers| ensures AtHome(t, v) { assert AtHome(SetWorker(s, w, x), v); }
    forall id: nat | Ready(s, id) ensures Ready(t, id) { assert Ready(SetWorker(s, w, x), id); }
    WorkerKeepsRound(s, t);
  }

  /** Steps of the producer that leave the workers and the tasks alone. */
  lemma SameWorkersKeepInv(c: Config, s: State, t: State)
    requires Inv(c, s)
    requires t.workers == s.workers && t.workercnt == s.workercnt && t.tasks == s.tasks && t.owner == s.owner
    requires t.taskcnt + (if Uncounted(t.producer) then 1 else 0)
          == s.taskcnt + (if Uncounted(s.producer) then 1 else 0)
    ensures Placed(c, t) && AllReady(t, s.base)
    ensures t.base <= Total(s.workers, RanCount) ==> Counted(t)
  {
    forall w | 0 <= w < |t.workers| ensures AtHome(t, w) { assert AtHome(s, w); }
    SameReady(s, t, s.base);
  }

  lemma SameReady(s: State, t: State, n: nat)
    requires t.workers == s.workers && t.owner == s.owner && AllReady(s, n)
    ensures AllReady(t, n)
  {
    forall id | 0 <= id < n ensures Ready(t, id) { assert Ready(s, id); }
  }

  lemma PollKeepsInv(c: Config, s: State, events: seq<Task>)
    requires Inv(c, s) && Enabled(c, s, Poll(events))
    ensures Inv(c, Apply(c, s, Poll(events)))
  {
    SameWorkersKeepInv(c, s, Apply(c, s, Poll(events)));
  }

  lemma PickKeepsInv(c: Config, s: State)
    requires Inv(c, s) && Enabled(c, s, Pick)
    ensures Inv(c, Apply(c, s, Pick))
  {
    PickIsNonNegative(c, s);
    SameWorkersKeepInv(c, s, Apply(c, s, Pick));
  }

  lemma UnlockKeepsInv(c: Config, s: State)
    requires Inv(c, s) && Enabled(c, s, Lock) && Apply(c, s, Lock).producer.Unlocked?
    ensures Inv(c, Apply(c, s, Lock))
  {
    SameWorkersKeepInv(c, s, Apply(c, s, Lock));
  }

  lemma IncrementKeepsInv(c: Config, s: State)
    requires Inv(c, s) && Enabled(c, s, Increment)
    ensures Inv(c, Apply(c, s, Increment))
  {
    SameWorkersKeepInv(c, s, Apply(c, s, Increment));
  }

  lemma GetKeepsInv(c: Config, s: State)
    requires Inv(c, s) && Enabled(c, s, Get)
    ensures Inv(c, Apply(c, s, Get))
  {
    NextFutureKeepsInv(c, s, Apply(c, s, Get), s.producer.next);
  }

  lemma NextFutureKeepsInv(c: Config, s: State, t: State, i: nat)
    requires Inv(c, s) && s.producer == Waiting(i) && i < |s.batch| && Ready(s, s.base + i)
    requires t == s.(producer := Waiting(i + 1))
    ensures Inv(c, t)
  {
    SameWorkersKeepInv(c, s, t);
    GetKeepsRound(s, t, i);
  }

  /** One more future of the round is known to be ready. */
  lemma GetKeepsRound(s: State, t: State, i: nat)
    requires InRound(s) && s.producer == Waiting(i) && i < |s.batch| && Ready(s, s.base + i)
    requires t == s.(producer := Waiting(i + 1))
    ensures InRound(t)
  {
    OneMoreReady(s, s.base + i);
    SameReady(s, t, s.base + i + 1);
    SameReady(s, t, s.base);
  }

  lemma OneMoreReady(s: State, n: nat)
    requires AllReady(s, n) && Ready(s, n)
    ensures AllReady(s, n + 1)
  {
  }

  lemma NotifyKeepsInv(c: Config, s: State)
    requires Inv(c, s) && Enabled(c, s, Notify)
    ensures Inv(c, Apply(c, s, Notify))
  {
    var t := Apply(c, s, Notify);
    var q := s.producer.q;
    assert History(s.workers[q]);
    var u := SetWorker(s, q, t.workers[q]);
    WorkerStepKeepsInv(c, s, q, t.workers[q], u);
    assert t.workers == u.workers;
    SameWorkersKeepInv(c, u, t);
  }

  lemma FlushKeepsInv(c: Config, s: State)
    requires Inv(c, s) && Enabled(c, s, Flush)
    ensures Inv(c, Apply(c, s, Flush))
  {
    ReadyMeansDrained(c, s);
    SameWorkersKeepInv(c, s, Apply(c, s, Flush));
    SameReady(s, Apply(c, s, Flush), |s.tasks|);
  }

  lemma WorkersKeepInv(c: Config, s: State, a: Action)
    requires Inv(c, s) && Enabled(c, s, a) && (WorkerStep(a) || a.Wake?)
    ensures Inv(c, Apply(c, s, a))
  {
    var t, w := Apply(c, s, a), a.w;
    if a.Test? {
      NeverReadsStop(c, s, w);
    }
    WorkerAfter(c, s, a);
    WorkerStepKeepsInv(c, s, w, t.workers[w], t);
  }

  /** What a step does to its own worker: nothing is given, what ran stays, taskcnt follows the account. */
  lemma WorkerAfter(c: Config, s: State, a: Action)
    requires Enabled(c, s, a) && (WorkerStep(a) || a.Wake?) && History(s.workers[a.w])
    requires a.Test? ==> s.taskcnt != -1
    ensures var t := Apply(c, s, a);
            && |t.workers| == |s.workers|
            && t == SetWorker(s, a.w, t.workers[a.w]).(taskcnt := t.taskcnt, queue := t.queue)
            && t.workers[a.w].given == s.workers[a.w].given && s.workers[a.w].ran <= t.workers[a.w].ran
            && History(t.workers[a.w])
            && t.taskcnt - s.taskcnt == Account(t.workers[a.w]) - Account(s.workers[a.w])
  {
    var x, y := s.workers[a.w], Apply(c, s, a).workers[a.w];
    if a.Finish? {
      assert x.given == x.ran + x.list == y.ran + Unrun(y);
    }
  }

  /** One step of anybody keeps the invariant. */
  lemma StepKeepsInv(c: Config, s: State, a: Action)
    requires Inv(c, s) && Enabled(c, s, a)
    ensures Inv(c, Apply(c, s, a))
  {
    if WorkerStep(a) || a.Wake? {
      WorkersKeepInv(c, s, a);
    } else if a.Flush? {
      FlushKeepsInv(c, s);
    } else if a.Notify? {
      NotifyKeepsInv(c, s);
    } else if a.PushLate? || (a.Lock? && Apply(c, s, a).producer.Pushed?) {
      PushKeepsInv(c, s, s.producer.q);
    } else {
      match a {
        case Poll(events) => PollKeepsInv(c, s, events);
        case Pick => PickKeepsInv(c, s);
        case Lock => UnlockKeepsInv(c, s);
        case Increment => IncrementKeepsInv(c, s);
        case Get => GetKeepsInv(c, s);
      }
    }
  }

  lemma {:induction false} RunKeepsInv(c: Config, s: State, run: seq<Action>)
    requires Inv(c, s) && IsRun(c, s, run)
    ensures Inv(c, Exec(c, s, run))
    decreases run
  {
    if run != [] {
      StepKeepsInv(c, s, run[0]);
      RunKeepsInv(c, Apply(c, s, run[0]), run[1..]);
    }
  }

  lemma ReachableInv(c: Config, s: State)
    requires c.size > 0 && Reachable(c, s)
    ensures Inv(c, s)
  {
    var run :| IsRun(c, Init(c), run) && Exec(c, Init(c), run) == s;
    InitHolds(c);
    RunKeepsInv(c, Init(c), run);
  }
}
