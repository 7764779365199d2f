/**
 Sending a mapped file over a socket that may accept less than it is given: the chunk is halved after a
 failure and doubled after a success. The loop as written never compares the chunk with what remains of
 the file, nor its double with the range of an int; `Clamped` is the loop with these comparisons.
 */
module FileBody {

  /** How the socket answers one write: it takes at most n bytes, or fails. */
  datatype Response = Accepts(n: nat) | Fails(efault: bool)

  datatype Policy = AsWritten | Clamped

  const WORD: int := 0x1_0000_0000
  const INT_MAX: int := 0x7fff_ffff
  const MAX_WRITE: int := 0x7fff_f000  // the most one write transfers

  /** Conversion to a 32-bit int. */
  function Int32(n: int): int {
    var r := n % WORD;
    if r > INT_MAX then r - WORD else r
  }

  function Min(a: int, b: int): int {
    if a < b then a else b
  }

  /** The file and the memory that can be read behind it, such as the rest of its last page. */
  datatype Mapping = Mapping(file: string, beyond: string) {
    function Memory(): string {
      file + beyond
    }
  }

  datatype Sending = Sending(total: nat, nums: int, sent: string)

  function StartSending(p: Policy, m: Mapping): Sending {
    Sending(0, if p == AsWritten then Int32(|m.file|) else Min(|m.file|, INT_MAX), "")
  }

  /** A negative chunk becomes a byte count no write accepts: such a request fails, with EFAULT or otherwise. */
  function Answer(nums: int, r: Response): Response {
    if nums < 0 && r.Accepts? then Fails(false) else r
  }

  /** How many bytes a write transfers: no more than asked for, nor than is mapped. */
  function Taken(m: Mapping, total: nat, nums: nat, n: nat): nat
    requires total <= |m.Memory()|
  {
    Min(Min(n, MAX_WRITE), Min(nums, |m.Memory()| - total))
  }

  function AfterSuccess(p: Policy, m: Mapping, total: nat, nums: int): int {
    if p == AsWritten then Int32(2 * nums)
    else Min(Min(2 * nums, |m.file| - total), INT_MAX)
  }

  function AfterFailure(nums: int): int {
    if nums > 4096 then nums / 2 else nums
  }

  function OnAccept(p: Policy, m: Mapping, s: Sending, n: nat): Sending
    requires s.total <= |m.Memory()| && s.nums >= 0
  {
    var k := Taken(m, s.total, s.nums, n);
    var total := s.total + k;
    Sending(total, AfterSuccess(p, m, total, s.nums), s.sent + m.Memory()[s.total..total])
  }

  function OnFailure(s: Sending): Sending {
    s.(nums := AfterFailure(s.nums))
  }

  datatype Status = Done | Broken | Pending

  datatype Report = Report(status: Status, s: Sending)

  /** The loop, until the file is out, a write reports EFAULT, or the socket's answers run out. */
  function Run(p: Policy, m: Mapping, s: Sending, script: seq<Response>): Report
    requires s.total <= |m.Memory()|
    decreases script
  {
    if s.total >= |m.file| then Report(Done, s)
    else if script == [] then Report(Pending, s)
    else
      match Answer(s.nums, script[0])
      case Accepts(n) => Run(p, m, OnAccept(p, m, s, n), script[1..])
      case Fails(true) => Report(Broken, s)
      case Fails(false) => Run(p, m, OnFailure(s), script[1..])
  }

  lemma {:induction false} RunInTwo(p: Policy, m: Mapping, s: Sending, first: seq<Response>, more: seq<Response>)
    requires s.total <= |m.Memory()| && Run(p, m, s, first).status == Pending
    ensures Run(p, m, s, first).s.total <= |m.Memory()|
    ensures Run(p, m, s, first + more) == Run(p, m, Run(p, m, s, first).s, more)
    decreases first
  {
    if first == [] {
      assert first + more == more;
    } else {
      assert (first + more)[1..] == first[1..] + more;
      match Answer(s.nums, first[0])
      case Accepts(n) => RunInTwo(p, m, OnAccept(p, m, s, n), first[1..], more);
      case Fails(_) => RunInTwo(p, m, OnFailure(s), first[1..], more);
    }
  }

  // ---------------------------------------------------------------- as it runs

  class Socket {
    var script: seq<Response>
    var sent: string
    var errno_is_efault: bool

    constructor (script: seq<Response>)
      ensures this.script == script && sent == ""
    {
      this.script := script;
      sent := "";
      errno_is_efault := false;
    }

    /** sputn of `count` bytes from position `at` of the mapping; negative on failure. */
    method Sputn(m: Mapping, at: nat, count: int) returns (res: int)
      requires script != [] && at <= |m.Memory()|
      modifies this
      ensures script == old(script)[1..]
      ensures match Answer(count, old(script)[0])
              case Accepts(n) => res == Taken(m, at, count, n) && sent == old(sent) + m.Memory()[at..at + res]
              case Fails(efault) => res == -1 && sent == old(sent) && errno_is_efault == efault
    {
      match Answer(count, script[0])
      case Accepts(n) =>
        res := Taken(m, at, count, n);
        sent := sent + m.Memory()[at..at + res];
        script := script[1..];
      case Fails(efault) =>
        res := -1;
        errno_is_efault := efault;
        script := script[1..];
    }
  }

  /** file_body::write, for as long as the socket answers. It returns the size of the file in any case. */
  method Write(p: Policy, os: Socket, m: Mapping) returns (r: nat, ghost report: Report)
    requires os.sent == ""
    modifies os
    ensures report == Run(p, m, StartSending(p, m), old(os.script))
    ensures os.sent == report.s.sent && r == |m.file|
  {
    var nums := StartSending(p, m).nums;
    var res := 0;
    var totalwrited := 0;
    while totalwrited < |m.file| && os.script != []
      invariant totalwrited <= |m.Memory()|
      invariant Run(p, m, StartSending(p, m), old(os.script))
          == Run(p, m, Sending(totalwrited, nums, os.sent), os.script)
      decreases |os.script|
    {
      res := os.Sputn(m, totalwrited, nums);
      if res < 0 {
        if os.errno_is_efault {
          return |m.file|, Report(Broken, Sending(totalwrited, nums, os.sent));
        }
        if nums > 4096 {
          nums := nums / 2;
        }
      } else {
        totalwrited := totalwrited + res;
        nums := AfterSuccess(p, m, totalwrited, nums);
      }
    }
    report := Run(p, m, Sending(totalwrited, nums, os.sent), os.script);
    return |m.file|, report;
  }

  // ---------------------------------------------------------------- both loops send a contiguous part

  predicate Contiguous(m: Mapping, s: Sending) {
    s.total <= |m.Memory()| && s.sent == m.Memory()[..s.total]
  }

  lemma {:induction false} SentIsContiguous(p: Policy, m: Mapping, s: Sending, script: seq<Response>)
    requires Contiguous(m, s)
    ensures var r := Run(p, m, s, script);
            && Contiguous(m, r.s) && s.total <= r.s.total
            && (r.status == Done <==> r.s.total >= |m.file|)
    decreases script
  {
    if s.total < |m.file| && script != [] {
      match Answer(s.nums, script[0])
      case Accepts(n) =>
        var t := OnAccept(p, m, s, n);
        assert m.Memory()[..s.total] + m.Memory()[s.total..t.total] == m.Memory()[..t.total];
        SentIsContiguous(p, m, t, script[1..]);
      case Fails(efault) =>
        if !efault { SentIsContiguous(p, m, OnFailure(s), script[1..]); }
    }
  }

  /** A finished send starts with the file, and is the file iff the total is its size. */
  lemma FinishedSend(p: Policy, m: Mapping, script: seq<Response>)
    requires Run(p, m, StartSending(p, m), script).status == Done
    ensures var r := Run(p, m, StartSending(p, m), script);
            m.file <= r.s.sent && (r.s.sent == m.file <==> r.s.total == |m.file|)
  {
    SentIsContiguous(p, m, StartSending(p, m), script);
    var r := Run(p, m, StartSending(p, m), script);
    assert m.Memory()[..|m.file|] == m.file;
    assert r.s.sent[..|m.file|] == m.file;
  }

  // ---------------------------------------------------------------- the clamped loop

  predicate ChunkFits(m: Mapping, s: Sending) {
    && s.total <= |m.file|
    && (if s.total < |m.file| then 0 < s.nums <= Min(|m.file| - s.total, INT_MAX) else s.nums >= 0)
  }

  /** Halving and doubling keep the chunk positive and within the file, whatever the socket answers. */
  lemma {:induction false} ClampedKeepsFit(m: Mapping, s: Sending, script: seq<Response>)
    requires ChunkFits(m, s)
    ensures ChunkFits(m, Run(Clamped, m, s, script).s)
    decreases script
  {
    if s.total < |m.file| && script != [] {
      match script[0]
      case Accepts(n) => ClampedKeepsFit(m, OnAccept(Clamped, m, s, n), script[1..]);
      case Fails(efault) =>
        if !efault { ClampedKeepsFit(m, OnFailure(s), script[1..]); }
    }
  }

  /** Writes that take at least one byte. */
  function Productive(script: seq<Response>): nat {
    if script == [] then 0
    else (if script[0].Accepts? && script[0].n > 0 then 1 else 0) + Productive(script[1..])
  }

  predicate NoFault(script: seq<Response>) {
    forall i | 0 <= i < |script| :: script[i] != Fails(true)
  }

  lemma {:induction false} EnoughProductiveWrites(m: Mapping, s: Sending, script: seq<Response>)
    requires ChunkFits(m, s) && NoFault(script)
    requires Productive(script) >= |m.file| - s.total
    ensures Run(Clamped, m, s, script).status == Done
    decreases script
  {
    if s.total < |m.file| && script != [] {
      assert script[0] != Fails(true);
      match script[0]
      case Accepts(n) => EnoughProductiveWrites(m, OnAccept(Clamped, m, s, n), script[1..]);
      case Fails(_) => EnoughProductiveWrites(m, OnFailure(s), script[1..]);
    }
  }

  /** The clamped loop, for files of any size: whatever failures and empty writes come between, as soon as as
      many writes took something as the file has bytes, it has sent exactly the file. */
  lemma ClampedSendsExactlyTheFile(m: Mapping, script: seq<Response>)
    requires NoFault(script) && Productive(script) >= |m.file|
    ensures var r := Run(Clamped, m, StartSending(Clamped, m), script); r.status == Done && r.s.sent == m.file
  {
    EnoughProductiveWrites(m, StartSending(Clamped, m), script);
    ClampedKeepsFit(m, StartSending(Clamped, m), script);
    SentIsContiguous(Clamped, m, StartSending(Clamped, m), script);
    FinishedSend(Clamped, m, script);
  }

  // ---------------------------------------------------------------- the chunk as written

  /** What an answer makes of a positive chunk, if ints had no limit. */
  function NextChunk(chunk: int, r: Response): int {
    if r.Accepts? then 2 * chunk else AfterFailure(chunk)
  }

  function ChunkAfter(chunk: int, script: seq<Response>): int
    decreases script
  {
    if script == [] then chunk else ChunkAfter(NextChunk(chunk, script[0]), script[1..])
  }

  /** On the way the chunk leaves the range of an int. */
  predicate Outgrows(chunk: int, script: seq<Response>)
    decreases script
  {
    chunk > INT_MAX || (script != [] && Outgrows(NextChunk(chunk, script[0]), script[1..]))
  }

  /** As long as bytes remain, the chunk follows the answers, failures included, until it outgrows an int: from
      then on it is negative. It never becomes zero. */
  lemma {:induction false} ChunkAsWritten(m: Mapping, s: Sending, script: seq<Response>)
    requires s.total <= |m.Memory()| && 0 < s.nums <= INT_MAX
    requires Run(AsWritten, m, s, script).status == Pending
    ensures var nums := Run(AsWritten, m, s, script).s.nums;
            if Outgrows(s.nums, script) then nums < 0 else 0 < nums == ChunkAfter(s.nums, script) <= INT_MAX
    decreases script
  {
    if script != [] {
      match script[0]
      case Accepts(n) =>
        var t := OnAccept(AsWritten, m, s, n);
        if t.nums > 0 {
          ChunkAsWritten(m, t, script[1..]);
        } else {
          assert t.nums == 2 * s.nums - WORD;
          assert Outgrows(2 * s.nums, script[1..]);
          StuckForEver(m, t, script[1..]);
        }
      case Fails(_) => ChunkAsWritten(m, OnFailure(s), script[1..]);
    }
  }

  /** A negative chunk, or one of zero bytes, is for ever: nothing more is sent, the loop does not end by
      itself, and it breaks off iff some write reports EFAULT. */
  lemma {:induction false} StuckForEver(m: Mapping, s: Sending, script: seq<Response>)
    requires s.total < |m.file| && s.nums <= 0
    ensures var r := Run(AsWritten, m, s, script);
            && r.s == s
            && r.status == if NoFault(script) then Pending else Broken
    decreases script
  {
    if script != [] {
      match Answer(s.nums, script[0])
      case Accepts(n) =>
        assert m.Memory()[s.total..s.total] == "" && s.sent + "" == s.sent;
        assert OnAccept(AsWritten, m, s, n) == s;
        StuckForEver(m, s, script[1..]);
        NoFaultFirst(script);
      case Fails(efault) =>
        if !efault {
          StuckForEver(m, s, script[1..]);
          NoFaultFirst(script);
        } else {
          assert script[0] == Fails(true);
        }
    }
  }

  lemma NoFaultFirst(script: seq<Response>)
    requires script != [] && script[0] != Fails(true)
    ensures NoFault(script) <==> NoFault(script[1..])
  {
    if NoFault(script[1..]) {
      forall i | 0 <= i < |script| ensures script[i] != Fails(true) {
        if i > 0 { assert script[i] == script[1..][i - 1]; }
      }
    }
  }

  /** From a positive chunk there is always a way to finish, sending byte after byte; with anything mapped
      behind the file, also one that sends a byte of that. */
  lemma {:induction false} WayToFinish(m: Mapping, s: Sending, last: nat) returns (script: seq<Response>)
    requires s.total < |m.file| && 0 < s.nums <= INT_MAX && (last == 1 || (last == 2 && m.beyond != ""))
    ensures var r := Run(AsWritten, m, s, script); r.status == Done && r.s.total == |m.file| - 1 + last
    decreases |m.file| - s.total
  {
    if s.total + 1 < |m.file| {
      var first := if s.nums > 4096 then [Fails(false), Accepts(1)] else [Accepts(1)];
      var t := OneByte(m, s, first);
      var more := WayToFinish(m, t, last);
      RunInTwo(AsWritten, m, s, first, more);
      script := first + more;
    } else if s.nums >= last {
      script := [Accepts(last)];
      assert Run(AsWritten, m, s, script) == Run(AsWritten, m, OnAccept(AsWritten, m, s, last), []);
    } else {
      var t := OnAccept(AsWritten, m, s, 0);
      script := [Accepts(0), Accepts(2)];
      assert script[1..] == [Accepts(2)] && [Accepts(2)][1..] == [];
      assert Run(AsWritten, m, s, script) == Run(AsWritten, m, t, [Accepts(2)]);
      assert Run(AsWritten, m, t, [Accepts(2)]) == Run(AsWritten, m, OnAccept(AsWritten, m, t, 2), []);
    }
  }

  lemma OneByte(m: Mapping, s: Sending, first: seq<Response>) returns (t: Sending)
    requires s.total + 1 < |m.file| && 0 < s.nums <= INT_MAX
    requires first == if s.nums > 4096 then [Fails(false), Accepts(1)] else [Accepts(1)]
    ensures Run(AsWritten, m, s, first) == Report(Pending, t) && t.total == s.total + 1 && 0 < t.nums <= INT_MAX
  {
    var u := if s.nums > 4096 then OnFailure(s) else s;
    t := OnAccept(AsWritten, m, u, 1);
    assert [Accepts(1)][1..] == [];
    assert Run(AsWritten, m, u, [Accepts(1)]) == Run(AsWritten, m, t, []);
    if s.nums > 4096 {
      assert first[1..] == [Accepts(1)];
    }
  }

  // ---------------------------------------------------------------- the loop as written, exactly

  /** Whatever a finished send put on the wire is the file, for every behaviour of the socket, iff the file is
      empty, or nothing can be read behind it, or its size truncated to an int is not positive, when no send
      ever finishes. */
  lemma SendsTheFileExactly(m: Mapping)
    ensures (forall script: seq<Response> ::
               var r := Run(AsWritten, m, StartSending(AsWritten, m), script); r.status == Done ==> r.s.sent == m.file)
            <==> m.file == "" || m.beyond == "" || Int32(|m.file|) <= 0
  {
    var s := StartSending(AsWritten, m);
    if m.file == "" || m.beyond == "" || s.nums <= 0 {
      forall script: seq<Response> | Run(AsWritten, m, s, script).status == Done
        ensures Run(AsWritten, m, s, script).s.sent == m.file
      {
        FinishedSend(AsWritten, m, script);
        SentIsContiguous(AsWritten, m, s, script);
        if m.file != "" && s.nums <= 0 {
          StuckForEver(m, s, script);
        }
      }
    } else {
      var script := WayToFinish(m, s, 2);
      FinishedSend(AsWritten, m, script);
    }
  }

  /** A send that is under way can still be finished iff the truncated size was positive and the chunk has not
      outgrown an int, whatever failures were among the answers. */
  lemma StuckExactly(m: Mapping, script: seq<Response>)
    requires Run(AsWritten, m, StartSending(AsWritten, m), script).status == Pending
    ensures (forall more: seq<Response> :: Run(AsWritten, m, StartSending(AsWritten, m), script + more).status != Done)
            <==> Int32(|m.file|) <= 0 || Outgrows(Int32(|m.file|), script)
  {
    var s := StartSending(AsWritten, m);
    SentIsContiguous(AsWritten, m, s, script);
    var t := Run(AsWritten, m, s, script).s;
    if s.nums <= 0 {
      StuckForEver(m, s, script);
    } else {
      ChunkAsWritten(m, s, script);
    }
    if t.nums <= 0 {
      forall more: seq<Response> ensures Run(AsWritten, m, s, script + more).status != Done {
        RunInTwo(AsWritten, m, s, script, more);
        StuckForEver(m, t, more);
      }
    } else {
      var more := WayToFinish(m, t, 1);
      RunInTwo(AsWritten, m, s, script, more);
      assert Run(AsWritten, m, s, script + more).status == Done;
    }
  }

  // ---------------------------------------------------------------- short writes alone

  /** chunk, doubled n times. */
  function Doubled(chunk: int, n: nat): int
    decreases n
  {
    if n == 0 then chunk else Doubled(2 * chunk, n - 1)
  }

  predicate AllProductive(script: seq<Response>) {
    forall i | 0 <= i < |script| :: script[i].Accepts? && script[i].n > 0
  }

  /** Without failures the chunk outgrows an int iff the size doubled once a write does. */
  lemma {:induction false} OutgrowsByDoubling(chunk: int, script: seq<Response>)
    requires chunk > 0 && forall i | 0 <= i < |script| :: script[i].Accepts?
    ensures Outgrows(chunk, script) <==> Doubled(chunk, |script|) > INT_MAX
    decreases script
  {
    DoubledGrows(chunk, |script|);
    if script != [] {
      OutgrowsByDoubling(2 * chunk, script[1..]);
      DoubledGrows(2 * chunk, |script| - 1);
    }
  }

  lemma {:induction false} DoubledGrows(chunk: int, n: nat)
    requires chunk > 0
    ensures Doubled(chunk, n) >= chunk
    decreases n
  {
    if n > 0 { DoubledGrows(2 * chunk, n - 1); }
  }

  lemma {:induction false} DoubledMonotone(a: int, b: int, i: nat, j: nat)
    requires 0 < a <= b && i <= j
    ensures Doubled(a, i) <= Doubled(b, j)
    decreases i
  {
    if i == 0 {
      DoubledGrows(b, j);
    } else {
      DoubledMonotone(2 * a, 2 * b, i - 1, j - 1);
    }
  }

  lemma FiveTimes(chunk: int, n: nat)
    ensures Doubled(chunk, n + 5) == Doubled(32 * chunk, n)
  {
    assert Doubled(chunk, n + 5) == Doubled(2 * chunk, n + 4) == Doubled(4 * chunk, n + 3);
    assert Doubled(8 * chunk, n + 2) == Doubled(16 * chunk, n + 1) == Doubled(32 * chunk, n);
  }

  lemma DoubledByValue(chunk: int)
    ensures Doubled(chunk, 26) == 0x400_0000 * chunk
    ensures Doubled(chunk, 27) == 0x800_0000 * chunk
    ensures Doubled(chunk, 31) == 0x8000_0000 * chunk
  {
    FiveTimes(chunk, 21);
    FiveTimes(0x20 * chunk, 16);
    FiveTimes(0x400 * chunk, 11);
    FiveTimes(0x8000 * chunk, 6);
    FiveTimes(0x10_0000 * chunk, 1);
    assert Doubled(0x200_0000 * chunk, 1) == Doubled(0x400_0000 * chunk, 0);
    DoubledLast(chunk, 26);
    DoubledLast(chunk, 27);
    DoubledLast(chunk, 28);
    DoubledLast(chunk, 29);
    DoubledLast(chunk, 30);
  }

  /** Up to 27 bytes, writes that each take something finish before the chunk overflows. */
  lemma {:induction false} SmallFileFinishes(m: Mapping, s: Sending, done: nat, script: seq<Response>)
    requires |m.file| <= 27 && done <= s.total <= |m.Memory()| && s.nums == Doubled(|m.file|, done)
    requires AllProductive(script) && done + |script| >= |m.file|
    ensures Run(AsWritten, m, s, script).status == Done
    decreases script
  {
    if s.total < |m.file| {
      assert script[0].Accepts? && script[0].n > 0;
      DoubledByValue(27);
      DoubledMonotone(|m.file|, 27, done, 26);
      DoubledGrows(|m.file|, done);
      DoubledLast(|m.file|, done);
      assert 0 < s.nums <= INT_MAX;
      if done < 26 { DoubledMonotone(|m.file|, 27, done + 1, 26); }
      var t := OnAccept(AsWritten, m, s, script[0].n);
      if t.total < |m.file| {
        SmallFileFinishes(m, t, done + 1, script[1..]);
      }
    }
  }

  lemma {:induction false} DoubledLast(chunk: int, n: nat)
    ensures Doubled(chunk, n + 1) == 2 * Doubled(chunk, n)
    decreases n
  {
    if n > 0 { DoubledLast(2 * chunk, n - 1); }
  }

  /** One byte a write leaves any larger file unfinished. */
  lemma {:induction false} OneByteWrites(m: Mapping, s: Sending, n: nat)
    requires s.total + n < |m.file|
    ensures var r := Run(AsWritten, m, s, seq(n, _ => Accepts(1)));
            r.status == Pending && r.s.total <= s.total + n
    decreases n
  {
    if n > 0 {
      var script := seq(n, _ => Accepts(1));
      assert script[1..] == seq(n - 1, _ => Accepts(1));
      if s.nums >= 0 {
        OneByteWrites(m, OnAccept(AsWritten, m, s, 1), n - 1);
      } else {
        OneByteWrites(m, OnFailure(s), n - 1);
      }
    }
  }

  /** As written, a file goes out over every sequence of writes that each take something, as many as it has
      bytes, iff it has at most 27. */
  lemma ShortWritesFinishExactly(m: Mapping)
    ensures (forall script | AllProductive(script) && |script| >= |m.file| ::
               Run(AsWritten, m, StartSending(AsWritten, m), script).status == Done)
            <==> |m.file| <= 27
  {
    var s := StartSending(AsWritten, m);
    if |m.file| <= 27 {
      forall script | AllProductive(script) && |script| >= |m.file|
          ensures Run(AsWritten, m, s, script).status == Done {
        SmallFileFinishes(m, s, 0, script);
      }
    } else {
      var n := if |m.file| < 32 then 27 else 31;
      var script := seq(n, _ => Accepts(1));
      OneByteWrites(m, s, n);
      if s.nums > 0 {
        DoubledByValue(28);
        DoubledByValue(1);
        DoubledMonotone(if n == 27 then 28 else 1, s.nums, n, n);
        OutgrowsByDoubling(s.nums, script);
      }
      StuckExactly(m, script);
      var more := seq(|m.file|, _ => Accepts(1));
      assert AllProductive(script + more);
      assert Run(AsWritten, m, s, script + more).status != Done;
    }
  }

  /** The smallest such file: 27 one-byte writes of 28 leave a negative chunk and one byte unsent for ever. */
  lemma TwentyEightBytesStall(m: Mapping)
    requires |m.file| == 28
    ensures var r := Run(AsWritten, m, StartSending(AsWritten, m), seq(27, _ => Accepts(1)));
            r.status == Pending && r.s.nums < 0
  {
    var s := StartSending(AsWritten, m);
    OneByteWrites(m, s, 27);
    DoubledByValue(28);
    OutgrowsByDoubling(28, seq(27, _ => Accepts(1)));
    ChunkAsWritten(m, s, seq(27, _ => Accepts(1)));
  }

  // ---------------------------------------------------------------- failures, and the width of an int

  /** The int that is stored differs from the number by a multiple of 2^32. */
  lemma Int32Exactly(n: int)
    ensures -0x8000_0000 <= Int32(n) <= 0x7fff_ffff && (n - Int32(n)) % 0x1_0000_0000 == 0
  {
    var k := n / WORD;
    assert n == k * WORD + n % WORD;
    var d := if n % WORD > INT_MAX then k + 1 else k;
    assert n - Int32(n) == d * WORD + 0;
    ModShift(0, d);
  }

  lemma ModShift(a: int, k: int)
    ensures (a + k * WORD) % WORD == a % WORD
  {
  }

  /** chunk, halved n times. */
  function Halved(chunk: nat, n: nat): nat
    decreases n
  {
    if n == 0 then chunk else Halved(chunk / 2, n - 1)
  }

  /** Failures halve the chunk as long as it is above 4096 bytes, and not any more. */
  lemma {:induction false} FailuresHalve(chunk: nat, n: nat) returns (j: nat)
    ensures j <= n && ChunkAfter(chunk, seq(n, _ => Fails(false))) == Halved(chunk, j)
    ensures (forall i | 0 <= i < j :: Halved(chunk, i) > 4096) && (j == n || Halved(chunk, j) <= 4096)
    decreases n
  {
    var script := seq(n, _ => Fails(false));
    if n == 0 {
      j := 0;
    } else {
      assert script[1..] == seq(n - 1, _ => Fails(false));
      if chunk > 4096 {
        j := FailuresHalve(chunk / 2, n - 1);
        forall i | 0 <= i < j + 1 ensures Halved(chunk, i) > 4096 {
          if i > 0 { assert Halved(chunk, i) == Halved(chunk / 2, i - 1); }
        }
        j := j + 1;
      } else {
        assert Halved(chunk, 0) == chunk;
        j := FailuresHalve(chunk, n - 1);
      }
    }
  }

  /** The send breaks off exactly when an EFAULT comes before the file is out, with what was sent until then. */
  lemma BreaksExactly(p: Policy, m: Mapping, s: Sending, script: seq<Response>, i: nat)
    requires s.total <= |m.Memory()| && i < |script| && script[i] == Fails(true)
    requires Run(p, m, s, script[..i]).status == Pending
    ensures Run(p, m, s, script) == Report(Broken, Run(p, m, s, script[..i]).s)
  {
    assert script == script[..i] + script[i..];
    RunInTwo(p, m, s, script[..i], script[i..]);
    RunEndsPending(p, m, s, script[..i]);
  }

  lemma {:induction false} RunEndsPending(p: Policy, m: Mapping, s: Sending, script: seq<Response>)
    requires s.total <= |m.Memory()| && Run(p, m, s, script).status == Pending
    ensures Run(p, m, s, script).s.total < |m.file|
    decreases script
  {
    if script != [] {
      match Answer(s.nums, script[0])
      case Accepts(n) => RunEndsPending(p, m, OnAccept(p, m, s, n), script[1..]);
      case Fails(_) => RunEndsPending(p, m, OnFailure(s), script[1..]);
    }
  }

  lemma {:induction false} WithoutFaultNoBreak(p: Policy, m: Mapping, s: Sending, script: seq<Response>)
    requires s.total <= |m.Memory()| && NoFault(script)
    ensures Run(p, m, s, script).status != Broken
    decreases script
  {
    if s.total < |m.file| && script != [] {
      assert script[0] != Fails(true);
      NoFaultFirst(script);
      match Answer(s.nums, script[0])
      case Accepts(n) => WithoutFaultNoBreak(p, m, OnAccept(p, m, s, n), script[1..]);
      case Fails(_) => WithoutFaultNoBreak(p, m, OnFailure(s), script[1..]);
    }
  }
}
