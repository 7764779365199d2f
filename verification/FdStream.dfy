/**
 The buffered reader over a file descriptor: a fixed array whose first cells hold the last few bytes
 already read, and an input stream on top of it (or on a string).
 */
module FdStream {
  import opened Chars

  const PB_SIZE: nat := 4
  const BUF_SIZE: nat := 1024
  const EOF: int := -1

  /** What successive calls of read(fd, _, 1024) return: a segment of bytes, or nothing (0 or an error). */
  datatype Read = Bytes(data: string) | Failed

  predicate Readable(script: seq<Read>) {
    forall i | 0 <= i < |script| :: script[i].Bytes? ==> |script[i].data| <= BUF_SIZE
  }

  /** The descriptor carries bytes. */
  predicate ByteScript(script: seq<Read>) {
    forall i, j | 0 <= i < |script| && script[i].Bytes? && 0 <= j < |script[i].data| :: script[i].data[j] as int < 256
  }

  /** The next read brings no byte: end of input, an error, or nothing scripted any more. */
  predicate Dry(script: seq<Read>) {
    script == [] || script[0].Failed? || script[0].data == ""
  }

  /** `char` is signed: a byte returned without a conversion to unsigned is sign-extended. */
  function SignExtend(c: char): int {
    if c as int < 128 then c as int else c as int - 256
  }

  /** What a stream over these reads delivers before it ends. A segment that starts with byte 255 ends it:
      underflow returns that byte as -1, which is EOF. */
  function Delivered(script: seq<Read>): string {
    if Dry(script) then []
    else if SignExtend(script[0].data[0]) == EOF then []
    else script[0].data + Delivered(script[1..])
  }

  /** What the descriptor sent before its first failed read. */
  function Sent(script: seq<Read>): string {
    if Dry(script) then [] else script[0].data + Sent(script[1..])
  }

  /** No segment before the first failed read starts with byte 255. */
  predicate NoFalseEnd(script: seq<Read>) {
    Dry(script) || (script[0].data[0] != '\U{00ff}' && NoFalseEnd(script[1..]))
  }

  class FdBuf {
    const buffer: array<char>
    var eback: nat
    var gptr: nat
    var egptr: nat
    var script: seq<Read>    // the reads still to come
    ghost var taken: string  // every byte handed out so far
    ghost var clean: bool    // no read has failed so far

    ghost predicate Valid()
      reads this, buffer
    {
      && buffer.Length == BUF_SIZE + PB_SIZE
      && eback <= PB_SIZE <= gptr <= egptr <= buffer.Length
      && Readable(script)
      && (clean ==> PutbackIsRecent())
    }

    /** The bytes before gptr are the latest ones handed out: those of this segment and up to four before it. */
    ghost predicate PutbackIsRecent()
      requires buffer.Length == BUF_SIZE + PB_SIZE && eback <= PB_SIZE <= gptr <= buffer.Length
      reads this, buffer
    {
      && gptr - PB_SIZE <= |taken|
      && eback == PB_SIZE - Min(PB_SIZE, |taken| - (gptr - PB_SIZE))
      && buffer[eback..gptr] == taken[|taken| - (gptr - eback)..]
    }

    /** Bytes of the current segment not handed out yet. */
    ghost function Unread(): string
      requires Valid()
      reads this, buffer
    {
      buffer[gptr..egptr]
    }

    constructor (script: seq<Read>)
      requires Readable(script)
      ensures Valid() && fresh(buffer)
      ensures Unread() == [] && this.script == script && taken == [] && clean
    {
      buffer := new char[BUF_SIZE + PB_SIZE];
      eback, gptr, egptr := PB_SIZE, PB_SIZE, PB_SIZE;
      this.script := script;
      taken := [];
      clean := true;
    }

    /** Refill. The last `numPutback` bytes move to just before cell 4 (source and destination may overlap),
        then one read fills the cells from 4 on. */
    method Underflow() returns (r: int)
      requires Valid()
      modifies this, buffer
      ensures Valid() && taken == old(taken)
      ensures old(Unread()) != [] ==>
                && Unread() == old(Unread()) && script == old(script) && clean == old(clean)
                && r == SignExtend(Unread()[0])
      ensures old(Unread()) == [] ==> script == if old(script) == [] then [] else old(script)[1..]
      ensures old(Unread()) == [] && Dry(old(script)) ==> Unread() == [] && r == EOF && !clean
      ensures old(Unread()) == [] && !Dry(old(script)) ==>
                Unread() == old(script)[0].data && r == SignExtend(Unread()[0]) && clean == old(clean)
      // after a refill the putback area holds exactly the last min(4, handed out) bytes
      ensures old(Unread()) == [] && !Dry(old(script)) && clean ==>
                gptr == 4 && buffer[eback..gptr] == Last(4, taken)
    {
      if gptr < egptr {
        return SignExtend(buffer[gptr]);
      }
      var numPutback := SavePutback();
      if Dry(script) {
        script := if script == [] then [] else script[1..];
        clean := false;
        return EOF;
      }
      Fill(numPutback);
      return SignExtend(buffer[gptr]);
    }

    /** Stores a successful read behind the putback bytes and resets the pointers. */
    method Fill(numPutback: nat)
      requires buffer.Length == BUF_SIZE + PB_SIZE && Readable(script) && !Dry(script) && numPutback <= PB_SIZE
      requires clean ==>
                 buffer[PB_SIZE - numPutback..PB_SIZE] == Last(PB_SIZE, taken) && numPutback == Min(PB_SIZE, |taken|)
      modifies this, buffer
      ensures Valid() && taken == old(taken) && clean == old(clean)
      ensures script == old(script)[1..] && Unread() == old(script)[0].data
      ensures gptr == PB_SIZE && (clean ==> buffer[eback..gptr] == Last(PB_SIZE, taken))
    {
      var data := script[0].data;
      ghost var saved := buffer[PB_SIZE - numPutback..PB_SIZE];
      Store(buffer, PB_SIZE, data);
      assert buffer[PB_SIZE - numPutback..PB_SIZE] == saved;
      script := script[1..];
      eback, gptr, egptr := PB_SIZE - numPutback, PB_SIZE, PB_SIZE + |data|;
    }

    /** Moves the last bytes handed out, at most four, to just before cell 4; the cells they come from may
        be among the cells they go to. */
    method SavePutback() returns (numPutback: nat)
      requires Valid() && gptr == egptr
      modifies buffer
      ensures numPutback == Min(PB_SIZE, gptr - eback)
      ensures clean ==>
                 buffer[PB_SIZE - numPutback..PB_SIZE] == Last(PB_SIZE, taken) && numPutback == Min(PB_SIZE, |taken|)
    {
      numPutback := Min(PB_SIZE, gptr - eback);
      if clean {
        EndOfTheEnd(buffer[..], taken, eback, gptr, numPutback);
        assert buffer[gptr - numPutback..gptr] == buffer[..][gptr - numPutback..gptr];
      }
      Move(buffer, gptr - numPutback, PB_SIZE - numPutback, numPutback);
    }

    /** Hands out the byte at gptr. */
    method Take() returns (r: int)
      requires Valid() && Unread() != []
      modifies this
      ensures Valid()
      ensures r == old(Unread())[0] as int && Unread() == old(Unread())[1..] && script == old(script)
      ensures taken == old(taken) + [old(Unread())[0]]
    {
      assert buffer[gptr..egptr] == [buffer[gptr]] + buffer[gptr + 1..egptr];
      assert buffer[eback..gptr + 1] == buffer[eback..gptr] + [buffer[gptr]];
      r := buffer[gptr] as int;
      taken := taken + [buffer[gptr]];
      gptr := gptr + 1;
    }

    /** streambuf::sbumpc, with the inherited uflow: take one byte, as an unsigned value, or EOF. */
    method Bump() returns (r: int)
      requires Valid()
      modifies this, buffer
      ensures Valid()
      ensures r == EOF <==> old(Unread()) + Delivered(old(script)) == []
      ensures r == EOF ==> taken == old(taken)
      ensures r != EOF ==>
                var coming := old(Unread()) + Delivered(old(script));
                r == coming[0] as int && Unread() + Delivered(script) == coming[1..]
                    && taken == old(taken) + [coming[0]]
    {
      ghost var coming := Unread() + Delivered(script);
      if gptr >= egptr {
        assert coming == Delivered(script);
        var u := Underflow();
        if u == EOF {
          return EOF;
        }
        assert coming == Unread() + Delivered(script);
      }
      ghost var unread, behind := Unread(), Delivered(script);
      assert coming[0] == unread[0] && coming[1..] == unread[1..] + behind;
      r := Take();
    }
  }

  /** memmove within one array. */
  method Move(a: array<char>, src: nat, dst: nat, n: nat)
    requires src + n <= a.Length && dst + n <= a.Length
    modifies a
    ensures a[dst..dst + n] == old(a[src..src + n])
    ensures forall k | 0 <= k < a.Length && !(dst <= k < dst + n) :: a[k] == old(a[k])
  {
    forall k | 0 <= k < n {
      a[dst + k] := a[src + k];
    }
  }

  method Store(a: array<char>, at: nat, data: string)
    requires at + |data| <= a.Length
    modifies a
    ensures a[at..at + |data|] == data
    ensures forall k | 0 <= k < a.Length && !(at <= k < at + |data|) :: a[k] == old(a[k])
  {
    forall k | 0 <= k < |data| {
      a[at + k] := data[k];
    }
  }

  function Min(a: int, b: int): int {
    if a < b then a else b
  }

  /** The last n elements, or all of them. */
  function Last(n: nat, s: string): string {
    s[|s| - Min(n, |s|)..]
  }

  lemma EndOfTheEnd(cells: string, taken: string, eback: nat, gptr: nat, n: nat)
    requires eback <= PB_SIZE <= gptr <= |cells| && gptr - PB_SIZE <= |taken| && n == Min(PB_SIZE, gptr - eback)
    requires eback == PB_SIZE - Min(PB_SIZE, |taken| - (gptr - PB_SIZE))
    requires cells[eback..gptr] == taken[|taken| - (gptr - eback)..]
    ensures n == Min(PB_SIZE, |taken|) && cells[gptr - n..gptr] == Last(PB_SIZE, taken)
  {
    var m := gptr - eback;
    EndOfSlice(cells, eback, gptr, n);
    EndOfSlice(taken, |taken| - m, |taken|, n);
    assert taken[|taken| - m..|taken|] == taken[|taken| - m..];
    assert taken[|taken| - n..|taken|] == taken[|taken| - n..];
  }

  lemma EndOfSlice(s: string, lo: nat, hi: nat, n: nat)
    requires lo <= hi <= |s| && n <= hi - lo
    ensures s[lo..hi][hi - lo - n..] == s[hi - n..hi]
  {
  }

  /** std::istream over an FdBuf or over a string; after the first failure every get fails. */
  class Input {
    const fd: FdBuf?
    var text: string
    var good: bool

    ghost predicate Valid()
      reads this, fd, if fd == null then {} else {fd.buffer}
    {
      fd == null || fd.Valid()
    }

    ghost function Repr(): set<object>
    {
      {this} + if fd == null then {} else {fd, fd.buffer}
    }

    /** Every byte that gets will still deliver. */
    ghost function Remaining(): string
      requires Valid()
      reads this, fd, if fd == null then {} else {fd.buffer}
    {
      if !good then [] else if fd == null then text else fd.Unread() + Delivered(fd.script)
    }

    constructor OnDescriptor(b: FdBuf)
      requires b.Valid()
      ensures fd == b && good && Valid() && Remaining() == b.Unread() + Delivered(b.script)
    {
      fd := b;
      text := "";
      good := true;
    }

    constructor OnString(s: string)
      ensures fd == null && Valid() && Remaining() == s
    {
      fd := null;
      text := s;
      good := true;
    }

    method Get() returns (ok: bool, ch: char)
      requires Valid()
      modifies Repr()
      ensures Valid()
      ensures ok <==> old(Remaining()) != []
      ensures ok ==> ch == old(Remaining())[0] && Remaining() == old(Remaining())[1..]
      ensures !ok ==> Remaining() == []
    {
      ok, ch := good, NUL;
      if !good {
        return;
      }
      if fd == null {
        if text == "" {
          ok, good := false, false;
        } else {
          ch := text[0];
          text := text[1..];
        }
      } else {
        var r := fd.Bump();
        if r == EOF {
          ok, good := false, false;
        } else {
          ch := r as char;
        }
      }
    }
  }

  /** Reading to the end yields every byte still to be delivered, in order, once. */
  method ReadAll(stream: Input) returns (text: string)
    requires stream.Valid()
    modifies stream.Repr()
    ensures stream.Valid() && text == old(stream.Remaining()) && stream.Remaining() == ""
  {
    text := "";
    var ok, ch := stream.Get();
    ghost var all := old(stream.Remaining());
    ghost var left := if ok then [ch] + stream.Remaining() else "";
    assert all == text + left;
    while ok
      invariant stream.Valid() && all == text + left
      invariant left == if ok then [ch] + stream.Remaining() else ""
      invariant !ok ==> stream.Remaining() == ""
      decreases |stream.Remaining()|, ok
    {
      Regroup(text, ch, stream.Remaining());
      text := text + [ch];
      left := stream.Remaining();
      ok, ch := stream.Get();
    }
    assert text + left == text;
  }

  lemma Regroup(text: string, ch: char, left: string)
    ensures text + ([ch] + left) == text + [ch] + left
  {
  }

  // ---------------------------------------------------------------- segmentation

  /** The data of reads that all brought something. */
  function Joined(data: seq<string>): string {
    if data == [] then "" else data[0] + Joined(data[1..])
  }

  function Reads(data: seq<string>): seq<Read> {
    seq(|data|, i requires 0 <= i < |data| => Bytes(data[i]))
  }

  lemma FirstOfReads(data: seq<string>, more: seq<Read>)
    requires data != []
    ensures (Reads(data) + more)[0] == Bytes(data[0]) && (Reads(data) + more)[1..] == Reads(data[1..]) + more
  {
  }

  /** Reads of up to 1024 bytes, none of them empty, are all sent, whatever follows them. */
  lemma {:induction false} ReadsAreSent(data: seq<string>, more: seq<Read>)
    requires forall i | 0 <= i < |data| :: 1 <= |data[i]| <= 1024
    requires Readable(more)
    ensures Readable(Reads(data) + more) && Sent(Reads(data) + more) == Joined(data) + Sent(more)
    decreases data
  {
    if data == [] {
      assert Reads(data) + more == more && "" + Sent(more) == Sent(more);
    } else {
      ReadsAreSent(data[1..], more);
      FirstOfReads(data, more);
      assert Joined(data) + Sent(more) == data[0] + (Joined(data[1..]) + Sent(more));
    }
  }

  /** If moreover none of them starts with byte 255, all are delivered. */
  lemma {:induction false} ReadsAreDelivered(data: seq<string>, more: seq<Read>)
    requires forall i | 0 <= i < |data| :: 1 <= |data[i]| <= 1024 && data[i][0] as int < 255
    ensures Delivered(Reads(data) + more) == Joined(data) + Delivered(more)
    decreases data
  {
    if data == [] {
      assert Reads(data) + more == more && "" + Delivered(more) == Delivered(more);
    } else {
      ReadsAreDelivered(data[1..], more);
      FirstOfReads(data, more);
      assert Joined(data) + Delivered(more) == data[0] + (Joined(data[1..]) + Delivered(more));
    }
  }

  /** A failed or empty read ends the input. */
  lemma NothingBehindAFailure(first: Read, more: seq<Read>)
    requires first == Failed || first == Bytes("")
    ensures Sent([first] + more) == "" && Delivered([first] + more) == ""
    ensures Sent([]) == "" && Delivered([]) == ""
  {
    assert ([first] + more)[0] == first;
  }

  /** A stream delivers every byte sent before the first failed read iff no segment starts with byte 255. */
  lemma {:induction false} DeliversAllExactly(script: seq<Read>)
    requires Readable(script)
    requires ByteScript(script)
    ensures Delivered(script) == Sent(script) <==> NoFalseEnd(script)
    ensures Delivered(script) <= Sent(script)
  {
    if !Dry(script) {
      assert script[0].data[0] as int < 256;
      assert forall i | 0 <= i < |script[1..]| :: script[1..][i] == script[i + 1];
      assert ByteScript(script[1..]);
      DeliversAllExactly(script[1..]);
      if script[0].data[0] != '\U{00ff}' {
        assert Delivered(script)[|script[0].data|..] == Delivered(script[1..]);
        assert Sent(script)[|script[0].data|..] == Sent(script[1..]);
      } else {
        assert |Sent(script)| > 0;
      }
    }
  }

  /** So how a byte sequence without byte 255 is cut into reads makes no difference. */
  lemma SegmentationIrrelevant(a: seq<Read>, b: seq<Read>)
    requires Readable(a) && Readable(b) && Sent(a) == Sent(b)
    requires forall i | 0 <= i < |Sent(a)| :: Sent(a)[i] as int < 255
    ensures Delivered(a) == Delivered(b) == Sent(a)
  {
    PlainBytesDelivered(a);
    PlainBytesDelivered(b);
  }

  lemma {:induction false} PlainBytesDelivered(script: seq<Read>)
    requires Readable(script)
    requires forall i | 0 <= i < |Sent(script)| :: Sent(script)[i] as int < 255
    ensures Delivered(script) == Sent(script)
  {
    if !Dry(script) {
      assert Sent(script)[0] == script[0].data[0];
      assert forall i | 0 <= i < |Sent(script[1..])| :: Sent(script[1..])[i] == Sent(script)[i + |script[0].data|];
      PlainBytesDelivered(script[1..]);
    }
  }

  /** The shortest loss: one read that brings the byte 255 alone. */
  lemma Byte255EndsTheInput()
    ensures var script := [Bytes(['\U{00ff}'])];
            Readable(script) && ByteScript(script) && Sent(script) == ['\U{00ff}'] && Delivered(script) == ""
  {
    var script := [Bytes(['\U{00ff}'])];
    assert script[1..] == [] && Sent([]) == "";
    assert Sent(script) == script[0].data + Sent(script[1..]);
  }
}
