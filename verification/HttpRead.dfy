/** read_header_line and read_header as they run: one byte at a time, over fixed character buffers. */
module HttpRead {
  import opened Chars
  import opened Fields
  import opened FdStream
  import opened RequestHead

  class Parser {
    var verb: Verb
    var target: string
    var version: nat
    const fields: FieldMap
    var query: Option<string>
    var headerDone: bool

    function Value(): Parsed
      reads this, fields
    {
      Parsed(Message(verb, target, version, fields.fields), query, headerDone)
    }

    ghost function Repr(): set<object> {
      {this, fields}
    }

    constructor ()
      ensures Value() == Fresh && fresh(fields) && fields.Valid()
    {
      verb, target, version := Fresh.message.verb, "", 0;
      fields := new FieldMap();
      query := None;
      headerDone := false;
    }
  }

  /** strncmp(buffer, word, |word|) == 0 */
  predicate StartsWith(buffer: array<char>, word: string)
    requires |word| <= buffer.Length
    reads buffer
  {
    buffer[..|word|] == word
  }

  /** The switch on the token's length, whose shorter cases fall through to the longer ones. The buffer
      already holds the space behind the token, so no fall-through ever matches a longer verb. */
  method MatchVerb(buffer: array<char>, n: nat) returns (r: Option<Verb>)
    requires n < buffer.Length && 6 <= buffer.Length && buffer[n] == ' '
    ensures r == VerbOf(buffer[..n])
  {
    assert forall k | n < k <= buffer.Length :: buffer[..k][n] == ' ';
    if n == 3 {
      if StartsWith(buffer, "GET") { return Some(Get); }
      if StartsWith(buffer, "PUT") { return Some(Put); }
    }
    if n == 3 || n == 4 {
      if StartsWith(buffer, "HEAD") { return Some(Head); }
      if StartsWith(buffer, "POST") { return Some(Post); }
    }
    if n == 3 || n == 4 || n == 6 {
      if StartsWith(buffer, "DELETE") { return Some(Delete); }
    }
    return None;
  }

  /** A string that is terminated at index i of a buffer. */
  lemma BufferText(buffer: seq<char>, i: nat)
    requires i < |buffer| && buffer[i] == NUL
    ensures CString(buffer) == CString(buffer[..i])
    ensures NUL !in buffer[..i] ==> CString(buffer) == buffer[..i]
  {
    assert buffer == buffer[..i] + [NUL] + buffer[i + 1..];
    CStringTerminated(buffer[..i], buffer[i + 1..]);
    if NUL !in buffer[..i] {
      CStringWhole(buffer[..i], buffer[i + 1..]);
    }
  }

  // ---------------------------------------------------------------- the request line

  /** The local variables of read_header_line. */
  class LineReader {
    var state: LineStage
    const buffer: array<char>
    var i: nat
    var version: nat
    const par: Parser

    constructor (par: Parser)
      ensures Valid() && fresh(buffer) && this.par == par
      ensures Shows() == Line(LStart, "", 0, par.Value())
    {
      this.par := par;
      state, i, version := LStart, 0, 0;
      buffer := new char[MAXTARGETLEN];
    }

    ghost predicate Valid()
      reads this, buffer
    {
      && buffer.Length == MAXTARGETLEN && i <= MAXTARGETLEN
      && (state.LSpaces? ==> i == 0)
      && (state.LTarget? || state.LParams? ==> NUL !in buffer[..i])
    }

    /** The variables as the text machine sees them. */
    ghost function Shows(): Line
      requires Valid()
      reads this, buffer, par, par.fields
    {
      Line(state, buffer[..i], version, par.Value())
    }

    method Keep(ch: char) returns (halt: Option<Ec>)
      requires Valid() && (state.LTarget? || state.LParams? ==> ch != NUL) && !state.LSpaces?
      modifies this`i, buffer
      ensures Valid()
      ensures RequestHead.Keep(old(Shows()), ch) ==
              if halt == None then More(Shows()) else Halt(halt.value, par.Value())
      ensures halt == None ==> i == old(i) + 1 && buffer[i - 1] == ch
    {
      if i == MAXTARGETLEN { return Some(Overrun); }
      ghost var b := buffer[..i];
      buffer[i] := ch;
      i := i + 1;
      assert buffer[..i] == b + [ch];
      return None;
    }

    /** Terminates the buffer at i and takes its text. */
    method Text() returns (t: string)
      requires Valid() && i < MAXTARGETLEN && NUL !in buffer[..i]
      modifies buffer
      ensures t == old(buffer[..i])
    {
      ghost var b := buffer[..i];
      buffer[i] := NUL;
      BufferText(buffer[..], i);
      assert buffer[..][..i] == b;
      t := CString(buffer[..]);
    }

    method OnMethod(ch: char) returns (halt: Option<Ec>)
      requires Valid() && state.LMethod?
      modifies this, buffer, par
      ensures Valid()
      ensures LineStep(old(Shows()), ch) == if halt == None then More(Shows()) else Halt(halt.value, par.Value())
    {
      ghost var b := buffer[..i];
      halt := Keep(ch);
      if halt.Some? { return; }
      if ch == ' ' {
        var verb := MatchVerb(buffer, i - 1);
        assert buffer[..i - 1] == b;
        if verb == None { return Some(InvalidMethod); }
        par.verb := verb.value;
        state := LSpaces;
        i := 0;
      } else if ch < 'A' || ch > 'Z' {
        return Some(InvalidMethod);
      }
    }

    method OnTarget(ch: char) returns (halt: Option<Ec>)
      requires Valid() && state.LTarget?
      modifies this, buffer, par
      ensures Valid()
      ensures LineStep(old(Shows()), ch) == if halt == None then More(Shows()) else Halt(halt.value, par.Value())
    {
      if Usual(ch) || ch == '/' || ch == '.' {
        halt := Keep(ch);
      } else if ch == '?' || ch == ' ' {
        if i == MAXTARGETLEN { return Some(Overrun); }
        var t := Text();
        par.target := t;
        state := if ch == '?' then LParams else LHttp;
        i := 0;
        halt := None;
      } else {
        halt := Some(InvalidRequest);
      }
    }

    method OnParams(ch: char) returns (halt: Option<Ec>)
      requires Valid() && state.LParams?
      modifies this, buffer, par
      ensures Valid()
      ensures LineStep(old(Shows()), ch) == if halt == None then More(Shows()) else Halt(halt.value, par.Value())
    {
      halt := None;
      if Printable(ch) {
        halt := Keep(ch);
        if halt.Some? { return; }
      }
      if ch == ' ' {
        if i == MAXTARGETLEN { return Some(Overrun); }
        if i != 0 {
          var q := Text();
          par.query := Some(q);
        }
        state := LHttp;
        i := 0;
      } else if ch == NUL {
        return Some(InvalidRequest);
      }
    }

    method OnHttp(ch: char) returns (halt: Option<Ec>)
      requires Valid() && state.LHttp?
      modifies this, buffer, par
      ensures Valid()
      ensures LineStep(old(Shows()), ch) == if halt == None then More(Shows()) else Halt(halt.value, par.Value())
    {
      halt := None;
      if Usual(ch) {
        halt := Keep(ch);
        if halt.Some? { return; }
      }
      if i == 4 {
        if !StartsWith(buffer, "HTTP") { return Some(InvalidRequest); }
      }
      if ch == '/' {
        state := LMajor;
      }
    }

    /** One turn of the loop, after is.get(ch). */
    method Step(ch: char) returns (halt: Option<Ec>)
      requires Valid() && !(state.LMinor? && ch == LF)
      modifies this, buffer, par
      ensures Valid()
      ensures LineStep(old(Shows()), ch) == if halt == None then More(Shows()) else Halt(halt.value, par.Value())
    {
      halt := None;
      match state
      case LStart =>
        if ch != CR && ch != LF {
          if ch < 'A' || ch > 'Z' { return Some(InvalidMethod); }
          state := LMethod;
          i := 0;
          buffer[i] := ch;
          i := i + 1;
          assert buffer[..i] == [ch];
        }
      case LMethod => halt := OnMethod(ch);
      case LSpaces =>
        if ch == '/' {
          buffer[i] := ch;
          i := i + 1;
          assert buffer[..i] == "/";
          state := LTarget;
        } else if ch != ' ' {
          halt := Some(InvalidRequest);
        }
      case LTarget => halt := OnTarget(ch);
      case LParams => halt := OnParams(ch);
      case LHttp => halt := OnHttp(ch);
      case LMajor =>
        if Usual(ch) {
          if NextVersion(version, ch) > 1 { return Some(InvalidRequest); }
          version := NextVersion(version, ch);
        } else if ch == '.' {
          state := LMinor;
        } else if ch != ' ' {
          halt := Some(InvalidRequest);
        }
      case LMinor =>
        if Usual(ch) {
          if NextVersion(version, ch) > 11 { return Some(InvalidRequest); }
          version := NextVersion(version, ch);
        }
    }
  }

  /** Gets one character and takes one turn; `finished` ends the loop, with its result code. */
  method LineTurn(stream: Input, r: LineReader) returns (finished: bool, ec: Ec)
    requires stream.Valid() && r.Valid() && {r, r.buffer, r.par, r.par.fields} !! stream.Repr()
    modifies stream.Repr(), r, r.buffer, r.par
    ensures stream.Valid() && r.Valid() && |stream.Remaining()| <= old(|stream.Remaining()|)
    ensures !finished ==>
              && LineRun(old(r.Shows()), old(stream.Remaining())) == LineRun(r.Shows(), stream.Remaining())
              && |stream.Remaining()| < old(|stream.Remaining()|)
    ensures finished ==>
              LineRun(old(r.Shows()), old(stream.Remaining()))
              == Result(ec, if ec == Ok then WithVersion(r.Shows()) else r.par.Value(), stream.Remaining())
  {
    ghost var s, input := r.Shows(), stream.Remaining();
    var ok, ch := stream.Get();
    if !ok {
      return true, Ok;
    }
    ghost var rest := stream.Remaining();
    assert r.Shows() == s && input[0] == ch && input[1..] == rest;
    if r.state == LMinor && ch == LF {
      return true, Ok;
    }
    var halt := r.Step(ch);
    assert stream.Remaining() == rest;
    if halt.Some? { return true, halt.value; }
    return false, Ok;
  }

  method ReadHeaderLine(stream: Input, par: Parser) returns (ec: Ec)
    requires stream.Valid() && par.Repr() !! stream.Repr()
    modifies stream.Repr(), par
    ensures stream.Valid()
    ensures var r := LineRun(Line(LStart, "", 0, old(par.Value())), old(stream.Remaining()));
            ec == r.ec && par.Value() == r.p && stream.Remaining() == r.rest
  {
    var r := new LineReader(par);
    ghost var result := LineRun(r.Shows(), stream.Remaining());
    var finished := false;
    ec := Ok;
    while !finished
      invariant stream.Valid() && r.Valid() && r.par == par && fresh(r) && fresh(r.buffer)
      invariant !finished ==> result == LineRun(r.Shows(), stream.Remaining())
      invariant finished ==>
                  result == Result(ec, if ec == Ok then WithVersion(r.Shows()) else par.Value(), stream.Remaining())
      decreases |stream.Remaining()|, !finished
    {
      finished, ec := LineTurn(stream, r);
    }
    if ec == Ok {
      par.version := r.version;
    }
  }

  // ---------------------------------------------------------------- the header fields

  /** The local variables of read_header: two buffers and the index they share. */
  class HeaderReader {
    var state: HeaderStage
    const name: array<char>
    const value: array<char>
    var i: nat
    const par: Parser
    ghost var n: string  // the name read last
    ghost var v: string  // the value read last

    constructor (par: Parser)
      requires par.fields.Valid()
      ensures Valid() && fresh(name) && fresh(value) && this.par == par
      ensures Shows() == Header(HStart, "", "", par.Value())
    {
      this.par := par;
      state, i := HStart, 0;
      name := new char[MAXFIELDNAME];
      value := new char[MAXFIELDVALUE];
      n, v := "", "";
    }

    ghost predicate Valid()
      reads this, name, value, par.fields
    {
      && par.fields.Valid()
      && name.Length == MAXFIELDNAME && value.Length == MAXFIELDVALUE && name != value
      && (state.HName? ==> i <= MAXFIELDNAME && n == name[..i] && NUL !in n)
      && (state.HSpaces? || state.HValue? ==> n == CString(name[..]))
      && (state.HValue? ==> i <= MAXFIELDVALUE && v == value[..i])
    }

    ghost function Shows(): Header
      requires Valid()
      reads this, name, value, par, par.fields
    {
      Header(state, n, v, par.Value())
    }

    method OnName(ch: char) returns (halt: Option<Ec>)
      requires Valid() && state.HName?
      modifies this, name
      ensures Valid()
      ensures HeaderStep(old(Shows()), ch) == if halt == None then More(Shows()) else Halt(halt.value, par.Value())
    {
      halt := None;
      if Lowcase(ch) && i < MAXFIELDNAME {
        name[i] := ch;
        i := i + 1;
        assert name[..i] == n + [ch];
        n := n + [ch];
      } else if ch == ':' && i < MAXFIELDNAME {
        name[i] := NUL;
        BufferText(name[..], i);
        assert name[..][..i] == n;
        state := HSpaces;
      } else {
        halt := Some(InvalidRequest);
      }
    }

    method OnSpaces(ch: char)
      requires Valid() && state.HSpaces?
      modifies this, value, par.fields
      ensures Valid()
      ensures HeaderStep(old(Shows()), ch) == More(Shows())
    {
      if ch == CR || ch == LF {
        par.fields.Set(CString(name[..]), [NUL]);
        state := if ch == CR then HAlmost else HStart;
      } else if ch != ' ' {
        i := 0;
        value[i] := ch;
        i := i + 1;
        assert value[..i] == [ch];
        v := [ch];
        state := HValue;
      }
    }

    method OnValue(ch: char) returns (halt: Option<Ec>)
      requires Valid() && state.HValue?
      modifies this, value, par.fields
      ensures Valid()
      ensures HeaderStep(old(Shows()), ch) == if halt == None then More(Shows()) else Halt(halt.value, par.Value())
    {
      if ch == NUL { return Some(InvalidHeader); }
      if i == MAXFIELDVALUE { return Some(Overrun); }
      if ch == CR || ch == LF {
        value[i] := NUL;
        BufferText(value[..], i);
        assert value[..][..i] == v;
        par.fields.Set(CString(name[..]), CString(value[..]));
        state := if ch == CR then HAlmost else HStart;
      } else {
        value[i] := ch;
        i := i + 1;
        assert value[..i] == v + [ch];
        v := v + [ch];
      }
      return None;
    }

    /** One turn of the loop, after is.get(ch), unless it ends the head. */
    method Step(ch: char) returns (halt: Option<Ec>)
      requires Valid() && !(ch == LF && (state.HStart? || state.HEnd?))
      modifies this, name, value, par.fields
      ensures Valid()
      ensures HeaderStep(old(Shows()), ch) == if halt == None then More(Shows()) else Halt(halt.value, par.Value())
    {
      halt := None;
      match state
      case HStart =>
        if ch == CR {
          state := HEnd;
        } else if Lowcase(ch) {
          i := 0;
          name[i] := ch;
          i := i + 1;
          assert name[..i] == [ch];
          n := [ch];
          state := HName;
        }
      case HName => halt := OnName(ch);
      case HSpaces => OnSpaces(ch);
      case HValue => halt := OnValue(ch);
      case HAlmost =>
        if ch == CR {
          state := HDone;
        } else if ch == LF {
          state := HStart;
        }
      case HDone =>
        if ch == LF {
          state := HStart;
        }
      case HEnd => halt := Some(InvalidHeader);
    }
  }

  method HeaderTurn(stream: Input, r: HeaderReader) returns (finished: bool, ec: Ec)
    requires stream.Valid() && r.Valid() && {r, r.name, r.value, r.par, r.par.fields} !! stream.Repr()
    modifies stream.Repr(), r, r.name, r.value, r.par.Repr()
    ensures stream.Valid() && r.Valid() && |stream.Remaining()| <= old(|stream.Remaining()|)
    ensures !finished ==>
              && HeaderRun(old(r.Shows()), old(stream.Remaining())) == HeaderRun(r.Shows(), stream.Remaining())
              && |stream.Remaining()| < old(|stream.Remaining()|)
    ensures finished ==>
              HeaderRun(old(r.Shows()), old(stream.Remaining())) == Result(ec, r.par.Value(), stream.Remaining())
  {
    var ok, ch := stream.Get();
    if !ok {
      return true, Ok;
    }
    ghost var rest := stream.Remaining();
    if ch == LF && (r.state == HStart || r.state == HEnd) {
      r.par.headerDone := true;
      return true, Ok;
    }
    var halt := r.Step(ch);
    assert stream.Remaining() == rest;
    if halt.Some? { return true, halt.value; }
    return false, Ok;
  }

  /** The loop of read_header. */
  method ReadFieldLines(stream: Input, par: Parser) returns (ec: Ec)
    requires stream.Valid() && par.fields.Valid() && par.Repr() !! stream.Repr()
    modifies stream.Repr(), par.Repr()
    ensures stream.Valid() && par.fields.Valid()
    ensures var r := HeaderRun(Header(HStart, "", "", old(par.Value())), old(stream.Remaining()));
            ec == r.ec && par.Value() == r.p && stream.Remaining() == r.rest
  {
    var r := new HeaderReader(par);
    ghost var result := HeaderRun(r.Shows(), stream.Remaining());
    var finished := false;
    ec := Ok;
    while !finished
      invariant stream.Valid() && r.Valid() && r.par == par && fresh(r) && fresh(r.name) && fresh(r.value)
      invariant !finished ==> result == HeaderRun(r.Shows(), stream.Remaining())
      invariant finished ==> result == Result(ec, par.Value(), stream.Remaining())
      decreases |stream.Remaining()|, !finished
    {
      finished, ec := HeaderTurn(stream, r);
    }
  }

  method ReadHeader(stream: Input, par: Parser) returns (ec: Ec)
    requires stream.Valid() && par.fields.Valid() && par.Repr() !! stream.Repr()
    modifies stream.Repr(), par.Repr()
    ensures stream.Valid() && par.fields.Valid()
    ensures var r := ReadHead(old(par.Value()), old(stream.Remaining()));
            ec == r.ec && par.Value() == r.p && stream.Remaining() == r.rest
  {
    ec := ReadHeaderLine(stream, par);
    if ec == Ok && !par.headerDone {
      ec := ReadFieldLines(stream, par);
    }
  }
}
