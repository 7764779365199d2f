/** Printing a request head and reading it back. */
module HeadRoundTrip {
  import opened Chars
  import opened Fields
  import opened RequestHead
  import opened HeadSoundness

  // ---------------------------------------------------------------- reading one segment at a time

  lemma LineMore(s: Line, ch: char, rest: string)
    requires LineStep(s, ch).More?
    ensures LineRun(s, [ch] + rest) == LineRun(LineStep(s, ch).next, rest)
  {
    assert ([ch] + rest)[1..] == rest;
  }

  lemma HeaderMore(s: Header, ch: char, rest: string)
    requires HeaderStep(s, ch).More?
    ensures HeaderRun(s, [ch] + rest) == HeaderRun(HeaderStep(s, ch).next, rest)
  {
    assert ([ch] + rest)[1..] == rest;
  }

  lemma {:induction false} ReadToken(s: Line, w: string, rest: string)
    requires s.stage.LMethod? && |s.buf| + |w| <= MAXTARGETLEN
    requires forall i | 0 <= i < |w| :: IsUpper(w[i])
    ensures LineRun(s, w + rest) == LineRun(s.(buf := s.buf + w), rest)
    decreases w
  {
    if w == "" {
      assert w + rest == rest && s.buf + w == s.buf;
    } else {
      assert w + rest == [w[0]] + (w[1..] + rest);
      LineMore(s, w[0], w[1..] + rest);
      ReadToken(s.(buf := s.buf + [w[0]]), w[1..], rest);
      assert s.buf + [w[0]] + w[1..] == s.buf + w;
    }
  }

  /** The verb and its space. */
  lemma ReadVerb(p: Parsed, v: Verb, rest: string)
    requires v != Unknown
    ensures LineRun(Line(LStart, "", 0, p), VerbName(v) + " " + rest)
         == LineRun(Line(LSpaces, "", 0, p.(message := p.message.(verb := v))), rest)
  {
    var w := VerbName(v);
    var s := Line(LStart, "", 0, p);
    assert w + " " + rest == [w[0]] + (w[1..] + (" " + rest));
    LineMore(s, w[0], w[1..] + (" " + rest));
    ReadToken(s.(stage := LMethod, buf := [w[0]]), w[1..], " " + rest);
    assert [w[0]] + w[1..] == w;
    LineMore(s.(stage := LMethod, buf := w), ' ', rest);
  }

  /** The first n characters of an upper-case token only fill the buffer. */
  lemma ReadTokenStart(p: Parsed, w: string, n: nat, rest: string)
    requires w != "" && (forall i | 0 <= i < |w| :: IsUpper(w[i])) && 1 <= n <= |w| && n <= MAXTARGETLEN
    ensures LineRun(Line(LStart, "", 0, p), w + rest) == LineRun(Line(LMethod, w[..n], 0, p), w[n..] + rest)
  {
    var behind := w[n..] + rest;
    assert w + rest == [w[0]] + (w[1..n] + behind);
    LineMore(Line(LStart, "", 0, p), w[0], w[1..n] + behind);
    ReadToken(Line(LMethod, [w[0]], 0, p), w[1..n], behind);
    assert [w[0]] + w[1..n] == w[..n];
  }

  lemma TokenTooLong(p: Parsed, w: string, rest: string)
    requires |w| >= MAXTARGETLEN && forall i | 0 <= i < |w| :: IsUpper(w[i])
    ensures LineRun(Line(LStart, "", 0, p), w + [' '] + rest).ec == Overrun
  {
    assert w + [' '] + rest == w + ([' '] + rest);
    ReadTokenStart(p, w, MAXTARGETLEN, [' '] + rest);
  }

  /** Behind a verb and its space. */
  function WithVerb(p: Parsed, v: Verb): Line {
    Line(LSpaces, "", 0, p.(message := p.message.(verb := v)))
  }

  /** Any upper-case token in front of a space is taken as a verb iff it is exactly one of the five, as long
      as token and space fit the buffer. */
  lemma TokenExactly(p: Parsed, w: string, rest: string)
    requires w != "" && forall i | 0 <= i < |w| :: 'A' <= w[i] <= 'Z'
    ensures var r := LineRun(Line(LStart, "", 0, p), w + [' '] + rest);
            if |w| >= 1024 then r.ec == Overrun
            else if w == "GET" then r == LineRun(WithVerb(p, Get), rest)
            else if w == "PUT" then r == LineRun(WithVerb(p, Put), rest)
            else if w == "HEAD" then r == LineRun(WithVerb(p, Head), rest)
            else if w == "POST" then r == LineRun(WithVerb(p, Post), rest)
            else if w == "DELETE" then r == LineRun(WithVerb(p, Delete), rest)
            else r == Result(InvalidMethod, p, rest)
  {
    if |w| >= MAXTARGETLEN {
      TokenTooLong(p, w, rest);
    } else {
      assert w + [' '] + rest == w + ([' '] + rest);
      ReadTokenStart(p, w, |w|, [' '] + rest);
      assert w[..|w|] == w && w[|w|..] + ([' '] + rest) == [' '] + rest;
      assert ([' '] + rest)[1..] == rest;
      if VerbOf(w).Some? {
        LineMore(Line(LMethod, w, 0, p), ' ', rest);
      }
    }
  }

  lemma {:induction false} ReadTargetChars(s: Line, w: string, rest: string)
    requires s.stage.LTarget? && |s.buf| + |w| <= MAXTARGETLEN
    requires forall i | 0 <= i < |w| :: TargetChar(w[i])
    ensures LineRun(s, w + rest) == LineRun(s.(buf := s.buf + w), rest)
    decreases w
  {
    if w == "" {
      assert w + rest == rest && s.buf + w == s.buf;
    } else {
      assert w + rest == [w[0]] + (w[1..] + rest);
      LineMore(s, w[0], w[1..] + rest);
      ReadTargetChars(s.(buf := s.buf + [w[0]]), w[1..], rest);
      assert s.buf + [w[0]] + w[1..] == s.buf + w;
    }
  }

  /** The target and the space or question mark behind it. */
  lemma ReadTarget(p: Parsed, t: string, mark: char, rest: string)
    requires LegalTarget(t) && (mark == ' ' || mark == '?')
    ensures LineRun(Line(LSpaces, "", 0, p), t + [mark] + rest)
         == LineRun(Line(if mark == '?' then LParams else LHttp, "", 0, p.(message := p.message.(target := t))), rest)
  {
    var s := Line(LSpaces, "", 0, p);
    assert t + [mark] + rest == ['/'] + (t[1..] + ([mark] + rest));
    LineMore(s, '/', t[1..] + ([mark] + rest));
    ReadTargetChars(s.(stage := LTarget, buf := "/"), t[1..], [mark] + rest);
    assert "/" + t[1..] == t;
    LineMore(s.(stage := LTarget, buf := t), mark, rest);
  }

  lemma NameCharStep(s: Line, ch: char)
    requires s.stage.LHttp? && IsUpper(ch) && (|s.buf| < 3 || s.buf + [ch] == "HTTP")
    ensures LineStep(s, ch) == More(s.(buf := s.buf + [ch]))
  {
    assert |s.buf| >= 3 ==> |s.buf + [ch]| == |"HTTP"|;
  }

  lemma ReadNameChar(s: Line, ch: char, rest: string)
    requires s.stage.LHttp? && IsUpper(ch) && (|s.buf| < 3 || s.buf + [ch] == "HTTP")
    ensures LineRun(s, [ch] + rest) == LineRun(s.(buf := s.buf + [ch]), rest)
  {
    NameCharStep(s, ch);
    LineMore(s, ch, rest);
  }

  lemma ReadHttpName(p: Parsed, rest: string)
    ensures LineRun(Line(LHttp, "", 0, p), ['H'] + (['T'] + (['T'] + (['P'] + rest))))
         == LineRun(Line(LHttp, "HTTP", 0, p), rest)
  {
    assert "" + ['H'] == "H" && "H" + ['T'] == "HT" && "HT" + ['T'] == "HTT" && "HTT" + ['P'] == "HTTP";
    ReadNameChar(Line(LHttp, "", 0, p), 'H', ['T'] + (['T'] + (['P'] + rest)));
    ReadNameChar(Line(LHttp, "H", 0, p), 'T', ['T'] + (['P'] + rest));
    ReadNameChar(Line(LHttp, "HT", 0, p), 'T', ['P'] + rest);
    ReadNameChar(Line(LHttp, "HTT", 0, p), 'P', rest);
  }

  lemma ReadHttp(p: Parsed, rest: string)
    ensures LineRun(Line(LHttp, "", 0, p), "HTTP/1." + rest) == LineRun(Line(LMinor, "HTTP", 1, p), rest)
  {
    var behind := ['/'] + (['1'] + (['.'] + rest));
    assert "HTTP/1." == "HTTP" + "/1.";
    assert "/1." + rest == behind && "HTTP/1." + rest == "HTTP" + ("/1." + rest);
    assert "HTTP" + behind == ['H'] + (['T'] + (['T'] + (['P'] + behind)));
    ReadHttpName(p, behind);
    ReadSlashOneDot(p, rest);
  }

  lemma ReadSlashOneDot(p: Parsed, rest: string)
    ensures LineRun(Line(LHttp, "HTTP", 0, p), ['/'] + (['1'] + (['.'] + rest)))
        == LineRun(Line(LMinor, "HTTP", 1, p), rest)
  {
    LineMore(Line(LHttp, "HTTP", 0, p), '/', ['1'] + (['.'] + rest));
    LineMore(Line(LMajor, "HTTP", 0, p), '1', ['.'] + rest);
    LineMore(Line(LMajor, "HTTP", 1, p), '.', rest);
  }

  lemma ReadVersion(p: Parsed, version: nat, rest: string)
    requires version == 10 || version == 11
    ensures LineRun(Line(LHttp, "", 0, p), VersionName(version) + "\r\n" + rest)
         == Result(Ok, p.(message := p.message.(version := version)), rest)
  {
    var d := if version == 10 then '0' else '1';
    assert VersionName(version) + "\r\n" + rest == "HTTP/1." + ([d] + ([CR] + ([LF] + rest)));
    ReadHttp(p, [d] + ([CR] + ([LF] + rest)));
    LineMore(Line(LMinor, "HTTP", 1, p), d, [CR] + ([LF] + rest));
    LineMore(Line(LMinor, "HTTP", version, p), CR, [LF] + rest);
    assert ([LF] + rest)[0] == LF && ([LF] + rest)[1..] == rest;
  }

  lemma UnknownText(rest: string)
    ensures "unknown" + rest == ['u'] + (['n'] + (['k'] + ("nown" + rest)))
    ensures "" + ['u'] == "u" && "u" + ['n'] == "un" && "un" + ['k'] == "unk"
  {
  }

  /** Any other version is printed as "unknown", and that is refused. */
  lemma ReadUnknownVersion(p: Parsed, rest: string)
    ensures LineRun(Line(LHttp, "", 0, p), "unknown" + rest).ec == InvalidRequest
  {
    UnknownText(rest);
    LineMore(Line(LHttp, "", 0, p), 'u', ['n'] + (['k'] + ("nown" + rest)));
    LineMore(Line(LHttp, "u", 0, p), 'n', ['k'] + ("nown" + rest));
    LineMore(Line(LHttp, "un", 0, p), 'k', "nown" + rest);
    assert "unk" + ['n'] == "unkn" && ("nown" + rest)[0] == 'n';
    assert LineStep(Line(LHttp, "unk", 0, p), 'n').Halt?;
  }

  // ---------------------------------------------------------------- one field

  lemma {:induction false} ReadName(s: Header, w: string, rest: string)
    requires s.stage.HName? && |s.name| + |w| <= MAXFIELDNAME
    requires forall i | 0 <= i < |w| :: Lowcase(w[i])
    ensures HeaderRun(s, w + rest) == HeaderRun(s.(name := s.name + w), rest)
    decreases w
  {
    if w == "" {
      assert w + rest == rest && s.name + w == s.name;
    } else {
      assert w + rest == [w[0]] + (w[1..] + rest);
      HeaderMore(s, w[0], w[1..] + rest);
      ReadName(s.(name := s.name + [w[0]]), w[1..], rest);
      assert s.name + [w[0]] + w[1..] == s.name + w;
    }
  }

  lemma {:induction false} ReadValue(s: Header, w: string, rest: string)
    requires s.stage.HValue? && |s.value| + |w| <= MAXFIELDVALUE
    requires forall i | 0 <= i < |w| :: w[i] != CR && w[i] != LF && w[i] != NUL
    ensures HeaderRun(s, w + rest) == HeaderRun(s.(value := s.value + w), rest)
    decreases w
  {
    if w == "" {
      assert w + rest == rest && s.value + w == s.value;
    } else {
      assert w + rest == [w[0]] + (w[1..] + rest);
      HeaderMore(s, w[0], w[1..] + rest);
      ReadValue(s.(value := s.value + [w[0]]), w[1..], rest);
      assert s.value + [w[0]] + w[1..] == s.value + w;
    }
  }

  /** Name, colon and space, with whatever name the machine held before. */
  lemma ReadNamePart(s: Header, name: string, rest: string)
    requires s.stage.HStart? && LegalName(name)
    ensures HeaderRun(s, name + ": " + rest) == HeaderRun(s.(stage := HSpaces, name := name), rest)
  {
    assert name + ": " + rest == [name[0]] + (name[1..] + ([':'] + ([' '] + rest)));
    HeaderMore(s, name[0], name[1..] + ([':'] + ([' '] + rest)));
    ReadName(s.(stage := HName, name := [name[0]]), name[1..], [':'] + ([' '] + rest));
    assert [name[0]] + name[1..] == name;
    HeaderMore(s.(stage := HName, name := name), ':', [' '] + rest);
    HeaderMore(s.(stage := HSpaces, name := name), ' ', rest);
  }

  /** How a stored value comes back: the two ways of storing no value are exchanged. */
  function Mirror(v: string): string {
    if v == [NUL] then "" else if v == "" then [NUL] else v
  }

  lemma ReadValuePart(s: Header, value: string, rest: string) returns (left: string)
    requires s.stage.HSpaces? && (LegalValue(value) || Blank(value))
    ensures HeaderRun(s, value + "\r\n" + rest)
         == HeaderRun(Header(HStart, s.name, left, SetField(s.p, s.name, Mirror(value))), rest)
  {
    var crlf := [CR] + ([LF] + rest);
    assert value + "\r\n" + rest == value + crlf;
    if value == "" {
      left := s.value;
      assert value + crlf == crlf;
      ReadNoValue(s, rest);
    } else {
      left := value;
      ReadSomeValue(s, value, rest);
      if value != [NUL] { CStringWhole(value, ""); }
    }
  }

  /** A line that ends where the value should begin: one NUL is stored. */
  lemma ReadNoValue(s: Header, rest: string)
    requires s.stage.HSpaces?
    ensures HeaderRun(s, [CR] + ([LF] + rest))
         == HeaderRun(Header(HStart, s.name, s.value, SetField(s.p, s.name, [NUL])), rest)
  {
    HeaderMore(s, CR, [LF] + rest);
    HeaderMore(s.(stage := HAlmost, p := SetField(s.p, s.name, [NUL])), LF, rest);
  }

  /** A value is stored up to its first NUL. */
  lemma ReadSomeValue(s: Header, value: string, rest: string)
    requires s.stage.HSpaces? && (LegalValue(value) || value == [NUL])
    ensures HeaderRun(s, value + ([CR] + ([LF] + rest)))
         == HeaderRun(Header(HStart, s.name, value, SetField(s.p, s.name, CString(value))), rest)
  {
    var crlf := [CR] + ([LF] + rest);
    assert value + crlf == [value[0]] + (value[1..] + crlf);
    HeaderMore(s, value[0], value[1..] + crlf);
    ReadValue(s.(stage := HValue, value := [value[0]]), value[1..], crlf);
    assert [value[0]] + value[1..] == value;
    HeaderMore(s.(stage := HValue, value := value), CR, [LF] + rest);
    HeaderMore(Header(HAlmost, s.name, value, SetField(s.p, s.name, CString(value))), LF, rest);
  }

  // ---------------------------------------------------------------- the field section

  function MirrorFields(fs: seq<Field>): seq<Field> {
    seq(|fs|, i requires 0 <= i < |fs| => Field(fs[i].name, Mirror(fs[i].value)))
  }

  function MirrorMessage(m: Message): Message {
    m.(fields := MirrorFields(m.fields))
  }

  lemma MirrorOneMore(fs: seq<Field>)
    requires fs != [] && LegalFields(fs)
    ensures var last := fs[|fs| - 1];
            Assign(MirrorFields(fs[..|fs| - 1]), last.name, Mirror(last.value)) == MirrorFields(fs)
  {
    var last := fs[|fs| - 1];
    AssignAtEnd(MirrorFields(fs[..|fs| - 1]), last.name, Mirror(last.value));
    assert MirrorFields(fs[..|fs| - 1]) + [Field(last.name, Mirror(last.value))] == MirrorFields(fs);
  }

  /** Reading printed fields rebuilds them, in order, at the end of the map. */
  lemma {:induction false} ReadFields(p: Parsed, fs: seq<Field>, rest: string) returns (name: string, value: string)
    requires LegalFields(fs) && p.message.fields == []
    ensures HeaderRun(Header(HStart, "", "", p), PrintFields(fs) + rest)
         == HeaderRun(Header(HStart, name, value, p.(message := p.message.(fields := MirrorFields(fs)))), rest)
    decreases |fs|
  {
    if fs == [] {
      name, value := "", "";
      assert PrintFields(fs) + rest == rest;
      assert MirrorFields(fs) == [];
      assert p == p.(message := p.message.(fields := MirrorFields(fs)));
    } else {
      var init, last := fs[..|fs| - 1], fs[|fs| - 1];
      var more := PrintField(last) + rest;
      assert PrintFields(fs) + rest == PrintFields(init) + more;
      name, value := ReadFields(p, init, more);
      name, value := ReadOneField(p.(message := p.message.(fields := MirrorFields(init))), name, value, last, rest);
      MirrorOneMore(fs);
    }
  }

  lemma ReadOneField(p: Parsed, n: string, v: string, f: Field, rest: string) returns (name: string, value: string)
    requires LegalName(f.name) && (LegalValue(f.value) || Blank(f.value))
    ensures HeaderRun(Header(HStart, n, v, p), PrintField(f) + rest)
         == HeaderRun(Header(HStart, name, value, SetField(p, f.name, Mirror(f.value))), rest)
  {
    var s := Header(HStart, n, v, p);
    assert PrintField(f) + rest == f.name + ": " + (f.value + "\r\n" + rest);
    ReadNamePart(s, f.name, f.value + "\r\n" + rest);
    value := ReadValuePart(s.(stage := HSpaces, name := f.name), f.value, rest);
    name := f.name;
  }

  // ---------------------------------------------------------------- the whole head

  lemma ReadBlankLine(s: Header, tail: string)
    requires s.stage.HStart?
    ensures HeaderRun(s, [CR] + ([LF] + tail)) == Result(Ok, s.p.(headerDone := true), tail)
  {
    HeaderMore(s, CR, [LF] + tail);
    assert ([LF] + tail)[0] == LF && ([LF] + tail)[1..] == tail;
  }

  lemma ReadFieldSection(p: Parsed, fs: seq<Field>, tail: string)
    requires LegalFields(fs) && p.message.fields == [] && !p.headerDone
    ensures HeaderRun(Header(HStart, "", "", p), PrintFields(fs) + "\r\n" + tail)
         == Result(Ok, p.(message := p.message.(fields := MirrorFields(fs)), headerDone := true), tail)
  {
    var rest := [CR] + ([LF] + tail);
    assert PrintFields(fs) + "\r\n" + tail == PrintFields(fs) + rest;
    var name, value := ReadFields(p, fs, rest);
    ReadBlankLine(Header(HStart, name, value, p.(message := p.message.(fields := MirrorFields(fs)))), tail);
  }

  lemma ReadPrintedLine(m: Message, rest: string)
    requires LegalMessage(m)
    ensures var r := LineRun(Line(LStart, "", 0, Fresh),
                             VerbName(m.verb) + " " + m.target + " " + VersionName(m.version) + "\r\n" + rest);
            if m.version == 10 || m.version == 11
            then r == Result(Ok, Parsed(m.(fields := []), None, false), rest)
            else r.ec == InvalidRequest
  {
    var afterTarget := VersionName(m.version) + "\r\n" + rest;
    assert VerbName(m.verb) + " " + m.target + " " + VersionName(m.version) + "\r\n" + rest
        == VerbName(m.verb) + " " + (m.target + " " + afterTarget);
    ReadVerb(Fresh, m.verb, m.target + " " + afterTarget);
    var p := Fresh.(message := Fresh.message.(verb := m.verb));
    ReadTarget(p, m.target, ' ', afterTarget);
    var q := p.(message := p.message.(target := m.target));
    if m.version == 10 || m.version == 11 {
      ReadVersion(q, m.version, rest);
    } else {
      assert afterTarget == "unknown" + ("\r\n" + rest);
      ReadUnknownVersion(q, "\r\n" + rest);
    }
  }

  /** Printing any legal message, ending the head with an empty line and reading it back, in front of
      anything: the message returns with its blank values exchanged, or is refused for its version. */
  lemma PrintThenRead(m: Message, tail: string)
    requires LegalMessage(m)
    ensures var r := ReadHead(Fresh, PrintHead(m) + "\r\n" + tail);
            if m.version == 10 || m.version == 11
            then r == Result(Ok, Parsed(MirrorMessage(m), None, true), tail)
            else r.ec == InvalidRequest
  {
    var section := PrintFields(m.fields) + "\r\n" + tail;
    assert PrintHead(m) + "\r\n" + tail
        == VerbName(m.verb) + " " + m.target + " " + VersionName(m.version) + "\r\n" + section;
    ReadPrintedLine(m, section);
    if m.version == 10 || m.version == 11 {
      ReadFieldSection(Parsed(m.(fields := []), None, false), m.fields, tail);
    }
  }

  lemma MirrorIsIdentity(m: Message)
    ensures MirrorMessage(m) == m <==> NoBlankValue(m)
    ensures MirrorMessage(MirrorMessage(m)) == m
  {
    var fs := m.fields;
    if NoBlankValue(m) {
      forall i | 0 <= i < |fs| ensures MirrorFields(fs)[i] == fs[i] { }
      assert MirrorFields(fs) == fs;
    } else {
      var i :| 0 <= i < |fs| && Blank(fs[i].value);
      assert MirrorFields(fs)[i] != fs[i];
    }
    assert MirrorFields(MirrorFields(fs)) == fs;
  }

  /** The round trip, exactly: a legal message survives printing and reading iff its version is 1.0 or 1.1
      and no field is stored without a value. */
  lemma RoundTripExactly(m: Message, tail: string)
    requires LegalMessage(m)
    ensures ReadHead(Fresh, PrintHead(m) + "\r\n" + tail) == Result(Ok, Parsed(m, None, true), tail)
            <==> (m.version == 10 || m.version == 11) && NoBlankValue(m)
  {
    PrintThenRead(m, tail);
    MirrorIsIdentity(m);
  }

  /** Normal form: however the first input was written, what a fresh parser accepted is printed so that
      reading it again gives the same message, exactly when its version is 1.0 or 1.1 and no field came
      without a value. (The query string is not printed.) */
  lemma NormalFormExactly(input: string, tail: string)
    requires ReadHead(Fresh, input).p.headerDone
    ensures var m := ReadHead(Fresh, input).p.message;
            ReadHead(Fresh, PrintHead(m) + "\r\n" + tail) == Result(Ok, Parsed(m, None, true), tail)
            <==> (m.version == 10 || m.version == 11) && NoBlankValue(m)
  {
    AcceptedIsLegal(input);
    RoundTripExactly(ReadHead(Fresh, input).p.message, tail);
  }

  /** With blank values it takes two rounds to come back. */
  lemma TwoRoundsAlwaysReturn(m: Message, tail: string)
    requires LegalMessage(m) && (m.version == 10 || m.version == 11)
    ensures var once := ReadHead(Fresh, PrintHead(m) + "\r\n" + tail).p.message;
            ReadHead(Fresh, PrintHead(once) + "\r\n" + tail) == Result(Ok, Parsed(m, None, true), tail)
  {
    PrintThenRead(m, tail);
    MirrorIsIdentity(m);
    var once := MirrorMessage(m);
    assert LegalMessage(once) by {
      assert forall i, j | 0 <= i < j < |once.fields| :: Less(m.fields[i].name, m.fields[j].name);
    }
    PrintThenRead(once, tail);
  }

  /** Without the empty line a printed head is never complete: whatever follows it, no parser is done before a
      line feed. */
  lemma PrintedHeadIsUnfinished(m: Message, tail: string)
    requires LegalMessage(m) && LF !in tail
    ensures !ReadHead(Fresh, PrintHead(m) + tail).p.headerDone
  {
    var section := PrintFields(m.fields) + tail;
    assert PrintHead(m) + tail
        == VerbName(m.verb) + " " + m.target + " " + VersionName(m.version) + "\r\n" + section;
    ReadPrintedLine(m, section);
    LineRestIsSuffix(Line(LStart, "", 0, Fresh), PrintHead(m) + tail);
    if m.version == 10 || m.version == 11 {
      var p := Parsed(m.(fields := []), None, false);
      var name, value := ReadFields(p, m.fields, tail);
      NoLineFeedNoEnd(Header(HStart, name, value, p.(message := p.message.(fields := MirrorFields(m.fields)))), tail);
    }
  }

  lemma {:induction false} NoLineFeedNoEnd(s: Header, x: string)
    requires !s.p.headerDone && LF !in x
    ensures !HeaderRun(s, x).p.headerDone
    decreases x
  {
    if x != "" && HeaderStep(s, x[0]).More? {
      NoLineFeedNoEnd(HeaderStep(s, x[0]).next, x[1..]);
    }
  }

  /** An accepted head that does not come back: its only field has no value. */
  lemma BlankValueIsExchanged()
    ensures var r := ReadHead(Fresh, "GET / HTTP/1.0\r\nA: \r\n\r\n");
            && r == Result(Ok, Parsed(Message(Get, "/", 10, [Field("A", [NUL])]), None, true), "")
            && ReadHead(Fresh, PrintHead(r.p.message) + "\r\n").p.message.fields == [Field("A", "")]
  {
    var none, stored := Message(Get, "/", 10, [Field("A", "")]), Message(Get, "/", 10, [Field("A", [NUL])]);
    PrintOneField("");
    assert PrintHead(none) + "\r\n" + "" == "GET / HTTP/1.0\r\nA: \r\n\r\n";
    PrintThenRead(none, "");
    assert MirrorFields(none.fields) == stored.fields && MirrorFields(stored.fields) == none.fields;
    PrintThenRead(stored, "");
    assert PrintHead(stored) + "\r\n" + "" == PrintHead(stored) + "\r\n";
  }

  lemma PrintOneField(value: string)
    ensures PrintFields([Field("A", value)]) == "A: " + value + "\r\n"
  {
    var fs := [Field("A", value)];
    assert fs[..0] == [] && PrintFields([]) == "";
    assert PrintFields(fs) == PrintFields(fs[..0]) + PrintField(fs[0]);
  }

  /** Two heads as they are printed: version 1.1, and one that has no name. */
  lemma HeadsPrinted()
    ensures PrintHead(Message(Post, "/a.b", 11, [Field("A", "x"), Field("B", "")])) ==
            "POST /a.b HTTP/1.1\r\nA: x\r\nB: \r\n"
    ensures PrintHead(Message(Delete, "/", 9, [])) == "DELETE / unknown\r\n"
  {
    var fs := [Field("A", "x"), Field("B", "")];
    assert fs[..1] == [Field("A", "x")];
    PrintOneField("x");
    assert PrintFields(fs) == PrintFields(fs[..1]) + PrintField(fs[1]);
    assert PrintFields(fs) == "A: x\r\n" + "B: \r\n";
    assert PrintFields([]) == "";
  }
}
