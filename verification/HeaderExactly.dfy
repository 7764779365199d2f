/**
 The field section, line by line, in literal characters and numbers: what a field line may hold, what is stored of
 it, where it ends, and what is refused. Together the lemmas cover every character in every state.
 */
module HeaderExactly {
  import opened Chars
  import opened Fields
  import opened RequestHead
  import opened HeadRoundTrip

  /** A letter, a digit or the hyphen. */
  predicate NameChar(c: char) {
    c as int == 45 || 48 <= c as int <= 57 || 65 <= c as int <= 90 || 97 <= c as int <= 122
  }

  lemma NameCharTable(c: char)
    ensures Lowcase(c) <==> NameChar(c)
  {
  }

  // ---------------------------------------------------------------- the name

  /** Whatever else stands at the start of a line is skipped. */
  lemma {:induction false} JunkSkipped(s: Header, w: string, rest: string)
    requires s.stage.HStart? && forall i | 0 <= i < |w| :: !NameChar(w[i]) && w[i] != '\r' && w[i] != '\n'
    ensures HeaderRun(s, w + rest) == HeaderRun(s, rest)
    decreases w
  {
    if w == "" {
      assert w + rest == rest;
    } else {
      NameCharTable(w[0]);
      assert w + rest == [w[0]] + (w[1..] + rest);
      HeaderMore(s, w[0], w[1..] + rest);
      JunkSkipped(s, w[1..], rest);
    }
  }

  lemma NameRead(s: Header, w: string, rest: string)
    requires s.stage.HStart? && 1 <= |w| <= 64 && forall i | 0 <= i < |w| :: NameChar(w[i])
    ensures HeaderRun(s, w + rest) == HeaderRun(s.(stage := HName, name := w), rest)
  {
    forall i | 0 <= i < |w| ensures Lowcase(w[i]) { NameCharTable(w[i]); }
    assert w + rest == [w[0]] + (w[1..] + rest);
    HeaderMore(s, w[0], w[1..] + rest);
    ReadName(s.(stage := HName, name := [w[0]]), w[1..], rest);
    assert [w[0]] + w[1..] == w;
  }

  /** A name of at most 63 letters, digits and hyphens is accepted iff a colon follows; a longer one never is. */
  lemma NameExactly(s: Header, w: string, ch: char, rest: string)
    requires s.stage.HStart? && 1 <= |w| <= 64 && (forall i | 0 <= i < |w| :: NameChar(w[i]))
    requires |w| <= 63 ==> !NameChar(ch)
    ensures HeaderRun(s, w + ([ch] + rest)) ==
            if |w| <= 63 && ch == ':' then HeaderRun(s.(stage := HSpaces, name := w), rest)
            else Result(InvalidRequest, s.p, rest)
  {
    NameRead(s, w, [ch] + rest);
    NameCharTable(ch);
    assert ([ch] + rest)[0] == ch && ([ch] + rest)[1..] == rest;
  }

  // ---------------------------------------------------------------- the value

  lemma {:induction false} SpacesBeforeValue(s: Header, w: string, rest: string)
    requires s.stage.HSpaces? && forall i | 0 <= i < |w| :: w[i] == ' '
    ensures HeaderRun(s, w + rest) == HeaderRun(s, rest)
    decreases w
  {
    if w == "" {
      assert w + rest == rest;
    } else {
      assert w + rest == [w[0]] + (w[1..] + rest);
      HeaderMore(s, w[0], w[1..] + rest);
      SpacesBeforeValue(s, w[1..], rest);
    }
  }

  /** Where a field line ends: at a line feed, or at a carriage return and the next line feed after it. */
  function AfterBreak(ch: char): HeaderStage {
    if ch == '\n' then HStart else HAlmost
  }

  /** Without a value one NUL is stored. */
  lemma NoValue(s: Header, ch: char, rest: string)
    requires s.stage.HSpaces? && (ch == '\r' || ch == '\n')
    ensures HeaderRun(s, [ch] + rest)
         == HeaderRun(s.(stage := AfterBreak(ch), p := SetField(s.p, s.name, "\0")), rest)
  {
    HeaderMore(s, ch, rest);
    assert "\0" == [NUL];
  }

  lemma ValueRead(s: Header, v: string, rest: string)
    requires s.stage.HSpaces? && 1 <= |v| <= 1024 && v[0] != ' '
    requires (forall i | 0 <= i < |v| :: v[i] != '\r' && v[i] != '\n') && forall i | 1 <= i < |v| :: v[i] != '\0'
    ensures HeaderRun(s, v + rest) == HeaderRun(Header(HValue, s.name, v, s.p), rest)
  {
    assert v + rest == [v[0]] + (v[1..] + rest);
    HeaderMore(s, v[0], v[1..] + rest);
    ReadValue(s.(stage := HValue, value := [v[0]]), v[1..], rest);
    assert [v[0]] + v[1..] == v;
  }

  lemma ValueEnd(s: Header, ch: char, rest: string)
    requires s.stage.HValue? && (ch == '\r' || ch == '\n' || ch == '\0')
    ensures var r := HeaderRun(s, [ch] + rest);
            if ch == '\0' then r == Result(InvalidHeader, s.p, rest)
            else if |s.value| >= 1024 then r.ec == Overrun
            else r == HeaderRun(s.(stage := AfterBreak(ch), p := SetField(s.p, s.name, CString(s.value))), rest)
  {
    assert ([ch] + rest)[0] == ch && ([ch] + rest)[1..] == rest;
  }

  /** A value goes up to the line break, spaces included: at most 1023 characters. NUL in it is refused, except in
      its first place, where it empties the value. */
  lemma ValueExactly(s: Header, v: string, ch: char, rest: string)
    requires s.stage.HSpaces? && 1 <= |v| <= 1024 && v[0] != ' '
    requires (forall i | 0 <= i < |v| :: v[i] != '\r' && v[i] != '\n') && forall i | 1 <= i < |v| :: v[i] != '\0'
    requires ch == '\r' || ch == '\n' || ch == '\0'
    ensures var r := HeaderRun(s, v + ([ch] + rest));
            if ch == '\0' then r == Result(InvalidHeader, s.p, rest)
            else if |v| == 1024 then r.ec == Overrun
            else r == HeaderRun(Header(AfterBreak(ch), s.name, v,
                                       SetField(s.p, s.name, if v[0] == '\0' then "" else v)), rest)
  {
    TextOfValue(v);
    ValueRead(s, v, [ch] + rest);
    ValueEnd(Header(HValue, s.name, v, s.p), ch, rest);
  }

  lemma TextOfValue(v: string)
    requires v != "" && forall i | 1 <= i < |v| :: v[i] != '\0'
    ensures CString(v) == if v[0] == '\0' then "" else v
  {
    if v[0] != '\0' { CStringWhole(v, ""); }
  }

  /** After a carriage return everything up to the line feed is skipped. */
  lemma {:induction false} RestOfLine(s: Header, w: string, rest: string)
    requires (s.stage.HAlmost? || s.stage.HDone?) && '\n' !in w
    ensures HeaderRun(s, w + (['\n'] + rest)) == HeaderRun(s.(stage := HStart), rest)
    decreases w
  {
    if w == "" {
      assert w + (['\n'] + rest) == ['\n'] + rest;
      HeaderMore(s, '\n', rest);
    } else {
      var behind := w[1..] + (['\n'] + rest);
      assert w + (['\n'] + rest) == [w[0]] + behind;
      HeaderMore(s, w[0], behind);
      RestOfLine(HeaderStep(s, w[0]).next, w[1..], rest);
    }
  }

  // ---------------------------------------------------------------- whole lines and the end

  /** A field line ended by a bare line feed: anything that starts no name, the name, spaces, the value. */
  lemma FieldLine(s: Header, junk: string, name: string, spaces: string, v: string, rest: string)
    requires s.stage.HStart? && forall i | 0 <= i < |junk| :: !NameChar(junk[i]) && junk[i] != '\r' && junk[i] != '\n'
    requires 1 <= |name| <= 63 && (forall i | 0 <= i < |name| :: NameChar(name[i]))
    requires forall i | 0 <= i < |spaces| :: spaces[i] == ' '
    requires 1 <= |v| <= 1023 && v[0] != ' '
    requires forall i | 0 <= i < |v| :: v[i] != '\r' && v[i] != '\n' && v[i] != '\0'
    ensures HeaderRun(s, junk + (name + ([':'] + (spaces + (v + (['\n'] + rest))))))
         == HeaderRun(Header(HStart, name, v, SetField(s.p, name, v)), rest)
  {
    FieldLineStart(s, junk, name, spaces, v + (['\n'] + rest));
    ValueExactly(s.(stage := HSpaces, name := name), v, '\n', rest);
  }

  lemma FieldLineStart(s: Header, junk: string, name: string, spaces: string, behind: string)
    requires s.stage.HStart? && forall i | 0 <= i < |junk| :: !NameChar(junk[i]) && junk[i] != '\r' && junk[i] != '\n'
    requires 1 <= |name| <= 63 && (forall i | 0 <= i < |name| :: NameChar(name[i]))
    requires forall i | 0 <= i < |spaces| :: spaces[i] == ' '
    ensures HeaderRun(s, junk + (name + ([':'] + (spaces + behind))))
         == HeaderRun(s.(stage := HSpaces, name := name), behind)
  {
    JunkSkipped(s, junk, name + ([':'] + (spaces + behind)));
    NameExactly(s, name, ':', spaces + behind);
    SpacesBeforeValue(s.(stage := HSpaces, name := name), spaces, behind);
  }

  /** The head ends with a line feed at the start of a line, or with a carriage return and a line feed; a carriage
      return alone is refused. */
  lemma HeadEndExactly(s: Header, ch: char, rest: string)
    requires s.stage.HStart?
    ensures HeaderRun(s, ['\n'] + rest) == Result(Ok, s.p.(headerDone := true), rest)
    ensures HeaderRun(s, ['\r'] + ([ch] + rest)) ==
            if ch == '\n' then Result(Ok, s.p.(headerDone := true), rest) else Result(InvalidHeader, s.p, rest)
  {
    assert (['\n'] + rest)[1..] == rest && ([ch] + rest)[0] == ch && ([ch] + rest)[1..] == rest;
    HeaderMore(s, '\r', [ch] + rest);
  }
}
