/**
 The request line, segment by segment, in literal characters and numbers: what each segment may hold, what is
 stored of it, and what is refused. Together the segments cover every character in every state.
 */
module LineExactly {
  import opened Chars
  import opened Fields
  import opened RequestHead
  import opened HeadRoundTrip

  // ---------------------------------------------------------------- the verb

  /** Line breaks before the request line are skipped. */
  lemma {:induction false} LeadingLineBreaks(p: Parsed, w: string, rest: string)
    requires forall i | 0 <= i < |w| :: w[i] == '\r' || w[i] == '\n'
    ensures LineRun(Line(LStart, "", 0, p), w + rest) == LineRun(Line(LStart, "", 0, p), rest)
    decreases w
  {
    if w == "" {
      assert w + rest == rest;
    } else {
      assert w + rest == [w[0]] + (w[1..] + rest);
      LineMore(Line(LStart, "", 0, p), w[0], w[1..] + rest);
      LeadingLineBreaks(p, w[1..], rest);
    }
  }

  /** Anything else before an upper-case letter is refused. */
  lemma BadStart(p: Parsed, ch: char, rest: string)
    requires !(65 <= ch as int <= 90) && ch != '\r' && ch != '\n'
    ensures LineRun(Line(LStart, "", 0, p), [ch] + rest) == Result(InvalidMethod, p, rest)
  {
    assert ([ch] + rest)[0] == ch && ([ch] + rest)[1..] == rest;
  }

  /** So is anything but an upper-case letter or a space in the token. */
  lemma BadToken(p: Parsed, w: string, ch: char, rest: string)
    requires 1 <= |w| < 1024 && (forall i | 0 <= i < |w| :: 65 <= w[i] as int <= 90)
    requires !(65 <= ch as int <= 90) && ch != ' '
    ensures LineRun(Line(LStart, "", 0, p), w + ([ch] + rest)) == Result(InvalidMethod, p, rest)
  {
    ReadTokenStart(p, w, |w|, [ch] + rest);
    assert w[..|w|] == w && w[|w|..] + ([ch] + rest) == [ch] + rest;
    assert ([ch] + rest)[0] == ch && ([ch] + rest)[1..] == rest;
  }

  // ---------------------------------------------------------------- the target

  /** The characters of a target: all but eight. */
  lemma TargetCharTable(c: char)
    ensures TargetChar(c) <==> c !in "\0\n\r #%+?"
  {
  }

  lemma {:induction false} SpacesBeforeTarget(p: Parsed, w: string, rest: string)
    requires forall i | 0 <= i < |w| :: w[i] == ' '
    ensures LineRun(Line(LSpaces, "", 0, p), w + rest) == LineRun(Line(LSpaces, "", 0, p), rest)
    decreases w
  {
    if w == "" {
      assert w + rest == rest;
    } else {
      assert w + rest == [w[0]] + (w[1..] + rest);
      LineMore(Line(LSpaces, "", 0, p), w[0], w[1..] + rest);
      SpacesBeforeTarget(p, w[1..], rest);
    }
  }

  lemma BadTargetStart(p: Parsed, ch: char, rest: string)
    requires ch != '/' && ch != ' '
    ensures LineRun(Line(LSpaces, "", 0, p), [ch] + rest) == Result(InvalidRequest, p, rest)
  {
    assert ([ch] + rest)[0] == ch && ([ch] + rest)[1..] == rest;
  }

  lemma TargetRead(p: Parsed, t: string, rest: string)
    requires 1 <= |t| <= 1024 && t[0] == '/' && forall i | 0 <= i < |t| :: t[i] !in "\0\n\r #%+?"
    ensures LineRun(Line(LSpaces, "", 0, p), t + rest) == LineRun(Line(LTarget, t, 0, p), rest)
  {
    forall i | 0 <= i < |t| ensures TargetChar(t[i]) { TargetCharTable(t[i]); }
    assert t + rest == ['/'] + (t[1..] + rest);
    LineMore(Line(LSpaces, "", 0, p), '/', t[1..] + rest);
    ReadTargetChars(Line(LTarget, "/", 0, p), t[1..], rest);
    assert "/" + t[1..] == t;
  }

  /** A target without NUL, line breaks, spaces and # % + ? is stored whole if it has at most 1023 characters; a
      longer one overruns the buffer; and one that meets another of these characters than a space or question mark
      is refused. */
  lemma TargetExactly(p: Parsed, t: string, ch: char, rest: string)
    requires 1 <= |t| <= 1024 && t[0] == '/' && forall i | 0 <= i < |t| :: t[i] !in "\0\n\r #%+?"
    ensures var r := LineRun(Line(LSpaces, "", 0, p), t + ([ch] + rest));
            if ch in "\0\n\r#%+" then r == Result(InvalidRequest, p, rest)
            else if |t| == 1024 then r.ec == Overrun
            else if ch == ' ' then r == LineRun(Line(LHttp, "", 0, p.(message := p.message.(target := t))), rest)
            else if ch == '?' then r == LineRun(Line(LParams, "", 0, p.(message := p.message.(target := t))), rest)
            else r == LineRun(Line(LTarget, t + [ch], 0, p), rest)
  {
    TargetRead(p, t, [ch] + rest);
    TargetCharTable(ch);
    assert ([ch] + rest)[0] == ch && ([ch] + rest)[1..] == rest;
  }

  // ---------------------------------------------------------------- the query

  /** The visible characters of w. */
  function Visible(w: string): string {
    if w == "" then "" else (if 33 <= w[0] as int <= 126 then [w[0]] else []) + Visible(w[1..])
  }

  lemma {:induction false} QueryKept(p: Parsed, buf: string, w: string, rest: string)
    requires ' ' !in w && '\0' !in w && |buf| + |Visible(w)| <= 1024
    ensures LineRun(Line(LParams, buf, 0, p), w + rest) == LineRun(Line(LParams, buf + Visible(w), 0, p), rest)
    decreases w
  {
    if w == "" {
      assert w + rest == rest && buf + Visible(w) == buf;
    } else {
      assert w + rest == [w[0]] + (w[1..] + rest);
      LineMore(Line(LParams, buf, 0, p), w[0], w[1..] + rest);
      if 33 <= w[0] as int <= 126 {
        QueryKept(p, buf + [w[0]], w[1..], rest);
        assert buf + [w[0]] + Visible(w[1..]) == buf + Visible(w);
      } else {
        QueryKept(p, buf, w[1..], rest);
        assert Visible(w) == Visible(w[1..]);
      }
    }
  }

  /** Of a query the visible characters and the space that ends it are stored, up to 1022 of them; NUL is refused. */
  lemma QueryExactly(p: Parsed, w: string, ch: char, rest: string)
    requires ' ' !in w && '\0' !in w && |Visible(w)| <= 1024 && (ch == ' ' || ch == '\0')
    ensures var r := LineRun(Line(LParams, "", 0, p), w + ([ch] + rest));
            if ch == '\0' then r == Result(InvalidRequest, p, rest)
            else if |Visible(w)| > 1022 then r.ec == Overrun
            else r == LineRun(Line(LHttp, "", 0, p.(query := Some(Visible(w) + " "))), rest)
  {
    QueryKept(p, "", w, [ch] + rest);
    assert "" + Visible(w) == Visible(w);
    assert ([ch] + rest)[0] == ch && ([ch] + rest)[1..] == rest;
  }

  // ---------------------------------------------------------------- the protocol

  /** w without the ten characters that are passed over. */
  function Plain(w: string): string {
    if w == "" then "" else (if w[0] in "\0\n\r #%+./?" then [] else [w[0]]) + Plain(w[1..])
  }

  lemma UsualCharTable(c: char)
    ensures Usual(c) <==> c !in "\0\n\r #%+./?"
  {
  }

  predicate ProtocolSoFar(k: string) {
    |k| < 4 || k[..4] == "HTTP"
  }

  lemma {:induction false} ProtocolKept(p: Parsed, buf: string, w: string, rest: string)
    requires '/' !in w && |buf| + |Plain(w)| <= 1024 && ProtocolSoFar(buf)
    ensures var r := LineRun(Line(LHttp, buf, 0, p), w + rest);
            if ProtocolSoFar(buf + Plain(w)) then r == LineRun(Line(LHttp, buf + Plain(w), 0, p), rest)
            else r.ec == InvalidRequest
    decreases w
  {
    if w == "" {
      assert w + rest == rest && buf + Plain(w) == buf;
    } else {
      UsualCharTable(w[0]);
      assert w + rest == [w[0]] + (w[1..] + rest);
      assert ([w[0]] + (w[1..] + rest))[1..] == w[1..] + rest;
      var next := if Usual(w[0]) then buf + [w[0]] else buf;
      assert next + Plain(w[1..]) == buf + Plain(w);
      ProtocolStep(p, buf, w[0], next);
      if ProtocolSoFar(next) {
        LineMore(Line(LHttp, buf, 0, p), w[0], w[1..] + rest);
        ProtocolKept(p, next, w[1..], rest);
      } else {
        assert (buf + Plain(w))[..4] == next[..4];
      }
    }
  }

  lemma ProtocolStep(p: Parsed, buf: string, ch: char, next: string)
    requires ch != '/' && ProtocolSoFar(buf) && next == (if Usual(ch) then buf + [ch] else buf) && |next| <= 1024
    ensures LineStep(Line(LHttp, buf, 0, p), ch) ==
            if ProtocolSoFar(next) then More(Line(LHttp, next, 0, p)) else Halt(InvalidRequest, p)
  {
    if |next| >= 4 {
      assert |next| == 4 ==> next[..4] == next;
      assert |buf| >= 4 ==> next[..4] == buf[..4];
    }
  }

  /** What stands before the slash must, the ten characters left out, begin with HTTP or have fewer than four
      characters. */
  lemma ProtocolExactly(p: Parsed, w: string, rest: string)
    requires '/' !in w && |Plain(w)| <= 1024
    ensures var r := LineRun(Line(LHttp, "", 0, p), w + (['/'] + rest));
            if |Plain(w)| >= 4 && Plain(w)[..4] != "HTTP" then r.ec == InvalidRequest
            else r == LineRun(Line(LMajor, Plain(w), 0, p), rest)
  {
    ProtocolKept(p, "", w, ['/'] + rest);
    assert "" + Plain(w) == Plain(w);
    if ProtocolSoFar(Plain(w)) {
      assert |Plain(w)| == 4 ==> Plain(w)[..4] == Plain(w);
      LineMore(Line(LHttp, Plain(w), 0, p), '/', rest);
    }
  }

  // ---------------------------------------------------------------- the version

  /** The number that the digits of w make, read behind v. */
  function Number(v: nat, w: string): nat
    decreases w
  {
    if w == "" then v
    else Number(if 48 <= w[0] as int <= 57 then 10 * v + (w[0] as int - 48) else v, w[1..])
  }

  lemma {:induction false} NumberGrows(v: nat, w: string)
    ensures Number(v, w) >= v
    decreases w
  {
    if w != "" { NumberGrows(if 48 <= w[0] as int <= 57 then 10 * v + (w[0] as int - 48) else v, w[1..]); }
  }

  lemma {:induction false} MajorRead(p: Parsed, buf: string, v: nat, w: string, rest: string)
    requires v <= 1 && forall i | 0 <= i < |w| :: w[i] !in "\0\n\r#%+./?"
    ensures var r := LineRun(Line(LMajor, buf, v, p), w + rest);
            if Number(v, w) <= 1 then r == LineRun(Line(LMajor, buf, Number(v, w), p), rest) else r.ec == InvalidRequest
    decreases w
  {
    if w == "" {
      assert w + rest == rest;
    } else {
      UsualCharTable(w[0]);
      assert w + rest == [w[0]] + (w[1..] + rest);
      assert ([w[0]] + (w[1..] + rest))[1..] == w[1..] + rest;
      var next := NextVersion(v, w[0]);
      assert Number(v, w) == Number(next, w[1..]);
      NumberGrows(next, w[1..]);
      if next <= 1 {
        LineMore(Line(LMajor, buf, v, p), w[0], w[1..] + rest);
        MajorRead(p, buf, next, w[1..], rest);
      }
    }
  }

  lemma {:induction false} MinorRead(p: Parsed, buf: string, v: nat, w: string, rest: string)
    requires v <= 11 && '\n' !in w
    ensures var r := LineRun(Line(LMinor, buf, v, p), w + rest);
            if Number(v, w) <= 11 then r == LineRun(Line(LMinor, buf, Number(v, w), p), rest)
            else r.ec == InvalidRequest
    decreases w
  {
    if w == "" {
      assert w + rest == rest;
    } else {
      UsualCharTable(w[0]);
      assert w + rest == [w[0]] + (w[1..] + rest);
      assert ([w[0]] + (w[1..] + rest))[1..] == w[1..] + rest;
      var next := NextVersion(v, w[0]);
      assert Number(v, w) == Number(next, w[1..]);
      NumberGrows(next, w[1..]);
      if next <= 11 {
        LineMore(Line(LMinor, buf, v, p), w[0], w[1..] + rest);
        MinorRead(p, buf, next, w[1..], rest);
      }
    }
  }

  /** The version is what the digits around the dot make, other characters passed over: at most 1 before it and at
      most 11 in all. */
  lemma VersionExactly(p: Parsed, buf: string, major: string, minor: string, rest: string)
    requires (forall i | 0 <= i < |major| :: major[i] !in "\0\n\r#%+./?") && '\n' !in minor
    ensures var r := LineRun(Line(LMajor, buf, 0, p), major + (['.'] + (minor + (['\n'] + rest))));
            var version := Number(Number(0, major), minor);
            if Number(0, major) <= 1 && version <= 11
            then r == Result(Ok, p.(message := p.message.(version := version)), rest)
            else r.ec == InvalidRequest
  {
    var behind := minor + (['\n'] + rest);
    MajorRead(p, buf, 0, major, ['.'] + behind);
    var v := Number(0, major);
    if v <= 1 {
      LineMore(Line(LMajor, buf, v, p), '.', behind);
      MinorRead(p, buf, v, minor, ['\n'] + rest);
      assert (['\n'] + rest)[0] == '\n' && (['\n'] + rest)[1..] == rest;
    }
  }

  /** Before the dot, the other eight characters are refused. */
  lemma BadMajor(p: Parsed, buf: string, v: nat, ch: char, rest: string)
    requires ch in "\0\n\r#%+/?"
    ensures LineRun(Line(LMajor, buf, v, p), [ch] + rest) == Result(InvalidRequest, p, rest)
  {
    UsualCharTable(ch);
    assert ([ch] + rest)[0] == ch && ([ch] + rest)[1..] == rest;
  }

  // ---------------------------------------------------------------- the whole line

  /** Any accepted request line without a query, whatever line breaks and spaces it has. */
  lemma WholeLine(breaks: string, v: Verb, spaces: string, target: string, http: string, major: string, minor: string,
      rest: string)
    requires (forall i | 0 <= i < |breaks| :: breaks[i] in "\r\n") && (forall i | 0 <= i < |spaces| :: spaces[i] == ' ')
    requires v != Unknown && '/' !in http && |Plain(http)| <= 1024 && (|Plain(http)| < 4 || Plain(http)[..4] == "HTTP")
    requires 1 <= |target| <= 1023 && target[0] == '/' && forall i | 0 <= i < |target| :: target[i] !in "\0\n\r #%+?"
    requires (forall i | 0 <= i < |major| :: major[i] !in "\0\n\r#%+./?") && '\n' !in minor
    requires Number(0, major) <= 1 && Number(Number(0, major), minor) <= 11
    ensures var line := breaks + (VerbName(v) + " " + (spaces + (target + ([' '] + (http + (['/'] +
                          (major + (['.'] + (minor + (['\n'] + rest)))))))))) ;
            LineRun(Line(LStart, "", 0, Fresh), line)
            == Result(Ok, Parsed(Message(v, target, Number(Number(0, major), minor), []), None, false), rest)
  {
    var afterHttp := major + (['.'] + (minor + (['\n'] + rest)));
    var afterTarget := http + (['/'] + afterHttp);
    var afterSpaces := target + ([' '] + afterTarget);
    LeadingLineBreaks(Fresh, breaks, VerbName(v) + " " + (spaces + afterSpaces));
    ReadVerb(Fresh, v, spaces + afterSpaces);
    var p := Fresh.(message := Fresh.message.(verb := v));
    SpacesBeforeTarget(p, spaces, afterSpaces);
    TargetExactly(p, target, ' ', afterTarget);
    var q := p.(message := p.message.(target := target));
    ProtocolExactly(q, http, afterHttp);
    VersionExactly(q, Plain(http), major, minor, rest);
  }
}
