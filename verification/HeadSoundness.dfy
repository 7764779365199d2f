/** What the request-head parser can produce, and that it reads no further than it must. */
module HeadSoundness {
  import opened Chars
  import opened Fields
  import opened RequestHead

  // ---------------------------------------------------------------- results are legal

  predicate LineInv(s: Line) {
    && LegalFields(s.p.message.fields) && !s.p.headerDone
    && (!s.stage.LStart? && !s.stage.LMethod? ==> s.p.message.verb != Unknown)
    && (s.stage.LTarget? ==>
          1 <= |s.buf| <= MAXTARGETLEN && s.buf[0] == '/' && forall i | 0 <= i < |s.buf| :: TargetChar(s.buf[i]))
    && (s.stage.LParams? || s.stage.LHttp? || s.stage.LMajor? || s.stage.LMinor? ==> LegalTarget(s.p.message.target))
    && s.version <= if s.stage.LMinor? then 11 else 1
  }

  lemma LineStepKeepsInv(s: Line, ch: char)
    requires LineInv(s) && LineStep(s, ch).More?
    ensures LineInv(LineStep(s, ch).next)
  {
  }

  /** A request line that was read to its end, and not just to the end of the input. */
  lemma {:induction false} LineIsSound(s: Line, input: string)
    requires LineInv(s)
    ensures var r := LineRun(s, input);
            && !r.p.headerDone && LegalFields(r.p.message.fields)
            && (r.ec == Ok && r.rest != "" ==>
                  r.p.message.verb != Unknown && LegalTarget(r.p.message.target) && r.p.message.version <= 11)
    decreases input
  {
    if input != "" && LineStep(s, input[0]).More? {
      LineStepKeepsInv(s, input[0]);
      LineIsSound(LineStep(s, input[0]).next, input[1..]);
    }
  }

  predicate HeaderInv(s: Header) {
    && LegalFields(s.p.message.fields) && !s.p.headerDone
    && (s.stage.HName? ==> 1 <= |s.name| <= MAXFIELDNAME && forall i | 0 <= i < |s.name| :: Lowcase(s.name[i]))
    && (s.stage.HSpaces? || s.stage.HValue? ==> LegalName(s.name))
    && (s.stage.HValue? ==>
          && 1 <= |s.value| <= MAXFIELDVALUE && s.value[0] != ' '
          && (forall i | 0 <= i < |s.value| :: s.value[i] != CR && s.value[i] != LF)
          && forall i | 1 <= i < |s.value| :: s.value[i] != NUL)
  }

  lemma ValueIsStored(value: string)
    requires 1 <= |value| < MAXFIELDVALUE && value[0] != ' '
    requires forall i | 0 <= i < |value| :: value[i] != CR && value[i] != LF
    requires forall i | 1 <= i < |value| :: value[i] != NUL
    ensures LegalValue(CString(value)) || Blank(CString(value))
  {
    if value[0] != NUL {
      CStringWhole(value, "");
    }
  }

  lemma SetFieldKeepsLegal(p: Parsed, name: string, value: string)
    requires LegalFields(p.message.fields) && LegalName(name) && (LegalValue(value) || Blank(value))
    ensures LegalFields(SetField(p, name, value).message.fields)
  {
    var fs := Assign(p.message.fields, name, value);
    AssignIsMapUpdate(p.message.fields, name, value, name);
    forall i | 0 <= i < |fs| ensures LegalName(fs[i].name) && (LegalValue(fs[i].value) || Blank(fs[i].value)) {
      assert fs[i] in fs;
    }
  }

  lemma HeaderStepKeepsInv(s: Header, ch: char)
    requires HeaderInv(s) && HeaderStep(s, ch).More?
    ensures HeaderInv(HeaderStep(s, ch).next)
  {
    if s.stage.HSpaces? && (ch == CR || ch == LF) {
      SetFieldKeepsLegal(s.p, s.name, [NUL]);
    } else if s.stage.HValue? && (ch == CR || ch == LF) {
      ValueIsStored(s.value);
      SetFieldKeepsLegal(s.p, s.name, CString(s.value));
    }
  }

  lemma {:induction false} HeaderIsSound(s: Header, input: string)
    requires HeaderInv(s)
    ensures var r := HeaderRun(s, input);
            && LegalFields(r.p.message.fields)
            && r.p.message.verb == s.p.message.verb && r.p.message.target == s.p.message.target
            && r.p.message.version == s.p.message.version && r.p.query == s.p.query
            && (r.p.headerDone ==> r.ec == Ok && input != "")
    decreases input
  {
    if input != "" && HeaderStep(s, input[0]).More? {
      HeaderStepKeepsInv(s, input[0]);
      HeaderIsSound(HeaderStep(s, input[0]).next, input[1..]);
    }
  }

  /** Whatever bytes a fresh parser accepted, the message it built is legal. */
  lemma AcceptedIsLegal(input: string)
    requires ReadHead(Fresh, input).p.headerDone
    ensures var r := ReadHead(Fresh, input);
            r.ec == Ok && LegalMessage(r.p.message) && r.p.message.version <= 11
  {
    LineIsSound(Line(LStart, "", 0, Fresh), input);
    var line := LineRun(Line(LStart, "", 0, Fresh), input);
    if line.ec == Ok {
      HeaderIsSound(Header(HStart, "", "", line.p), line.rest);
    }
  }

  // ---------------------------------------------------------------- framing

  /** The request line ends within x: with its line feed, or with an error. */
  predicate LineEnds(s: Line, x: string)
    decreases x
  {
    x != "" && match LineStep(s, x[0]) case More(next) => LineEnds(next, x[1..]) case Halt(_, _) => true
  }

  /** An error, or anything left over, shows that the line has ended. */
  lemma {:induction false} LineEnded(s: Line, x: string)
    requires var r := LineRun(s, x); r.ec != Ok || r.rest != ""
    ensures LineEnds(s, x)
    decreases x
  {
    if LineStep(s, x[0]).More? {
      LineEnded(LineStep(s, x[0]).next, x[1..]);
    }
  }

  lemma {:induction false} LineFraming(s: Line, x: string, y: string)
    requires LineEnds(s, x)
    ensures LineRun(s, x + y) == LineRun(s, x).(rest := LineRun(s, x).rest + y)
    decreases x
  {
    if x != "" {
      assert (x + y)[0] == x[0] && (x + y)[1..] == x[1..] + y;
      if LineStep(s, x[0]).More? {
        LineFraming(LineStep(s, x[0]).next, x[1..], y);
      }
    }
  }

  lemma {:induction false} HeaderFraming(s: Header, x: string, y: string)
    requires !s.p.headerDone
    requires var r := HeaderRun(s, x); r.ec != Ok || r.p.headerDone
    ensures HeaderRun(s, x + y) == HeaderRun(s, x).(rest := HeaderRun(s, x).rest + y)
    decreases x
  {
    if x != "" {
      assert (x + y)[0] == x[0] && (x + y)[1..] == x[1..] + y;
      if HeaderStep(s, x[0]).More? {
        HeaderFraming(HeaderStep(s, x[0]).next, x[1..], y);
      }
    }
  }

  lemma {:induction false} LineRestIsSuffix(s: Line, x: string)
    ensures var r := LineRun(s, x); |r.rest| <= |x| && r.rest == x[|x| - |r.rest|..]
    ensures x != "" ==> |LineRun(s, x).rest| < |x|
    ensures !s.p.headerDone ==> !LineRun(s, x).p.headerDone
    decreases x
  {
    if x != "" && LineStep(s, x[0]).More? {
      LineRestIsSuffix(LineStep(s, x[0]).next, x[1..]);
    }
  }

  lemma {:induction false} HeaderRestIsSuffix(s: Header, x: string)
    requires !s.p.headerDone
    ensures var r := HeaderRun(s, x);
            && |r.rest| <= |x| && r.rest == x[|x| - |r.rest|..]
            && (r.ec == Ok && !r.p.headerDone ==> r.rest == "")
            && (r.p.headerDone ==> |r.rest| < |x| && x[|x| - |r.rest| - 1] == LF)
    decreases x
  {
    if x != "" && HeaderStep(s, x[0]).More? {
      HeaderRestIsSuffix(HeaderStep(s, x[0]).next, x[1..]);
    }
  }

  /** Once read_header has finished on x, bytes y that follow change nothing and stay unread. */
  lemma Framing(p: Parsed, x: string, y: string)
    requires !p.headerDone
    requires var r := ReadHead(p, x); r.ec != Ok || r.p.headerDone
    ensures ReadHead(p, x + y) == ReadHead(p, x).(rest := ReadHead(p, x).rest + y)
  {
    var s := Line(LStart, "", 0, p);
    var line := LineRun(s, x);
    LineRestIsSuffix(s, x);
    if line.ec == Ok {
      var h := Header(HStart, "", "", line.p);
      if line.rest != "" {
        LineEnded(s, x);
        LineFraming(s, x, y);
        HeaderFraming(h, line.rest, y);
      }
    } else {
      LineEnded(s, x);
      LineFraming(s, x, y);
    }
  }

  /** What is left is the end of the input; after success it starts right behind a line feed, and a head
      that is not finished has used up everything. */
  lemma UnreadIsTheRest(p: Parsed, x: string)
    requires !p.headerDone
    ensures var r := ReadHead(p, x);
            && |r.rest| <= |x| && r.rest == x[|x| - |r.rest|..]
            && (r.ec == Ok && !r.p.headerDone ==> r.rest == "")
            && (r.p.headerDone ==> |r.rest| < |x| && x[|x| - |r.rest| - 1] == LF)
  {
    LineRestIsSuffix(Line(LStart, "", 0, p), x);
    var line := LineRun(Line(LStart, "", 0, p), x);
    if line.ec == Ok && !line.p.headerDone {
      UnreadAfterLine(line.p, x, line.rest);
    }
  }

  lemma UnreadAfterLine(p: Parsed, x: string, y: string)
    requires !p.headerDone && |y| <= |x| && y == x[|x| - |y|..]
    ensures var r := HeaderRun(Header(HStart, "", "", p), y);
            && |r.rest| <= |x| && r.rest == x[|x| - |r.rest|..]
            && (r.ec == Ok && !r.p.headerDone ==> r.rest == "")
            && (r.p.headerDone ==> |r.rest| < |x| && x[|x| - |r.rest| - 1] == LF)
  {
    HeaderRestIsSuffix(Header(HStart, "", "", p), y);
    SuffixOfSuffix(x, y, HeaderRun(Header(HStart, "", "", p), y).rest);
  }

  lemma SuffixOfSuffix(x: string, y: string, z: string)
    requires |z| <= |y| <= |x| && y == x[|x| - |y|..] && z == y[|y| - |z|..]
    ensures z == x[|x| - |z|..]
    ensures |z| < |y| ==> x[|x| - |z| - 1] == y[|y| - |z| - 1]
  {
  }
}
