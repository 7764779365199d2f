/**
 The request-head parser as two byte-at-a-time machines, the request line and the header fields, and
 the printer of a request head. `Overrun` stands for a write past the end of a character buffer, where
 the program checks nothing.
 */
module RequestHead {
  import opened Chars
  import opened Fields

  datatype Verb = Unknown | Delete | Get | Head | Post | Put

  function VerbName(v: Verb): string {
    match v
    case Unknown => "UNKNOWN"
    case Delete => "DELETE"
    case Get => "GET"
    case Head => "HEAD"
    case Post => "POST"
    case Put => "PUT"
  }

  function VersionName(version: nat): string {
    if version == 11 then "HTTP/1.1" else if version == 10 then "HTTP/1.0" else "unknown"
  }

  datatype Message = Message(verb: Verb, target: string, version: nat, fields: seq<Field>)

  /** The parts of `parser` that reading a head touches. */
  datatype Parsed = Parsed(message: Message, query: Option<string>, headerDone: bool)

  const Fresh: Parsed := Parsed(Message(Unknown, "", 0, []), None, false)

  datatype Ec = Ok | InvalidMethod | InvalidRequest | InvalidHeader | Overrun

  datatype Outcome<S> = More(next: S) | Halt(ec: Ec, p: Parsed)

  datatype Result = Result(ec: Ec, p: Parsed, rest: string)

  // ---------------------------------------------------------------- the request line

  datatype LineStage = LStart | LMethod | LSpaces | LTarget | LParams | LHttp | LMajor | LMinor

  /** `buf` is what the character buffer holds below index i. */
  datatype Line = Line(stage: LineStage, buf: string, version: nat, p: Parsed)

  /** The verb a whole token names. */
  function VerbOf(token: string): Option<Verb> {
    if token == "GET" then Some(Get)
    else if token == "PUT" then Some(Put)
    else if token == "HEAD" then Some(Head)
    else if token == "POST" then Some(Post)
    else if token == "DELETE" then Some(Delete)
    else None
  }

  predicate TargetChar(c: char) {
    Usual(c) || c == '/' || c == '.'
  }

  /** Appending to the buffer of the request line. */
  function Keep(s: Line, ch: char): Outcome<Line> {
    if |s.buf| < MAXTARGETLEN then More(s.(buf := s.buf + [ch])) else Halt(Overrun, s.p)
  }

  function NextVersion(version: nat, ch: char): nat {
    if IsDigit(ch) then version * 10 + (ch as int - '0' as int) else version
  }

  function LineStep(s: Line, ch: char): Outcome<Line> {
    match s.stage
    case LStart =>
      if ch == CR || ch == LF then More(s)
      else if !IsUpper(ch) then Halt(InvalidMethod, s.p)
      else More(s.(stage := LMethod, buf := [ch]))
    case LMethod =>
      if |s.buf| >= MAXTARGETLEN then Halt(Overrun, s.p)
      else if ch == ' ' then
        match VerbOf(s.buf)
        case Some(v) => More(s.(stage := LSpaces, buf := "", p := s.p.(message := s.p.message.(verb := v))))
        case None => Halt(InvalidMethod, s.p)
      else if !IsUpper(ch) then Halt(InvalidMethod, s.p)
      else Keep(s, ch)
    case LSpaces =>
      if ch == '/' then More(s.(stage := LTarget, buf := "/"))
      else if ch == ' ' then More(s)
      else Halt(InvalidRequest, s.p)
    case LTarget =>
      if TargetChar(ch) then Keep(s, ch)
      else if ch == '?' || ch == ' ' then
        if |s.buf| >= MAXTARGETLEN then Halt(Overrun, s.p)
        else More(s.(stage := if ch == '?' then LParams else LHttp, buf := "",
                     p := s.p.(message := s.p.message.(target := s.buf))))
      else Halt(InvalidRequest, s.p)
    case LParams =>
      if ch == NUL then Halt(InvalidRequest, s.p)
      else if !Printable(ch) then More(s)
      else
        var kept := Keep(s, ch);
        if kept.Halt? || ch != ' ' then kept
        else if |kept.next.buf| >= MAXTARGETLEN then Halt(Overrun, s.p)
        else More(s.(stage := LHttp, buf := "", p := s.p.(query := Some(kept.next.buf))))
    case LHttp =>
      var kept := if Usual(ch) then Keep(s, ch) else More(s);
      if kept.Halt? then kept
      else if |kept.next.buf| == 4 && kept.next.buf != "HTTP" then Halt(InvalidRequest, s.p)
      else if ch == '/' then More(kept.next.(stage := LMajor))
      else kept
    case LMajor =>
      if Usual(ch) then
        if NextVersion(s.version, ch) > 1 then Halt(InvalidRequest, s.p)
        else More(s.(version := NextVersion(s.version, ch)))
      else if ch == '.' then More(s.(stage := LMinor))
      else if ch == ' ' then More(s)
      else Halt(InvalidRequest, s.p)
    case LMinor =>
      if Usual(ch) then
        if NextVersion(s.version, ch) > 11 then Halt(InvalidRequest, s.p)
        else More(s.(version := NextVersion(s.version, ch)))
      else if ch == LF then Halt(Ok, WithVersion(s))
      else More(s)
  }

  function WithVersion(s: Line): Parsed {
    s.p.(message := s.p.message.(version := s.version))
  }

  function LineRun(s: Line, input: string): Result
    decreases input
  {
    if input == "" then Result(Ok, WithVersion(s), "")
    else
      match LineStep(s, input[0])
      case More(next) => LineRun(next, input[1..])
      case Halt(ec, p) => Result(ec, p, input[1..])
  }

  // ---------------------------------------------------------------- the header fields

  datatype HeaderStage = HStart | HName | HSpaces | HValue | HAlmost | HDone | HEnd

  datatype Header = Header(stage: HeaderStage, name: string, value: string, p: Parsed)

  /** par.message_[name] = value */
  function SetField(p: Parsed, name: string, value: string): Parsed {
    p.(message := p.message.(fields := Assign(p.message.fields, name, value)))
  }

  function HeaderStep(s: Header, ch: char): Outcome<Header> {
    match s.stage
    case HStart =>
      if ch == CR then More(s.(stage := HEnd))
      else if ch == LF then Halt(Ok, s.p.(headerDone := true))
      else if Lowcase(ch) then More(s.(stage := HName, name := [ch]))
      else More(s)
    case HName =>
      if Lowcase(ch) && |s.name| < MAXFIELDNAME then More(s.(name := s.name + [ch]))
      else if ch == ':' && |s.name| < MAXFIELDNAME then More(s.(stage := HSpaces))
      else Halt(InvalidRequest, s.p)
    case HSpaces =>
      if ch == ' ' then More(s)
      else if ch == CR then More(s.(stage := HAlmost, p := SetField(s.p, s.name, [NUL])))
      else if ch == LF then More(s.(stage := HStart, p := SetField(s.p, s.name, [NUL])))
      else More(s.(stage := HValue, value := [ch]))
    case HValue =>
      if ch == NUL then Halt(InvalidHeader, s.p)
      else if |s.value| >= MAXFIELDVALUE then Halt(Overrun, s.p)
      else if ch == CR then More(s.(stage := HAlmost, p := SetField(s.p, s.name, CString(s.value))))
      else if ch == LF then More(s.(stage := HStart, p := SetField(s.p, s.name, CString(s.value))))
      else More(s.(value := s.value + [ch]))
    case HAlmost =>
      if ch == CR then More(s.(stage := HDone))
      else if ch == LF then More(s.(stage := HStart))
      else More(s)
    case HDone =>
      if ch == LF then More(s.(stage := HStart)) else More(s)
    case HEnd =>
      if ch == LF then Halt(Ok, s.p.(headerDone := true)) else Halt(InvalidHeader, s.p)
  }

  function HeaderRun(s: Header, input: string): Result
    decreases input
  {
    if input == "" then Result(Ok, s.p, "")
    else
      match HeaderStep(s, input[0])
      case More(next) => HeaderRun(next, input[1..])
      case Halt(ec, p) => Result(ec, p, input[1..])
  }

  /** read_header: the request line, then the fields up to the blank line. */
  function ReadHead(p: Parsed, input: string): Result {
    var line := LineRun(Line(LStart, "", 0, p), input);
    if line.ec != Ok || line.p.headerDone then line
    else HeaderRun(Header(HStart, "", "", line.p), line.rest)
  }

  // ---------------------------------------------------------------- the printer

  /** write_header of a request: no blank line at the end. */
  function PrintHead(m: Message): string {
    VerbName(m.verb) + " " + m.target + " " + VersionName(m.version) + "\r\n" + PrintFields(m.fields)
  }

  // ---------------------------------------------------------------- what a parse can produce

  predicate LegalTarget(t: string) {
    1 <= |t| < MAXTARGETLEN && t[0] == '/' && forall i | 0 <= i < |t| :: TargetChar(t[i])
  }

  predicate LegalName(n: string) {
    1 <= |n| < MAXFIELDNAME && forall i | 0 <= i < |n| :: Lowcase(n[i])
  }

  predicate LegalValue(v: string) {
    1 <= |v| < MAXFIELDVALUE && v[0] != ' ' && forall i | 0 <= i < |v| :: v[i] != CR && v[i] != LF && v[i] != NUL
  }

  /** The two ways the parser stores a field without a value: one NUL, or nothing. */
  predicate Blank(v: string) {
    v == [NUL] || v == ""
  }

  predicate LegalFields(fs: seq<Field>) {
    && Sorted(fs)
    && forall i | 0 <= i < |fs| :: LegalName(fs[i].name) && (LegalValue(fs[i].value) || Blank(fs[i].value))
  }

  predicate LegalMessage(m: Message) {
    m.verb != Unknown && LegalTarget(m.target) && LegalFields(m.fields)
  }

  predicate NoBlankValue(m: Message) {
    forall i | 0 <= i < |m.fields| :: !Blank(m.fields[i].value)
  }
}
