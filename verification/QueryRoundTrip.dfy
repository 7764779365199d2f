/** A parameter list on its way through a request line: printed into the target, stored by the head parser
    as the query string, and read back by the form parser. */
module QueryRoundTrip {
  import opened Chars
  import opened Fields
  import opened RequestHead
  import opened HeadRoundTrip
  import opened Form

  /** What the head parser keeps of a query: printable characters, spaces excepted. */
  predicate QueryText(q: string) {
    forall i | 0 <= i < |q| :: Printable(q[i]) && q[i] != ' '
  }

  predicate PrintableKeys(body: seq<Arg>) {
    forall i | 0 <= i < |body| :: QueryText(body[i].key)
  }

  lemma {:induction false} PrintedIsQueryText(body: seq<Arg>)
    requires LegalArgs(body) && PrintableKeys(body)
    ensures QueryText(PrintForm(body))
  {
    if body != [] {
      assert QueryText(body[0].key) && LegalArgValue(body[0].value);
      assert QueryText(PrintArg(body[0]));
      if |body| > 1 {
        forall i | 0 <= i < |body[1..]| ensures QueryText(body[1..][i].key) { assert body[1..][i] == body[i + 1]; }
        PrintedIsQueryText(body[1..]);
      }
    }
  }

  lemma {:induction false} ReadParams(s: Line, w: string, rest: string)
    requires s.stage.LParams? && |s.buf| + |w| <= MAXTARGETLEN && QueryText(w)
    ensures LineRun(s, w + rest) == LineRun(s.(buf := s.buf + w), rest)
    decreases w
  {
    if w == "" {
      assert w + rest == rest && s.buf + w == s.buf;
    } else {
      assert w + rest == [w[0]] + (w[1..] + rest);
      LineMore(s, w[0], w[1..] + rest);
      ReadParams(s.(buf := s.buf + [w[0]]), w[1..], rest);
      assert s.buf + [w[0]] + w[1..] == s.buf + w;
    }
  }

  /** The query and the space behind it, which is kept. */
  lemma ReadQuery(p: Parsed, q: string, rest: string)
    requires QueryText(q) && |q| + 1 < MAXTARGETLEN
    ensures LineRun(Line(LParams, "", 0, p), q + " " + rest)
         == LineRun(Line(LHttp, "", 0, p.(query := Some(q + " "))), rest)
  {
    assert q + " " + rest == q + ([' '] + rest);
    ReadParams(Line(LParams, "", 0, p), q, [' '] + rest);
    assert "" + q == q;
    LineMore(Line(LParams, q, 0, p), ' ', rest);
  }

  function PrintQueryHead(m: Message, q: string): string {
    VerbName(m.verb) + " " + m.target + "?" + q + " " + VersionName(m.version) + "\r\n" + PrintFields(m.fields)
  }

  lemma ReadQueryLine(m: Message, q: string, rest: string)
    requires m.verb != Unknown && LegalTarget(m.target) && (m.version == 10 || m.version == 11)
    requires QueryText(q) && |q| + 1 < MAXTARGETLEN
    ensures LineRun(Line(LStart, "", 0, Fresh),
                    VerbName(m.verb) + " " + m.target + "?" + q + " " + VersionName(m.version) + "\r\n" + rest)
         == Result(Ok, Parsed(m.(fields := []), Some(q + " "), false), rest)
  {
    var afterQuery := VersionName(m.version) + "\r\n" + rest;
    var afterTarget := q + " " + afterQuery;
    assert VerbName(m.verb) + " " + m.target + "?" + q + " " + VersionName(m.version) + "\r\n" + rest
        == VerbName(m.verb) + " " + (m.target + "?" + afterTarget);
    ReadVerb(Fresh, m.verb, m.target + "?" + afterTarget);
    var p1 := Fresh.(message := Fresh.message.(verb := m.verb));
    ReadTarget(p1, m.target, '?', afterTarget);
    var p2 := p1.(message := p1.message.(target := m.target));
    ReadQuery(p2, q, afterQuery);
    ReadVersion(p2.(query := Some(q + " ")), m.version, rest);
  }

  /** End to end: the list printed into a request line is the list the form parser reads from the stored
      query, whatever the form buffers held, and the head itself comes back with it. */
  lemma QueryReturns(m: Message, body: seq<Arg>, tail: string, name: string, value: string)
    requires LegalMessage(m) && NoBlankValue(m) && (m.version == 10 || m.version == 11)
    requires body != [] && LegalArgs(body) && PrintableKeys(body) && |PrintForm(body)| + 1 < MAXTARGETLEN
    requires Buffers(name, value)
    ensures var r := ReadHead(Fresh, PrintQueryHead(m, PrintForm(body)) + "\r\n" + tail);
            && r == Result(Ok, Parsed(m, Some(PrintForm(body) + " "), true), tail)
            && FormRun(Start(name, value, []), r.p.query.value, 0) == FormResult(Some(|PrintForm(body)| + 1), body, "")
  {
    var q := PrintForm(body);
    PrintedIsQueryText(body);
    var section := PrintFields(m.fields) + "\r\n" + tail;
    assert PrintQueryHead(m, q) + "\r\n" + tail
        == VerbName(m.verb) + " " + m.target + "?" + q + " " + VersionName(m.version) + "\r\n" + section;
    ReadQueryLine(m, q, section);
    ReadFieldSection(Parsed(m.(fields := []), Some(q + " "), false), m.fields, tail);
    MirrorIsIdentity(m);
    FormRoundTrip(Start(name, value, []), body, "", 0);
    assert q + " " + "" == q + " " && [] + body == body;
  }
}
