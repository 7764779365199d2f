/**
 The parser of `key=value&...` bodies and query strings, and its printer. The parser works on two
 uninitialised buffers and one index; both buffers are part of its state, because after a line break the
 index is not reset.
 */
module Form {
  import opened Chars

  datatype Arg = Arg(key: string, value: string)

  datatype FormStage = SName | SValue | SAlmost

  datatype FormState = FormState(stage: FormStage, name: string, value: string, i: nat, body: seq<Arg>)

  predicate Buffers(name: string, value: string) {
    |name| == MAXFIELDNAME && |value| == MAXFIELDVALUE
  }

  function Start(name: string, value: string, body: seq<Arg>): FormState {
    FormState(SName, name, value, 0, body)
  }

  /** Going on, returning the count of bytes read, refusing with -1, or writing past a buffer. */
  datatype FormOutcome = Go(next: FormState) | Return(body: seq<Arg>) | Refuse | Past

  predicate KeyChar(c: char) {
    Usual(c) && c != '&' && c != '='
  }

  predicate ValueChar(c: char) {
    Printable(c) && c != '&' && c != ' '
  }

  /** body.push_back({name, value}) with what the buffers hold as C strings. */
  function Pushed(s: FormState, value: string): seq<Arg> {
    s.body + [Arg(CString(s.name), CString(value))]
  }

  function FormStep(s: FormState, ch: char): FormOutcome
    requires Buffers(s.name, s.value)
  {
    match s.stage
    case SName =>
      if KeyChar(ch) then
        if s.i >= MAXFIELDNAME then Past else Go(s.(name := s.name[s.i := ch], i := s.i + 1))
      else if ch == '=' then
        if s.i >= MAXFIELDNAME then Past else Go(s.(name := s.name[s.i := NUL], stage := SValue, i := 0))
      else if ch == '&' then
        if s.i >= MAXFIELDNAME then Past
        else
          var name := s.name[s.i := NUL];
          Go(s.(name := name, body := s.body + [Arg(CString(name), "")], i := 0))
      else Refuse
    case SValue =>
      if ValueChar(ch) then
        if s.i >= MAXFIELDVALUE then Past else Go(s.(value := s.value[s.i := ch], i := s.i + 1))
      else if ch != '&' && ch != ' ' && ch != CR && ch != LF then Refuse
      else if s.i >= MAXFIELDVALUE then Past
      else
        var value := s.value[s.i := NUL];
        var body := Pushed(s, value);
        if ch == ' ' then Return(body)
        else if ch == '&' then Go(s.(value := value, body := body, stage := SName, i := 0))
        else if ch == CR then Go(s.(value := value, body := body, stage := SAlmost))
        else Go(s.(value := value, body := body, stage := SName))
    case SAlmost =>
      if ch == LF then Go(s.(stage := SName)) else Go(s)
  }

  /** `ret` is what the parser returns; None if it wrote past a buffer. */
  datatype FormResult = FormResult(ret: Option<int>, body: seq<Arg>, rest: string)

  function FormRun(s: FormState, input: string, total: nat): FormResult
    requires Buffers(s.name, s.value)
    decreases input
  {
    if total >= MAXTRUNK || input == "" then FormResult(Some(total), s.body, input)
    else
      match FormStep(s, input[0])
      case Go(next) => FormRun(next, input[1..], total + 1)
      case Return(body) => FormResult(Some(total + 1), body, input[1..])
      case Refuse => FormResult(Some(-1), s.body, input[1..])
      case Past => FormResult(None, s.body, input[1..])
  }

  function PrintArg(a: Arg): string {
    a.key + "=" + a.value
  }

  function PrintForm(body: seq<Arg>): string {
    if body == [] then ""
    else if |body| == 1 then PrintArg(body[0])
    else PrintArg(body[0]) + "&" + PrintForm(body[1..])
  }

  // ---------------------------------------------------------------- legal lists

  predicate LegalKey(k: string) {
    |k| < MAXFIELDNAME && forall i | 0 <= i < |k| :: KeyChar(k[i])
  }

  predicate LegalArgValue(v: string) {
    |v| < MAXFIELDVALUE && forall i | 0 <= i < |v| :: ValueChar(v[i])
  }

  predicate LegalArgs(body: seq<Arg>) {
    forall i | 0 <= i < |body| :: LegalKey(body[i].key) && LegalArgValue(body[i].value)
  }

  // ---------------------------------------------------------------- reading one segment at a time

  /** A buffer after writing w from index i on. */
  function Fill(buffer: string, i: nat, w: string): string
    requires i + |w| <= |buffer|
  {
    buffer[..i] + w + buffer[i + |w|..]
  }

  lemma FormGo(s: FormState, ch: char, rest: string, total: nat)
    requires Buffers(s.name, s.value) && FormStep(s, ch).Go? && total < MAXTRUNK
    ensures FormRun(s, [ch] + rest, total) == FormRun(FormStep(s, ch).next, rest, total + 1)
  {
    assert ([ch] + rest)[1..] == rest;
  }

  lemma {:induction false} ReadKey(s: FormState, w: string, rest: string, total: nat)
    requires Buffers(s.name, s.value) && s.stage.SName? && s.i + |w| <= MAXFIELDNAME && total + |w| <= MAXTRUNK
    requires forall i | 0 <= i < |w| :: KeyChar(w[i])
    ensures FormRun(s, w + rest, total) == FormRun(s.(name := Fill(s.name, s.i, w), i := s.i + |w|), rest, total + |w|)
    decreases w
  {
    if w == "" {
      assert w + rest == rest && Fill(s.name, s.i, w) == s.name;
    } else {
      var t := s.(name := s.name[s.i := w[0]], i := s.i + 1);
      assert w + rest == [w[0]] + (w[1..] + rest);
      FormGo(s, w[0], w[1..] + rest, total);
      ReadKey(t, w[1..], rest, total + 1);
      assert Fill(t.name, t.i, w[1..]) == Fill(s.name, s.i, w);
    }
  }

  lemma {:induction false} ReadArgValue(s: FormState, w: string, rest: string, total: nat)
    requires Buffers(s.name, s.value) && s.stage.SValue? && s.i + |w| <= MAXFIELDVALUE && total + |w| <= MAXTRUNK
    requires forall i | 0 <= i < |w| :: ValueChar(w[i])
    ensures FormRun(s, w + rest, total)
        == FormRun(s.(value := Fill(s.value, s.i, w), i := s.i + |w|), rest, total + |w|)
    decreases w
  {
    if w == "" {
      assert w + rest == rest && Fill(s.value, s.i, w) == s.value;
    } else {
      var t := s.(value := s.value[s.i := w[0]], i := s.i + 1);
      assert w + rest == [w[0]] + (w[1..] + rest);
      FormGo(s, w[0], w[1..] + rest, total);
      ReadArgValue(t, w[1..], rest, total + 1);
      assert Fill(t.value, t.i, w[1..]) == Fill(s.value, s.i, w);
    }
  }

  /** The text of a buffer cut off at index i. */
  lemma CutText(buffer: string, i: nat)
    requires i < |buffer|
    ensures CString(buffer[i := NUL]) == CString(buffer[..i])
  {
    assert buffer[i := NUL] == buffer[..i] + [NUL] + buffer[i + 1..];
    CStringTerminated(buffer[..i], buffer[i + 1..]);
  }

  /** The text of a buffer filled from its start and then terminated. */
  lemma FilledText(buffer: string, w: string)
    requires |w| < |buffer| && NUL !in w
    ensures CString(Fill(buffer, 0, w)[|w| := NUL]) == w
  {
    CutText(Fill(buffer, 0, w), |w|);
    assert Fill(buffer, 0, w)[..|w|] == w;
    CStringWhole(w, "");
  }

  // ---------------------------------------------------------------- one pair

  /** The key that is stored when k is written at index `off` of a buffer that shows the text `prev`: behind as
      much of the old text, or, if the old text ends before, not at all. */
  function KeyAt(prev: string, off: nat, k: string): string {
    if off > |prev| then prev else prev[..off] + k
  }

  /** About to read a key at index `off`, where the buffer shows the text `prev` so far. */
  predicate AtKey(s: FormState, prev: string, off: nat) {
    && Buffers(s.name, s.value) && s.stage.SName? && s.i == off
    && (off < MAXFIELDNAME ==> CString(s.name[..off]) == if off < |prev| then prev[..off] else prev)
  }

  lemma KeyText(name: string, prev: string, off: nat, k: string)
    requires |name| == MAXFIELDNAME && NUL !in k && off + |k| < MAXFIELDNAME
    requires CString(name[..off]) == if off < |prev| then prev[..off] else prev
    ensures CString(Fill(name, off, k)[off + |k| := NUL]) == KeyAt(prev, off, k)
  {
    CutText(Fill(name, off, k), off + |k|);
    assert Fill(name, off, k)[..off + |k|] == name[..off] + k;
    CStringAppend(name[..off], k);
    CStringClean(name[..off]);
    assert off == |prev| ==> prev[..off] == prev;
  }

  /** Reading `text` in front of anything takes s to t. */
  ghost predicate Leads(s: FormState, text: string, total: nat, t: FormState) {
    && Buffers(s.name, s.value) && Buffers(t.name, t.value)
    && forall rest {:trigger FormRun(s, text + rest, total)} ::
         FormRun(s, text + rest, total) == FormRun(t, rest, total + |text|)
  }

  lemma LeadsOn(s: FormState, a: string, total: nat, t: FormState, b: string, u: FormState)
    requires Leads(s, a, total, t) && Leads(t, b, total + |a|, u)
    ensures Leads(s, a + b, total, u)
  {
    forall rest ensures FormRun(s, a + b + rest, total) == FormRun(u, rest, total + |a + b|) {
      assert a + b + rest == a + (b + rest);
      assert FormRun(t, b + rest, total + |a|) == FormRun(u, rest, total + |a| + |b|);
    }
  }

  lemma LeadsChar(s: FormState, ch: char, total: nat)
    requires Buffers(s.name, s.value) && FormStep(s, ch).Go? && total < MAXTRUNK
    ensures Leads(s, [ch], total, FormStep(s, ch).next)
  {
    forall rest ensures FormRun(s, [ch] + rest, total) == FormRun(FormStep(s, ch).next, rest, total + 1) {
      FormGo(s, ch, rest, total);
    }
  }

  lemma LeadsKeyChars(s: FormState, k: string, total: nat) returns (t: FormState)
    requires Buffers(s.name, s.value) && s.stage.SName? && LegalKey(k)
    requires s.i + |k| < MAXFIELDNAME && total + |k| < MAXTRUNK
    ensures Leads(s, k, total, t) && t == s.(name := Fill(s.name, s.i, k), i := s.i + |k|)
  {
    t := s.(name := Fill(s.name, s.i, k), i := s.i + |k|);
    forall rest ensures FormRun(s, k + rest, total) == FormRun(t, rest, total + |k|) {
      ReadKey(s, k, rest, total);
    }
  }

  lemma LeadsKey(s: FormState, prev: string, off: nat, k: string, total: nat) returns (t: FormState)
    requires AtKey(s, prev, off) && LegalKey(k) && off + |k| < MAXFIELDNAME && total + |k| < MAXTRUNK
    ensures Leads(s, k + "=", total, t) && t == s.(stage := SValue, name := t.name, i := 0)
    ensures CString(t.name) == KeyAt(prev, off, k)
  {
    var named := LeadsKeyChars(s, k, total);
    LeadsChar(named, '=', total + |k|);
    KeyText(s.name, prev, off, k);
    t := FormStep(named, '=').next;
    LeadsOn(s, k, total, named, "=", t);
  }

  lemma LeadsValue(s: FormState, v: string, total: nat) returns (t: FormState)
    requires Buffers(s.name, s.value) && s.stage.SValue? && s.i == 0 && LegalArgValue(v) && total + |v| <= MAXTRUNK
    ensures Leads(s, v, total, t) && t == s.(value := t.value, i := |v|) && CString(t.value[|v| := NUL]) == v
  {
    t := s.(value := Fill(s.value, 0, v), i := |v|);
    forall rest ensures FormRun(s, v + rest, total) == FormRun(t, rest, total + |v|) {
      ReadArgValue(s, v, rest, total);
    }
    FilledText(s.value, v);
  }

  /** Behind the last character of a value, and what the pair would be stored as. */
  predicate AtValueEnd(t: FormState, a: Arg) {
    && Buffers(t.name, t.value) && t.stage.SValue? && t.i == |a.value| < MAXFIELDVALUE
    && CString(t.name) == a.key && CString(t.value[t.i := NUL]) == a.value
  }

  /** key=value, up to but not including the character behind it. */
  lemma LeadsPair(s: FormState, prev: string, off: nat, a: Arg, total: nat) returns (t: FormState)
    requires AtKey(s, prev, off) && LegalKey(a.key) && LegalArgValue(a.value) && off + |a.key| < MAXFIELDNAME
    requires total + |PrintArg(a)| <= MAXTRUNK
    ensures Leads(s, PrintArg(a), total, t)
    ensures AtValueEnd(t, Arg(KeyAt(prev, off, a.key), a.value)) && t.body == s.body
  {
    var u := LeadsKey(s, prev, off, a.key, total);
    t := LeadsValue(u, a.value, total + |a.key| + 1);
    LeadsOn(s, a.key + "=", total, u, a.value, t);
  }

  /** The space behind a pair ends the input. */
  lemma EndAtSpace(s: FormState, text: string, total: nat, t: FormState, a: Arg, rest: string)
    requires Leads(s, text, total, t) && AtValueEnd(t, a) && total + |text| < MAXTRUNK
    ensures FormRun(s, text + ([' '] + rest), total) == FormResult(Some(total + |text| + 1), t.body + [a], rest)
  {
    assert FormRun(s, text + ([' '] + rest), total) == FormRun(t, [' '] + rest, total + |text|);
    assert ([' '] + rest)[0] == ' ' && ([' '] + rest)[1..] == rest;
  }

  // ---------------------------------------------------------------- several lines

  /** What stands behind an item: an ampersand, a line feed, a carriage return with whatever comes before the next
      line feed, or, behind a key without `=`, an ampersand. */
  datatype Sep = Amp | Lf | Cr(junk: string) | KeyAmp

  function SepText(sep: Sep): string {
    match sep
    case Amp => ['&']
    case Lf => [LF]
    case Cr(junk) => [CR] + junk + [LF]
    case KeyAmp => ['&']
  }

  predicate IsBreak(sep: Sep) {
    sep.Lf? || sep.Cr?
  }

  predicate LegalItem(a: Arg, sep: Sep) {
    && LegalKey(a.key) && LegalArgValue(a.value)
    && (sep.KeyAmp? ==> a.value == "") && (sep.Cr? ==> LF !in sep.junk)
  }

  predicate LegalLines(args: seq<Arg>, seps: seq<Sep>) {
    && |args| == |seps| + 1 && LegalArgs(args)
    && forall j | 0 <= j < |seps| :: LegalItem(args[j], seps[j])
  }

  function ItemText(a: Arg, sep: Sep): string {
    (if sep.KeyAmp? then a.key else PrintArg(a)) + SepText(sep)
  }

  function PrintLines(args: seq<Arg>, seps: seq<Sep>): string
    requires |args| == |seps| + 1
  {
    if seps == [] then PrintArg(args[0]) else ItemText(args[0], seps[0]) + PrintLines(args[1..], seps[1..])
  }

  /** Where the next key is written: after a line break the index still counts the value before it. */
  function NextOff(a: Arg, sep: Sep): nat {
    if IsBreak(sep) then |a.value| else 0
  }

  /** The pairs that are stored. */
  function Stored(prev: string, off: nat, args: seq<Arg>, seps: seq<Sep>): seq<Arg>
    requires |args| == |seps| + 1
    decreases |args|
  {
    var key := KeyAt(prev, off, args[0].key);
    [Arg(key, args[0].value)] + if seps == [] then [] else Stored(key, NextOff(args[0], seps[0]), args[1..], seps[1..])
  }

  /** No key is written past the name buffer. */
  predicate Fits(off: nat, args: seq<Arg>, seps: seq<Sep>)
    requires |args| == |seps| + 1
    decreases |args|
  {
    off + |args[0].key| < MAXFIELDNAME && (seps == [] || Fits(NextOff(args[0], seps[0]), args[1..], seps[1..]))
  }

  lemma {:induction false} LeadsJunk(s: FormState, junk: string, total: nat)
    requires Buffers(s.name, s.value) && s.stage.SAlmost? && LF !in junk && total + |junk| <= MAXTRUNK
    ensures Leads(s, junk, total, s)
    decreases junk
  {
    if junk == "" {
      forall rest ensures FormRun(s, "" + rest, total) == FormRun(s, rest, total) { assert "" + rest == rest; }
    } else {
      LeadsChar(s, junk[0], total);
      LeadsJunk(s, junk[1..], total + 1);
      LeadsOn(s, [junk[0]], total, s, junk[1..], s);
      assert [junk[0]] + junk[1..] == junk;
    }
  }

  /** After a carriage return everything up to the line feed is skipped. */
  lemma LeadsLineEnd(s: FormState, junk: string, total: nat)
    requires Buffers(s.name, s.value) && s.stage.SAlmost? && LF !in junk && total + |junk| < MAXTRUNK
    ensures Leads(s, junk + [LF], total, s.(stage := SName))
  {
    LeadsJunk(s, junk, total);
    LeadsChar(s, LF, total + |junk|);
    LeadsOn(s, junk, total, s, [LF], s.(stage := SName));
  }

  /** After a pair, its separator leads to the next key. */
  lemma LeadsSep(t: FormState, a: Arg, sep: Sep, total: nat) returns (u: FormState)
    requires AtValueEnd(t, a) && !sep.KeyAmp? && (sep.Cr? ==> LF !in sep.junk) && total + |SepText(sep)| <= MAXTRUNK
    ensures Leads(t, SepText(sep), total, u) && AtKey(u, a.key, NextOff(a, sep)) && u.body == t.body + [a]
  {
    if t.i < MAXFIELDNAME { CStringPrefix(t.name, t.i); }
    var ch := SepText(sep)[0];
    LeadsChar(t, ch, total);
    u := FormStep(t, ch).next;
    assert u.name[..0] == "";
    if sep.Cr? {
      LeadsLineEnd(u, sep.junk, total + 1);
      LeadsOn(t, [CR], total, u, sep.junk + [LF], u.(stage := SName));
      assert [CR] + (sep.junk + [LF]) == SepText(sep);
      u := u.(stage := SName);
    }
  }

  /** A key without `=` is stored with an empty value. */
  lemma LeadsBareKey(s: FormState, prev: string, off: nat, k: string, total: nat) returns (u: FormState)
    requires AtKey(s, prev, off) && LegalKey(k) && off + |k| < MAXFIELDNAME && total + |k| < MAXTRUNK
    ensures Leads(s, k + "&", total, u)
    ensures AtKey(u, KeyAt(prev, off, k), 0) && u.body == s.body + [Arg(KeyAt(prev, off, k), "")]
  {
    var named := LeadsKeyChars(s, k, total);
    LeadsChar(named, '&', total + |k|);
    KeyText(s.name, prev, off, k);
    u := FormStep(named, '&').next;
    assert u.name[..0] == "";
    LeadsOn(s, k, total, named, "&", u);
  }

  /** An item and the separator behind it. */
  lemma LeadsItem(s: FormState, prev: string, off: nat, a: Arg, sep: Sep, total: nat) returns (u: FormState)
    requires AtKey(s, prev, off) && LegalItem(a, sep) && off + |a.key| < MAXFIELDNAME
    requires total + |ItemText(a, sep)| <= MAXTRUNK
    ensures Leads(s, ItemText(a, sep), total, u)
    ensures AtKey(u, KeyAt(prev, off, a.key), NextOff(a, sep))
    ensures u.body == s.body + [Arg(KeyAt(prev, off, a.key), a.value)]
  {
    if sep.KeyAmp? {
      u := LeadsBareKey(s, prev, off, a.key, total);
    } else {
      var t := LeadsPair(s, prev, off, a, total);
      u := LeadsSep(t, Arg(KeyAt(prev, off, a.key), a.value), sep, total + |PrintArg(a)|);
      LeadsOn(s, PrintArg(a), total, t, SepText(sep), u);
    }
  }

  /** The pairs that are stored before the last one, and the last one. */
  function StoredBefore(prev: string, off: nat, args: seq<Arg>, seps: seq<Sep>): seq<Arg>
    requires |args| == |seps| + 1
    decreases |args|
  {
    if seps == [] then []
    else
      var key := KeyAt(prev, off, args[0].key);
      [Arg(key, args[0].value)] + StoredBefore(key, NextOff(args[0], seps[0]), args[1..], seps[1..])
  }

  function StoredLast(prev: string, off: nat, args: seq<Arg>, seps: seq<Sep>): Arg
    requires |args| == |seps| + 1
    decreases |args|
  {
    var key := KeyAt(prev, off, args[0].key);
    if seps == [] then Arg(key, args[0].value)
    else StoredLast(key, NextOff(args[0], seps[0]), args[1..], seps[1..])
  }

  lemma {:induction false} StoredInTwo(prev: string, off: nat, args: seq<Arg>, seps: seq<Sep>)
    requires |args| == |seps| + 1
    ensures Stored(prev, off, args, seps) == StoredBefore(prev, off, args, seps) + [StoredLast(prev, off, args, seps)]
    ensures |Stored(prev, off, args, seps)| == |args|
    decreases |args|
  {
    if seps != [] {
      StoredInTwo(KeyAt(prev, off, args[0].key), NextOff(args[0], seps[0]), args[1..], seps[1..]);
    }
  }

  lemma Regroup(a: seq<Arg>, x: Arg, b: seq<Arg>)
    ensures a + [x] + b == a + ([x] + b)
  {
  }

  /** Any number of items with any separators, as long as their keys fit. */
  lemma {:induction false} LeadsLines(s: FormState, prev: string, off: nat, args: seq<Arg>, seps: seq<Sep>, total: nat)
    returns (t: FormState)
    requires LegalLines(args, seps) && AtKey(s, prev, off) && Fits(off, args, seps)
    requires total + |PrintLines(args, seps)| <= MAXTRUNK
    ensures Leads(s, PrintLines(args, seps), total, t) && AtValueEnd(t, StoredLast(prev, off, args, seps))
    ensures t.body == s.body + StoredBefore(prev, off, args, seps)
    decreases |args|
  {
    var a := args[0];
    if seps == [] {
      assert LegalKey(a.key) && LegalArgValue(a.value);
      t := LeadsPair(s, prev, off, a, total);
    } else {
      var key, next := KeyAt(prev, off, a.key), NextOff(a, seps[0]);
      LinesFirst(prev, off, args, seps);
      var first, last := ItemText(a, seps[0]), PrintLines(args[1..], seps[1..]);
      var u := LeadsItem(s, prev, off, a, seps[0], total);
      t := LeadsLines(u, key, next, args[1..], seps[1..], total + |first|);
      LeadsOn(s, first, total, u, last, t);
      Regroup(s.body, Arg(key, a.value), StoredBefore(key, next, args[1..], seps[1..]));
    }
  }

  lemma LinesFirst(prev: string, off: nat, args: seq<Arg>, seps: seq<Sep>)
    requires seps != [] && LegalLines(args, seps)
    ensures LegalItem(args[0], seps[0]) && LegalLines(args[1..], seps[1..])
    ensures PrintLines(args, seps) == ItemText(args[0], seps[0]) + PrintLines(args[1..], seps[1..])
    ensures Fits(off, args, seps) <==>
            off + |args[0].key| < MAXFIELDNAME && Fits(NextOff(args[0], seps[0]), args[1..], seps[1..])
  {
    forall j | 0 <= j < |seps[1..]| ensures LegalItem(args[1..][j], seps[1..][j]) {
      assert LegalItem(args[j + 1], seps[j + 1]);
    }
  }

  // ---------------------------------------------------------------- keys that do not fit

  ghost predicate Overruns(s: FormState, text: string, total: nat) {
    Buffers(s.name, s.value) && forall rest :: FormRun(s, text + rest, total).ret == None
  }

  lemma OverrunsAfter(s: FormState, a: string, total: nat, t: FormState, b: string)
    requires Leads(s, a, total, t) && Overruns(t, b, total + |a|)
    ensures Overruns(s, a + b, total)
  {
    forall rest ensures FormRun(s, a + b + rest, total).ret == None {
      assert a + b + rest == a + (b + rest);
      assert FormRun(t, b + rest, total + |a|).ret == None;
    }
  }

  lemma OverrunKey(u: FormState, k: string, mark: char, behind: string, total: nat)
    requires Buffers(u.name, u.value) && u.stage.SName? && u.i + |k| >= MAXFIELDNAME && (mark == '=' || mark == '&')
    requires LegalKey(k) && total + |k| < MAXTRUNK
    ensures Overruns(u, k + [mark] + behind, total)
  {
    var fit := if u.i >= MAXFIELDNAME then 0 else MAXFIELDNAME - u.i;
    forall rest ensures FormRun(u, k + [mark] + behind + rest, total).ret == None {
      var more := k[fit..] + [mark] + behind + rest;
      assert k + [mark] + behind + rest == k[..fit] + more;
      if u.i < MAXFIELDNAME {
        ReadKey(u, k[..fit], more, total);
      } else {
        assert k[..fit] + more == more;
      }
      assert more[0] == if k[fit..] == "" then mark else k[fit];
    }
  }

  lemma FourInTwo(a: string, b: string, c: string, d: string)
    ensures (a + b + c) + d == a + (b + (c + d))
  {
    assert (a + b + c) + d == (a + b) + (c + d);
  }

  lemma KeyInFront(args: seq<Arg>, seps: seq<Sep>) returns (behind: string)
    requires |args| == |seps| + 1 && (seps == [] || !seps[0].KeyAmp?)
    ensures PrintLines(args, seps) == args[0].key + ['='] + behind
  {
    var a := args[0];
    behind := a.value + if seps == [] then "" else SepText(seps[0]) + PrintLines(args[1..], seps[1..]);
    if seps == [] {
      assert PrintArg(a) == a.key + ['='] + behind;
    } else {
      FourInTwo(a.key + "=", a.value, SepText(seps[0]), PrintLines(args[1..], seps[1..]));
    }
  }

  lemma OverrunFirst(s: FormState, prev: string, off: nat, args: seq<Arg>, seps: seq<Sep>, total: nat)
    requires LegalLines(args, seps) && AtKey(s, prev, off) && off + |args[0].key| >= MAXFIELDNAME
    requires total + |PrintLines(args, seps)| < MAXTRUNK
    ensures Overruns(s, PrintLines(args, seps), total)
  {
    var a := args[0];
    assert LegalKey(a.key);
    if seps != [] && seps[0].KeyAmp? {
      OverrunKey(s, a.key, '&', PrintLines(args[1..], seps[1..]), total);
    } else {
      var behind := KeyInFront(args, seps);
      OverrunKey(s, a.key, '=', behind, total);
    }
  }

  lemma {:induction false} OverrunLines(s: FormState, prev: string, off: nat, args: seq<Arg>, seps: seq<Sep>,
      total: nat)
    requires LegalLines(args, seps) && AtKey(s, prev, off) && !Fits(off, args, seps)
    requires total + |PrintLines(args, seps)| < MAXTRUNK
    ensures Overruns(s, PrintLines(args, seps), total)
    decreases |args|
  {
    if off + |args[0].key| >= MAXFIELDNAME {
      OverrunFirst(s, prev, off, args, seps, total);
    } else {
      var a := args[0];
      LinesFirst(prev, off, args, seps);
      var first := ItemText(a, seps[0]);
      var u := LeadsItem(s, prev, off, a, seps[0], total);
      OverrunLines(u, KeyAt(prev, off, a.key), NextOff(a, seps[0]), args[1..], seps[1..], total + |first|);
      OverrunsAfter(s, first, total, u, PrintLines(args[1..], seps[1..]));
    }
  }

  /** Items on any number of lines, and a space: the stored pairs, or an overrun of the name buffer. */
  lemma ReadLines(s: FormState, prev: string, off: nat, args: seq<Arg>, seps: seq<Sep>, rest: string, total: nat)
    requires LegalLines(args, seps) && AtKey(s, prev, off) && total + |PrintLines(args, seps)| < MAXTRUNK
    ensures var r := FormRun(s, PrintLines(args, seps) + ([' '] + rest), total);
            if Fits(off, args, seps)
            then r == FormResult(Some(total + |PrintLines(args, seps)| + 1), s.body + Stored(prev, off, args, seps),
                rest)
            else r.ret == None
  {
    if Fits(off, args, seps) {
      var t := LeadsLines(s, prev, off, args, seps, total);
      var before, last := StoredBefore(prev, off, args, seps), StoredLast(prev, off, args, seps);
      EndAtSpace(s, PrintLines(args, seps), total, t, last, rest);
      StoredInTwo(prev, off, args, seps);
      assert s.body + before + [last] == s.body + (before + [last]);
    } else {
      OverrunLines(s, prev, off, args, seps, total);
    }
  }

  // ---------------------------------------------------------------- which line breaks do no harm

  /** A line break between two pairs does no harm: the first value is empty, or longer than a key that is the
      same in both, and the second key still fits. */
  predicate Harmless(a: Arg, b: Arg) {
    |a.value| + |b.key| < MAXFIELDNAME && (a.value == "" || (|a.key| < |a.value| && a.key == b.key))
  }

  predicate AllHarmless(args: seq<Arg>, seps: seq<Sep>)
    requires |args| == |seps| + 1
  {
    forall j | 0 <= j < |seps| :: IsBreak(seps[j]) ==> Harmless(args[j], args[j + 1])
  }

  lemma AllHarmlessFirst(args: seq<Arg>, seps: seq<Sep>)
    requires |args| == |seps| + 1 && seps != []
    ensures AllHarmless(args, seps) <==>
            (IsBreak(seps[0]) ==> Harmless(args[0], args[1])) && AllHarmless(args[1..], seps[1..])
  {
    if AllHarmless(args, seps) {
      forall j | 0 <= j < |seps[1..]| && IsBreak(seps[1..][j]) ensures Harmless(args[1..][j], args[1..][j + 1]) {
        assert seps[1..][j] == seps[j + 1];
      }
    }
    if (IsBreak(seps[0]) ==> Harmless(args[0], args[1])) && AllHarmless(args[1..], seps[1..]) {
      forall j | 0 <= j < |seps| && IsBreak(seps[j]) ensures Harmless(args[j], args[j + 1]) {
        if j > 0 { assert seps[j] == seps[1..][j - 1]; }
      }
    }
  }

  lemma {:induction false} StoredExactly(prev: string, off: nat, args: seq<Arg>, seps: seq<Sep>)
    requires |args| == |seps| + 1 && LegalArgs(args)
    ensures Fits(off, args, seps) && Stored(prev, off, args, seps) == args <==>
            off + |args[0].key| < MAXFIELDNAME && KeyAt(prev, off, args[0].key) == args[0].key
                && AllHarmless(args, seps)
    decreases |args|
  {
    var a := args[0];
    var key := KeyAt(prev, off, a.key);
    var stored := Stored(prev, off, args, seps);
    assert stored[0] == Arg(key, a.value);
    if seps == [] {
      assert args == [a];
    } else {
      var more := Stored(key, NextOff(a, seps[0]), args[1..], seps[1..]);
      assert LegalKey(args[1].key) && LegalArgs(args[1..]);
      assert stored == [Arg(key, a.value)] + more && args == [a] + args[1..];
      assert stored[1..] == more;
      StoredExactly(key, NextOff(a, seps[0]), args[1..], seps[1..]);
      AllHarmlessFirst(args, seps);
      if key == a.key { BreakExactly(a, seps[0], args[1]); }
    }
  }

  lemma BreakExactly(a: Arg, sep: Sep, b: Arg)
    requires LegalKey(b.key)
    ensures var off := NextOff(a, sep);
            off + |b.key| < MAXFIELDNAME && KeyAt(a.key, off, b.key) == b.key <==> (IsBreak(sep) ==> Harmless(a, b))
  {
    var off := NextOff(a, sep);
    if off == 0 {
      assert a.key[..0] + b.key == b.key;
    } else if off <= |a.key| {
      assert |a.key[..off] + b.key| > |b.key|;
    }
  }

  /** Items on any number of lines, ended by LF or by CR and anything up to LF, are read as they are iff every
      line break between them is harmless. */
  lemma LinesExactly(name: string, value: string, args: seq<Arg>, seps: seq<Sep>, rest: string)
    requires Buffers(name, value) && LegalLines(args, seps) && |PrintLines(args, seps)| < MAXTRUNK
    ensures var r := FormRun(Start(name, value, []), PrintLines(args, seps) + ([' '] + rest), 0);
            r.ret.Some? && r.body == args <==> AllHarmless(args, seps)
  {
    ReadLines(Start(name, value, []), "", 0, args, seps, rest, 0);
    StoredExactly("", 0, args, seps);
    assert LegalKey(args[0].key) && [] + Stored("", 0, args, seps) == Stored("", 0, args, seps);
    assert ""[..0] + args[0].key == args[0].key;
  }

  /** The shortest harm: the second key is glued to the first. */
  lemma SecondLineIsGlued(name: string, value: string)
    requires Buffers(name, value)
    ensures FormRun(Start(name, value, []), "a=1\nb=2 ", 0).body == [Arg("a", "1"), Arg("ab", "2")]
  {
    var args, seps := [Arg("a", "1"), Arg("b", "2")], [Lf];
    assert name[..0] == "" && ""[..0] + "a" == "a" && "a"[..1] + "b" == "ab";
    assert args[1..] == [Arg("b", "2")] && seps[1..] == [];
    assert PrintLines(args[1..], seps[1..]) == "b=2" && PrintLines(args, seps) == "a=1\nb=2";
    assert Stored("a", 1, args[1..], seps[1..]) == [Arg("ab", "2")];
    assert Stored("", 0, args, seps) == [Arg("a", "1")] + [Arg("ab", "2")];
    ReadLines(Start(name, value, []), "", 0, args, seps, "", 0);
    assert PrintLines(args, seps) + ([' '] + "") == "a=1\nb=2 ";
    assert [] + Stored("", 0, args, seps) == [Arg("a", "1"), Arg("ab", "2")];
  }

  // ---------------------------------------------------------------- round trip

  function Amps(n: nat): seq<Sep> {
    seq(n, _ => Amp)
  }

  /** A printed list is one line. */
  lemma {:induction false} OneLine(prev: string, body: seq<Arg>)
    requires body != [] && LegalArgs(body)
    ensures PrintLines(body, Amps(|body| - 1)) == PrintForm(body)
    ensures Stored(prev, 0, body, Amps(|body| - 1)) == body && Fits(0, body, Amps(|body| - 1))
    decreases |body|
  {
    var a := body[0];
    assert LegalKey(a.key) && prev[..0] + a.key == a.key;
    if |body| == 1 {
      assert body == [a];
    } else {
      assert LegalArgs(body[1..]) && Amps(|body| - 1)[1..] == Amps(|body[1..]| - 1);
      OneLine(a.key, body[1..]);
      assert PrintArg(a) + (['&'] + PrintForm(body[1..])) == PrintForm(body);
      assert [a] + body[1..] == body;
    }
  }

  /** A printed list, read in front of anything with a space between, comes back unchanged, and the space
      is the last character taken. */
  lemma FormRoundTrip(s: FormState, body: seq<Arg>, rest: string, total: nat)
    requires Buffers(s.name, s.value) && s.stage.SName? && s.i == 0
    requires body != [] && LegalArgs(body) && total + |PrintForm(body)| < MAXTRUNK
    ensures FormRun(s, PrintForm(body) + " " + rest, total)
         == FormResult(Some(total + |PrintForm(body)| + 1), s.body + body, rest)
  {
    OneLine("", body);
    assert s.name[..0] == "";
    assert PrintForm(body) + " " + rest == PrintForm(body) + ([' '] + rest);
    ReadLines(s, "", 0, body, Amps(|body| - 1), rest, total);
  }

  /** Without a terminator behind it, the last pair of a printed list is lost, and only that one. */
  lemma LastPairNeedsTerminator(s: FormState, body: seq<Arg>, total: nat)
    requires Buffers(s.name, s.value) && s.stage.SName? && s.i == 0
    requires body != [] && LegalArgs(body) && total + |PrintForm(body)| < MAXTRUNK
    ensures FormRun(s, PrintForm(body), total)
         == FormResult(Some(total + |PrintForm(body)|), s.body + body[..|body| - 1], "")
  {
    OneLine("", body);
    assert s.name[..0] == "";
    var t := LeadsLines(s, "", 0, body, Amps(|body| - 1), total);
    StoredInTwo("", 0, body, Amps(|body| - 1));
    var before, last := StoredBefore("", 0, body, Amps(|body| - 1)), StoredLast("", 0, body, Amps(|body| - 1));
    assert (before + [last])[..|before|] == before;
    var text := PrintForm(body);
    assert text + "" == text;
    assert FormRun(s, text + "", total) == FormRun(t, "", total + |text|);
  }

  // ---------------------------------------------------------------- normal form

  predicate KeyChars(k: string) {
    forall j | 0 <= j < |k| :: KeyChar(k[j])
  }

  /** What the name buffer shows is legal, up to its first NUL, wherever the index stands. */
  predicate FormInv(s: FormState) {
    && Buffers(s.name, s.value) && LegalArgs(s.body)
    && (s.stage.SName? ==> s.i <= MAXFIELDNAME ==> KeyChars(CString(s.name[..s.i])))
    && (!s.stage.SName? ==> LegalKey(CString(s.name)))
    && (s.stage.SValue? ==> s.i <= MAXFIELDVALUE && forall j | 0 <= j < s.i :: ValueChar(s.value[j]))
  }

  lemma LegalAppend(body: seq<Arg>, a: Arg)
    requires LegalArgs(body) && LegalKey(a.key) && LegalArgValue(a.value)
    ensures LegalArgs(body + [a])
  {
  }

  lemma NameStepKeepsInv(s: FormState, ch: char)
    requires FormInv(s) && s.stage.SName?
    ensures var o := FormStep(s, ch); o.Go? ==> FormInv(o.next)
  {
    if s.i < MAXFIELDNAME {
      var before := s.name[..s.i];
      CStringClean(before);
      if KeyChar(ch) {
        assert s.name[s.i := ch][..s.i + 1] == before + [ch];
        CStringAppend(before, [ch]);
      } else {
        CutText(s.name, s.i);
        assert s.name[s.i := NUL][..0] == "";
        assert LegalKey(CString(before));
        LegalAppend(s.body, Arg(CString(before), ""));
      }
    }
  }

  lemma ValueStepKeepsInv(s: FormState, ch: char)
    requires FormInv(s) && s.stage.SValue?
    ensures var o := FormStep(s, ch); (o.Go? ==> FormInv(o.next)) && (o.Return? ==> LegalArgs(o.body))
  {
    if s.i < MAXFIELDVALUE {
      assert NUL !in s.value[..s.i];
      CutText(s.value, s.i);
      CStringWhole(s.value[..s.i], "");
      assert s.name[..0] == "";
      if s.i <= MAXFIELDNAME { CStringPrefix(s.name, s.i); }
    }
  }

  lemma FormStepKeepsInv(s: FormState, ch: char)
    requires FormInv(s)
    ensures var o := FormStep(s, ch); (o.Go? ==> FormInv(o.next)) && (o.Return? ==> LegalArgs(o.body))
  {
    match s.stage
    case SName => NameStepKeepsInv(s, ch);
    case SValue => ValueStepKeepsInv(s, ch);
    case SAlmost => if s.i <= MAXFIELDNAME { CStringPrefix(s.name, s.i); }
  }

  /** Whatever is read, line breaks included: only legal keys and values are stored. */
  lemma {:induction false} FormIsSound(s: FormState, input: string, total: nat)
    requires FormInv(s)
    ensures LegalArgs(FormRun(s, input, total).body)
    decreases input
  {
    if total < MAXTRUNK && input != "" {
      FormStepKeepsInv(s, input[0]);
      if FormStep(s, input[0]).Go? {
        FormIsSound(FormStep(s, input[0]).next, input[1..], total + 1);
      }
    }
  }

  /** Whatever input a list was read from, `key&` items and line breaks included, printing it and reading it
      again gives the same list, whatever the buffers held. */
  lemma FormNormalForm(name: string, value: string, name2: string, value2: string, input: string, rest: string)
    requires Buffers(name, value) && Buffers(name2, value2)
    requires var body := FormRun(Start(name, value, []), input, 0).body; body != [] && |PrintForm(body)| < MAXTRUNK
    ensures var body := FormRun(Start(name, value, []), input, 0).body;
            FormRun(Start(name2, value2, []), PrintForm(body) + " " + rest, 0)
            == FormResult(Some(|PrintForm(body)| + 1), body, rest)
  {
    assert name[..0] == "";
    FormIsSound(Start(name, value, []), input, 0);
    var body := FormRun(Start(name, value, []), input, 0).body;
    FormRoundTrip(Start(name2, value2, []), body, rest, 0);
    assert [] + body == body;
  }
}
