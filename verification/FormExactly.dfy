/**
 What the form parser takes, refuses and leaves, in literal characters and numbers: with the lemmas of Form,
 every character it can meet in every state.
 */
module FormExactly {
  import opened Chars
  import opened Form

  /** The characters of a key: all but fourteen. */
  lemma KeyCharTable(c: char)
    ensures KeyChar(c) <==> c !in "\0\n\r #%+./?&="
  {
  }

  /** The characters of a value: visible ASCII but the ampersand. */
  lemma ValueCharTable(c: char)
    ensures ValueChar(c) <==> 33 <= c as int <= 126 && c as int != 38
  {
  }

  /** A key may be up to 63 characters long, a value up to 1023, counted from where they are written. */
  lemma LengthLimits(k: string, v: string)
    ensures LegalKey(k) <==> |k| <= 63 && forall i | 0 <= i < |k| :: k[i] !in "\0\n\r #%+./?&="
    ensures LegalArgValue(v) <==> |v| <= 1023 && forall i | 0 <= i < |v| :: 33 <= v[i] as int <= 126 && v[i] != '&'
  {
    forall i | 0 <= i < |k| ensures KeyChar(k[i]) <==> k[i] !in "\0\n\r #%+./?&=" { KeyCharTable(k[i]); }
    forall i | 0 <= i < |v| ensures ValueChar(v[i]) <==> 33 <= v[i] as int <= 126 && v[i] != '&' {
      ValueCharTable(v[i]);
    }
  }

  /** Any other character in a key is refused, without a pair. */
  lemma KeyRefused(s: FormState, w: string, ch: char, rest: string, total: nat)
    requires Buffers(s.name, s.value) && s.stage.SName? && s.i + |w| <= 64 && total + |w| < 4096
    requires (forall i | 0 <= i < |w| :: w[i] !in "\0\n\r #%+./?&=") && ch in "\0\n\r #%+./?"
    ensures FormRun(s, w + ([ch] + rest), total) == FormResult(Some(-1), s.body, rest)
  {
    forall i | 0 <= i < |w| ensures KeyChar(w[i]) { KeyCharTable(w[i]); }
    ReadKey(s, w, [ch] + rest, total);
    KeyCharTable(ch);
    assert ([ch] + rest)[0] == ch && ([ch] + rest)[1..] == rest;
  }

  /** So is any character of a value that is neither visible ASCII nor a space nor a line break. */
  lemma ValueRefused(s: FormState, w: string, ch: char, rest: string, total: nat)
    requires Buffers(s.name, s.value) && s.stage.SValue? && s.i + |w| <= 1024 && total + |w| < 4096
    requires forall i | 0 <= i < |w| :: 33 <= w[i] as int <= 126 && w[i] != '&'
    requires !(32 <= ch as int <= 126) && ch != '\r' && ch != '\n'
    ensures FormRun(s, w + ([ch] + rest), total) == FormResult(Some(-1), s.body, rest)
  {
    forall i | 0 <= i < |w| ensures ValueChar(w[i]) { ValueCharTable(w[i]); }
    ReadArgValue(s, w, [ch] + rest, total);
    assert ([ch] + rest)[0] == ch && ([ch] + rest)[1..] == rest;
  }

  /** A value of 1024 characters leaves no room for its terminator. */
  lemma ValueTooLong(s: FormState, w: string, ch: char, rest: string, total: nat)
    requires Buffers(s.name, s.value) && s.stage.SValue? && s.i + |w| == 1024 && total + |w| < 4096
    requires (forall i | 0 <= i < |w| :: 33 <= w[i] as int <= 126 && w[i] != '&')
    requires 32 <= ch as int <= 126 || ch == '\r' || ch == '\n'
    ensures FormRun(s, w + ([ch] + rest), total).ret == None
  {
    forall i | 0 <= i < |w| ensures ValueChar(w[i]) { ValueCharTable(w[i]); }
    ReadArgValue(s, w, [ch] + rest, total);
    assert ([ch] + rest)[0] == ch;
  }

  /** A count that is returned is the number of bytes read, at most 4096 in all, and reading stops only at the end
      of the input, at that limit or behind a space. */
  lemma {:induction false} CountExactly(s: FormState, input: string, total: nat)
    requires Buffers(s.name, s.value) && total <= 4096
    ensures var r := FormRun(s, input, total);
            && |r.rest| <= |input| && r.rest == input[|input| - |r.rest|..]
            && (r.ret.Some? && r.ret.value != -1 ==>
                  && r.ret.value == total + |input| - |r.rest| <= 4096
                  && (r.rest == "" || r.ret.value == 4096
                      || (|r.rest| < |input| && input[|input| - |r.rest| - 1] == ' ')))
    decreases input
  {
    if total < MAXTRUNK && input != "" && FormStep(s, input[0]).Go? {
      var next, more := FormStep(s, input[0]).next, input[1..];
      CountExactly(next, more, total + 1);
    }
  }

  /** Two keys of which one has no value, as they are read. */
  lemma BareKeyIsKept(name: string, value: string)
    requires Buffers(name, value)
    ensures FormRun(Start(name, value, []), "a&b=1 ", 0) == FormResult(Some(6), [Arg("a", ""), Arg("b", "1")], "")
  {
    var s := Start(name, value, []);
    assert name[..0] == "" && KeyAt("", 0, "a") == "a" && KeyAt("a", 0, "b") == "b";
    var u := LeadsBareKey(s, "", 0, "a", 0);
    var t := LeadsPair(u, "a", 0, Arg("b", "1"), 2);
    LeadsOn(s, "a" + "&", 0, u, PrintArg(Arg("b", "1")), t);
    EndAtSpace(s, "a" + "&" + PrintArg(Arg("b", "1")), 0, t, Arg("b", "1"), "");
    assert "a" + "&" + PrintArg(Arg("b", "1")) + ([' '] + "") == "a&b=1 ";
  }

  /** And as they are printed. */
  lemma TwoPairsPrinted()
    ensures PrintForm([Arg("a", ""), Arg("b", "1")]) == "a=&b=1" && PrintForm([]) == ""
  {
    assert [Arg("a", ""), Arg("b", "1")][1..] == [Arg("b", "1")];
    assert PrintForm([Arg("b", "1")]) == "b=1";
  }
}
