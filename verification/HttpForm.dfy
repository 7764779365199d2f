/** vector_body::read and ::write as they run, read_body, and the way of a query string through both parsers. */
module HttpForm {
  import opened Chars
  import opened Fields
  import opened FdStream
  import opened Form
  import R = HttpRead

  /** The vector of pairs that read appends to. */
  class ArgList {
    var items: seq<Arg>

    constructor ()
      ensures items == []
    {
      items := [];
    }

    method PushBack(a: Arg)
      modifies this
      ensures items == old(items) + [a]
    {
      items := items + [a];
    }
  }

  datatype Turn = Going | Ended | Refused | Overran | AtEnd

  /** The local variables of read. */
  class FormReader {
    var state: FormStage
    const name: array<char>
    const value: array<char>
    var i: nat
    const body: ArgList

    ghost predicate Valid()
    {
      name.Length == MAXFIELDNAME && value.Length == MAXFIELDVALUE && name != value
    }

    ghost function Shows(): (s: FormState)
      requires Valid()
      reads this, name, value, body
      ensures Buffers(s.name, s.value)
    {
      FormState(state, name[..], value[..], i, body.items)
    }

    /** The turn did what the text machine does. */
    ghost predicate Did(o: FormOutcome, t: Turn, before: seq<Arg>)
      requires Valid()
      reads this, name, value, body
    {
      match o
      case Go(next) => t == Going && Shows() == next
      case Return(items) => t == Ended && body.items == items
      case Refuse => t == Refused && body.items == before
      case Past => t == Overran && body.items == before
    }

    constructor (body: ArgList)
      ensures Valid() && fresh(name) && fresh(value) && this.body == body
      ensures Shows() == Start(name[..], value[..], body.items)
    {
      name := new char[MAXFIELDNAME];
      value := new char[MAXFIELDVALUE];
      state, i := SName, 0;
      this.body := body;
    }

    method OnName(ch: char) returns (t: Turn)
      requires Valid() && state.SName?
      modifies this, name, body
      ensures Did(FormStep(old(Shows()), ch), t, old(body.items))
    {
      ghost var s := Shows();
      if KeyChar(ch) {
        if i >= MAXFIELDNAME { return Overran; }
        name[i] := ch;
        assert name[..] == s.name[i := ch];
        i := i + 1;
      } else if ch == '=' {
        if i >= MAXFIELDNAME { return Overran; }
        name[i] := NUL;
        assert name[..] == s.name[i := NUL];
        state := SValue;
        i := 0;
      } else if ch == '&' {
        if i >= MAXFIELDNAME { return Overran; }
        name[i] := NUL;
        assert name[..] == s.name[i := NUL];
        body.PushBack(Arg(CString(name[..]), ""));
        i := 0;
      } else {
        return Refused;
      }
      return Going;
    }

    method OnValue(ch: char) returns (t: Turn)
      requires Valid() && state.SValue?
      modifies this, value, body
      ensures Did(FormStep(old(Shows()), ch), t, old(body.items))
    {
      ghost var s := Shows();
      if ValueChar(ch) {
        if i >= MAXFIELDVALUE { return Overran; }
        value[i] := ch;
        assert value[..] == s.value[i := ch];
        i := i + 1;
        return Going;
      }
      if ch != '&' && ch != ' ' && ch != CR && ch != LF { return Refused; }
      if i >= MAXFIELDVALUE { return Overran; }
      value[i] := NUL;
      assert value[..] == s.value[i := NUL];
      body.PushBack(Arg(CString(name[..]), CString(value[..])));
      if ch == ' ' {
        return Ended;
      } else if ch == '&' {
        state := SName;
        i := 0;
      } else {
        state := if ch == CR then SAlmost else SName;
      }
      return Going;
    }

    method Step(ch: char) returns (t: Turn)
      requires Valid()
      modifies this, name, value, body
      ensures Did(FormStep(old(Shows()), ch), t, old(body.items))
    {
      t := Going;
      match state
      case SName => t := OnName(ch);
      case SValue => t := OnValue(ch);
      case SAlmost =>
        if ch == LF {
          state := SName;
        }
    }
  }

  /** Gets one character and takes one turn. */
  method FormTurn(stream: Input, r: FormReader, ghost total: nat) returns (t: Turn)
    requires stream.Valid() && r.Valid() && {r, r.name, r.value, r.body} !! stream.Repr() && total < MAXTRUNK
    modifies stream.Repr(), r, r.name, r.value, r.body
    ensures stream.Valid() && |stream.Remaining()| <= old(|stream.Remaining()|)
    ensures var before := FormRun(old(r.Shows()), old(stream.Remaining()), total);
            match t
            case Going => before == FormRun(r.Shows(), stream.Remaining(), total + 1)
            case Ended => before == FormResult(Some(total + 1), r.body.items, stream.Remaining())
            case Refused => before == FormResult(Some(-1), r.body.items, stream.Remaining())
            case Overran => before == FormResult(None, r.body.items, stream.Remaining())
            case AtEnd => before == FormResult(Some(total), r.body.items, stream.Remaining())
  {
    var ok, ch := stream.Get();
    if !ok { return AtEnd; }
    ghost var rest := stream.Remaining();
    t := r.Step(ch);
    assert stream.Remaining() == rest;
  }

  /** vector_body::read. `name0` and `value0` are what the uninitialised buffers happen to hold. */
  method FormRead(stream: Input, body: ArgList) returns (ret: Option<int>, ghost name0: string, ghost value0: string)
    requires stream.Valid() && body !in stream.Repr()
    modifies stream.Repr(), body
    ensures stream.Valid() && Buffers(name0, value0)
    ensures FormResult(ret, body.items, stream.Remaining())
         == FormRun(Start(name0, value0, old(body.items)), old(stream.Remaining()), 0)
  {
    var r := new FormReader(body);
    name0, value0 := r.name[..], r.value[..];
    ghost var result := FormRun(r.Shows(), stream.Remaining(), 0);
    var totalsize := 0;
    var t := Going;
    while totalsize < MAXTRUNK && t == Going
      invariant stream.Valid() && r.Valid() && r.body == body && fresh(r) && fresh(r.name) && fresh(r.value)
      invariant totalsize <= MAXTRUNK
      invariant match t
                case Going => result == FormRun(r.Shows(), stream.Remaining(), totalsize)
                case Ended => result == FormResult(Some(totalsize), body.items, stream.Remaining())
                case Refused => result == FormResult(Some(-1), body.items, stream.Remaining())
                case Overran => result == FormResult(None, body.items, stream.Remaining())
                case AtEnd => result == FormResult(Some(totalsize), body.items, stream.Remaining())
      decreases MAXTRUNK - totalsize, t == Going
    {
      t := FormTurn(stream, r, totalsize);
      if t == Going || t == Ended {
        totalsize := totalsize + 1;
      }
    }
    ret := if t == Refused then Some(-1) else if t == Overran then None else Some(totalsize);
  }

  lemma {:induction false} PrintOneMore(body: seq<Arg>, a: Arg)
    requires body != []
    ensures PrintForm(body + [a]) == PrintForm(body) + "&" + PrintArg(a)
  {
    if |body| > 1 {
      PrintOneMore(body[1..], a);
      assert (body + [a])[1..] == body[1..] + [a];
    } else {
      assert (body + [a])[1..] == [a];
    }
  }

  /** vector_body::write. It always returns 0. */
  method FormWrite(os: Output, body: seq<Arg>) returns (r: int)
    modifies os
    ensures os.out == old(os.out) + PrintForm(body) && r == 0
  {
    if |body| != 0 {
      os.Put(body[0].key + "=" + body[0].value);
      var i := 1;
      assert body[..1] == [body[0]];
      while i < |body|
        invariant 1 <= i <= |body|
        invariant os.out == old(os.out) + PrintForm(body[..i])
      {
        os.Put("&" + body[i].key + "=" + body[i].value);
        assert body[..i + 1] == body[..i] + [body[i]];
        PrintOneMore(body[..i], body[i]);
        assert "&" + body[i].key + "=" + body[i].value == "&" + PrintArg(body[i]);
        i := i + 1;
      }
      assert body[..i] == body;
    }
    return 0;
  }

  /** read_body: from the stored query string if there is one, else from the stream. */
  method ReadBody(stream: Input, par: R.Parser, body: ArgList)
    returns (ret: Option<int>, ghost name0: string, ghost value0: string)
    requires stream.Valid() && {par, body} !! stream.Repr()
    modifies stream.Repr(), body
    ensures stream.Valid() && Buffers(name0, value0)
    ensures par.query == None ==>
              FormResult(ret, body.items, stream.Remaining())
              == FormRun(Start(name0, value0, old(body.items)), old(stream.Remaining()), 0)
    ensures par.query.Some? ==>
              && stream.Remaining() == old(stream.Remaining())
              && var r := FormRun(Start(name0, value0, old(body.items)), par.query.value, 0);
                 ret == r.ret && body.items == r.body
  {
    if par.query == None {
      ret, name0, value0 := FormRead(stream, body);
    } else {
      var ss := new Input.OnString(par.query.value);
      ret, name0, value0 := FormRead(ss, body);
    }
  }
}
