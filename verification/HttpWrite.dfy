/** write_header of a request as it runs, and a printed head on its way over a descriptor. */
module HttpWrite {
  import opened Chars
  import opened Fields
  import opened FdStream
  import opened RequestHead
  import opened HttpRead
  import opened HeadRoundTrip

  class Serializer {
    var verb: Verb
    var target: string
    var version: nat
    const fields: FieldMap
    var headerDone: bool

    function Value(): Message
      reads this, fields
    {
      Message(verb, target, version, fields.fields)
    }

    constructor (m: Message)
      ensures Value() == m && fresh(fields) && !headerDone
    {
      verb, target, version, headerDone := m.verb, m.target, m.version, false;
      fields := new FieldMap.From(m.fields);
    }

    /** Prints the head without its blank line. The count returned is short by two bytes a field. */
    method WriteHeader(os: Output) returns (bytes: nat)
      modifies os, this`headerDone
      ensures Value() == old(Value()) && headerDone
      ensures os.out == old(os.out) + PrintHead(Value())
      ensures bytes == |PrintHead(Value())| - 2 * |Value().fields|
    {
      os.Put(VerbName(verb) + " " + target + " " + VersionName(version) + "\r\n");
      bytes := |VerbName(verb)| + |target| + |VersionName(version)| + 4;
      var more := fields.Write(os);
      bytes := bytes + more;
      headerDone := true;
    }
  }

  /** Reading a head from a descriptor: the outcome is that of the delivered bytes, however they were cut. */
  method ReadFromDescriptor(script: seq<Read>) returns (ec: Ec, par: Parser, left: Input)
    requires Readable(script)
    ensures left.Valid()
    ensures Result(ec, par.Value(), left.Remaining()) == ReadHead(Fresh, Delivered(script))
  {
    par := new Parser();
    left := Descriptor(script);
    ec := ReadHeader(left, par);
  }

  method Descriptor(script: seq<Read>) returns (stream: Input)
    requires Readable(script)
    ensures stream.Valid() && fresh(stream.Repr()) && stream.Remaining() == Delivered(script)
  {
    var b := new FdBuf(script);
    stream := new Input.OnDescriptor(b);
    assert b.Unread() == [];
    assert stream.Repr() == {stream, b, b.buffer};
    assert [] + Delivered(script) == Delivered(script);
  }

  /** A legal message, printed and closed with an empty line, arrives over any segmentation in which no
      segment starts with byte 255, and what follows it stays in the stream. */
  lemma PrintedHeadArrives(m: Message, tail: string, script: seq<Read>)
    requires LegalMessage(m) && NoBlankValue(m) && (m.version == 10 || m.version == 11)
    requires Readable(script) && ByteScript(script) && NoFalseEnd(script)
    requires Sent(script) == PrintHead(m) + "\r\n" + tail
    ensures ReadHead(Fresh, Delivered(script)) == Result(Ok, Parsed(m, None, true), tail)
  {
    DeliversAllExactly(script);
    RoundTripExactly(m, tail);
  }

  /** Any bytes, any two segmentations without false ends: the same outcome. */
  lemma OutcomeIgnoresSegmentation(a: seq<Read>, b: seq<Read>)
    requires Readable(a) && Readable(b) && ByteScript(a) && ByteScript(b)
    requires NoFalseEnd(a) && NoFalseEnd(b) && Sent(a) == Sent(b)
    ensures ReadHead(Fresh, Delivered(a)) == ReadHead(Fresh, Delivered(b))
  {
    DeliversAllExactly(a);
    DeliversAllExactly(b);
  }
}
