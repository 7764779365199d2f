/** The field section of a message: a std::map from names to values, and its printer. */
module Fields {
  import opened Chars

  /** operator< of std::string. */
  predicate Less(a: string, b: string) {
    b != [] && (a == [] || a[0] < b[0] || (a[0] == b[0] && Less(a[1..], b[1..])))
  }

  lemma {:induction false} LessIsTotal(a: string, b: string)
    ensures a == b || Less(a, b) || Less(b, a)
    ensures !(Less(a, b) && Less(b, a)) && !Less(a, a)
  {
    if a != [] && b != [] && a[0] == b[0] {
      assert a == [a[0]] + a[1..] && b == [b[0]] + b[1..];
      LessIsTotal(a[1..], b[1..]);
    }
    if a != [] { LessIsTotal(a[1..], a[1..]); }
  }

  lemma {:induction false} LessIsTransitive(a: string, b: string, d: string)
    requires Less(a, b) && Less(b, d)
    ensures Less(a, d)
  {
    if a != [] && a[0] == b[0] == d[0] {
      LessIsTransitive(a[1..], b[1..], d[1..]);
    }
  }

  /** Less is the lexicographic order of character codes: a shorter string before its continuations, and otherwise
      the smaller character at the first difference. */
  lemma {:induction false} LessExactly(a: string, b: string)
    ensures Less(a, b) <==>
            exists k | 0 <= k <= |a| && k < |b| :: a[..k] == b[..k] && (k == |a| || a[k] as int < b[k] as int)
  {
    if a == [] {
      assert b != [] ==> a[..0] == b[..0];
    } else if b != [] {
      LessExactly(a[1..], b[1..]);
      if Less(a, b) {
        if a[0] < b[0] {
          assert a[..0] == b[..0];
        } else {
          var k :| 0 <= k <= |a[1..]| && k < |b[1..]| && a[1..][..k] == b[1..][..k]
                   && (k == |a[1..]| || a[1..][k] as int < b[1..][k] as int);
          assert a[..k + 1] == [a[0]] + a[1..][..k] && b[..k + 1] == [b[0]] + b[1..][..k];
          assert a[..k + 1] == b[..k + 1];
        }
      }
      if k :| 0 <= k <= |a| && k < |b| && a[..k] == b[..k] && (k == |a| || a[k] as int < b[k] as int) {
        if k > 0 {
          assert a[..k][0] == b[..k][0];
          assert a[1..][..k - 1] == a[..k][1..] == b[..k][1..] == b[1..][..k - 1];
        }
      }
    }
  }

  // ---------------------------------------------------------------- the map, as the list it iterates over

  datatype Field = Field(name: string, value: string)

  predicate Sorted(fs: seq<Field>) {
    forall i, j | 0 <= i < j < |fs| :: Less(fs[i].name, fs[j].name)
  }

  /** fields_[name] = value. */
  function Assign(fs: seq<Field>, name: string, value: string): seq<Field> {
    if fs == [] || Less(name, fs[0].name) then [Field(name, value)] + fs
    else if fs[0].name == name then [Field(name, value)] + fs[1..]
    else [fs[0]] + Assign(fs[1..], name, value)
  }

  function Lookup(fs: seq<Field>, name: string): Option<string> {
    if fs == [] then None
    else if fs[0].name == name then Some(fs[0].value)
    else Lookup(fs[1..], name)
  }

  /** Assigning keeps the order and changes the value of one name only. */
  lemma {:induction false} AssignIsMapUpdate(fs: seq<Field>, name: string, value: string, other: string)
    requires Sorted(fs)
    ensures Sorted(Assign(fs, name, value))
    ensures Lookup(Assign(fs, name, value), other) == if other == name then Some(value) else Lookup(fs, other)
    ensures forall f :: f in Assign(fs, name, value) ==> f == Field(name, value) || f in fs
  {
    if fs != [] {
      LessIsTotal(name, fs[0].name);
      if Less(name, fs[0].name) {
        forall j | 0 <= j < |fs| ensures Less(name, fs[j].name) {
          if j > 0 { LessIsTransitive(name, fs[0].name, fs[j].name); }
        }
        AbsentBelow(fs, name);
      } else if fs[0].name != name {
        AssignIsMapUpdate(fs[1..], name, value, other);
        var rest := Assign(fs[1..], name, value);
        forall j | 0 <= j < |rest| ensures Less(fs[0].name, rest[j].name) {
          assert rest[j] in rest;
          if rest[j] != Field(name, value) {
            var i :| 0 <= i < |fs[1..]| && fs[1..][i] == rest[j];
            assert fs[1 + i] == rest[j];
          }
        }
      }
    }
  }

  /** A name below all others is absent. */
  lemma {:induction false} AbsentBelow(fs: seq<Field>, name: string)
    requires forall j | 0 <= j < |fs| :: Less(name, fs[j].name)
    ensures Lookup(fs, name) == None
  {
    if fs != [] {
      LessIsTotal(name, name);
      AbsentBelow(fs[1..], name);
    }
  }

  /** Assigning a name above all others appends it. */
  lemma {:induction false} AssignAtEnd(fs: seq<Field>, name: string, value: string)
    requires forall j | 0 <= j < |fs| :: Less(fs[j].name, name)
    ensures Assign(fs, name, value) == fs + [Field(name, value)]
  {
    if fs != [] {
      LessIsTotal(fs[0].name, name);
      AssignAtEnd(fs[1..], name, value);
    }
  }

  /** Two maps that agree on every name are the same list. */
  lemma {:induction false} LookupDetermines(a: seq<Field>, b: seq<Field>)
    requires Sorted(a) && Sorted(b) && forall n :: Lookup(a, n) == Lookup(b, n)
    ensures a == b
  {
    assert a != [] ==> Lookup(b, a[0].name) == Lookup(a, a[0].name);
    assert b != [] ==> Lookup(a, b[0].name) == Lookup(b, b[0].name);
    if a != [] && b != [] {
      LessIsTotal(a[0].name, b[0].name);
      SameLeast(a, b);
      SameLeast(b, a);
      forall n ensures Lookup(a[1..], n) == Lookup(b[1..], n) {
        assert Lookup(a, n) == Lookup(b, n);
        if n == a[0].name {
          AbsentBelow(a[1..], n);
          AbsentBelow(b[1..], n);
        }
      }
      LookupDetermines(a[1..], b[1..]);
    }
  }

  lemma SameLeast(a: seq<Field>, b: seq<Field>)
    requires a != [] && b != [] && Sorted(b) && Lookup(a, a[0].name) == Lookup(b, a[0].name)
    ensures !Less(a[0].name, b[0].name)
  {
    if Less(a[0].name, b[0].name) {
      forall j | 0 <= j < |b| ensures Less(a[0].name, b[j].name) {
        if j > 0 { LessIsTransitive(a[0].name, b[0].name, b[j].name); }
      }
      AbsentBelow(b, a[0].name);
    }
  }

  /** Where an assignment takes place. */
  lemma {:induction false} AssignInside(fs: seq<Field>, i: nat, name: string, value: string)
    requires i <= |fs| && (forall j | 0 <= j < i :: Less(fs[j].name, name)) && (i < |fs| ==> !Less(fs[i].name, name))
    ensures Assign(fs, name, value) ==
            if i < |fs| && fs[i].name == name then fs[i := Field(name, value)]
                else fs[..i] + [Field(name, value)] + fs[i..]
    decreases i
  {
    if fs != [] { LessIsTotal(fs[0].name, name); }
    if i > 0 {
      AssignInside(fs[1..], i - 1, name, value);
      assert fs == [fs[0]] + fs[1..];
    }
  }

  lemma {:induction false} LookupInside(fs: seq<Field>, i: nat, name: string)
    requires Sorted(fs)
    requires i <= |fs| && (forall j | 0 <= j < i :: Less(fs[j].name, name)) && (i < |fs| ==> !Less(fs[i].name, name))
    ensures Lookup(fs, name).Some? <==> i < |fs| && fs[i].name == name
    decreases i
  {
    if fs != [] { LessIsTotal(fs[0].name, name); }
    if i > 0 {
      LookupInside(fs[1..], i - 1, name);
    } else if fs != [] && fs[0].name != name {
      forall j | 0 <= j < |fs| ensures Less(name, fs[j].name) {
        if j > 0 { LessIsTransitive(name, fs[0].name, fs[j].name); }
      }
      AbsentBelow(fs, name);
    }
  }

  // ---------------------------------------------------------------- the printer

  function PrintField(f: Field): string {
    f.name + ": " + f.value + "\r\n"
  }

  function PrintFields(fs: seq<Field>): string {
    if fs == [] then "" else PrintFields(fs[..|fs| - 1]) + PrintField(fs[|fs| - 1])
  }

  lemma TwoFieldsAssigned(a: string, x: string, b: string, y: string)
    requires Less(a, b)
    ensures Assign(Assign([], a, x), b, y) == [Field(a, x), Field(b, y)]
    ensures Assign(Assign([], b, y), a, x) == [Field(a, x), Field(b, y)]
  {
    LessIsTotal(a, b);
    assert [Field(a, x)][1..] == [] && Assign([], b, y) == [Field(b, y)];
  }

  lemma TwoFieldsText(f: Field, g: Field)
    ensures PrintFields([f, g]) == PrintField(f) + PrintField(g)
  {
    var fs := [f, g];
    assert fs[..1] == [f] && [f][..0] == [];
    assert PrintFields([f]) == PrintFields([]) + PrintField(f);
    assert PrintFields([]) == "" && "" + PrintField(f) == PrintField(f);
  }

  /** Two fields are printed in ascending order of their names, whichever was assigned first. */
  lemma TwoFieldsPrinted(a: string, x: string, b: string, y: string)
    requires exists k | 0 <= k <= |a| && k < |b| :: a[..k] == b[..k] && (k == |a| || a[k] as int < b[k] as int)
    ensures PrintFields(Assign(Assign([], a, x), b, y)) == a + ": " + x + "\r\n" + (b + ": " + y + "\r\n")
    ensures PrintFields(Assign(Assign([], b, y), a, x)) == a + ": " + x + "\r\n" + (b + ": " + y + "\r\n")
  {
    LessExactly(a, b);
    TwoFieldsAssigned(a, x, b, y);
    TwoFieldsText(Field(a, x), Field(b, y));
  }

  /** An output stream that accepts everything. */
  class Output {
    var out: string

    constructor ()
      ensures out == ""
    {
      out := "";
    }

    method Put(s: string)
      modifies this
      ensures out == old(out) + s
    {
      out := out + s;
    }
  }

  class FieldMap {
    var fields: seq<Field>

    ghost predicate Valid()
      reads this
    {
      Sorted(fields)
    }

    constructor ()
      ensures Valid() && fields == []
    {
      fields := [];
    }

    constructor From(fs: seq<Field>)
      ensures fields == fs
    {
      fields := fs;
    }

    /** The place of a name in the order: of the first field not below it. */
    method LowerBound(name: string) returns (i: nat)
      ensures i <= |fields|
      ensures forall j | 0 <= j < i :: Less(fields[j].name, name)
      ensures i < |fields| ==> !Less(fields[i].name, name)
    {
      i := 0;
      while i < |fields| && Less(fields[i].name, name)
        invariant i <= |fields|
        invariant forall j | 0 <= j < i :: Less(fields[j].name, name)
      {
        i := i + 1;
      }
    }

    /** operator[] followed by an assignment: one name changes, all others keep what they have. */
    method Set(name: string, value: string)
      requires Valid()
      modifies this
      ensures Valid()
      ensures forall n :: Lookup(fields, n) == if n == name then Some(value) else Lookup(old(fields), n)
      ensures fields == Assign(old(fields), name, value)
    {
      var i := LowerBound(name);
      AssignInside(fields, i, name, value);
      forall n ensures Lookup(Assign(fields, name, value), n) == if n == name then Some(value) else Lookup(fields, n) {
        AssignIsMapUpdate(fields, name, value, n);
      }
      AssignIsMapUpdate(fields, name, value, name);
      if i < |fields| && fields[i].name == name {
        fields := fields[i := Field(name, value)];
      } else {
        fields := fields[..i] + [Field(name, value)] + fields[i..];
      }
    }

    method Has(name: string) returns (r: bool)
      requires Valid()
      ensures r <==> Lookup(fields, name).Some?
    {
      var i := LowerBound(name);
      LookupInside(fields, i, name);
      r := i < |fields| && fields[i].name == name;
    }

    /** Prints the fields in map order. The count it returns leaves out the ": " of every field. */
    method Write(os: Output) returns (bytes: nat)
      modifies os
      ensures os.out == old(os.out) + PrintFields(fields)
      ensures bytes == |PrintFields(fields)| - 2 * |fields|
    {
      bytes := 0;
      var i := 0;
      while i < |fields|
        invariant i <= |fields|
        invariant os.out == old(os.out) + PrintFields(fields[..i])
        invariant bytes == |PrintFields(fields[..i])| - 2 * i
      {
        var f := fields[i];
        assert fields[..i + 1][..i] == fields[..i];
        os.Put(f.name + ": " + f.value + "\r\n");
        bytes := bytes + |f.name| + |f.value| + 2;
        i := i + 1;
      }
      assert fields[..i] == fields;
    }
  }
}
