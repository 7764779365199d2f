/**
 Character classes of the request parsers. A byte of the input is a `char`; the program's bytes are the
 characters below 256, and everything proved here about strings holds for those in particular.
 */
module Chars {
  const NUL: char := '\0'
  const LF: char := '\n'
  const CR: char := '\r'

  const MAXFIELDNAME: nat := 64
  const MAXFIELDVALUE: nat := 1024
  const MAXTARGETLEN: nat := 1024
  const MAXTRUNK: nat := 4096

  datatype Option<+T> = None | Some(value: T)

  /** The 256-bit table of characters taken as they are: all but ten. */
  predicate Usual(c: char) {
    c != NUL && c != LF && c != CR && c != ' ' && c != '#' && c != '%' && c != '+' && c != '.' && c != '/' && c != '?'
  }

  predicate IsDigit(c: char) {
    '0' <= c <= '9'
  }

  predicate IsUpper(c: char) {
    'A' <= c <= 'Z'
  }

  /** The characters with a non-zero entry in the lower-case table: letters, digits and the hyphen. */
  predicate Lowcase(c: char) {
    c == '-' || IsDigit(c) || IsUpper(c) || 'a' <= c <= 'z'
  }

  /** isprint of the C locale. */
  predicate Printable(c: char) {
    ' ' <= c <= '~'
  }

  /** What std::string(buffer) keeps of a character buffer: everything before the first NUL. */
  function CString(buffer: string): string {
    if buffer == [] || buffer[0] == NUL then [] else [buffer[0]] + CString(buffer[1..])
  }

  lemma {:induction false} CStringWhole(s: string, rest: string)
    requires NUL !in s
    ensures CString(s + [NUL] + rest) == s
    ensures CString(s) == s
  {
    if s != [] {
      assert (s + [NUL] + rest)[1..] == s[1..] + [NUL] + rest;
      CStringWhole(s[1..], rest);
    }
  }

  /** A terminator written behind s cuts off the rest of the buffer. */
  lemma {:induction false} CStringTerminated(s: string, rest: string)
    ensures CString(s + [NUL] + rest) == CString(s)
  {
    if s != [] {
      assert (s + [NUL] + rest)[1..] == s[1..] + [NUL] + rest;
      CStringTerminated(s[1..], rest);
    }
  }

  lemma {:induction false} CStringClean(s: string)
    ensures NUL !in CString(s)
    ensures CString(s) <= s
  {
    if s != [] && s[0] != NUL {
      CStringClean(s[1..]);
      assert s == [s[0]] + s[1..];
    }
  }

  /** A prefix of a buffer shows a prefix of its text. */
  lemma {:induction false} CStringPrefix(s: string, n: nat)
    requires n <= |s|
    ensures CString(s[..n]) == if n < |CString(s)| then CString(s)[..n] else CString(s)
  {
    if n > 0 && s[0] != NUL {
      assert s[..n][1..] == s[1..][..n - 1];
      CStringPrefix(s[1..], n - 1);
    }
  }

  /** Text behind a buffer is seen iff the buffer is full of text. */
  lemma {:induction false} CStringAppend(a: string, b: string)
    requires NUL !in b
    ensures CString(a + b) == if |CString(a)| == |a| then a + b else CString(a)
    ensures |CString(a)| == |a| ==> CString(a) == a
  {
    CStringClean(a);
    if a == [] {
      CStringWhole(b, []);
      assert a + b == b;
    } else if a[0] != NUL {
      assert (a + b)[1..] == a[1..] + b && a == [a[0]] + a[1..];
      CStringAppend(a[1..], b);
    }
  }

  // ---------------------------------------------------------------- the tables of the source

  /** The bit test on the table `usual`, on a byte. */
  predicate UsualBit(b: bv8) {
    var word: bv32 := if b >> 5 == 0 then 0xffffdbfe else if b >> 5 == 1 then 0x7fff37d6 else 0xffffffff;
    word & ((1 as bv32) << (b & 0x1f)) != 0
  }

  /** The ten bytes the table leaves out. */
  lemma UsualBytes(b: bv8)
    ensures UsualBit(b) <==>
            b != 0 && b != 10 && b != 13 && b != 32 && b != 35 && b != 37 && b != 43 && b != 46 && b != 47 && b != 63
  {
    assert b >> 5 == 0 <==> b < 32;
  }

  lemma SameByte(b: bv8, k: bv8)
    ensures b == k <==> b as int == k as int
  {
    if b as int == k as int {
      assert b == (b as int) as bv8 == (k as int) as bv8 == k;
    }
  }

  /** The bit test of the program is the predicate used here, on every byte. */
  lemma UsualIsTheTable(b: bv8)
    ensures UsualBit(b) <==> Usual(b as char)
  {
    UsualBytes(b);
    SameByte(b, 0);
    SameByte(b, 10);
    SameByte(b, 13);
    SameByte(b, 32);
    SameByte(b, 35);
    SameByte(b, 37);
    SameByte(b, 43);
    SameByte(b, 46);
    SameByte(b, 47);
    SameByte(b, 63);
  }

  /** The rows of the table `lowcase`, 32 bytes each: the first and the last four are empty. */
  const EMPTY_ROW := "\0\0\0\0\0\0\0\0\0\0\0\0\0\0\0\0\0\0\0\0\0\0\0\0\0\0\0\0\0\0\0\0"
  const DIGIT_ROW := "\0\0\0\0\0\0\0\0\0\0\0\0\0-\0\00123456789\0\0\0\0\0\0"
  const LETTER_ROW := "\0abcdefghijklmnopqrstuvwxyz\0\0\0\0\0"

  function LowcaseRow(r: nat): string {
    if r == 1 then DIGIT_ROW else if r == 2 || r == 3 then LETTER_ROW else EMPTY_ROW
  }

  lemma EmptyRow(k: nat)
    requires k < 32
    ensures |EMPTY_ROW| == 32 && EMPTY_ROW[k] == NUL
  {
  }

  lemma DigitRow(k: nat)
    requires k < 32
    ensures |DIGIT_ROW| == 32 && (DIGIT_ROW[k] != NUL <==> k == 13 || 16 <= k <= 25)
  {
  }

  lemma LetterRow(k: nat)
    requires k < 32
    ensures |LETTER_ROW| == 32 && (LETTER_ROW[k] != NUL <==> 1 <= k <= 26)
  {
  }

  /** A byte has a non-zero entry in that table iff it is a letter, a digit or the hyphen. */
  lemma LowcaseIsTheTable(c: char)
    requires c as int < 256
    ensures |LowcaseRow(c as int / 32)| == 32 && (LowcaseRow(c as int / 32)[c as int % 32] != NUL <==> Lowcase(c))
  {
    var r, k := c as int / 32, c as int % 32;
    assert c as int == 32 * r + k;
    EmptyRow(k);
    DigitRow(k);
    LetterRow(k);
  }
}
