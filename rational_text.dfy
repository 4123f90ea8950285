/**
  The `num//den` text form of include/bwsl/RationalNum.hpp: operator<< and
  ToString print it, operator>> and FromString read it back.

  operator>> works on a stream: each extraction first skips white space,
  does nothing once the stream has failed, and marks the stream failed when
  it meets the end of the text or text it cannot read. A `long` is read as
  an optional sign and a maximal run of decimal digits; reading no digit
  stores 0. Reading a `char` past the end leaves the variable as it was.
  The two stored terms are written straight into the target, so a parsed
  value is not simplified.
*/
module RationalText {
  import opened Wrappers
  import opened RationalNum

  // ---------------------------------------------------------------------------
  // Characters and digits
  // ---------------------------------------------------------------------------

  /** The characters isspace accepts in the "C" locale. */
  predicate IsSpace(c: char)
  {
    c == ' ' || c == '\t' || c == '\n' || c == '\U{0B}' || c == '\U{0C}' || c == '\r'
  }

  predicate IsDigit(c: char)
  {
    '0' <= c <= '9'
  }

  predicate AllDigits(s: string)
  {
    forall i :: 0 <= i < |s| ==> IsDigit(s[i])
  }

  function DigitValue(c: char): (d: nat)
    requires IsDigit(c)
    ensures d < 10
  {
    (c as int) - ('0' as int)
  }

  function Digit(d: nat): (c: char)
    requires d < 10
    ensures IsDigit(c) && DigitValue(c) == d
  {
    ('0' as int + d) as char
  }

  /** The text left once the leading white space is skipped. */
  function SkipSpace(s: string): (r: string)
    ensures |r| <= |s| && r == s[|s| - |r|..]
    ensures r == [] || !IsSpace(r[0])
    ensures forall i :: 0 <= i < |s| - |r| ==> IsSpace(s[i])
  {
    if |s| > 0 && IsSpace(s[0]) then SkipSpace(s[1..]) else s
  }

  /** The length of the run of digits the text starts with. */
  function DigitRun(s: string): (k: nat)
    ensures k <= |s| && AllDigits(s[..k])
    ensures k == |s| || !IsDigit(s[k])
  {
    if |s| > 0 && IsDigit(s[0]) then
      var k := 1 + DigitRun(s[1..]);
      assert s[..k] == [s[0]] + s[1..][..k - 1];
      k
    else 0
  }

  /** The number a run of decimal digits stands for. */
  function DigitsValue(s: string): nat
    requires AllDigits(s)
  {
    if s == [] then 0 else DigitsValue(s[..|s| - 1]) * 10 + DigitValue(s[|s| - 1])
  }

  // ---------------------------------------------------------------------------
  // Printing
  // ---------------------------------------------------------------------------

  /** The decimal digits of n, with no leading zero. */
  function NatToString(n: nat): (s: string)
    ensures |s| > 0 && AllDigits(s)
    ensures |s| > 1 ==> s[0] != '0'
  {
    if n < 10 then [Digit(n)] else NatToString(n / 10) + [Digit(n % 10)]
  }

  /** A `long` as the stream prints it: a minus sign for a negative number. */
  function IntToString(n: int): (s: string)
    ensures |s| > 0 && (s[0] == '-' || IsDigit(s[0]))
  {
    if n < 0 then "-" + NatToString(-n) else NatToString(n)
  }

  /** operator<< and ToString: the numerator, `//`, the denominator. */
  function ToString(a: Rational): (s: string)
    ensures |s| > 2 && !IsSpace(s[0])
  {
    IntToString(a.num) + "//" + IntToString(a.den)
  }

  // ---------------------------------------------------------------------------
  // Reading
  // ---------------------------------------------------------------------------

  /** Reading a `long` from text whose white space is already skipped:
      an optional sign and at least one digit, or nothing. */
  function ReadLong(s: string): (r: Option<(int, string)>)
    ensures r.Some? ==> |r.value.1| < |s| && r.value.1 == s[|s| - |r.value.1|..]
  {
    var neg := |s| > 0 && s[0] == '-';
    var body := if |s| > 0 && (s[0] == '-' || s[0] == '+') then s[1..] else s;
    var k := DigitRun(body);
    if k == 0 then None
    else
      var v: int := DigitsValue(body[..k]);
      Some((if neg then -v else v, body[k..]))
  }

  /** An input string stream: the text not yet read, and the fail bit. */
  datatype Stream = Stream(rest: string, failed: bool)

  /** `in >> c` for a `char`: nothing on a failed stream; past the end of
      the text the stream fails and c keeps its value. */
  function ReadChar(st: Stream, c: char): (r: (Stream, char))
    ensures |r.0.rest| <= |st.rest|
    ensures st.failed ==> r == (st, c)
  {
    if st.failed then (st, c)
    else
      var t := SkipSpace(st.rest);
      if t == [] then (Stream(t, true), c) else (Stream(t[1..], false), t[0])
  }

  /** `in >> v` for a `long`: nothing on a failed stream; past the end of
      the text the stream fails and v keeps its value; text that is not a
      number fails the stream and stores 0. */
  function ReadLongFrom(st: Stream, v: int): (r: (Stream, int))
    ensures |r.0.rest| <= |st.rest|
    ensures st.failed ==> r == (st, v)
  {
    if st.failed then (st, v)
    else
      var t := SkipSpace(st.rest);
      if t == [] then (Stream(t, true), v)
      else match ReadLong(t)
        case None => (Stream(t, true), 0)
        case Some((n, rest)) => (Stream(rest, false), n)
  }

  /** What operator>> leaves: whether the stream failed, and the target. */
  datatype Extraction = Extraction(failed: bool, value: Rational)

  /** operator>> on a stream over text, reading into rhs: the numerator,
      two '/' separators (a wrong one fails the stream and stops), and the
      denominator. */
  function ExtractSpec(text: string, rhs: Rational): Extraction
  {
    var (s1, num) := ReadLongFrom(Stream(text, false), rhs.num);
    var (s2, c1) := ReadChar(s1, '\0');
    if c1 != '/' then Extraction(true, Rational(num, rhs.den))
    else
      var (s3, c2) := ReadChar(s2, c1);
      if c2 != '/' then Extraction(true, Rational(num, rhs.den))
      else
        var (s4, den) := ReadLongFrom(s3, rhs.den);
        Extraction(s4.failed, Rational(num, den))
  }

  /** operator>> step by step, with the separator loop of the source. */
  method Extract(text: string, rhs: Rational) returns (e: Extraction)
    ensures e == ExtractSpec(text, rhs)
  {
    var (st, num) := ReadLongFrom(Stream(text, false), rhs.num);
    ghost var s1 := st;
    var den := rhs.den;
    var sep := '\0';
    for i := 0 to 2
      invariant num == ReadLongFrom(Stream(text, false), rhs.num).1
      invariant s1 == ReadLongFrom(Stream(text, false), rhs.num).0
      invariant i == 0 ==> st == s1 && sep == '\0'
      invariant i == 1 ==> (st, sep) == ReadChar(s1, '\0') && sep == '/'
      invariant i == 2 ==>
        ReadChar(s1, '\0').1 == '/' && sep == '/' && (st, sep) == ReadChar(ReadChar(s1, '\0').0, '/')
    {
      var next := ReadChar(st, sep);
      st, sep := next.0, next.1;
      if sep != '/' {
        e := Extraction(true, Rational(num, den));
        return;
      }
    }
    var last := ReadLongFrom(st, den);
    st, den := last.0, last.1;
    e := Extraction(st.failed, Rational(num, den));
  }

  /** The error FromString throws, with what operator>> left in the target. */
  datatype ParseError = BadParsing(partial: Rational)

  /** FromString: operator>> on the whole string, and BadParsing when the
      stream failed. */
  function FromString(str: string, rhs: Rational): (r: Result<Rational, ParseError>)
    ensures r.Ok? <==> !ExtractSpec(str, rhs).failed
    ensures r.Ok? ==> r.value == ExtractSpec(str, rhs).value
    ensures r.Err? ==> r.error.partial == ExtractSpec(str, rhs).value
  {
    var e := ExtractSpec(str, rhs);
    if e.failed then Err(BadParsing(e.value)) else Ok(e.value)
  }

  // ---------------------------------------------------------------------------
  // Printing and reading back
  // ---------------------------------------------------------------------------

  /** The printed digits read back as the number. */
  lemma {:induction false} NatToStringValue(n: nat)
    ensures DigitsValue(NatToString(n)) == n
  {
    var s := NatToString(n);
    if n < 10 {
      assert s[..|s| - 1] == [];
    } else {
      NatToStringValue(n / 10);
      assert s[..|s| - 1] == NatToString(n / 10);
    }
  }

  /** A digit run stops where the digits stop. */
  lemma {:induction false} DigitRunOfDigits(d: string, rest: string)
    requires AllDigits(d) && (rest == [] || !IsDigit(rest[0]))
    ensures DigitRun(d + rest) == |d|
  {
    if d != [] {
      assert (d + rest)[1..] == d[1..] + rest;
      DigitRunOfDigits(d[1..], rest);
    } else {
      assert d + rest == rest;
    }
  }

  /** A printed `long` followed by anything but a digit reads back as the
      same number, leaving what followed. */
  lemma ReadLongOfString(n: int, rest: string)
    requires rest == [] || !IsDigit(rest[0])
    ensures ReadLong(IntToString(n) + rest) == Some((n, rest))
  {
    if n < 0 {
      var digits := NatToString(-n);
      NatToStringValue(-n);
      assert IntToString(n) + rest == "-" + (digits + rest);
      ReadSigned(digits, rest);
    } else {
      var digits := NatToString(n);
      NatToStringValue(n);
      ReadUnsigned(digits, rest);
    }
  }

  lemma ReadUnsigned(digits: string, rest: string)
    requires digits != [] && AllDigits(digits) && (rest == [] || !IsDigit(rest[0]))
    ensures ReadLong(digits + rest) == Some((DigitsValue(digits), rest))
  {
    var body := digits + rest;
    assert IsDigit(body[0]);
    DigitRunOfDigits(digits, rest);
    assert body[..|digits|] == digits && body[|digits|..] == rest;
  }

  lemma ReadSigned(digits: string, rest: string)
    requires digits != [] && AllDigits(digits) && (rest == [] || !IsDigit(rest[0]))
    ensures ReadLong("-" + (digits + rest)) == Some((0 - DigitsValue(digits), rest))
  {
    var body := digits + rest;
    assert ("-" + body)[1..] == body;
    DigitRunOfDigits(digits, rest);
    assert body[..|digits|] == digits && body[|digits|..] == rest;
  }

  /** Extracting a `long` from a sound stream positioned at a printed one. */
  lemma ExtractPrinted(n: int, rest: string, v: int)
    requires rest == [] || !IsDigit(rest[0])
    ensures ReadLongFrom(Stream(IntToString(n) + rest, false), v) == (Stream(rest, false), n)
  {
    var text := IntToString(n) + rest;
    assert text[0] == IntToString(n)[0];
    assert SkipSpace(text) == text;
    ReadLongOfString(n, rest);
  }

  /** Extracting a `char` from a sound stream positioned at a '/'. */
  lemma ExtractSlash(rest: string, c: char)
    ensures ReadChar(Stream("/" + rest, false), c) == (Stream(rest, false), '/')
  {
    assert ("/" + rest)[1..] == rest;
  }

  /** Printing then reading gives back the stored pair exactly, whatever
      the target held before and whatever follows unless it is a digit. */
  lemma RoundTrip(a: Rational, rhs: Rational, tail: string)
    requires tail == [] || !IsDigit(tail[0])
    ensures ExtractSpec(ToString(a) + tail, rhs) == Extraction(false, a)
    ensures FromString(ToString(a) + tail, rhs) == Ok(a)
  {
    var den := IntToString(a.den) + tail;
    assert ToString(a) + tail == IntToString(a.num) + ("/" + ("/" + den));
    ExtractPrinted(a.num, "/" + ("/" + den), rhs.num);
    ExtractSlash("/" + den, '\0');
    ExtractSlash(den, '/');
    ExtractPrinted(a.den, tail, rhs.den);
  }

  /** The string of the tests, "3//2", reads as 3//2. */
  lemma ParseExample()
    ensures FromString("3//2", Zero) == Ok(Rational(3, 2))
  {
    PrintedExample(3, 2, "3//2");
  }

  /** "6//4" is stored as read, not simplified. */
  lemma UnsimplifiedExample()
    ensures FromString("6//4", Zero) == Ok(Rational(6, 4))
  {
    PrintedExample(6, 4, "6//4");
  }

  lemma PrintedExample(n: nat, d: nat, text: string)
    requires n < 10 && d < 10 && text == [Digit(n), '/', '/', Digit(d)]
    ensures FromString(text, Zero) == Ok(Rational(n, d))
  {
    assert ToString(Rational(n, d)) + "" == text;
    RoundTrip(Rational(n, d), Zero, "");
  }

  /** A single separator: the numerator is stored, the denominator is not,
      and the stream fails. */
  lemma SingleSlashFails(n: int, rest: string, rhs: Rational)
    requires rest != [] && !IsSpace(rest[0]) && rest[0] != '/'
    ensures FromString(IntToString(n) + ("/" + rest), rhs) == Err(BadParsing(Rational(n, rhs.den)))
  {
    ExtractPrinted(n, "/" + rest, rhs.num);
    ExtractSlash(rest, '\0');
    assert SkipSpace(rest) == rest;
    assert ReadChar(Stream(rest, false), '/') == (Stream(rest[1..], false), rest[0]);
  }

  /** "n//" followed by text that is not a number: the denominator read
      fails and stores 0. */
  lemma MissingDenominatorFails(n: int, rest: string, rhs: Rational)
    requires rest != [] && !IsSpace(rest[0]) && ReadLong(rest) == None
    ensures FromString(IntToString(n) + ("/" + ("/" + rest)), rhs) == Err(BadParsing(Rational(n, 0)))
  {
    ExtractPrinted(n, "/" + ("/" + rest), rhs.num);
    ExtractSlash("/" + rest, '\0');
    ExtractSlash(rest, '/');
    assert SkipSpace(rest) == rest;
    assert ReadLongFrom(Stream(rest, false), rhs.den) == (Stream(rest, true), 0);
  }

  lemma EmptyTextExample(rhs: Rational)
    ensures FromString("", rhs) == Err(BadParsing(rhs))
  {
  }
}
