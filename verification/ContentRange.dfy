/** The Content-Range header of a response (section 14.4 of RFC 9110). */
module ContentRange {
  import opened Arithmetic
  import opened Sequences
  import opened Wrappers

  const UNIT := "bytes "

  predicate Digit(c: char) {
    '0' <= c <= '9'
  }

  predicate AllDigits(s: string) {
    forall i | 0 <= i < |s| :: Digit(s[i])
  }

  /** The number that digits spell. */
  function Value(s: string): nat {
    if s == [] then 0
    else Value(s[..|s| - 1]) * 10 + if Digit(s[|s| - 1]) then s[|s| - 1] as nat - '0' as nat else 0
  }

  /** A number as the standard library parses it: digits, perhaps after a plus sign, that fit 64 bits. */
  function ParseU64(s: string): Option<U64> {
    var digits := if s != [] && s[0] == '+' then s[1..] else s;
    if digits == [] || !AllDigits(digits) then None
    else if Value(digits) > U64_MAX then None
    else Some(Value(digits))
  }

  ghost predicate Digits(s: string) {
    s != "" && forall i | 0 <= i < |s| :: '0' <= s[i] && s[i] <= '9'
  }

  /** A number is parsed exactly from one or more digits, perhaps after one plus sign, if what they spell is at most
      2^64 - 1. */
  lemma ParseIff(s: string)
    ensures ParseU64(s).Some? <==>
            || (Digits(s) && Value(s) <= 18446744073709551615)
            || ("+" <= s && Digits(s[1..]) && Value(s[1..]) <= 18446744073709551615)
    ensures ParseU64(s).Some? ==> ParseU64(s).value == if "+" <= s then Value(s[1..]) else Value(s)
  {
    hide Value, Digits, ParseU64;
    if "+" <= s {
      ParseSigned(s);
    } else {
      ParseUnsigned(s);
    }
  }

  lemma ParseSigned(s: string)
    requires "+" <= s
    ensures !Digits(s)
    ensures ParseU64(s) == if Digits(s[1..]) && Value(s[1..]) <= U64_MAX then Some(Value(s[1..])) else None
  {
    assert s[0] == '+';
    SameDigits(s[1..]);
  }

  lemma SameDigits(s: string)
    ensures Digits(s) <==> s != [] && AllDigits(s)
  {
    if s != [] && AllDigits(s) {
      forall i | 0 <= i < |s| ensures '0' <= s[i] && s[i] <= '9' {
        assert Digit(s[i]);
      }
    }
  }

  lemma ParseUnsigned(s: string)
    requires !("+" <= s)
    ensures ParseU64(s) == if Digits(s) && Value(s) <= U64_MAX then Some(Value(s)) else None
  {
    assert s != "" ==> s[0] != '+';
    SameDigits(s);
  }

  /** Leading zeros do not count. */
  lemma {:induction false} LeadingZero(s: string)
    ensures Value("0" + s) == Value(s)
    decreases |s|
  {
    var t := "0" + s;
    if s == "" {
      assert t[..0] == "";
    } else {
      assert t[..|t| - 1] == "0" + s[..|s| - 1];
      LeadingZero(s[..|s| - 1]);
    }
  }

  /** The range of a header, its end made exclusive by adding one, which wraps around after the largest number. */
  function ExtractRange(header: string): Option<(U64, U64)> {
    if !(UNIT <= header) then None
    else
      var (range, size) := SplitOnce(header[|UNIT|..], '/');
      if size.None? then None
      else
        var (start, end) := SplitOnce(range, '-');
        if end.None? || ParseU64(start).None? || ParseU64(end.value).None? then None
        else Some((ParseU64(start).value, Wrap(ParseU64(end.value).value + 1)))
  }

  /** The form a header has: a unit, two numbers with a dash between, a slash and a size of which nothing is asked. */
  ghost predicate IsRange(header: string, start: string, end: string, size: string) {
    && header == "bytes " + (start + ['-'] + end + ['/'] + size)
    && '/' !in start && '/' !in end && '-' !in start
  }

  /** A header yields a range exactly when it has the form and its numbers fit. The range starts at the first of
      them, and ends after the last of them if and only if that is not the largest number. */
  lemma ExtractIff(header: string)
    ensures ExtractRange(header).Some? <==>
            exists start, end, size :: IsRange(header, start, end, size) && ParseU64(start).Some? && ParseU64(end).Some?
    ensures forall start, end, size |
              IsRange(header, start, end, size) && ParseU64(start).Some? && ParseU64(end).Some? ::
              && ExtractRange(header).Some? && ExtractRange(header).value.0 == ParseU64(start).value
              && (ExtractRange(header).value.1 == ParseU64(end).value + 1 <==> ParseU64(end).value < U64_MAX)
  {
    hide ParseU64, SplitOnce;
    if ExtractRange(header).Some? {
      var body := header[|UNIT|..];
      SplitOnceJoins(body, '/');
      var (range, size) := SplitOnce(body, '/');
      SplitOnceJoins(range, '-');
      var (start, end) := SplitOnce(range, '-');
      assert header == UNIT + body;
      assert IsRange(header, start, end.value, size.value);
    }
    forall start, end, size | IsRange(header, start, end, size) && ParseU64(start).Some? && ParseU64(end).Some?
      ensures ExtractRange(header) == Some((ParseU64(start).value, Wrap(ParseU64(end).value + 1)))
      ensures Wrap(ParseU64(end).value + 1) == ParseU64(end).value + 1 <==> ParseU64(end).value < U64_MAX
    {
      assert header[|UNIT|..] == start + ['-'] + end + ['/'] + size;
      SplitOnceAt(start + ['-'] + end, '/', size);
      SplitOnceAt(start, '-', end);
    }
  }

  /** A number in decimal. */
  function Decimal(n: nat): (s: string)
    ensures s != [] && forall i | 0 <= i < |s| :: Digit(s[i])
  {
    var last := ('0' as nat + n % 10) as char;
    if n < 10 then [last] else Decimal(n / 10) + [last]
  }

  lemma {:induction false} ParseDecimal(n: nat)
    requires n <= U64_MAX
    ensures ParseU64(Decimal(n)) == Some(n)
  {
    ValueDecimal(n);
    assert Digit(Decimal(n)[0]);
  }

  lemma {:induction false} ValueDecimal(n: nat)
    ensures Value(Decimal(n)) == n
  {
    var s := Decimal(n);
    if n >= 10 {
      ValueDecimal(n / 10);
      assert s[..|s| - 1] == Decimal(n / 10);
    } else {
      assert s[..0] == [];
    }
  }

  function Printed(first: U64, last: U64, size: string): string {
    "bytes " + (Decimal(first) + ['-'] + Decimal(last) + ['/'] + size)
  }

  /** What a server sends for a range is what the client reads, with the end made exclusive, if and only if the
      last position is not the largest number. */
  lemma ExtractPrinted(first: U64, last: U64, size: string)
    ensures ExtractRange(Printed(first, last, size)) == Some((first, last + 1)) <==> last < U64_MAX
  {
    hide ParseU64, ExtractRange, Decimal;
    var header := Printed(first, last, size);
    assert IsRange(header, Decimal(first), Decimal(last), size) by {
      DecimalIsPlain(first);
      DecimalIsPlain(last);
    }
    ParseDecimal(first);
    ParseDecimal(last);
    ExtractIff(header);
  }

  lemma DecimalIsPlain(n: nat)
    ensures '/' !in Decimal(n) && '-' !in Decimal(n)
  {
  }

  /** With the largest last position, what is read is a range that ends at 0. */
  lemma LargestLastPositionWraps(first: U64, size: string)
    ensures ExtractRange(Printed(first, U64_MAX, size)) == Some((first, 0))
  {
    hide ParseU64, Decimal, SplitOnce;
    var start, end := Decimal(first), Decimal(U64_MAX);
    var header := Printed(first, U64_MAX, size);
    DecimalIsPlain(first);
    DecimalIsPlain(U64_MAX);
    ParseDecimal(first);
    ParseDecimal(U64_MAX);
    assert header[|UNIT|..] == start + ['-'] + end + ['/'] + size;
    SplitOnceAt(start + ['-'] + end, '/', size);
    SplitOnceAt(start, '-', end);
  }
}
