/** The parts of Go's strings and strconv packages that the version and cache code relies on. */
module Text {

  const MAX_INT64: int := 0x7fff_ffff_ffff_ffff

  predicate IsDigit(c: char) {
    '0' <= c <= '9'
  }

  predicate AllDigits(s: string) {
    forall i :: 0 <= i < |s| ==> IsDigit(s[i])
  }

  predicate Free(s: string, c: char) {
    forall i :: 0 <= i < |s| ==> s[i] != c
  }

  // ---------- strings.Split and strings.Join with a one-character separator ----------

  function Split(s: string, sep: char): (r: seq<string>)
    ensures |r| >= 1
  {
    if s == "" then
      [""]
    else
      var r := Split(s[1..], sep);
      if s[0] == sep then [""] + r else [[s[0]] + r[0]] + r[1..]
  }

  function Join(parts: seq<string>, sep: char): string
    requires |parts| >= 1
  {
    if |parts| == 1 then parts[0] else parts[0] + [sep] + Join(parts[1..], sep)
  }

  lemma {:induction false} JoinSplit(s: string, sep: char)
    ensures Join(Split(s, sep), sep) == s
  {
    if s != "" {
      JoinSplit(s[1..], sep);
      var r := Split(s[1..], sep);
      assert s == [s[0]] + s[1..];
      if s[0] == sep {
        assert ([""] + r)[1..] == r;
      } else {
        var q := [[s[0]] + r[0]] + r[1..];
        assert q[1..] == r[1..];
        assert Split(s, sep) == q;
      }
    }
  }

  lemma {:induction false} SplitPartsFree(s: string, sep: char)
    ensures forall p <- Split(s, sep) :: Free(p, sep)
  {
    if s != "" {
      SplitPartsFree(s[1..], sep);
      var r := Split(s[1..], sep);
      assert r[0] in r;
      forall p <- Split(s, sep) ensures Free(p, sep) {
        if p !in r {
          assert p == "" || p == [s[0]] + r[0];
        }
      }
    }
  }

  /** A piece without separators goes in front of the first part. */
  lemma {:induction false} SplitAfterFree(a: string, b: string, sep: char)
    requires Free(a, sep)
    ensures Split(a + b, sep) == [a + Split(b, sep)[0]] + Split(b, sep)[1..]
  {
    if a == "" {
      assert a + b == b;
      var r := Split(b, sep);
      assert a + r[0] == r[0] && [r[0]] + r[1..] == r;
    } else {
      assert Free(a[1..], sep);
      SplitAfterFree(a[1..], b, sep);
      assert (a + b)[1..] == a[1..] + b && (a + b)[0] == a[0];
      var r := Split(b, sep);
      assert [a[0]] + (a[1..] + r[0]) == a + r[0];
    }
  }

  lemma SplitFree(a: string, sep: char)
    requires Free(a, sep)
    ensures Split(a, sep) == [a]
  {
    SplitAfterFree(a, "", sep);
    assert a + "" == a;
  }

  lemma SplitAtSep(a: string, b: string, sep: char)
    requires Free(a, sep)
    ensures Split(a + [sep] + b, sep) == [a] + Split(b, sep)
  {
    assert a + [sep] + b == a + ([sep] + b);
    assert ([sep] + b)[1..] == b;
    SplitAfterFree(a, [sep] + b, sep);
    assert Split([sep] + b, sep) == [""] + Split(b, sep);
    assert a + "" == a;
  }

  lemma {:induction false} SplitJoin(parts: seq<string>, sep: char)
    requires |parts| >= 1 && forall p <- parts :: Free(p, sep)
    ensures Split(Join(parts, sep), sep) == parts
  {
    assert parts[0] in parts;
    if |parts| == 1 {
      SplitFree(parts[0], sep);
    } else {
      SplitJoin(parts[1..], sep);
      SplitAtSep(parts[0], Join(parts[1..], sep), sep);
      assert [parts[0]] + parts[1..] == parts;
    }
  }

  /** Every character of a string is the separator or belongs to one of the parts. */
  lemma {:induction false} CharInPart(s: string, sep: char, i: nat)
    requires i < |s| && s[i] != sep
    ensures exists p :: p in Split(s, sep) && s[i] in p
  {
    var r := Split(s[1..], sep);
    if i > 0 {
      CharInPart(s[1..], sep, i - 1);
      var p :| p in r && s[i] in p;
      if p in r[1..] || s[0] == sep {
        assert p in Split(s, sep);
      } else {
        assert p == r[0];
        assert s[i] in [s[0]] + r[0] && [s[0]] + r[0] in Split(s, sep);
      }
    } else {
      assert s[0] in [s[0]] + r[0] && [s[0]] + r[0] in Split(s, sep);
    }
  }

  // ---------- Decimal numbers ----------

  function DigitValue(c: char): nat
    requires IsDigit(c)
  {
    c as int - '0' as int
  }

  function Digit(n: nat): (c: char)
    requires n < 10
    ensures IsDigit(c) && DigitValue(c) == n
  {
    ('0' as int + n) as char
  }

  function Value(s: string): nat
    requires AllDigits(s)
  {
    if s == "" then 0 else 10 * Value(s[..|s| - 1]) + DigitValue(s[|s| - 1])
  }

  /** strconv.FormatInt in base 10, for a number that is not negative. */
  function FormatInt(n: nat): (s: string)
    ensures |s| >= 1 && AllDigits(s)
  {
    if n < 10 then [Digit(n)] else FormatInt(n / 10) + [Digit(n % 10)]
  }

  lemma {:induction false} ValueOfFormat(n: nat)
    ensures Value(FormatInt(n)) == n
  {
    if n < 10 {
      assert [Digit(n)][..0] == "";
      assert Value("") == 0;
    } else {
      ValueOfFormat(n / 10);
      var s := FormatInt(n / 10);
      assert (s + [Digit(n % 10)])[..|s|] == s;
    }
  }

  /** The two results of strconv.ParseInt(s, 10, 64): the value is set even when the number is out of range. */
  datatype ParsedInt = ParsedInt(value: int, ok: bool)

  function ParseInt(s: string): ParsedInt {
    if s == "" then
      ParsedInt(0, false)
    else
      var negative := s[0] == '-';
      var digits := if negative || s[0] == '+' then s[1..] else s;
      if digits == "" || !AllDigits(digits) then
        ParsedInt(0, false)
      else
        var n: int := Value(digits);
        if !negative && n > MAX_INT64 then ParsedInt(MAX_INT64, false)
        else if negative && n > MAX_INT64 + 1 then ParsedInt(-MAX_INT64 - 1, false)
        else ParsedInt(if negative then -n else n, true)
  }

  lemma ParseOfFormat(n: nat)
    requires n <= MAX_INT64
    ensures ParseInt(FormatInt(n)) == ParsedInt(n, true)
  {
    ValueOfFormat(n);
  }

  /** Numbers are formatted without leading zeros. */
  lemma {:induction false} FormatCanonical(n: nat)
    ensures |FormatInt(n)| > 1 ==> FormatInt(n)[0] != '0'
    ensures n > 0 ==> FormatInt(n)[0] != '0'
  {
    if n >= 10 {
      FormatCanonical(n / 10);
    } else {
      assert FormatInt(n) == [Digit(n)];
    }
  }

  /** Leading zeros do not change a number. */
  lemma {:induction false} LeadingZero(s: string)
    requires AllDigits(s)
    ensures Value("0" + s) == Value(s)
  {
    if s == "" {
      assert ("0" + s)[..0] == "";
      assert Value("") == 0;
    } else {
      var n := |s| - 1;
      LeadingZero(s[..n]);
      assert ("0" + s)[..|s|] == "0" + s[..n];
    }
  }

  /**
   What ParseInt makes of a formatted number behind an optional sign and zero: the number with its sign where it
   fits into 64 bits, and otherwise an error and the nearest number that does.
   */
  lemma ParseSigned(sign: string, zero: string, n: int)
    requires sign in {"", "+", "-"} && zero in {"", "0"} && n >= 0
    ensures ParseInt(sign + (zero + FormatInt(n))) == Saturated(sign == "-", n)
  {
    ValueOfFormat(n);
    LeadingZero(FormatInt(n));
    hide ParseInt, FormatInt;
    assert "" + FormatInt(n) == FormatInt(n);
    hide Value;
    ParseDigits(sign, zero + FormatInt(n));
  }

  function Saturated(negative: bool, n: int): ParsedInt {
    if negative then
      if n <= 0x8000_0000_0000_0000 then ParsedInt(-n, true) else ParsedInt(-0x8000_0000_0000_0000, false)
    else
      if n <= 0x7fff_ffff_ffff_ffff then ParsedInt(n, true) else ParsedInt(0x7fff_ffff_ffff_ffff, false)
  }

  lemma ParseDigits(sign: string, digits: string)
    requires sign in {"", "+", "-"} && digits != "" && AllDigits(digits)
    ensures ParseInt(sign + digits) == Saturated(sign == "-", Value(digits))
  {
    hide Value;
    var s := sign + digits;
    if sign == "" {
      assert s == digits && IsDigit(s[0]);
    } else {
      assert s[0] == sign[0] && s[1..] == digits;
    }
  }

  /** Nothing but digits behind an optional sign is read as a number. */
  lemma ParseRejects(s: string)
    requires !(s != "" && AllDigits(s))
    requires !(|s| >= 2 && (s[0] == '+' || s[0] == '-') && AllDigits(s[1..]))
    ensures ParseInt(s) == ParsedInt(0, false)
  {
  }

  // ---------- String order ----------

  /** Go's < on strings. */
  predicate StringLess(a: string, b: string) {
    if b == "" then false
    else if a == "" then true
    else if a[0] != b[0] then a[0] < b[0]
    else StringLess(a[1..], b[1..])
  }

  lemma {:induction false} StringLessTotal(a: string, b: string)
    ensures StringLess(a, b) || StringLess(b, a) || a == b
    ensures !(StringLess(a, b) && StringLess(b, a))
    ensures !StringLess(a, a)
  {
    if a != "" {
      StringLessTotal(a[1..], if b == "" then "" else b[1..]);
      assert a == [a[0]] + a[1..];
      if b != "" {
        assert b == [b[0]] + b[1..];
      }
    }
  }

  lemma {:induction false} StringLessTransitive(a: string, b: string, c: string)
    requires StringLess(a, b) && StringLess(b, c)
    ensures StringLess(a, c)
  {
    if a != "" && a[0] == b[0] && b[0] == c[0] {
      StringLessTransitive(a[1..], b[1..], c[1..]);
    }
  }
}
