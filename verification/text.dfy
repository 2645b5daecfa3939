/** `Series.astype(str)` on one cell: Python's `str()` of the value the cell holds. */
module Text {
  import opened Frames

  function Digit(d: int): (c: char)
    requires 0 <= d < 10
    ensures '0' <= c <= '9'
  {
    ('0' as int + d) as char
  }

  /** The value of a digit character. */
  function DigitValue(c: char): int
  {
    c as int - '0' as int
  }

  /** A non-empty run of decimal digits. */
  predicate Digits(s: string)
  {
    |s| > 0 && forall i :: 0 <= i < |s| ==> '0' <= s[i] <= '9'
  }

  /** A canonical decimal numeral: digits without a leading zero (except
      `0` itself), possibly after a minus sign, and never `-0`. */
  predicate Numeral(s: string)
  {
    if |s| > 0 && s[0] == '-' then |s| > 1 && Digits(s[1..]) && s[1] != '0'
    else Digits(s) && (s[0] == '0' ==> |s| == 1)
  }

  /** Decimal digits of `n`, most significant first, without leading zeros. */
  function NatText(n: nat): (s: string)
    ensures Digits(s)
    ensures s[0] == '0' <==> n == 0
    ensures s[0] == '0' ==> |s| == 1
  {
    if n < 10 then [Digit(n)] else NatText(n / 10) + [Digit(n % 10)]
  }

  /** `str(n)` for a Python integer. */
  function IntText(n: int): (s: string)
    ensures Numeral(s)
  {
    if n < 0 then "-" + NatText(-n) else NatText(n)
  }

  /** Reads decimal digits back; the reference against which `NatText` is checked. */
  function ParseNat(s: string): int
  {
    if |s| == 0 then 0 else 10 * ParseNat(s[..|s| - 1]) + DigitValue(s[|s| - 1])
  }

  /** Reads an optionally signed decimal integer back. */
  function ParseInt(s: string): int
  {
    if |s| > 0 && s[0] == '-' then -ParseNat(s[1..]) else ParseNat(s)
  }

  lemma {:induction false} NatTextRoundTrip(n: nat)
    ensures ParseNat(NatText(n)) == n
  {
    if n >= 10 {
      NatTextRoundTrip(n / 10);
      var s := NatText(n);
      assert s[..|s| - 1] == NatText(n / 10);
    }
  }

  /** Distinct integers are printed differently: `str` on integers loses nothing. */
  lemma IntTextRoundTrip(n: int)
    ensures ParseInt(IntText(n)) == n
  {
    if n < 0 {
      NatTextRoundTrip(-n);
      assert IntText(n)[1..] == NatText(-n);
    } else {
      NatTextRoundTrip(n);
      assert IntText(n)[0] in NatText(n);
    }
  }

  /** Digits read back as a natural number, positive when the first digit is. */
  lemma {:induction false} ParseNatBounds(d: string)
    requires Digits(d)
    ensures ParseNat(d) >= 0
    ensures d[0] != '0' ==> ParseNat(d) >= 1
  {
    if |d| > 1 {
      var front := d[..|d| - 1];
      assert Digits(front) && front[0] == d[0];
      ParseNatBounds(front);
    }
  }

  /** Digits without a leading zero are the `NatText` of what they denote. */
  lemma {:induction false} DigitsRoundTrip(d: string)
    requires Digits(d)
    requires d[0] == '0' ==> |d| == 1
    ensures ParseNat(d) >= 0 && NatText(ParseNat(d)) == d
  {
    ParseNatBounds(d);
    if |d| > 1 {
      var front, last := d[..|d| - 1], d[|d| - 1];
      assert Digits(front) && front[0] == d[0];
      DigitsRoundTrip(front);
      ParseNatBounds(front);
      var n := ParseNat(d);
      assert n / 10 == ParseNat(front) && n % 10 == DigitValue(last);
      assert d == front + [last];
    }
  }

  /** The converse of `IntTextRoundTrip`: every canonical numeral is the
      `str` of the integer it denotes, so `str` of an integer is determined. */
  lemma NumeralRoundTrip(s: string)
    requires Numeral(s)
    ensures IntText(ParseInt(s)) == s
  {
    if s[0] == '-' {
      var d := s[1..];
      DigitsRoundTrip(d);
      ParseNatBounds(d);
      assert s == "-" + d;
    } else {
      DigitsRoundTrip(s);
    }
  }

  function Join(parts: seq<string>, sep: string): string
  {
    if |parts| == 0 then ""
    else if |parts| == 1 then parts[0]
    else Join(parts[..|parts| - 1], sep) + sep + parts[|parts| - 1]
  }

  /** Python's `repr()` of a value inside a list: text in single quotes, a
      missing value as `None`, an integer as its numeral, a list as `[` its
      items' `repr`s separated by `, ` `]`. */
  function Repr(v: Value): (s: string)
    ensures |s| > 0
    ensures v.Num? ==> Numeral(s) && ParseInt(s) == v.n
    ensures v.Lst? ==> |s| >= 2 && s[0] == '[' && s[|s| - 1] == ']'
    decreases v
  {
    match v
    case Null => "None"
    case Str(text) => "'" + text + "'"
    case Num(n) => IntTextRoundTrip(n); IntText(n)
    case Lst(items) => "[" + Join(seq(|items|, i requires 0 <= i < |items| => Repr(items[i])), ", ") + "]"
  }

  /** Python's `str()` of a cell: text is itself, a missing value is `nan`,
      an integer is its decimal numeral, a list is its `repr`. */
  function ToText(v: Value): (s: string)
    ensures v.Str? ==> s == v.text
    ensures v.Null? ==> s == "nan"
    ensures v.Num? ==> Numeral(s) && ParseInt(s) == v.n
    ensures v.Lst? ==> s == Repr(v) && |s| >= 2 && s[0] == '[' && s[|s| - 1] == ']'
  {
    match v
    case Null => "nan"
    case Str(text) => text
    case Num(n) => IntTextRoundTrip(n); IntText(n)
    case Lst(_) => Repr(v)
  }
}
