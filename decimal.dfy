/** Decimal text of an integer, as `String.valueOf` writes a note id into
    the row's id label: an optional `-`, then digits without leading zeros.
    The parser is the partner that shows the text determines the id.
 */
module Decimal {

  predicate IsDigit(c: char) {
    '0' <= c <= '9'
  }

  predicate AllDigits(s: string) {
    forall k :: 0 <= k < |s| ==> IsDigit(s[k])
  }

  function DigitChar(d: nat): (c: char)
    requires d < 10
    ensures IsDigit(c)
  {
    ('0' as int + d) as char
  }

  function DigitValue(c: char): (d: nat)
    requires IsDigit(c)
    ensures d < 10 && DigitChar(d) == c
  {
    c as int - '0' as int
  }

  /** Digits without a leading zero; "0" alone is the text of zero. */
  predicate IsCanonicalNatText(s: string) {
    |s| >= 1 && AllDigits(s) && (|s| > 1 ==> s[0] != '0')
  }

  /** Digits of n, most significant first, with no leading zero. */
  function NatToString(n: nat): (s: string)
    ensures IsCanonicalNatText(s)
    ensures s[0] == '0' <==> n == 0
    decreases n
  {
    if n < 10 then [DigitChar(n)] else NatToString(n / 10) + [DigitChar(n % 10)]
  }

  /** `String.valueOf` of an integer: a minus sign for negatives. */
  function IntToString(n: int): (s: string)
    ensures IsCanonicalIntText(s)
    ensures s[0] == '-' <==> n < 0
  {
    if n < 0 then
      var t := NatToString(-n);
      assert ("-" + t)[1..] == t;
      "-" + t
    else NatToString(n)
  }

  function ParseNat(s: string): nat
    requires AllDigits(s)
    decreases |s|
  {
    if s == [] then 0 else 10 * ParseNat(s[..|s| - 1]) + DigitValue(s[|s| - 1])
  }

  /** An optional `-` followed by at least one digit: the text ParseInt reads. */
  predicate IsIntText(s: string) {
    |s| >= 1 && (if s[0] == '-' then |s| >= 2 && AllDigits(s[1..]) else AllDigits(s))
  }

  /** The exact shape `String.valueOf` produces: canonical digits after an
      optional `-`, and never `-0`. */
  predicate IsCanonicalIntText(s: string) {
    |s| >= 1 &&
    if s[0] == '-' then IsCanonicalNatText(s[1..]) && s[1] != '0'
    else IsCanonicalNatText(s)
  }

  function ParseInt(s: string): int
    requires IsIntText(s)
  {
    if s[0] == '-' then -(ParseNat(s[1..]) as int) else ParseNat(s)
  }

  lemma {:induction false} ParseNatToString(n: nat)
    ensures ParseNat(NatToString(n)) == n
    decreases n
  {
    if n >= 10 {
      ParseNatToString(n / 10);
      var s := NatToString(n);
      assert s[..|s| - 1] == NatToString(n / 10);
    }
  }

  /** The id text reads back as the id it was written from. */
  lemma ParseIntToString(n: int)
    ensures IsIntText(IntToString(n)) && ParseInt(IntToString(n)) == n
  {
    var s := IntToString(n);
    if n < 0 {
      assert s[1..] == NatToString(-n);
      ParseNatToString(-n);
    } else {
      ParseNatToString(n);
    }
  }

  /** Canonical digits with a non-zero leading digit denote a positive number. */
  lemma {:induction false} ParseNatPositive(t: string)
    requires IsCanonicalNatText(t) && t[0] != '0'
    ensures ParseNat(t) > 0
    decreases |t|
  {
    if |t| > 1 {
      var p := t[..|t| - 1];
      assert p[0] == t[0];
      ParseNatPositive(p);
    }
  }

  /** Canonical digits are the text of the number they denote. */
  lemma {:induction false} NatToStringParseNat(t: string)
    requires IsCanonicalNatText(t)
    ensures NatToString(ParseNat(t)) == t
    decreases |t|
  {
    if |t| > 1 {
      var p := t[..|t| - 1];
      assert p[0] == t[0];
      ParseNatPositive(p);
      NatToStringParseNat(p);
      var n := ParseNat(t);
      assert n / 10 == ParseNat(p) && n % 10 == DigitValue(t[|t| - 1]);
      assert t == p + [t[|t| - 1]];
    }
  }

  /** The id text is the only canonical text of the id: any canonical text
      that reads back as n is IntToString(n). */
  lemma CanonicalTextUnique(s: string, n: int)
    requires IsCanonicalIntText(s)
    ensures IsIntText(s)
    ensures ParseInt(s) == n ==> s == IntToString(n)
  {
    if s[0] == '-' {
      var t := s[1..];
      ParseNatPositive(t);
      NatToStringParseNat(t);
      assert s == "-" + t;
    } else {
      NatToStringParseNat(s);
    }
  }

  /** Distinct ids give distinct id texts. */
  lemma IntToStringInjective(a: int, b: int)
    requires IntToString(a) == IntToString(b)
    ensures a == b
  {
    ParseIntToString(a);
    ParseIntToString(b);
  }
}
