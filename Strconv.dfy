/** Decimal conversion between Go's 64-bit `int` and strings, as the service uses it: `strconv.Atoi`
    to read the age query parameter and the `%d` verb of `fmt.Errorf` to name a course id. */
module Strconv {
  import opened Models

  const MinInt64: int := -0x8000_0000_0000_0000
  const MaxInt64: int := 0x7FFF_FFFF_FFFF_FFFF

  predicate IsDigit(c: char) {
    '0' <= c <= '9'
  }

  predicate AllDigits(s: string) {
    forall i :: 0 <= i < |s| ==> IsDigit(s[i])
  }

  function DigitChar(d: nat): (c: char)
    requires d < 10
    ensures IsDigit(c)
  {
    ('0' as int + d) as char
  }

  function DigitValue(c: char): nat
    requires IsDigit(c)
  {
    c as int - '0' as int
  }

  /** The value of a string of decimal digits, most significant digit first. */
  function DigitsValue(s: string): nat
    requires AllDigits(s)
    decreases |s|
  {
    if s == [] then 0 else DigitsValue(s[..|s| - 1]) * 10 + DigitValue(s[|s| - 1])
  }

  /** The decimal digits of `n`, without sign or leading zeros. */
  function NatDigits(n: nat): (s: string)
    ensures |s| > 0 && AllDigits(s)
    decreases n
  {
    (if n < 10 then [] else NatDigits(n / 10)) + [DigitChar(n % 10)]
  }

  /** `strconv.Itoa`, which is also what `%d` prints: a minus sign for negative values, then the digits. */
  function Itoa(n: int): (s: string)
    ensures |s| > 0
    ensures s[0] == '-' <==> n < 0
    ensures n >= 0 ==> AllDigits(s)
    ensures n < 0 ==> AllDigits(s[1..])
  {
    if n < 0 then "-" + NatDigits(-n) else NatDigits(n)
  }

  /** `strconv.Atoi` on a 64-bit platform: an optional sign, then one or more decimal digits
      (leading zeros allowed), whose value must fit in 64 bits; anything else is an error (None). */
  function Atoi(s: string): (r: Option<int>)
    ensures r.Some? ==> MinInt64 <= r.value <= MaxInt64
    ensures r.Some? ==> |s| > 0 && (IsDigit(s[0]) || ((s[0] == '-' || s[0] == '+') && |s| > 1))
    ensures r.Some? ==> forall i :: 1 <= i < |s| ==> IsDigit(s[i])
    ensures r.Some? && s[0] == '-' ==> r.value <= 0
  {
    if s == [] then None
    else
      var digits := if s[0] == '-' || s[0] == '+' then s[1..] else s;
      if digits == [] || !AllDigits(digits) then None
      else
        var magnitude: int := DigitsValue(digits);
        var v := if s[0] == '-' then -magnitude else magnitude;
        if MinInt64 <= v <= MaxInt64 then Some(v) else None
  }

  /** Reading back the digits of `n` gives `n`. */
  lemma {:induction false} NatDigitsValue(n: nat)
    ensures DigitsValue(NatDigits(n)) == n
    decreases n
  {
    var s := NatDigits(n);
    var q, d := n / 10, n % 10;
    var prefix := if n < 10 then [] else NatDigits(q);
    assert s == prefix + [DigitChar(d)];
    assert s[..|s| - 1] == prefix;
    assert DigitValue(DigitChar(d)) == d;
    assert DigitsValue(s) == DigitsValue(prefix) * 10 + d;
    if n >= 10 {
      NatDigitsValue(q);
    }
    assert n == q * 10 + d;
  }

  /** Parsing digits without a sign. */
  lemma AtoiDigits(d: string)
    requires d != [] && AllDigits(d)
    ensures Atoi(d) == if DigitsValue(d) <= MaxInt64 then Some(DigitsValue(d) as int) else None
  {
    assert IsDigit(d[0]);
    assert d[0] != '-' && d[0] != '+';
    var magnitude: int := DigitsValue(d);
    assert MinInt64 <= magnitude;
  }

  /** Parsing a minus sign followed by digits. */
  lemma AtoiNegativeDigits(d: string)
    requires d != [] && AllDigits(d)
    ensures Atoi("-" + d) == if MinInt64 <= -(DigitsValue(d) as int) then Some(-(DigitsValue(d) as int)) else None
  {
    var s := "-" + d;
    assert s[0] == '-';
    assert s[1..] == d;
    var v := -(DigitsValue(s[1..]) as int);
    assert v <= MaxInt64;
  }

  /** Printing then parsing gives the value back exactly when it fits in 64 bits. */
  lemma AtoiItoaRange(n: int)
    ensures Atoi(Itoa(n)) == if MinInt64 <= n <= MaxInt64 then Some(n) else None
  {
    var magnitude: nat := if n < 0 then -n else n;
    var d := NatDigits(magnitude);
    NatDigitsValue(magnitude);
    if n < 0 {
      assert Itoa(n) == "-" + d;
      AtoiNegativeDigits(d);
    } else {
      assert Itoa(n) == d;
      AtoiDigits(d);
    }
  }

  /** A character that is neither a digit nor the leading sign makes the whole string invalid. */
  lemma AtoiRejectsNonDigit(s: string, i: nat)
    requires i < |s| && !IsDigit(s[i])
    requires i == 0 ==> s[0] != '-' && s[0] != '+'
    ensures Atoi(s) == None
  {
    if s[0] == '-' || s[0] == '+' {
      assert s[1..][i - 1] == s[i];
    }
  }
}
