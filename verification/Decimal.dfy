/** Decimal numerals: Go's strconv.Itoa and strconv.Atoi, and the digit scanning that fmt and
    strconv share. */
module Decimal {

  import opened Wrappers

  const MIN_INT64: int := -0x8000_0000_0000_0000
  const MAX_INT64: int := 0x7FFF_FFFF_FFFF_FFFF

  predicate IsDigit(c: char) {
    '0' <= c <= '9'
  }

  predicate AllDigits(s: string) {
    forall i | 0 <= i < |s| :: IsDigit(s[i])
  }

  function DigitChar(d: nat): char
    requires d < 10
  {
    '0' + d as char
  }

  function DigitValue(c: char): (d: nat)
    requires IsDigit(c)
    ensures d < 10
  {
    (c as int) - ('0' as int)
  }

  /** The numeral of a natural number, without leading zeros. */
  function Digits(n: nat): (s: string)
    ensures s != "" && AllDigits(s)
  {
    if n < 10 then [DigitChar(n)] else Digits(n / 10) + [DigitChar(n % 10)]
  }

  function Value(s: string): nat
    requires AllDigits(s)
  {
    if s == "" then 0 else Value(s[..|s| - 1]) * 10 + DigitValue(s[|s| - 1])
  }

  lemma {:induction false} ValueDigits(n: nat)
    ensures Value(Digits(n)) == n
  {
    if n >= 10 {
      ValueDigits(n / 10);
      assert Digits(n)[..|Digits(n)| - 1] == Digits(n / 10);
    } else {
      assert Digits(n)[..0] == "";
    }
  }

  /** The numeral of ten times a number and a digit is its numeral and that digit. */
  lemma DigitsSnoc(n: nat, d: nat)
    requires n > 0 && d < 10
    ensures Digits(10 * n + d) == Digits(n) + ["0123456789"[d]]
  {
    assert (10 * n + d) / 10 == n && (10 * n + d) % 10 == d;
    DigitNumeral(d);
  }

  lemma DigitNumeral(d: nat)
    requires d < 10
    ensures Digits(d) == ["0123456789"[d]] == [DigitChar(d)]
  {
  }

  /** Length of the longest prefix of digits. */
  function DigitRun(s: string): (n: nat)
    ensures n <= |s| && AllDigits(s[..n])
    ensures n < |s| ==> !IsDigit(s[n])
  {
    if s == "" || !IsDigit(s[0]) then 0 else 1 + DigitRun(s[1..])
  }

  lemma {:induction false} DigitRunAppend(a: string, b: string)
    requires AllDigits(a) && (b == "" || !IsDigit(b[0]))
    ensures DigitRun(a + b) == |a|
  {
    if a == "" {
      assert a + b == b;
    } else {
      assert (a + b)[1..] == a[1..] + b;
      DigitRunAppend(a[1..], b);
    }
  }

  function Itoa(v: int): string {
    if v < 0 then "-" + Digits(-v) else Digits(v)
  }

  /** strconv.Atoi: an optional sign and at least one digit, in the range of int64. */
  function Atoi(s: string): Option<int> {
    var signed := s != "" && (s[0] == '-' || s[0] == '+');
    var digits := if signed then s[1..] else s;
    if digits == "" || !AllDigits(digits) then None
    else
      var n: int := Value(digits);
      var v := if signed && s[0] == '-' then -n else n;
      if MIN_INT64 <= v <= MAX_INT64 then Some(v) else None
  }

  lemma AtoiItoa(v: int)
    requires MIN_INT64 <= v <= MAX_INT64
    ensures Atoi(Itoa(v)) == Some(v)
  {
    var n := if v < 0 then -v else v;
    ValueDigits(n);
    assert v < 0 ==> Itoa(v)[1..] == Digits(n);
  }

  lemma {:induction false} NoLeadingZero(n: nat)
    ensures Digits(n)[0] == '0' <==> n == 0
    decreases n
  {
    if n >= 10 {
      NoLeadingZero(n / 10);
    }
  }

  /** A numeral has a sign only for a negative number, and no digit too many. */
  lemma ItoaCanonical(v: int)
    ensures Itoa(v)[0] == '-' <==> v < 0
    ensures Itoa(v)[if v < 0 then 1 else 0] == '0' <==> v == 0
  {
    NoLeadingZero(if v < 0 then -v else v);
  }

  /** What Atoi accepts: an optional sign and digits whose value is in range. */
  lemma AtoiExactly(s: string, v: int)
    ensures Atoi(s) == Some(v) <==>
      MIN_INT64 <= v <= MAX_INT64 &&
      exists digits: string :: digits != "" && AllDigits(digits) &&
        (|| (s == "-" + digits && v == -(Value(digits) as int))
         || ((s == digits || s == "+" + digits) && v == Value(digits)))
  {
    if Atoi(s) == Some(v) {
      var signed := s != "" && (s[0] == '-' || s[0] == '+');
      var digits := if signed then s[1..] else s;
      assert digits != "" && AllDigits(digits);
      assert signed ==> s == [s[0]] + digits;
    }
    forall digits: string | digits != "" && AllDigits(digits)
      ensures Atoi("-" + digits) == if -(Value(digits) as int) >= MIN_INT64 then Some(-(Value(digits) as int)) else None
      ensures Atoi("+" + digits) == Atoi(digits) == if Value(digits) <= MAX_INT64 then Some(Value(digits)) else None
    {
      assert ("-" + digits)[1..] == digits && ("+" + digits)[1..] == digits;
      assert IsDigit(digits[0]);
    }
  }

  lemma ItoaPlain(v: int, c: char)
    requires !IsDigit(c) && c != '-'
    ensures Itoa(v) != "" && c !in Itoa(v)
  {
  }
}
