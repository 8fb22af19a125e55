/** Decimal text of the numbers in a history header: what the source's
    template literal prints for an integer and what `parseInt(…, 10)`
    reads back. */
module Decimal {
  import opened Bytes

  predicate IsDigit(b: byte)
  {
    ZERO <= b <= ZERO + 9
  }

  predicate AllDigits(s: seq<byte>)
  {
    forall i :: 0 <= i < |s| ==> IsDigit(s[i])
  }

  /** The decimal digits of `n`, most significant first, no leading zeros. */
  function Digits(n: nat): (r: seq<byte>)
    ensures r != [] && AllDigits(r)
  {
    if n < 10 then [(ZERO as int + n) as byte]
    else Digits(n / 10) + [(ZERO as int + n % 10) as byte]
  }

  /** No leading zeros: only zero itself is written with a leading '0'. */
  lemma {:induction false} DigitsNoLeadingZero(n: nat)
    ensures Digits(n)[0] == ZERO ==> n == 0
  {
    if n >= 10 {
      DigitsNoLeadingZero(n / 10);
      assert Digits(n)[0] == Digits(n / 10)[0];
    }
  }

  /** Appending a digit to a positive number appends it to the digits. */
  lemma DigitsStep(n: nat, d: nat)
    requires n >= 1 && d < 10
    ensures Digits(10 * n + d) == Digits(n) + [(ZERO as int + d) as byte]
  {
  }

  /** The value of a run of digits, read left to right. */
  function DigitsValue(s: seq<byte>): nat
    requires AllDigits(s)
  {
    if s == [] then 0
    else DigitsValue(s[..|s| - 1]) * 10 + (Last(s) - ZERO) as int
  }

  /** How an integer prints: a minus sign for negatives, then its digits. */
  function IntText(n: int): seq<byte>
  {
    if n < 0 then [MINUS] + Digits(-n) else Digits(n)
  }

  /** An optional sign followed by at least one digit and nothing else;
      anything else is a parse failure. */
  function ParseInt(s: seq<byte>): Option<int>
  {
    if s != [] && (s[0] == MINUS || s[0] == PLUS) then
      var d := s[1..];
      if d != [] && AllDigits(d) then
        var v: int := DigitsValue(d);
        Some(if s[0] == MINUS then -v else v)
      else None
    else if s != [] && AllDigits(s) then Some(DigitsValue(s))
    else None
  }

  lemma {:induction false} DigitsValueOfDigits(n: nat)
    ensures DigitsValue(Digits(n)) == n
  {
    if n >= 10 {
      var d := Digits(n);
      assert d[..|d| - 1] == Digits(n / 10);
      DigitsValueOfDigits(n / 10);
    }
  }

  /** Reading back the printed text of any integer gives the integer. */
  lemma ParseIntText(n: int)
    ensures ParseInt(IntText(n)) == Some(n)
  {
    if n < 0 {
      DigitsValueOfDigits(-n);
      assert IntText(n)[1..] == Digits(-n);
    } else {
      DigitsValueOfDigits(n);
    }
  }

  /** Printed integers hold only a sign and digits, so no header delimiter. */
  lemma IntTextBytes(n: int)
    ensures IntText(n) != []
    ensures forall i :: 0 <= i < |IntText(n)| ==> IntText(n)[i] == MINUS || IsDigit(IntText(n)[i])
    ensures COLON !in IntText(n) && SEMICOLON !in IntText(n) && LF !in IntText(n) && BACKSLASH !in IntText(n)
  {
    var t := IntText(n);
    forall i | 0 <= i < |t| ensures t[i] == MINUS || IsDigit(t[i]) {
      if n < 0 && i > 0 {
        assert t[i] == Digits(-n)[i - 1];
      }
    }
  }
}
