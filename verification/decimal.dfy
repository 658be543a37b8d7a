/** Python's `str()` on integers: the decimal rendering that the block hash input
    uses for `index` and `nonce`. The functions carry no postconditions, so that
    the hash input does not drag their facts into every proof; the facts are
    lemmas below. */
module Decimal {

  predicate IsDigit(c: char) {
    '0' <= c <= '9'
  }

  predicate AllDigits(s: string) {
    forall i :: 0 <= i < |s| ==> IsDigit(s[i])
  }

  function DigitChar(d: nat): char
    requires d < 10
  {
    '0' + d as char
  }

  function DigitValue(c: char): nat
    requires IsDigit(c)
  {
    c as int - '0' as int
  }

  /** `str(n)` for a non-negative integer. */
  function FromNat(n: nat): string
    decreases n
  {
    if n < 10 then [DigitChar(n)] else FromNat(n / 10) + [DigitChar(n % 10)]
  }

  /** `str(i)` for any integer: a minus sign in front of the magnitude when negative. */
  function FromInt(i: int): string {
    if i < 0 then "-" + FromNat(-i) else FromNat(i)
  }

  /** Reads a run of decimal digits back as a number. */
  function ToNat(s: string): nat
    requires AllDigits(s)
  {
    if |s| == 0 then 0 else ToNat(s[..|s| - 1]) * 10 + DigitValue(s[|s| - 1])
  }

  /** `str(n)` is a non-empty run of digits with no leading zero, except "0" itself. */
  lemma {:induction false} FromNatIsNumeral(n: nat)
    ensures |FromNat(n)| > 0 && AllDigits(FromNat(n))
    ensures FromNat(n)[0] == '0' <==> n == 0
    decreases n
  {
    if n >= 10 {
      FromNatIsNumeral(n / 10);
      assert FromNat(n)[0] == FromNat(n / 10)[0];
    }
  }

  /** Reading back what `FromNat` writes gives the number itself. */
  lemma {:induction false} NatRoundTrip(n: nat)
    ensures AllDigits(FromNat(n))
    ensures ToNat(FromNat(n)) == n
    decreases n
  {
    FromNatIsNumeral(n);
    var s := FromNat(n);
    if n >= 10 {
      NatRoundTrip(n / 10);
      assert s[..|s| - 1] == FromNat(n / 10);
    }
  }

  /** `str(i)` starts with a minus sign exactly for negative `i`. */
  lemma FromIntSign(i: int)
    ensures |FromInt(i)| > 0 && (FromInt(i)[0] == '-' <==> i < 0)
  {
    FromNatIsNumeral(if i < 0 then -i else i);
  }

  /** Distinct integers render differently. */
  lemma FromIntInjective(i: int, j: int)
    ensures FromInt(i) == FromInt(j) <==> i == j
  {
    if FromInt(i) == FromInt(j) {
      FromIntSign(i);
      FromIntSign(j);
      var m, n := if i < 0 then -i else i, if j < 0 then -j else j;
      assert FromNat(m) == FromNat(n) by {
        if i < 0 {
          assert FromInt(i)[1..] == FromNat(m) && FromInt(j)[1..] == FromNat(n);
        }
      }
      NatRoundTrip(m);
      NatRoundTrip(n);
    }
  }
}
