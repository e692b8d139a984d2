// Decimal text and 32-bit integers, shared by the number-reading system
// calls of both kernels: digit tests, the value of a digit string, the
// canonical decimal form of an int (what sprintf("%d") prints), and the
// two's-complement wrap-around of a C int.
module Decimal {

  const INT_MAX := 0x7fff_ffff
  const INT_MIN := -0x8000_0000
  const TWO_32 := 0x1_0000_0000

  predicate IsInt32(x: int)
  {
    INT_MIN <= x <= INT_MAX
  }

  /**
   * x reduced into the int range modulo 2^32: the value a C int holds after
   * an arithmetic result x overflows on a two's-complement machine.
   */
  function Wrap32(x: int): (r: int)
    ensures IsInt32(r)
    ensures IsInt32(x) ==> r == x
  {
    (x - INT_MIN) % TWO_32 + INT_MIN
  }

  /** Results equal modulo 2^32 wrap to the same int. */
  lemma WrapShift(x: int, k: int)
    ensures Wrap32(x + k * TWO_32) == Wrap32(x)
  {
    var a := x - INT_MIN;
    assert (a + k * TWO_32) % TWO_32 == a % TWO_32 by {
      var q := a / TWO_32;
      var r := a % TWO_32;
      assert a == q * TWO_32 + r && 0 <= r < TWO_32;
      assert a + k * TWO_32 == (q + k) * TWO_32 + r;
    }
  }

  /**
   * Wrapping an operand of a*x + b first does not change the wrapped
   * result: a C computation that wraps at every step ends where the exact
   * one wrapped once at the end ends.
   */
  lemma WrapAffine(x: int, a: int, b: int)
    ensures Wrap32(a * Wrap32(x) + b) == Wrap32(a * x + b)
  {
    var k := (x - INT_MIN) / TWO_32;
    assert Wrap32(x) == x - k * TWO_32;
    assert a * Wrap32(x) + b == (a * x + b) + (-a * k) * TWO_32;
    WrapShift(a * x + b, -a * k);
  }

  // ---------------------------------------------------------------------
  // Digits
  // ---------------------------------------------------------------------

  predicate IsDigit(c: char)
  {
    '0' <= c <= '9'
  }

  predicate AllDigits(s: seq<char>)
  {
    forall i :: 0 <= i < |s| ==> IsDigit(s[i])
  }

  /** c - '0' */
  function DigitOf(c: char): (d: int)
    requires IsDigit(c)
    ensures 0 <= d < 10
  {
    c as int - '0' as int
  }

  function DigitChar(d: int): (c: char)
    requires 0 <= d < 10
    ensures IsDigit(c) && DigitOf(c) == d
  {
    ('0' as int + d) as char
  }

  /** 1 when the input starts with '-' (that character is skipped), else 0. */
  function SignLength(input: seq<char>): (k: nat)
    ensures k <= 1 && (k == 1 <==> |input| > 0 && input[0] == '-')
  {
    if |input| > 0 && input[0] == '-' then 1 else 0
  }

  /** The value of a digit string, read left to right: v := v * 10 + digit. */
  function DigitValue(s: seq<char>): (v: nat)
    requires AllDigits(s)
    decreases |s|
  {
    if s == [] then 0 else 10 * DigitValue(s[..|s| - 1]) + DigitOf(s[|s| - 1])
  }

  /** The length of the run of digits s starts with. */
  function DigitRun(s: seq<char>): (k: nat)
    ensures k <= |s| && AllDigits(s[..k])
    ensures k < |s| ==> !IsDigit(s[k])
  {
    if s == [] || !IsDigit(s[0]) then 0
    else
      var k := DigitRun(s[1..]);
      assert s[..1 + k] == [s[0]] + s[1..][..k];
      1 + k
  }

  /** The digits of n, most significant first, without leading zeros. */
  function Digits(n: nat): (s: string)
    decreases n
    ensures |s| >= 1 && AllDigits(s)
    ensures |s| > 1 ==> s[0] != '0'
  {
    if n < 10 then [DigitChar(n)]
    else
      var p := Digits(n / 10);
      assert (p + [DigitChar(n % 10)])[0] == p[0];
      p + [DigitChar(n % 10)]
  }

  /** The canonical decimal form of n: '-' exactly for n < 0, no leading zeros. */
  function DecimalString(n: int): (s: string)
  {
    if n < 0 then "-" + Digits(-n) else Digits(n)
  }

  function Pow10(k: nat): (p: nat)
    ensures p >= 1
  {
    if k == 0 then 1 else 10 * Pow10(k - 1)
  }

  /** Reading back the digits of n gives n. */
  lemma {:induction false} DigitsValue(n: nat)
    decreases n
    ensures DigitValue(Digits(n)) == n
  {
    if n >= 10 {
      DigitsValue(n / 10);
      var s := Digits(n);
      assert s[..|s| - 1] == Digits(n / 10);
    }
  }

  /** A number below 10^k has at most k digits. */
  lemma {:induction false} DigitsLength(n: nat, k: nat)
    requires 1 <= k && n < Pow10(k)
    decreases k
    ensures |Digits(n)| <= k
  {
    if n >= 10 {
      assert k >= 2;
      assert n / 10 < Pow10(k - 1);
      DigitsLength(n / 10, k - 1);
    }
  }

  /** Every int prints in at most 11 characters. */
  lemma DecimalStringLength(n: int)
    requires IsInt32(n)
    ensures |DecimalString(n)| <= 11
  {
    assert Pow10(10) == 10_000_000_000;
    if n < 0 {
      DigitsLength(-n, 10);
    } else {
      DigitsLength(n, 10);
    }
  }

  /** A digit string's value grows (weakly) with each further digit. */
  lemma {:induction false} DigitValuePrefix(s: seq<char>, k: nat)
    requires AllDigits(s) && k <= |s|
    decreases |s|
    ensures DigitValue(s[..k]) <= DigitValue(s)
  {
    if k < |s| {
      assert s[..|s| - 1][..k] == s[..k];
      DigitValuePrefix(s[..|s| - 1], k);
    } else {
      assert s[..k] == s;
    }
  }

  lemma DigitValueSnoc(s: seq<char>, c: char)
    requires AllDigits(s) && IsDigit(c)
    ensures AllDigits(s + [c]) && DigitValue(s + [c]) == 10 * DigitValue(s) + DigitOf(c)
  {
    assert (s + [c])[..|s|] == s;
  }
}
