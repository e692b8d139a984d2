// Handle_SC_ReadInt of the Project_03 kernel (userprog/exception.cc). Unlike
// the original kernel's handler it always writes r2 and advances the PC: the
// digits after an optional '-' are accumulated until the first non-digit,
// a value that would leave the int range gives 0, and the text
// "-2147483648" is recognised before any of that. The bytes the console Read
// delivered (at most MAX_NUM_LENGTH + 1) are a parameter; the messages it
// prints are not modelled.
module Project3ReadInt {
  import opened Decimal
  import opened UserMachine

  const MAX_NUM_LENGTH := 11

  const INT_MIN_TEXT: seq<CByte> := "-2147483648"

  /** The zero-filled buffer the console Read writes into. */
  function NumberBuffer(input: seq<CByte>): (buf: seq<CByte>)
    requires |input| <= MAX_NUM_LENGTH + 1
    ensures |buf| == MAX_NUM_LENGTH + 2 && buf[..|input|] == input
  {
    input + Zeros(MAX_NUM_LENGTH + 2 - |input|)
  }

  /**
   * The value Handle_SC_ReadInt writes to r2: INT_MIN for the C string
   * "-2147483648"; 0 for no input; otherwise the value of the leading digit
   * run after an optional '-', negated after a '-', or 0 when that value
   * exceeds INT_MAX.
   */
  function ReadIntResult(input: seq<CByte>): (r: int)
    requires |input| <= MAX_NUM_LENGTH + 1
  {
    if CStr(NumberBuffer(input)) == INT_MIN_TEXT then INT_MIN
    else if |input| == 0 then 0
    else
      var body := input[SignLength(input)..];
      var v := DigitValue(body[..DigitRun(body)]);
      var u := if v > INT_MAX then 0 else v;
      if SignLength(input) == 1 then -u else u
  }

  /** The result is always an int. */
  lemma ReadIntResultInRange(input: seq<CByte>)
    requires |input| <= MAX_NUM_LENGTH + 1
    ensures IsInt32(ReadIntResult(input))
  {
  }

  /** The loop of Handle_SC_ReadInt, from the first digit position on. */
  method AccumulateDigits(buffer: seq<CByte>, start: nat, len: nat) returns (result: int)
    requires start <= len <= |buffer|
    ensures var body := buffer[start..len];
      var v := DigitValue(body[..DigitRun(body)]);
      result == if v > INT_MAX then 0 else v
  {
    ghost var body := buffer[start..len];
    ghost var k := DigitRun(body);
    result := 0;
    var i := start;
    while i < len
      invariant start <= i <= len && i - start <= k
      invariant result == DigitValue(body[..i - start]) <= INT_MAX
    {
      var c := buffer[i];
      assert c == body[i - start];
      if c < '0' || c > '9' {
        assert i - start == k;
        return;
      }
      var v := c as int - '0' as int;
      RunStep(body, k, i - start);
      var limit := INT_MAX;
      if result > limit / 10 {
        result := 0;
        return;
      } else {
        result := result * 10;
      }
      if result > limit - v {
        result := 0;
        return;
      } else {
        result := result + v;
      }
      i := i + 1;
    }
    assert k == len - start;
  }

  /** One more digit of the run: the prefix value grows by that digit and stays below the run's value. */
  lemma RunStep(body: seq<char>, k: nat, j: nat)
    requires k == DigitRun(body) && j < |body| && j <= k && IsDigit(body[j])
    ensures j < k && AllDigits(body[..j + 1])
    ensures DigitValue(body[..j + 1]) == 10 * DigitValue(body[..j]) + DigitOf(body[j])
    ensures DigitValue(body[..j + 1]) <= DigitValue(body[..k])
  {
    assert j != k by {
      assert k < |body| ==> !IsDigit(body[k]);
    }
    PrefixBound(body, k, j + 1);
    PrefixSnoc(body, j);
  }

  lemma PrefixBound(s: seq<char>, k: nat, j: nat)
    requires j <= k <= |s| && AllDigits(s[..k])
    ensures AllDigits(s[..j]) && DigitValue(s[..j]) <= DigitValue(s[..k])
  {
    assert s[..k][..j] == s[..j];
    DigitValuePrefix(s[..k], j);
  }

  lemma PrefixSnoc(s: seq<char>, j: nat)
    requires j < |s| && AllDigits(s[..j + 1])
    ensures AllDigits(s[..j]) && DigitValue(s[..j + 1]) == 10 * DigitValue(s[..j]) + DigitOf(s[j])
  {
    assert s[..j + 1] == s[..j] + [s[j]];
    DigitValueSnoc(s[..j], s[j]);
  }

  /**
   * Handle_SC_ReadInt: writes ReadIntResult(input) to r2 and advances the
   * PC on every input.
   */
  method HandleReadInt(m: Machine, input: seq<CByte>)
    requires m.Valid() && |input| <= MAX_NUM_LENGTH + 1
    modifies m`registers
    ensures m.Valid() && m.registers == PCAdvanced(old(m.registers)[2 := ReadIntResult(input)])
  {
    var result := 0;
    var numberBuffer := NumberBuffer(input);
    var len := |input|;
    if CStr(numberBuffer) == INT_MIN_TEXT {
      result := INT_MIN;
    } else if len != 0 {
      var isNumber := true;
      var isNegative := numberBuffer[0] == '-';
      var start := if isNegative then 1 else 0;
      assert numberBuffer[start..len] == input[SignLength(input)..];
      result := AccumulateDigits(numberBuffer, start, len);
      if isNegative {
        result := -result;
      }
      var isOutOfRange := result < INT_MIN || result > INT_MAX;
      if isNumber && isOutOfRange {
        result := 0;
      }
    }
    m.WriteRegister(2, result);
    m.IncreasePC();
  }

  // ---------------------------------------------------------------------
  // Properties
  // ---------------------------------------------------------------------

  lemma DigitsOfIntMin()
    ensures DecimalString(INT_MIN) == INT_MIN_TEXT
  {
    assert Digits(2) == "2";
    assert Digits(21) == Digits(2) + "1";
    assert Digits(214) == Digits(21) + "4";
    assert Digits(2147) == Digits(214) + "7";
    assert Digits(21474) == Digits(2147) + "4";
    assert Digits(214748) == Digits(21474) + "8";
    assert Digits(2147483) == Digits(214748) + "3";
    assert Digits(21474836) == Digits(2147483) + "6";
    assert Digits(214748364) == Digits(21474836) + "4";
    assert Digits(2147483648) == Digits(214748364) + "8";
    assert DecimalString(INT_MIN) == "-" + Digits(2147483648);
  }

  /** DigitRun is the k with digits before it and a non-digit (or the end) at it. */
  lemma {:induction false} DigitRunIs(s: seq<char>, k: nat)
    requires k <= |s| && AllDigits(s[..k]) && (k < |s| ==> !IsDigit(s[k]))
    ensures DigitRun(s) == k
  {
    if k > 0 {
      assert IsDigit(s[..k][0]);
      assert s[1..][..k - 1] == s[..k][1..];
      assert k - 1 < |s[1..]| ==> s[1..][k - 1] == s[k];
      DigitRunIs(s[1..], k - 1);
    }
  }

  /** A decimal form holds no NUL, so it is a whole C string. */
  lemma DecimalCString(n: int, s: seq<CByte>)
    requires IsInt32(n) && s == DecimalString(n)
    ensures |s| <= MAX_NUM_LENGTH + 1 && CStr(NumberBuffer(s)) == s
  {
    DecimalStringLength(n);
    var d := Digits(if n < 0 then -n else n);
    assert forall i :: 0 <= i < |s| ==> s[i] != NUL by {
      forall i | 0 <= i < |s|
        ensures s[i] != NUL
      {
        if n < 0 && i > 0 {
          assert s[i] == d[i - 1];
        } else if n >= 0 {
          assert IsDigit(d[i]);
        }
      }
    }
    NulIndexIs(NumberBuffer(s), |s|);
  }

  /** Distinct ints have distinct decimal forms. */
  lemma DecimalStringInjective(a: int, b: int)
    requires DecimalString(a) == DecimalString(b)
    ensures a == b
  {
    var s := DecimalString(a);
    assert IsDigit(Digits(if a < 0 then -a else a)[0]);
    assert IsDigit(Digits(if b < 0 then -b else b)[0]);
    if a < 0 {
      assert s[0] == '-';
      assert b < 0;
      assert s[1..] == Digits(-a) == Digits(-b);
      DigitsValue(-a);
      DigitsValue(-b);
    } else {
      assert b >= 0;
      DigitsValue(a);
      DigitsValue(b);
    }
  }

  /** Every int typed in its decimal form is read back, INT_MIN included. */
  lemma ReadIntOfDecimal(n: int, s: seq<CByte>)
    requires IsInt32(n) && s == DecimalString(n)
    ensures |s| <= MAX_NUM_LENGTH + 1 && ReadIntResult(s) == n
  {
    DecimalCString(n, s);
    DigitsOfIntMin();
    if n != INT_MIN {
      if s == INT_MIN_TEXT {
        DecimalStringInjective(n, INT_MIN);
      }
      var m := if n < 0 then -n else n;
      var d := Digits(m);
      var body := s[SignLength(s)..];
      assert body == d by {
        if n < 0 {
          assert s == "-" + d;
        } else {
          assert IsDigit(d[0]);
        }
      }
      assert body[..|body|] == d;
      DigitRunIs(body, |body|);
      DigitsValue(m);
    }
  }

  /**
   * Digits worth more than INT_MAX after an optional '-' read as 0, apart
   * from the text "-2147483648".
   */
  lemma ReadIntOverflow(negative: bool, d: seq<CByte>, s: seq<CByte>)
    requires AllDigits(d) && DigitValue(d) > INT_MAX
    requires s == (if negative then ['-' as CByte] else []) + d && |s| <= MAX_NUM_LENGTH + 1
    requires CStr(NumberBuffer(s)) != INT_MIN_TEXT
    ensures ReadIntResult(s) == 0
  {
    var body := s[SignLength(s)..];
    assert body == d by {
      if !negative {
        assert d != [] && IsDigit(d[0]);
      }
    }
    assert body[..|body|] == d;
    DigitRunIs(body, |body|);
  }

  /**
   * At the first non-digit the reading stops: the result is the signed
   * value of the digits before it, whatever follows.
   */
  lemma ReadIntStopsAtNonDigit(negative: bool, d: seq<CByte>, c: CByte, rest: seq<CByte>, s: seq<CByte>)
    requires AllDigits(d) && DigitValue(d) <= INT_MAX && !IsDigit(c)
    requires s == (if negative then ['-' as CByte] else []) + d + [c] + rest
    requires |s| <= MAX_NUM_LENGTH + 1
    requires negative || d != [] || c != '-'
    ensures ReadIntResult(s) == if negative then -(DigitValue(d) as int) else DigitValue(d)
  {
    var sign: seq<CByte> := if negative then ['-' as CByte] else [];
    var body := s[SignLength(s)..];
    assert body == d + [c] + rest by {
      if !negative {
        if d != [] {
          assert s[0] == d[0] && IsDigit(d[0]);
        } else {
          assert s[0] == c;
        }
      }
    }
    assert body[|d|] == c;
    assert forall i :: 0 <= i < |d| ==> body[i] == d[i];
    assert body[..|d|] == d;
    DigitRunIs(body, |d|);
    NotIntMinText(negative, d, c, rest, s);
  }

  lemma IntMinTextDigits()
    ensures AllDigits(INT_MIN_TEXT[1..]) && DigitValue(INT_MIN_TEXT[1..]) == 2147483648
  {
    DigitsOfIntMin();
    DigitsValue(2147483648);
    assert INT_MIN_TEXT[1..] == Digits(2147483648);
  }

  /**
   * A sign, digits worth at most INT_MAX and a non-digit never spell the
   * C string "-2147483648": a '-' and ten digits followed by NUL would be
   * worth 2147483648.
   */
  lemma NotIntMinText(negative: bool, d: seq<CByte>, c: CByte, rest: seq<CByte>, s: seq<CByte>)
    requires AllDigits(d) && DigitValue(d) <= INT_MAX && !IsDigit(c)
    requires s == (if negative then ['-' as CByte] else []) + d + [c] + rest
    requires |s| <= MAX_NUM_LENGTH + 1
    requires negative || d != [] || c != '-'
    ensures CStr(NumberBuffer(s)) != INT_MIN_TEXT
  {
    var buf := NumberBuffer(s);
    var k := NulIndex(buf);
    var t := CStr(buf);
    if !negative {
      assert s[0] != '-' by {
        if d != [] {
          assert s[0] == d[0] && IsDigit(d[0]);
        } else {
          assert s[0] == c;
        }
      }
      assert |t| == 0 || t[0] == s[0];
      assert |t| == 0 || t[0] != INT_MIN_TEXT[0];
    } else {
      var p := 1 + |d|;
      assert s[p] == c && buf[p] == c;
      assert forall i :: 0 <= i < p ==> buf[i] != NUL by {
        assert forall i :: 1 <= i < p ==> buf[i] == d[i - 1];
      }
      assert k >= p;
      if k == p {
        if |d| == 10 {
          IntMinTextDigits();
          assert d != INT_MIN_TEXT[1..];
          assert t[1..] == d;
        } else {
          assert |t| != |INT_MIN_TEXT|;
        }
      } else if p < 11 {
        assert t[p] == c && IsDigit(INT_MIN_TEXT[p]);
      } else {
        assert |t| > 11;
      }
    }
  }
}
