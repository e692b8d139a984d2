// The number handling of the original kernel's exception.cc
// (nachos/nachos-3.4/code/userprog): compareNumAndString, SysReadNum and
// the ReadInt, ReadFloat and CreateFile system-call handlers. What the user
// typed enters as the bytes the console Read delivered (at most
// MAX_NUM_LENGTH + 1 of them); the host's answer to Create enters as a
// flag. Messages printed on the console are not modelled. A C int
// computation that overflows is modelled as two's-complement wrap-around
// (Wrap32); in C it is undefined behaviour.
module BaseSyscalls {
  import opened Wrappers
  import opened Decimal
  import opened UserMachine

  const MaxFileLength := 32
  const MAX_NUM_LENGTH := 11

  // ---------------------------------------------------------------------
  // compareNumAndString
  // ---------------------------------------------------------------------

  /** The digits of m, most significant first; empty for 0. */
  function PositiveDigits(m: nat): (s: string)
    decreases m
  {
    if m == 0 then [] else PositiveDigits(m / 10) + [DigitChar(m % 10)]
  }

  lemma {:induction false} PositiveDigitsAreDigits(m: nat)
    requires m > 0
    decreases m
    ensures PositiveDigits(m) == Digits(m)
  {
    if m >= 10 {
      PositiveDigitsAreDigits(m / 10);
    }
  }

  /** A prefix spells n exactly when its last character is n's last digit and the rest spells n / 10. */
  lemma LastDigitStep(t: string, len: nat, n: nat)
    requires 0 < len <= |t| && n > 0
    ensures (t[..len] == PositiveDigits(n)) <==>
      ((t[len - 1] as int) - ('0' as int) == n % 10 && t[..len - 1] == PositiveDigits(n / 10))
  {
    assert t[..len] == t[..len - 1] + [t[len - 1]];
    assert PositiveDigits(n) == PositiveDigits(n / 10) + [DigitChar(n % 10)];
    SnocEq(t[..len - 1], t[len - 1], PositiveDigits(n / 10), DigitChar(n % 10));
    DigitCharIs(t[len - 1], n % 10);
  }

  lemma SnocEq(a: string, x: char, b: string, y: char)
    ensures a + [x] == b + [y] <==> a == b && x == y
  {
    if a + [x] == b + [y] {
      assert a == (a + [x])[..|a|];
      assert b == (b + [y])[..|b|];
      assert x == (a + [x])[|a|];
    }
  }

  lemma DigitCharIs(c: char, d: int)
    requires 0 <= d < 10
    ensures c == DigitChar(d) <==> (c as int) - ('0' as int) == d
  {
    assert DigitChar(d) as int == '0' as int + d;
    if (c as int) - ('0' as int) == d {
      assert c == (c as int) as char;
    }
  }

  /**
   * compareNumAndString(integer, s): true exactly when the C string s is
   * the canonical decimal form of integer. Negating INT_MIN is undefined,
   * hence the bound.
   */
  method CompareNumAndString(integer: int, s: string) returns (b: bool)
    requires INT_MIN < integer <= INT_MAX
    ensures b <==> s == DecimalString(integer)
  {
    if integer == 0 {
      return s == "0";
    }
    var len := |s|;
    var n := integer;
    var start := 0;
    // s[0] of the empty string is its terminator, which is not '-'
    if n < 0 && (|s| == 0 || s[0] != '-') {
      return false;
    }
    if n < 0 {
      start, len, n := 1, len - 1, -n;
    }
    ghost var t := s[start..];
    ghost var n0 := n;
    PositiveDigitsAreDigits(n0);
    assert s == DecimalString(integer) <==> t == PositiveDigits(n0) by {
      if integer < 0 {
        assert s == [s[0]] + t;
      }
    }
    while n > 0
      invariant 0 <= n && 0 <= len <= |t| && |t| == |s| - start
      invariant (t == PositiveDigits(n0)) <==> (t[..len] == PositiveDigits(n))
    {
      var digit := n % 10;
      // With no character left, the C++ reads one before the string (the
      // '-' or an unrelated byte); len then only decreases, so the final
      // len == 0 fails whatever was read.
      if len == 0 {
        return false;
      }
      assert s[start + len - 1] == t[len - 1];
      LastDigitStep(t, len, n);
      if (s[start + len - 1] as int) - ('0' as int) != digit {
        return false;
      }
      len := len - 1;
      n := n / 10;
    }
    return len == 0;
  }

  /** One more digit: the wrapped value is ten times the previous one plus the digit, wrapped. */
  lemma WrappedDigitStep(s: seq<char>, c: char)
    requires AllDigits(s) && IsDigit(c)
    ensures AllDigits(s + [c])
    ensures Wrap32(DigitValue(s + [c])) == Wrap32(10 * Wrap32(DigitValue(s)) + (c as int - '0' as int))
  {
    DigitValueSnoc(s, c);
    WrapAffine(DigitValue(s), 10, DigitOf(c));
  }

  // ---------------------------------------------------------------------
  // SysReadNum
  // ---------------------------------------------------------------------

  /**
   * SysReadNum's answer: 0 for no input or any non-digit after the
   * optional '-'; otherwise the value of the digits, the sign ignored.
   */
  function ReadNumValue(input: seq<char>): (r: int)
    ensures IsInt32(r)
  {
    if |input| == 0 then 0
    else
      var body := input[SignLength(input)..];
      if AllDigits(body) then Wrap32(DigitValue(body)) else 0
  }

  method SysReadNum(input: seq<CByte>) returns (r: int)
    requires |input| <= MAX_NUM_LENGTH + 1
    ensures r == ReadNumValue(input)
  {
    var len := |input|;
    if len == 0 {
      return 0;
    }
    var isNegative := input[0] == '-';
    var start := if isNegative then 1 else 0;
    var result := 0;
    var i := start;
    while i < len
      invariant start <= i <= len
      invariant AllDigits(input[start..i])
      invariant result == Wrap32(DigitValue(input[start..i]))
    {
      var c := input[i];
      if c < '0' || c > '9' {
        assert !IsDigit(input[start..][i - start]);
        return 0;
      }
      assert input[start..i + 1] == input[start..i] + [c];
      WrappedDigitStep(input[start..i], c);
      result := Wrap32(result * 10 + (c as int - '0' as int));
      i := i + 1;
    }
    assert input[start..i] == input[SignLength(input)..];
    return result;
  }

  /** SysReadNum reads a number back without its sign. */
  lemma ReadNumOfDecimal(n: int)
    requires INT_MIN < n <= INT_MAX
    ensures ReadNumValue(DecimalString(n)) == if n < 0 then -n else n
  {
    var m := if n < 0 then -n else n;
    DigitsValue(m);
    var s := DecimalString(n);
    assert s[SignLength(s)..] == Digits(m) by {
      if n < 0 {
        assert s == "-" + Digits(m);
      } else {
        assert s[0] != '-';
      }
    }
  }

  // ---------------------------------------------------------------------
  // Handle_SC_ReadInt
  // ---------------------------------------------------------------------

  /**
   * What Handle_SC_ReadInt puts in r2, or None when it returns early (no
   * input, or a non-digit after the optional '-').
   */
  function ReadIntValue(input: seq<char>): (r: Option<int>)
    ensures r.Some? ==> IsInt32(r.value)
    ensures r.None? <==> |input| == 0 || !AllDigits(input[SignLength(input)..])
  {
    if |input| == 0 then None
    else
      var body := input[SignLength(input)..];
      if !AllDigits(body) then None
      else if SignLength(input) == 1 then Some(Wrap32(-(DigitValue(body) as int)))
      else Some(Wrap32(DigitValue(body)))
  }

  /** Every int read back from its decimal form is itself, INT_MIN included. */
  lemma ReadIntOfDecimal(n: int)
    requires IsInt32(n)
    ensures ReadIntValue(DecimalString(n)) == Some(n)
  {
    var m := if n < 0 then -n else n;
    DigitsValue(m);
    var s := DecimalString(n);
    if n < 0 {
      assert s == "-" + Digits(m);
      assert s[1..] == Digits(m);
    } else {
      assert s[0] != '-';
      assert s[0..] == s;
    }
  }

  /**
   * Handle_SC_ReadInt: on no input or a non-digit it returns without
   * writing r2 and without advancing the PC; otherwise r2 gets the signed
   * value and the PC advances.
   */
  method HandleReadInt(m: Machine, input: seq<CByte>)
    requires m.Valid() && |input| <= MAX_NUM_LENGTH + 1
    modifies m`registers
    ensures m.Valid()
    ensures ReadIntValue(input).None? ==> m.registers == old(m.registers)
    ensures ReadIntValue(input).Some? ==>
      m.registers == PCAdvanced(old(m.registers)[2 := ReadIntValue(input).value])
  {
    var result := 0;
    var len := |input|;
    if len == 0 {
      return;
    }
    var isNegative := input[0] == '-';
    var start := if isNegative then 1 else 0;
    assert input[start..] == input[SignLength(input)..];
    var ok;
    result, ok := ScanDigits(input, start);
    if !ok {
      return;
    }
    if isNegative {
      WrapAffine(DigitValue(input[start..]), -1, 0);
      result := Wrap32(-result);
    }
    m.WriteRegister(2, result);
    m.IncreasePC();
  }

  // ---------------------------------------------------------------------
  // Handle_SC_ReadFloat
  // ---------------------------------------------------------------------

  /** The two registers Handle_SC_ReadFloat fills. */
  datatype FloatParts = FloatParts(whole: int, fraction: int)

  /** The index of the first c in s, or |s|. */
  function IndexOf(s: seq<char>, c: char): (k: nat)
    ensures k <= |s| && (k < |s| ==> s[k] == c)
    ensures forall i :: 0 <= i < k ==> s[i] != c
  {
    if s == [] then 0 else if s[0] == c then 0 else 1 + IndexOf(s[1..], c)
  }

  /**
   * What Handle_SC_ReadFloat writes: r2 the signed value of the digits
   * before the first '.', r3 the value of the digits after it (no sign, so
   * leading zeros are lost). None when it returns early: no input, or a
   * character other than a digit in either part.
   */
  function ReadFloatValue(input: seq<char>): (r: Option<FloatParts>)
  {
    if |input| == 0 then None
    else
      var body := input[SignLength(input)..];
      var p := IndexOf(body, '.');
      FloatFromParts(SignLength(input) == 1, body[..p], if p < |body| then body[p + 1..] else [])
  }

  /** The registers for a sign, the text before the '.' and the text after it. */
  function FloatFromParts(negative: bool, whole: seq<char>, fraction: seq<char>): (r: Option<FloatParts>)
    ensures r.Some? <==> AllDigits(whole) && AllDigits(fraction)
  {
    if !AllDigits(whole) || !AllDigits(fraction) then None
    else
      var w := if negative then -(DigitValue(whole) as int) else DigitValue(whole);
      Some(FloatParts(Wrap32(w), Wrap32(DigitValue(fraction))))
  }

  /** Input with a '.' splits at its first '.'. */
  lemma ReadFloatSplit(w: seq<char>, f: seq<char>)
    requires '.' !in w
    ensures ReadFloatValue(w + ['.'] + f) == FloatFromParts(SignLength(w) == 1, w[SignLength(w)..], f)
  {
    var a := w + ['.'] + f;
    var k := SignLength(w);
    SignOfJoined(w, f);
    var body := a[k..];
    SplitAtDot(w[k..], f);
    assert body == w[k..] + ['.'] + f;
  }

  /** The sign of w + "." + f is that of w. */
  lemma SignOfJoined(w: seq<char>, f: seq<char>)
    ensures SignLength(w + ['.'] + f) == SignLength(w)
  {
    if |w| > 0 {
      assert (w + ['.'] + f)[0] == w[0];
    } else {
      assert (w + ['.'] + f)[0] == '.';
    }
  }

  /** w + "." + f splits at its first '.' into w and f. */
  lemma SplitAtDot(w: seq<char>, f: seq<char>)
    requires '.' !in w
    ensures var b := w + ['.'] + f;
      && IndexOf(b, '.') == |w| && b[..|w|] == w && b[|w| + 1..] == f
  {
    IndexOfAfter(w, f);
    var b := w + ['.'] + f;
    assert b[..|w|] == w;
    assert b[|w| + 1..] == f;
  }

  lemma {:induction false} LeadingZeroValue(f: seq<char>)
    requires AllDigits(f)
    decreases |f|
    ensures AllDigits(['0'] + f) && DigitValue(['0'] + f) == DigitValue(f)
  {
    if f != [] {
      var g := ['0'] + f;
      assert g[..|g| - 1] == ['0'] + f[..|f| - 1];
      LeadingZeroValue(f[..|f| - 1]);
    }
  }

  /**
   * The register pair does not determine the number typed: a zero after
   * the '.' is lost, so "1.05" and "1.5" read alike.
   */
  lemma ReadFloatDropsLeadingZero(w: seq<char>, f: seq<char>)
    requires '.' !in w && AllDigits(f)
    ensures ReadFloatValue(w + ['.', '0'] + f) == ReadFloatValue(w + ['.'] + f)
  {
    LeadingZeroValue(f);
    assert w + ['.', '0'] + f == w + ['.'] + (['0'] + f);
    ReadFloatSplit(w, ['0'] + f);
    ReadFloatSplit(w, f);
  }

  lemma IndexOfAfter(w: seq<char>, f: seq<char>)
    requires '.' !in w
    ensures IndexOf(w + ['.'] + f, '.') == |w|
  {
    var s := w + ['.'] + f;
    assert s[|w|] == '.';
  }

  /**
   * Handle_SC_ReadFloat: returns early, PC not advanced, on no input or a
   * bad character; otherwise writes r2 and r3 and advances the PC.
   */
  method HandleReadFloat(m: Machine, input: seq<CByte>)
    requires m.Valid() && |input| <= MAX_NUM_LENGTH + 1
    modifies m`registers
    ensures m.Valid()
    ensures ReadFloatValue(input).None? ==> m.registers == old(m.registers)
    ensures ReadFloatValue(input).Some? ==>
      var v := ReadFloatValue(input).value;
      m.registers == PCAdvanced(old(m.registers)[2 := v.whole][3 := v.fraction])
  {
    var len := |input|;
    if len == 0 {
      return;
    }
    var isNegative := input[0] == '-';
    var start := if isNegative then 1 else 0;
    assert input[start..] == input[SignLength(input)..];
    var i, result, ok := ScanWhole(input, start);
    if !ok {
      return;
    }
    assert input[start..][..i - start] == input[start..i];
    if i < len {
      assert input[start..][i - start + 1..] == input[i + 1..];
    }
    var decimal;
    decimal, ok := ScanDigits(input, i + 1);
    if !ok {
      return;
    }
    if isNegative {
      WrapAffine(DigitValue(input[start..i]), -1, 0);
      result := Wrap32(-result);
    }
    m.WriteRegister(2, result);
    m.WriteRegister(3, decimal);
    m.IncreasePC();
  }

  /**
   * The first loop of Handle_SC_ReadFloat: digits from start up to the
   * first '.' or the end. ok is false when another character comes first.
   */
  method ScanWhole(input: seq<CByte>, start: nat) returns (i: int, result: int, ok: bool)
    requires start <= |input|
    ensures var p := IndexOf(input[start..], '.');
      && (ok <==> AllDigits(input[start..][..p]))
      && (ok ==> i == start + p && AllDigits(input[start..i]) && result == Wrap32(DigitValue(input[start..i])))
  {
    ghost var body := input[start..];
    result := 0;
    i := start;
    while i < |input|
      invariant start <= i <= |input|
      invariant AllDigits(input[start..i]) && '.' !in input[start..i]
      invariant result == Wrap32(DigitValue(input[start..i]))
    {
      var c := input[i];
      assert body[..i - start] == input[start..i] && body[i - start] == c;
      if c == '.' {
        break;
      } else if c < '0' || c > '9' {
        BadBeforeDot(body, i - start);
        return i, result, false;
      }
      assert input[start..i + 1] == input[start..i] + [c];
      WrappedDigitStep(input[start..i], c);
      result := Wrap32(result * 10 + (c as int - '0' as int));
      i := i + 1;
    }
    assert body[..i - start] == input[start..i];
    DotAt(body, i - start);
    ok := true;
  }

  /** A character that is neither a digit nor '.' before the first '.' spoils the whole part. */
  lemma BadBeforeDot(body: seq<char>, j: nat)
    requires j < |body| && '.' !in body[..j] && body[j] != '.' && !IsDigit(body[j])
    ensures !AllDigits(body[..IndexOf(body, '.')])
  {
    var p := IndexOf(body, '.');
    assert p > j by {
      assert forall i :: 0 <= i <= j ==> body[i] != '.' by {
        assert forall i :: 0 <= i < j ==> body[..j][i] == body[i];
      }
    }
    assert body[..p][j] == body[j];
  }

  /** With no '.' before j and a '.' or the end at j, the first '.' is at j. */
  lemma DotAt(body: seq<char>, j: nat)
    requires j <= |body| && '.' !in body[..j] && (j < |body| ==> body[j] == '.')
    ensures IndexOf(body, '.') == j
  {
    assert forall i :: 0 <= i < j ==> body[..j][i] == body[i];
  }

  /**
   * The digit loop of Handle_SC_ReadInt and the second loop of
   * Handle_SC_ReadFloat: the digits from `from` to the end (none when from
   * is past the end). ok is false at a non-digit.
   */
  method ScanDigits(input: seq<CByte>, from: nat) returns (decimal: int, ok: bool)
    requires from <= |input| + 1
    ensures from <= |input| ==> (ok <==> AllDigits(input[from..]))
    ensures from <= |input| && ok ==> decimal == Wrap32(DigitValue(input[from..]))
    ensures from > |input| ==> ok && decimal == 0
  {
    decimal := 0;
    var j := from;
    while j < |input|
      invariant from <= j <= |input| || j == from == |input| + 1
      invariant j <= |input| ==> AllDigits(input[from..j]) && decimal == Wrap32(DigitValue(input[from..j]))
      invariant j > |input| ==> decimal == 0
    {
      var c := input[j];
      if c < '0' || c > '9' {
        assert !IsDigit(input[from..][j - from]);
        return decimal, false;
      }
      assert input[from..j + 1] == input[from..j] + [c];
      WrappedDigitStep(input[from..j], c);
      decimal := Wrap32(decimal * 10 + (c as int - '0' as int));
      j := j + 1;
    }
    if from <= |input| {
      assert input[from..j] == input[from..];
    }
    ok := true;
  }

  // ---------------------------------------------------------------------
  // Handle_SC_CreateFile
  // ---------------------------------------------------------------------

  /**
   * Handle_SC_CreateFile. The name is the user string at r4, copied with a
   * limit of 33 bytes; allocOk says whether the kernel buffer could be
   * allocated, created whether the host created the file. Either failure
   * writes -1 and returns without advancing the PC; success writes 0 and
   * advances. The name handed to the host is returned (None when the
   * allocation failed).
   */
  method HandleCreateFile(m: Machine, allocOk: bool, created: bool) returns (requested: Option<seq<CByte>>)
    requires m.Valid() && Readable(m.mem, m.registers[4], MaxFileLength + 1)
    modifies m`registers
    ensures m.Valid()
    ensures requested.None? <==> !allocOk
    ensures requested.Some? ==>
      requested.value == KernelString(old(m.mem), old(m.registers[4]), MaxFileLength + 1)
    ensures !(allocOk && created) ==> m.registers == old(m.registers)[2 := -1]
    ensures allocOk && created ==> m.registers == PCAdvanced(old(m.registers)[2 := 0])
  {
    var virtualAddr := m.ReadRegister(4);
    var filename := m.User2System(virtualAddr, MaxFileLength + 1);
    if !allocOk {
      m.WriteRegister(2, -1);
      return None;
    }
    requested := Some(CStr(filename));
    if !created {
      m.WriteRegister(2, -1);
      return;
    }
    m.WriteRegister(2, 0);
    m.IncreasePC();
  }
}
