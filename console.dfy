// The console helpers of the FAT32 explorer: the string utilities and the
// keyboard readers. Keys come from a sequence the caller supplies in place
// of _getch, and each retry of ReadInt reads one line from a sequence of
// lines. Character classes are those of the C locale.

module Console {
  import opened Decimal

  // ---------------------------------------------------------------------
  // Character classes
  // ---------------------------------------------------------------------

  /** std::isspace: space, \t, \n, \v, \f, \r. */
  predicate IsSpace(c: char) {
    c == ' ' || 9 <= c as int <= 13
  }

  predicate AllSpace(s: string) {
    forall i :: 0 <= i < |s| ==> IsSpace(s[i])
  }

  /** std::isalnum. */
  predicate IsAlnum(c: char) {
    'a' <= c <= 'z' || 'A' <= c <= 'Z' || '0' <= c <= '9'
  }

  /** ::toupper. */
  function ToUpper(c: char): (u: char)
    ensures 'a' <= c <= 'z' ==> 'A' <= u <= 'Z' && u as int == c as int - 32
    ensures !('a' <= c <= 'z') ==> u == c
  {
    if 'a' <= c <= 'z' then (c as int - 32) as char else c
  }

  // ---------------------------------------------------------------------
  // simplify_str
  // ---------------------------------------------------------------------

  /** std::replace(input, '\t', ' '). */
  function Untab(s: string): (r: string)
    ensures |r| == |s|
    ensures forall i :: 0 <= i < |s| ==> r[i] == (if s[i] == '\t' then ' ' else s[i])
  {
    if s == [] then [] else [if s[0] == '\t' then ' ' else s[0]] + Untab(s[1..])
  }

  /** The length of the whitespace run s starts with. */
  function LeadingSpaces(s: string): (k: nat)
    ensures k <= |s| && AllSpace(s[..k])
    ensures k < |s| ==> !IsSpace(s[k])
  {
    if s == [] || !IsSpace(s[0]) then 0
    else
      var k := LeadingSpaces(s[1..]);
      assert s[..1 + k] == [s[0]] + s[1..][..k];
      1 + k
  }

  /** The length of the whitespace run s ends with. */
  function TrailingSpaces(s: string): (k: nat)
    ensures k <= |s|
    ensures forall i :: |s| - k <= i < |s| ==> IsSpace(s[i])
    ensures k < |s| ==> !IsSpace(s[|s| - k - 1])
  {
    if s == [] || !IsSpace(s[|s| - 1]) then 0
    else
      var k := TrailingSpaces(s[..|s| - 1]);
      assert forall i :: |s| - 1 - k <= i < |s| - 1 ==> s[i] == s[..|s| - 1][i];
      1 + k
  }

  lemma SpaceSuffix(t: string, b: nat)
    requires b <= |t|
    requires forall i :: |t| - b <= i < |t| ==> IsSpace(t[i])
    ensures AllSpace(t[|t| - b..])
  {
  }

  /**
   * simplify_str: tabs become spaces, then leading and trailing whitespace
   * is erased. What is left has no tab, does not start or end with
   * whitespace, and sits in the tab-free input between two whitespace runs.
   */
  function SimplifyStr(input: string): (r: string)
    ensures forall i :: 0 <= i < |r| ==> r[i] != '\t'
    ensures r != [] ==> !IsSpace(r[0]) && !IsSpace(r[|r| - 1])
  {
    var u := Untab(input);
    var t := u[LeadingSpaces(u)..];
    t[..|t| - TrailingSpaces(t)]
  }

  /** simplify_str removes only whitespace: its result sits between two whitespace runs of the tab-free input. */
  lemma SimplifyTrimsOnlySpace(input: string) returns (a: nat)
    ensures var u := Untab(input); var r := SimplifyStr(input);
      a <= |u| - |r| && u[a..a + |r|] == r && AllSpace(u[..a]) && AllSpace(u[a + |r|..])
  {
    var u := Untab(input);
    a := LeadingSpaces(u);
    var t := u[a..];
    var b := TrailingSpaces(t);
    var r := t[..|t| - b];
    assert r == SimplifyStr(input);
    assert u[a..a + |r|] == r;
    assert u[a + |r|..] == t[|t| - b..];
    SpaceSuffix(t, b);
    assert 0 <= a <= |u| - |r| && u[a..a + |r|] == r && AllSpace(u[..a]) && AllSpace(u[a + |r|..]);
  }

  /** simplify_str is idempotent. */
  lemma SimplifyIdempotent(input: string)
    ensures SimplifyStr(SimplifyStr(input)) == SimplifyStr(input)
  {
    var r := SimplifyStr(input);
    assert Untab(r) == r;
    assert LeadingSpaces(r) == 0;
    assert r[0..] == r;
    assert TrailingSpaces(r) == 0;
    assert r[..|r| - 0] == r;
  }

  // ---------------------------------------------------------------------
  // split_str
  // ---------------------------------------------------------------------

  function Concat(ts: seq<string>): (s: string)
  {
    if ts == [] then [] else Concat(ts[..|ts| - 1]) + ts[|ts| - 1]
  }

  /** The characters of s that are not delimiters, in order. */
  function Undelimited(s: string, delims: string): (r: string)
    ensures |r| <= |s|
  {
    if s == [] then []
    else Undelimited(s[..|s| - 1], delims) + (if s[|s| - 1] in delims then [] else [s[|s| - 1]])
  }

  predicate Token(t: string, delims: string) {
    t != [] && forall i :: 0 <= i < |t| ==> t[i] !in delims
  }

  /** The tokens pushed and the pending token after split_str has consumed s. */
  function SplitState(s: string, delims: string): (st: (seq<string>, string))
    decreases |s|
  {
    if s == [] then ([], [])
    else
      var (res, current) := SplitState(s[..|s| - 1], delims);
      var c := s[|s| - 1];
      if c in delims then
        if current != [] then (res + [current], []) else (res, [])
      else (res, current + [c])
  }

  /** split_str's result: the pushed tokens plus the pending one if non-empty. */
  function Split(s: string, delims: string): (ts: seq<string>)
  {
    var (res, current) := SplitState(s, delims);
    if current != [] then res + [current] else res
  }

  /** Every pushed token is a token; joined with the pending one they give s without its delimiters. */
  lemma {:induction false} SplitStateInvariant(s: string, delims: string)
    ensures var (res, current) := SplitState(s, delims);
      (forall k :: 0 <= k < |res| ==> Token(res[k], delims))
      && (forall i :: 0 <= i < |current| ==> current[i] !in delims)
      && Concat(res) + current == Undelimited(s, delims)
    decreases |s|
  {
    if s != [] {
      SplitStateInvariant(s[..|s| - 1], delims);
      var (res, current) := SplitState(s[..|s| - 1], delims);
      var c := s[|s| - 1];
      if c in delims && current != [] {
        assert Concat(res + [current]) == Concat(res) + current by {
          assert (res + [current])[..|res|] == res;
        }
      }
    }
  }

  /** split_str yields non-empty, delimiter-free tokens that spell s without its delimiters. */
  lemma SplitTokens(s: string, delims: string)
    ensures var ts := Split(s, delims);
      (forall k :: 0 <= k < |ts| ==> Token(ts[k], delims))
      && Concat(ts) == Undelimited(s, delims)
  {
    SplitStateInvariant(s, delims);
    var (res, current) := SplitState(s, delims);
    if current != [] {
      assert (res + [current])[..|res|] == res;
    }
  }

  /** split_str: push the pending token at each delimiter, append every other character. */
  method SplitStr(str: string, delimiter: string) returns (res: seq<string>)
    ensures res == Split(str, delimiter)
  {
    res := [];
    var current: string := [];
    var i := 0;
    while i < |str|
      invariant i <= |str|
      invariant (res, current) == SplitState(str[..i], delimiter)
    {
      var c := str[i];
      assert str[..i + 1][..i] == str[..i];
      if c in delimiter {
        if |current| > 0 {
          res := res + [current];
          current := [];
        }
      } else {
        current := current + [c];
      }
      i := i + 1;
    }
    assert str[..i] == str;
    if |current| > 0 {
      res := res + [current];
    }
  }

  // ---------------------------------------------------------------------
  // case_sensitive_eq (which compares after ::toupper)
  // ---------------------------------------------------------------------

  function Upper(s: string): (u: string)
    ensures |u| == |s|
    ensures forall i :: 0 <= i < |s| ==> u[i] == ToUpper(s[i])
  {
    if s == [] then [] else [ToUpper(s[0])] + Upper(s[1..])
  }

  /** Equal lengths and equal after upper-casing each character. */
  function CaseSensitiveEq(str1: string, str2: string): (b: bool)
    ensures b <==> |str1| == |str2| && forall i :: 0 <= i < |str1| ==> ToUpper(str1[i]) == ToUpper(str2[i])
  {
    if |str1| != |str2| then false
    else
      assert Upper(str1) == Upper(str2) <==> forall i :: 0 <= i < |str1| ==> Upper(str1)[i] == Upper(str2)[i];
      Upper(str1) == Upper(str2)
  }

  /** The comparison ignores case: it is an equivalence and relates a string to its upper-case form. */
  lemma CaseEqEquivalence(a: string, b: string, c: string)
    ensures CaseSensitiveEq(a, a)
    ensures CaseSensitiveEq(a, b) ==> CaseSensitiveEq(b, a)
    ensures CaseSensitiveEq(a, b) && CaseSensitiveEq(b, c) ==> CaseSensitiveEq(a, c)
    ensures CaseSensitiveEq(a, Upper(a))
  {
  }

  // ---------------------------------------------------------------------
  // get_alnum, get_file_extension, get_drive_name
  // ---------------------------------------------------------------------

  /** get_alnum: the alphanumeric characters of s, in order. */
  function GetAlnum(s: string): (r: string)
    ensures |r| <= |s|
    ensures forall i :: 0 <= i < |r| ==> IsAlnum(r[i])
  {
    if s == [] then [] else (if IsAlnum(s[0]) then [s[0]] else []) + GetAlnum(s[1..])
  }

  /** get_alnum distributes over concatenation ... */
  lemma {:induction false} GetAlnumConcat(a: string, b: string)
    ensures GetAlnum(a + b) == GetAlnum(a) + GetAlnum(b)
    decreases |a|
  {
    if a != [] {
      assert (a + b)[0] == a[0];
      assert (a + b)[1..] == a[1..] + b;
      GetAlnumConcat(a[1..], b);
      var h := if IsAlnum(a[0]) then [a[0]] else [];
      calc {
        GetAlnum(a + b);
        h + GetAlnum(a[1..] + b);
        h + (GetAlnum(a[1..]) + GetAlnum(b));
        (h + GetAlnum(a[1..])) + GetAlnum(b);
      }
    } else {
      assert a + b == b;
    }
  }

  /** ... keeps an all-alphanumeric string whole, and so is idempotent. */
  lemma {:induction false} GetAlnumKeeps(s: string)
    ensures (forall i :: 0 <= i < |s| ==> IsAlnum(s[i])) ==> GetAlnum(s) == s
    ensures GetAlnum(GetAlnum(s)) == GetAlnum(s)
    decreases |s|
  {
    if s != [] {
      GetAlnumKeeps(s[1..]);
      var r := GetAlnum(s);
      if IsAlnum(s[0]) {
        assert r == [s[0]] + GetAlnum(s[1..]);
        assert [s[0]][1..] == [];
        assert GetAlnum([s[0]]) == [s[0]];
        GetAlnumConcat([s[0]], GetAlnum(s[1..]));
      } else {
        assert r == GetAlnum(s[1..]);
      }
    }
  }

  /** ... and drops a string with no alphanumeric character entirely. */
  lemma {:induction false} GetAlnumDropsOthers(s: string)
    requires forall i :: 0 <= i < |s| ==> !IsAlnum(s[i])
    ensures GetAlnum(s) == []
    decreases |s|
  {
    if s != [] {
      assert forall i :: 0 <= i < |s| - 1 ==> s[1..][i] == s[i + 1];
      GetAlnumDropsOthers(s[1..]);
    }
  }

  /** The index of the last c in s, or -1 (find_last_of). */
  function LastIndexOf(s: string, c: char): (k: int)
    ensures -1 <= k < |s|
    ensures k >= 0 ==> s[k] == c
    ensures forall i :: k < i < |s| ==> s[i] != c
  {
    if s == [] then -1
    else if s[|s| - 1] == c then |s| - 1
    else
      var k := LastIndexOf(s[..|s| - 1], c);
      assert forall i :: 0 <= i < |s| - 1 ==> s[i] == s[..|s| - 1][i];
      k
  }

  /**
   * get_file_extension: the dot-free suffix that a '.' precedes, or "" when
   * there is no '.'. These facts determine the result.
   */
  function GetFileExtension(fileName: string): (r: string)
    ensures '.' !in r
    ensures '.' !in fileName ==> r == ""
    ensures |r| <= |fileName| && r == fileName[|fileName| - |r|..]
    ensures '.' in fileName <==> |r| < |fileName| && fileName[|fileName| - |r| - 1] == '.'
  {
    var k := LastIndexOf(fileName, '.');
    if k != -1 then fileName[k + 1..] else ""
  }

  /** The index of the first c in s, or |s| (std::string::find). */
  function IndexOf(s: string, c: char): (k: nat)
    ensures k <= |s|
    ensures forall i :: 0 <= i < k ==> s[i] != c
    ensures k < |s| ==> s[k] == c
  {
    if s == [] || s[0] == c then 0
    else 1 + IndexOf(s[1..], c)
  }

  lemma {:induction false} IndexOfIs(s: string, c: char, k: nat)
    requires k < |s| && s[k] == c
    requires forall i :: 0 <= i < k ==> s[i] != c
    ensures IndexOf(s, c) == k
    decreases k
  {
    if k > 0 {
      assert s[0] != c;
      IndexOfIs(s[1..], c, k - 1);
    }
  }

  /** get_drive_name: get_alnum of what precedes the first ':' when that is not position 0. */
  function GetDriveName(drivePath: string): (r: string)
    ensures forall i :: 0 <= i < |r| ==> IsAlnum(r[i])
  {
    var pos := IndexOf(drivePath, ':');
    if pos < |drivePath| && pos > 0 then GetAlnum(drivePath[..pos]) else ""
  }

  /** A path "prefix:rest" with a non-empty, colon-free prefix names the drive get_alnum(prefix) ... */
  lemma DriveNameOf(prefix: string, rest: string)
    requires prefix != [] && ':' !in prefix
    ensures GetDriveName(prefix + ":" + rest) == GetAlnum(prefix)
  {
    var p := prefix + ":" + rest;
    assert p[|prefix|] == ':';
    assert p[..|prefix|] == prefix;
    assert forall i :: 0 <= i < |prefix| ==> p[i] == prefix[i];
    IndexOfIs(p, ':', |prefix|);
    assert p[..|prefix|] == prefix;
  }

  /** ... and one without ':', or starting with ':', names none. */
  lemma DriveNameEmpty(drivePath: string)
    requires ':' !in drivePath || drivePath[0] == ':'
    ensures GetDriveName(drivePath) == ""
  {
  }

  // ---------------------------------------------------------------------
  // ReadToken, ReadString
  // ---------------------------------------------------------------------

  const ESC: char := 27 as char
  /** EOF as a char: the key 0xFF, which is (char)-1 on a signed-char platform. */
  const EOF: char := 255 as char
  const BACKSPACE: char := 8 as char
  /** ReadString's default terminators. */
  const DEFAULT_TERMINATORS: string := " \n\t\r"

  /** ReadToken: ESC is read as a space, every other key as itself. */
  function ReadToken(key: char): (c: char)
    ensures key == ESC ==> c == ' '
    ensures key != ESC ==> c == key
  {
    if key == ESC then ' ' else key
  }

  /** Under the default terminators ESC ends a ReadString, as a space does. */
  lemma EscapeTerminates()
    ensures ReadToken(ESC) in DEFAULT_TERMINATORS
  {
  }

  predicate EndsInput(key: char, terminators: string) {
    ReadToken(key) == EOF || ReadToken(key) in terminators
  }

  /** How many keys ReadString consumes before the one that ends input. */
  function StopAt(keys: string, terminators: string): (k: nat)
    ensures k <= |keys|
    ensures forall i :: 0 <= i < k ==> !EndsInput(keys[i], terminators)
    ensures k < |keys| ==> EndsInput(keys[k], terminators)
  {
    if keys == [] || EndsInput(keys[0], terminators) then 0
    else 1 + StopAt(keys[1..], terminators)
  }

  /** The line editing fold: backspace drops the last character, 32..126 is appended, the rest is ignored. */
  function Edited(tokens: string): (s: string)
    ensures |s| <= |tokens|
    ensures forall i :: 0 <= i < |s| ==> 32 <= s[i] as int <= 126
    ensures forall i :: 0 <= i < |s| ==> s[i] in tokens
    decreases |tokens|
  {
    if tokens == [] then []
    else
      var s := Edited(tokens[..|tokens| - 1]);
      var t := tokens[|tokens| - 1];
      if t == BACKSPACE then (if s == [] then s else s[..|s| - 1])
      else if 32 <= t as int <= 126 then s + [t]
      else s
  }

  function Tokens(keys: string): (ts: string)
    ensures |ts| == |keys|
    ensures forall i :: 0 <= i < |keys| ==> ts[i] == ReadToken(keys[i])
  {
    if keys == [] then [] else [ReadToken(keys[0])] + Tokens(keys[1..])
  }

  /** The inner loop of ReadString: whether token is one of the terminators. */
  method IsTerminator(token: char, terminators: string) returns (b: bool)
    ensures b <==> token in terminators
  {
    b := false;
    var j := 0;
    while j < |terminators|
      invariant j <= |terminators|
      invariant token !in terminators[..j]
    {
      if token == terminators[j] {
        return true;
      }
      assert terminators[..j + 1] == terminators[..j] + [terminators[j]];
      j := j + 1;
    }
    assert terminators[..j] == terminators;
  }

  /**
   * ReadString over the keys typed: input is the edit fold of the keys
   * before the first EOF or terminator; used counts the keys read,
   * including the one that ended input.
   */
  method ReadString(keys: string, terminators: string) returns (input: string, used: nat)
    ensures var k := StopAt(keys, terminators);
      input == Edited(Tokens(keys[..k])) && used == (if k < |keys| then k + 1 else k)
  {
    input := [];
    used := 0;
    ghost var ts: string := [];
    while used < |keys|
      invariant used <= StopAt(keys, terminators)
      invariant ts == Tokens(keys[..used])
      invariant input == Edited(ts)
    {
      var token := ReadToken(keys[used]);
      if token == EOF {
        StopIs(keys, terminators, used);
        used := used + 1;
        return;
      }
      var isTerminator := IsTerminator(token, terminators);
      if isTerminator {
        StopIs(keys, terminators, used);
        used := used + 1;
        return;
      }
      StopIs(keys, terminators, used);
      TokensSnoc(keys, used);
      EditedSnoc(ts, token);
      if token == BACKSPACE {
        if |input| > 0 {
          input := input[..|input| - 1];
        }
      } else if 32 <= token as int <= 126 {
        input := input + [token];
      }
      ts := Tokens(keys[..used + 1]);
      used := used + 1;
    }
    assert keys[..used] == keys;
  }

  lemma StopIs(keys: string, terminators: string, n: nat)
    requires n <= StopAt(keys, terminators) && n < |keys|
    ensures EndsInput(keys[n], terminators) <==> n == StopAt(keys, terminators)
  {
  }

  lemma TokensSnoc(keys: string, n: nat)
    requires n < |keys|
    ensures Tokens(keys[..n + 1]) == Tokens(keys[..n]) + [ReadToken(keys[n])]
  {
  }

  lemma EditedSnoc(ts: string, t: char)
    ensures var s := Edited(ts);
      Edited(ts + [t]) ==
        if t == BACKSPACE then (if s == [] then s else s[..|s| - 1])
        else if 32 <= t as int <= 126 then s + [t]
        else s
  {
    assert (ts + [t])[..|ts|] == ts;
  }

  /** What ReadString returns holds only printable characters and no terminator. */
  lemma ReadStringPrintable(keys: string, terminators: string)
    ensures var s := Edited(Tokens(keys[..StopAt(keys, terminators)]));
      forall i :: 0 <= i < |s| ==> 32 <= s[i] as int <= 126 && s[i] !in terminators
  {
    var k := StopAt(keys, terminators);
    var ts := Tokens(keys[..k]);
    forall i | 0 <= i < |ts|
      ensures ts[i] !in terminators
    {
      assert !EndsInput(keys[i], terminators);
    }
  }

  // ---------------------------------------------------------------------
  // std::stoi, ReadInt(lower, upper), ReadOptions
  // ---------------------------------------------------------------------

  datatype Parsed = Value(v: int) | InvalidArgument | OutOfRange

  /**
   * std::stoi: skip leading whitespace, take an optional sign and the
   * longest run of digits after it. No digits throws invalid_argument, a
   * value outside int throws out_of_range; trailing characters are ignored.
   */
  function Stoi(s: string): (p: Parsed)
    ensures p.Value? ==> IsInt32(p.v)
  {
    var t := s[LeadingSpaces(s)..];
    var k := if t != [] && (t[0] == '-' || t[0] == '+') then 1 else 0;
    var d := t[k..];
    var n := DigitRun(d);
    if n == 0 then InvalidArgument
    else
      var m: int := DigitValue(d[..n]);
      var v := if k == 1 && t[0] == '-' then -m else m;
      if IsInt32(v) then Value(v) else OutOfRange
  }

  /** The canonical decimal form of an int parses back to it. */
  lemma StoiDecimal(n: int)
    requires IsInt32(n)
    ensures Stoi(DecimalString(n)) == Value(n)
  {
    var s := DecimalString(n);
    DigitsValue(if n < 0 then -n else n);
    assert LeadingSpaces(s) == 0;
    assert s[0..] == s;
    if n < 0 {
      var d := s[1..];
      assert d == Digits(-n);
      assert DigitRun(d) == |d|;
      assert d[..|d|] == d;
    } else {
      assert !IsDigit(s[0]) ==> false;
      assert DigitRun(s) == |s|;
      assert s[..|s|] == s;
    }
  }

  /** The outcome of the ReadInt(lower, upper) retry loop. */
  datatype ReadIntOutcome =
    | Accepted(value: int)     // the first line that parses to a value in range
    | Aborted                  // stoi threw out_of_range, which nothing catches
    | NoMoreLines              // the lines ran out (the console would wait for more)

  /** The loop's outcome over the lines still to be typed. */
  function RetryOutcome(lower: int, upper: int, lines: seq<string>): (o: ReadIntOutcome)
    ensures o.Accepted? ==> lower <= o.value <= upper
  {
    if lines == [] then NoMoreLines
    else
      match Stoi(lines[0])
      case OutOfRange => Aborted
      case InvalidArgument => RetryOutcome(lower, upper, lines[1..])
      case Value(v) => if lower <= v <= upper then Accepted(v) else RetryOutcome(lower, upper, lines[1..])
  }

  /** ReadInt(lower, upper): read lines until one holds an integer in [lower, upper]. */
  method ReadIntInRange(lower: int, upper: int, lines: seq<string>) returns (o: ReadIntOutcome)
    requires lower <= upper
    ensures o == RetryOutcome(lower, upper, lines)
    ensures o.Accepted? ==> lower <= o.value <= upper
  {
    var i := 0;
    while i < |lines|
      invariant i <= |lines|
      invariant RetryOutcome(lower, upper, lines[i..]) == RetryOutcome(lower, upper, lines)
    {
      assert lines[i..][1..] == lines[i + 1..];
      var p := Stoi(lines[i]);
      match p {
        case OutOfRange => return Aborted;
        case InvalidArgument =>
        case Value(v) =>
          if lower <= v <= upper {
            return Accepted(v);
          }
      }
      i := i + 1;
    }
    return NoMoreLines;
  }

  /** The option count of ReadOptions: the sizes of all groups added up. */
  function OptionCount(groupSizes: seq<nat>): (n: nat)
  {
    if groupSizes == [] then 0 else OptionCount(groupSizes[..|groupSizes| - 1]) + groupSizes[|groupSizes| - 1]
  }

  /** ReadOptions: an accepted choice is one of the indices shown, start .. start + count - 1. */
  method ReadOptions(startIndex: int, groupSizes: seq<nat>, lines: seq<string>) returns (o: ReadIntOutcome)
    requires OptionCount(groupSizes) >= 1
    ensures o == RetryOutcome(startIndex, startIndex + OptionCount(groupSizes) - 1, lines)
    ensures o.Accepted? ==> startIndex <= o.value < startIndex + OptionCount(groupSizes)
  {
    var count := 0;
    var i := 0;
    while i < |groupSizes|
      invariant i <= |groupSizes|
      invariant count == OptionCount(groupSizes[..i])
    {
      assert groupSizes[..i + 1][..i] == groupSizes[..i];
      count := count + groupSizes[i];
      i := i + 1;
    }
    assert groupSizes[..i] == groupSizes;
    o := ReadIntInRange(startIndex, startIndex + count - 1, lines);
  }
}
