// The scanner program of the airport simulation (test/scan.c). Each record of scan.txt is
// read as a number, added to the least loaded of three scanners, and that scanner's digit
// is written to result.txt. A record that ends in '*' closes the round and resets the
// three loads.

module Scan {
  import opened Decimal

  /** The value a byte of the file has as scan.c's `char`, which is signed: a byte of 128
      or more reads as that byte minus 256. */
  function SignedChar(c: char): (v: int)
    ensures -128 <= v < 128
    ensures c as int < 128 ==> v == c as int
  {
    var b := c as int % 256;
    if b >= 128 then b - 256 else b
  }

  /** `scan = scan * 10 + (c - 48)` over the characters read, in C int arithmetic. No
      character is tested for being a digit. */
  function Accumulated(s: seq<char>): (v: int)
    ensures IsInt32(v)
    decreases |s|
  {
    if s == [] then 0 else Wrap32(10 * Accumulated(s[..|s| - 1]) + (SignedChar(s[|s| - 1]) - 48))
  }

  /** The same accumulation with unbounded integers. */
  function Exact(s: seq<char>): int
    decreases |s|
  {
    if s == [] then 0 else 10 * Exact(s[..|s| - 1]) + (SignedChar(s[|s| - 1]) - 48)
  }

  /** Wrapping at every step ends where wrapping once at the end does. */
  lemma {:induction false} AccumulatedWraps(s: seq<char>)
    ensures Accumulated(s) == Wrap32(Exact(s))
    decreases |s|
  {
    if s != [] {
      var p := s[..|s| - 1];
      AccumulatedWraps(p);
      WrapAffine(Exact(p), 10, SignedChar(s[|s| - 1]) - 48);
    }
  }

  /** On digits the accumulation is the decimal value, below 10^|s|. */
  lemma {:induction false} ExactDigits(s: seq<char>)
    requires AllDigits(s)
    ensures Exact(s) == DigitValue(s) && DigitValue(s) < Pow10(|s|)
    decreases |s|
  {
    if s != [] {
      var p := s[..|s| - 1];
      assert AllDigits(p) by {
        forall k | 0 <= k < |p|
          ensures IsDigit(p[k])
        {
          assert p[k] == s[k];
        }
      }
      ExactDigits(p);
    }
  }

  lemma {:induction false} Pow10Monotone(k: nat, m: nat)
    requires k <= m
    ensures Pow10(k) <= Pow10(m)
    decreases m
  {
    if k < m {
      Pow10Monotone(k, m - 1);
    }
  }

  /** A record of at most nine digits is read as its decimal value. */
  lemma ScanOfDigits(s: seq<char>)
    requires AllDigits(s) && |s| <= 9
    ensures Accumulated(s) == DigitValue(s)
  {
    AccumulatedWraps(s);
    ExactDigits(s);
    Pow10Monotone(|s|, 9);
    assert Pow10(9) == 1_000_000_000;
  }

  /** The characters the read loop consumes before it stops: all of them, or those before
      the first '*'. */
  function BeforeStar(file: seq<char>): (r: seq<char>)
    ensures |r| <= |file| && r == file[..|r|] && '*' !in r
    ensures |r| < |file| <==> '*' in file
    ensures |r| < |file| ==> file[|r|] == '*'
    decreases |file|
  {
    if file == [] || file[0] == '*' then []
    else
      var rest := BeforeStar(file[1..]);
      assert file[..1 + |rest|] == [file[0]] + file[1..][..|rest|];
      [file[0]] + rest
  }

  /** The characters before position k are those BeforeStar keeps when none of them is a
      '*' and the file ends or holds a '*' at k. */
  lemma {:induction false} BeforeStarAt(file: seq<char>, k: nat)
    requires k <= |file| && '*' !in file[..k]
    requires k < |file| ==> file[k] == '*'
    ensures BeforeStar(file) == file[..k]
    decreases k
  {
    if k > 0 {
      assert file[0] == file[..k][0];
      var t := file[1..];
      assert t[..k - 1] == file[..k][1..];
      BeforeStarAt(t, k - 1);
      assert file[..k] == [file[0]] + t[..k - 1];
    }
  }

  /** The innermost loop: Read one character at a time until the end of the file (Read
      gives -2) or a '*'. */
  method ReadScan(file: seq<char>) returns (scan: int, done: bool)
    ensures scan == Accumulated(BeforeStar(file)) && done == ('*' in file)
  {
    scan := 0;
    var k := 0;
    while k < |file| && file[k] != '*'
      invariant k <= |file| && '*' !in file[..k]
      invariant scan == Accumulated(file[..k])
    {
      assert file[..k + 1] == file[..k] + [file[k]];
      assert file[..k + 1][..k] == file[..k];
      scan := Wrap32(scan * 10 + (SignedChar(file[k]) - 48));
      k := k + 1;
    }
    BeforeStarAt(file, k);
    done := k < |file|;
    if !done {
      assert file[..k] == file;
    }
  }

  datatype Loads = Loads(scan1: int, scan2: int, scan3: int)

  function Load(l: Loads, k: int): int
    requires 1 <= k <= 3
  {
    if k == 1 then l.scan1 else if k == 2 then l.scan2 else l.scan3
  }

  /** The scanner a record goes to: 1 when its load is at most both others, else 2 when
      its load is, else 3. */
  function Chosen(l: Loads): (k: int)
    ensures 1 <= k <= 3
  {
    if l.scan1 <= l.scan2 && l.scan1 <= l.scan3 then 1
    else if l.scan2 <= l.scan1 && l.scan2 <= l.scan3 then 2
    else 3
  }

  /** The chosen scanner is a least loaded one, and ties go to the lowest number: every
      scanner numbered before it carries strictly more. */
  lemma ChosenIsLeastLoaded(l: Loads)
    ensures forall k :: 1 <= k <= 3 ==> Load(l, Chosen(l)) <= Load(l, k)
    ensures forall k :: 1 <= k < Chosen(l) ==> Load(l, k) > Load(l, Chosen(l))
  {
  }

  /** Conversely, a least loaded scanner with no least loaded one before it is chosen. */
  lemma LeastLoadedIsChosen(l: Loads, c: int)
    requires 1 <= c <= 3
    requires forall k :: 1 <= k <= 3 ==> Load(l, c) <= Load(l, k)
    requires forall k :: 1 <= k < c ==> Load(l, k) > Load(l, c)
    ensures Chosen(l) == c
  {
    ChosenIsLeastLoaded(l);
    var k := Chosen(l);
    assert Load(l, c) <= Load(l, k) && Load(l, k) <= Load(l, c);
    assert !(c < k) && !(k < c);
  }

  /** Lines 61-78 on values: nothing for a zero count, otherwise the chosen load grows by
      the count and its digit is written. */
  function Step(l: Loads, scan: int): (r: (Loads, seq<char>))
    ensures scan == 0 ==> r == (l, [])
    ensures scan != 0 ==>
      |r.1| == 1 && IsDigit(r.1[0]) && DigitOf(r.1[0]) == Chosen(l)
      && forall k :: 1 <= k <= 3 ==>
           Load(r.0, k) == if k == Chosen(l) then Wrap32(Load(l, k) + scan) else Load(l, k)
  {
    if scan == 0 then (l, [])
    else
      var k := Chosen(l);
      var grown := Wrap32(Load(l, k) + scan);
      var next := if k == 1 then l.(scan1 := grown) else if k == 2 then l.(scan2 := grown) else l.(scan3 := grown);
      (next, [DigitChar(k)])
  }

  /** A nonzero count changes exactly one load: the one whose digit is written. */
  lemma StepChangesOneLoad(l: Loads, scan: int)
    requires IsInt32(l.scan1) && IsInt32(l.scan2) && IsInt32(l.scan3) && IsInt32(scan) && scan != 0
    ensures forall k :: 1 <= k <= 3 ==> (Load(Step(l, scan).0, k) != Load(l, k) <==> k == DigitOf(Step(l, scan).1[0]))
  {
    var x := Load(l, Chosen(l));
    var y := x + scan;
    if y > INT_MAX {
      WrapShift(y - TWO_32, 1);
      assert Wrap32(y) == y - TWO_32;
    } else if y < INT_MIN {
      WrapShift(y, 1);
      assert Wrap32(y) == y + TWO_32;
    }
  }

  /** The records of one round on values: handle records in order until one holds a '*',
      after which the loads are reset. Gives the loads, the digits written and the number
      of records consumed. */
  function Round(l: Loads, files: seq<seq<char>>): (r: (Loads, seq<char>, nat))
    ensures r.2 <= |files|
    decreases |files|
  {
    if files == [] then (l, [], 0)
    else
      var step := Step(l, Accumulated(BeforeStar(files[0])));
      if '*' in files[0] then (Loads(0, 0, 0), step.1, 1)
      else
        var rest := Round(step.0, files[1..]);
        (rest.0, step.1 + rest.1, 1 + rest.2)
  }

  /** A round stops right after the first record that holds a '*', and then all three
      loads are zero. */
  lemma {:induction false} RoundStopsAtStar(l: Loads, files: seq<seq<char>>)
    ensures var r := Round(l, files);
      (forall k :: 0 <= k < r.2 - 1 ==> '*' !in files[k])
      && (r.2 < |files| ==> r.2 > 0 && '*' in files[r.2 - 1])
      && (r.2 > 0 && '*' in files[r.2 - 1] ==> r.0 == Loads(0, 0, 0))
    decreases |files|
  {
    if files != [] && '*' !in files[0] {
      var step := Step(l, Accumulated(BeforeStar(files[0])));
      RoundStopsAtStar(step.0, files[1..]);
      var rest := Round(step.0, files[1..]);
      forall k | 0 <= k < rest.2
        ensures '*' !in files[k]
      {
        if k > 0 {
          assert files[k] == files[1..][k - 1];
        }
      }
      if rest.2 > 0 {
        assert files[rest.2] == files[1..][rest.2 - 1];
      }
    }
  }

  /** A round writes one digit for each record with a nonzero count. */
  lemma {:induction false} RoundWritesDigits(l: Loads, files: seq<seq<char>>)
    ensures var r := Round(l, files);
      |r.1| <= r.2 && forall k :: 0 <= k < |r.1| ==> r.1[k] in "123"
    decreases |files|
  {
    if files != [] {
      var step := Step(l, Accumulated(BeforeStar(files[0])));
      if step.1 != [] {
        assert step.1[0] == DigitChar(Chosen(l));
        assert step.1[0] in "123";
      }
      if '*' !in files[0] {
        RoundWritesDigits(step.0, files[1..]);
      }
    }
  }

  /** The three scanner loads of scan.c's main and what it has written to result.txt. */
  class Scanners {
    var scan1: int
    var scan2: int
    var scan3: int
    /** What has been written to result.txt since it was last opened. */
    var result: seq<char>

    function Current(): Loads
      reads this
    {
      Loads(scan1, scan2, scan3)
    }

    /** `scan1 = scan2 = scan3 = 0;` before the result file has been written. */
    constructor ()
      ensures Current() == Loads(0, 0, 0) && result == []
    {
      scan1, scan2, scan3 := 0, 0, 0;
      result := [];
    }

    /** Line 19, at the top of each outer round: result.txt is opened again, so what the
        round writes starts over from the first byte; the loads are kept. */
    method OpenResult()
      modifies this
      ensures result == [] && Current() == old(Current())
    {
      result := [];
    }

    /** Lines 61-78: add a nonzero count to the least loaded scanner and write its digit. */
    method Assign(scan: int)
      modifies this
      ensures (Current(), result) == (Step(old(Current()), scan).0, old(result) + Step(old(Current()), scan).1)
    {
      ghost var before := Current();
      assert result + [] == result;
      if scan != 0 {
        if scan1 <= scan2 && scan1 <= scan3 {
          scan1 := Wrap32(scan1 + scan);
          result := result + "1";
          assert Step(before, scan) == (before.(scan1 := Wrap32(before.scan1 + scan)), [DigitChar(1)]);
          assert DigitChar(1) == '1';
        } else if scan2 <= scan1 && scan2 <= scan3 {
          scan2 := Wrap32(scan2 + scan);
          result := result + "2";
          assert Step(before, scan) == (before.(scan2 := Wrap32(before.scan2 + scan)), [DigitChar(2)]);
          assert DigitChar(2) == '2';
        } else {
          scan3 := Wrap32(scan3 + scan);
          result := result + "3";
          assert Step(before, scan) == (before.(scan3 := Wrap32(before.scan3 + scan)), [DigitChar(3)]);
          assert DigitChar(3) == '3';
        }
      }
    }

    /** One pass of the inner loop body (lines 28-88) on one record of scan.txt: read the
        count, assign it, and on a '*' reset the loads. */
    method Record(file: seq<char>) returns (done: bool)
      modifies this
      ensures done == ('*' in file)
      ensures var step := Step(old(Current()), Accumulated(BeforeStar(file)));
        result == old(result) + step.1 && Current() == (if done then Loads(0, 0, 0) else step.0)
    {
      var scan;
      scan, done := ReadScan(file);
      Assign(scan);
      if done {
        scan1, scan2, scan3 := 0, 0, 0;
      }
    }

    /** The inner `while (1)`: handle records until one holds a '*' or none are left. */
    method HandleRound(files: seq<seq<char>>) returns (used: nat)
      modifies this
      ensures var r := Round(old(Current()), files);
        used == r.2 && Current() == r.0 && result == old(result) + r.1
    {
      ghost var start, written := Current(), result;
      used := 0;
      assert files[used..] == files;
      assert result[..|written|] == written && result[|written|..] == [];
      assert [] + Round(start, files).1 == Round(start, files).1;
      while used < |files|
        invariant Remaining(start, written, files, used, Current(), result)
      {
        ghost var loads, before := Current(), result;
        var done := Record(files[used]);
        if done {
          RemainingLast(start, written, files, used, loads, before);
          used := used + 1;
          return;
        }
        RemainingStep(start, written, files, used, loads, before);
        used := used + 1;
      }
      RemainingEnd(start, written, files, used, Current(), result);
    }
  }

  /** The loop state of HandleRound: the loads `current` and the output `result` after
      `used` records, from which the rest of the round leads to the whole round. */
  ghost predicate Remaining(start: Loads, written: seq<char>, files: seq<seq<char>>, used: nat,
                            current: Loads, result: seq<char>)
  {
    used <= |files| && |written| <= |result| && result[..|written|] == written
    && var r := Round(current, files[used..]);
       Round(start, files) == (r.0, result[|written|..] + r.1, used + r.2)
  }

  lemma RemainingStep(start: Loads, written: seq<char>, files: seq<seq<char>>, used: nat,
                      current: Loads, result: seq<char>)
    requires Remaining(start, written, files, used, current, result)
    requires used < |files| && '*' !in files[used]
    ensures var step := Step(current, Accumulated(BeforeStar(files[used])));
      Remaining(start, written, files, used + 1, step.0, result + step.1)
  {
    var step := Step(current, Accumulated(BeforeStar(files[used])));
    assert files[used..][0] == files[used] && files[used..][1..] == files[used + 1..];
    var rest := Round(step.0, files[used + 1..]);
    assert Round(current, files[used..]) == (rest.0, step.1 + rest.1, 1 + rest.2);
    assert (result + step.1)[..|written|] == result[..|written|];
    assert (result + step.1)[|written|..] == result[|written|..] + step.1;
    assert result[|written|..] + (step.1 + rest.1) == (result[|written|..] + step.1) + rest.1;
  }

  lemma RemainingLast(start: Loads, written: seq<char>, files: seq<seq<char>>, used: nat,
                      current: Loads, result: seq<char>)
    requires Remaining(start, written, files, used, current, result)
    requires used < |files| && '*' in files[used]
    ensures var step := Step(current, Accumulated(BeforeStar(files[used])));
      Round(start, files) == (Loads(0, 0, 0), (result + step.1)[|written|..], used + 1)
      && result + step.1 == written + (result + step.1)[|written|..]
  {
    var step := Step(current, Accumulated(BeforeStar(files[used])));
    assert files[used..][0] == files[used];
    assert result == written + result[|written|..];
    assert (result + step.1)[|written|..] == result[|written|..] + step.1;
  }

  lemma RemainingEnd(start: Loads, written: seq<char>, files: seq<seq<char>>, used: nat,
                     current: Loads, result: seq<char>)
    requires Remaining(start, written, files, used, current, result) && used == |files|
    ensures Round(start, files) == (current, result[|written|..], used)
    ensures result == written + result[|written|..]
  {
    assert files[used..] == [];
    assert Round(current, files[used..]) == (current, [], 0);
    assert result[|written|..] + [] == result[|written|..];
    assert result == result[..|written|] + result[|written|..];
  }
}
