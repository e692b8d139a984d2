// The stock Nachos BitMap (bitmap.cc is not part of this model): a fixed
// number of bits, all clear at construction; Find marks and returns the
// lowest clear bit, or -1 when every bit is set.
module Bitmap {

  /** The index of the lowest clear bit of s, or -1 when every bit is set. */
  function FirstClear(s: seq<bool>): (r: int)
    ensures -1 <= r < |s|
    ensures r == -1 <==> forall i :: 0 <= i < |s| ==> s[i]
    ensures r != -1 ==> !s[r] && forall i :: 0 <= i < r ==> s[i]
  {
    if s == [] then -1
    else if !s[0] then 0
    else
      var k := FirstClear(s[1..]);
      if k == -1 then -1 else k + 1
  }

  /** All bits of s are clear. */
  predicate AllClear(s: seq<bool>)
  {
    forall i :: 0 <= i < |s| ==> !s[i]
  }

  class BitMap {
    const bits: array<bool>

    constructor (numBits: nat)
      ensures fresh(bits) && bits.Length == numBits
      ensures AllClear(bits[..])
    {
      bits := new bool[numBits](_ => false);
    }

    method Mark(which: int)
      requires 0 <= which < bits.Length
      modifies bits
      ensures bits[..] == old(bits[..])[which := true]
    {
      bits[which] := true;
    }

    method Clear(which: int)
      requires 0 <= which < bits.Length
      modifies bits
      ensures bits[..] == old(bits[..])[which := false]
    {
      bits[which] := false;
    }

    method Test(which: int) returns (b: bool)
      requires 0 <= which < bits.Length
      ensures b == bits[which]
    {
      b := bits[which];
    }

    /** Marks and returns the lowest clear bit; -1 and no change when full. */
    method Find() returns (r: int)
      modifies bits
      ensures r == FirstClear(old(bits[..]))
      ensures r == -1 ==> bits[..] == old(bits[..])
      ensures r != -1 ==> bits[..] == old(bits[..])[r := true]
    {
      var i := 0;
      while i < bits.Length
        invariant 0 <= i <= bits.Length
        invariant forall k :: 0 <= k < i ==> bits[k]
        invariant bits[..] == old(bits[..])
      {
        if !bits[i] {
          bits[i] := true;
          r := i;
          FirstClearIsLowest(old(bits[..]), i);
          return;
        }
        i := i + 1;
      }
      r := -1;
    }
  }

  /** The first clear bit is determined by the bits below it being set. */
  lemma FirstClearIsLowest(s: seq<bool>, i: int)
    requires 0 <= i < |s| && !s[i]
    requires forall k :: 0 <= k < i ==> s[k]
    ensures FirstClear(s) == i
  {
  }
}
