// Bytes and their little-endian reading, shared by the FAT32 and NTFS
// decoders, and the unsigned wrap-around of C's fixed-width integers.
module Bytes {

  type byte = x: int | 0 <= x < 256

  const TWO_16 := 0x1_0000
  const TWO_32 := 0x1_0000_0000
  const TWO_64 := 0x1_0000_0000_0000_0000

  function Pow256(k: nat): (p: nat)
    ensures p >= 1
  {
    if k == 0 then 1 else 256 * Pow256(k - 1)
  }

  /** The value of s read little-endian: the sum of s[i] * 256^i. */
  function LittleEndian(s: seq<byte>): (v: nat)
  {
    if s == [] then 0 else s[0] + 256 * LittleEndian(s[1..])
  }

  /** n bytes hold a value below 256^n. */
  lemma {:induction false} LittleEndianBound(s: seq<byte>)
    ensures LittleEndian(s) < Pow256(|s|)
    decreases |s|
  {
    if s != [] {
      LittleEndianBound(s[1..]);
      assert LittleEndian(s[1..]) + 1 <= Pow256(|s| - 1);
      assert 256 * (LittleEndian(s[1..]) + 1) <= 256 * Pow256(|s| - 1);
    }
  }

  /** Reading a + b is reading a, plus b's value shifted past a's bytes. */
  lemma {:induction false} LittleEndianAppend(a: seq<byte>, b: seq<byte>)
    ensures LittleEndian(a + b) == LittleEndian(a) + Pow256(|a|) * LittleEndian(b)
    decreases |a|
  {
    if a != [] {
      var ab := a + b;
      assert ab[0] == a[0] && ab[1..] == a[1..] + b;
      LittleEndianAppend(a[1..], b);
      var rest, p, vb := LittleEndian(a[1..]), Pow256(|a| - 1), LittleEndian(b);
      assert LittleEndian(ab) == a[0] + 256 * (rest + p * vb);
      Shift256(a[0], rest, p, vb);
    } else {
      assert a + b == b;
    }
  }

  lemma Shift256(x: int, rest: int, p: int, v: int)
    ensures x + 256 * (rest + p * v) == (x + 256 * rest) + (256 * p) * v
  {
  }

  /** Longer fields have larger ranges. */
  lemma {:induction false} Pow256Monotone(a: nat, b: nat)
    requires a <= b
    ensures Pow256(a) <= Pow256(b)
    decreases b
  {
    if a < b {
      Pow256Monotone(a, b - 1);
    }
  }

  lemma Pow256Values()
    ensures Pow256(1) == 256 && Pow256(2) == TWO_16 && Pow256(4) == TWO_32 && Pow256(8) == TWO_64
  {
    assert Pow256(4) == 256 * 256 * 256 * 256;
    assert Pow256(8) == 256 * 256 * 256 * 256 * Pow256(4);
  }

  /** The remainder is the r of any x == d * m + r with 0 <= r < m. */
  lemma ModUnique(x: int, d: int, r: int, m: int)
    requires m > 0 && 0 <= r < m && x == d * m + r
    ensures x % m == r
  {
    var e := x / m - d;
    assert e * m == r - x % m;
    assert e >= 1 ==> e * m >= m;
    assert e <= -1 ==> e * m <= -m;
  }

  /** Adding a multiple of m does not change a remainder modulo m. */
  lemma ModShift(x: int, k: int, m: int)
    requires m > 0
    ensures (x + k * m) % m == x % m
  {
    var q := x / m;
    assert x + k * m == (q + k) * m + x % m;
    ModUnique(x + k * m, q + k, x % m, m);
  }

  /** One step of an accumulator that wraps modulo m: reducing the old value first changes nothing. */
  lemma ModStep(x: int, b: int, m: int)
    requires m > 0
    ensures ((x % m) * 256 + b) % m == (x * 256 + b) % m
  {
    var q := x / m;
    assert x == q * m + x % m;
    assert x * 256 + b == ((x % m) * 256 + b) + (q * 256) * m;
    ModShift((x % m) * 256 + b, q * 256, m);
  }

  /** Reducing modulo 2^64 and then 2^32 is reducing modulo 2^32 (a uint64 assigned to a uint32). */
  lemma ModNarrow(x: nat)
    ensures (x % TWO_64) % TWO_32 == x % TWO_32
  {
    var q := x / TWO_64;
    assert x == q * TWO_64 + x % TWO_64;
    assert x == (x % TWO_64) + (q * TWO_32) * TWO_32;
    ModShift(x % TWO_64, q * TWO_32, TWO_32);
  }

  /** The n-byte little-endian encoding of v (the low n bytes when v does not fit). */
  function LittleEndianBytes(v: nat, n: nat): (s: seq<byte>)
    ensures |s| == n
  {
    if n == 0 then [] else [v % 256] + LittleEndianBytes(v / 256, n - 1)
  }

  /** Encoding a value that fits and reading it back gives the value. */
  lemma {:induction false} ReadEncoded(v: nat, n: nat)
    requires v < Pow256(n)
    ensures LittleEndian(LittleEndianBytes(v, n)) == v
    decreases n
  {
    if n > 0 {
      var s := LittleEndianBytes(v, n);
      assert s[1..] == LittleEndianBytes(v / 256, n - 1);
      assert v / 256 < Pow256(n - 1);
      ReadEncoded(v / 256, n - 1);
    }
  }

  /** Reading bytes and encoding the value again gives the same bytes. */
  lemma {:induction false} EncodeRead(s: seq<byte>)
    ensures LittleEndianBytes(LittleEndian(s), |s|) == s
    decreases |s|
  {
    if s != [] {
      var v := LittleEndian(s);
      assert v % 256 == s[0] && v / 256 == LittleEndian(s[1..]) by {
        ModUnique(v, LittleEndian(s[1..]), s[0], 256);
      }
      EncodeRead(s[1..]);
      assert LittleEndianBytes(v, |s|) == [s[0]] + s[1..];
    }
  }
}
