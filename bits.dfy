/** Bit strings as the bitstring library and Python's string formatting produce them:
    a string of '0'/'1' characters is modelled as a seq<bool>, most significant bit first. */
module Bits {
  import opened Bytes

  function Pow2(k: nat): (p: nat)
    ensures p > 0
  {
    if k == 0 then 1 else 2 * Pow2(k - 1)
  }

  /** The value of a bit string read as an unsigned binary numeral; int(s, 2) for non-empty s. */
  function BinValue(bits: seq<bool>): (v: nat)
    ensures v < Pow2(|bits|)
  {
    if bits == [] then 0
    else 2 * BinValue(bits[..|bits| - 1]) + (if bits[|bits| - 1] then 1 else 0)
  }

  /** The w-digit binary numeral of v, padded with leading zeros: "{0:0wb}".format(v) for v < 2^w. */
  function BinFixed(v: nat, w: nat): (bits: seq<bool>)
    requires v < Pow2(w)
    ensures |bits| == w && BinValue(bits) == v
  {
    if w == 0 then []
    else
      var high := BinFixed(v / 2, w - 1);
      assert (high + [v % 2 == 1])[..w - 1] == high;
      high + [v % 2 == 1]
  }

  /** BitArray(s).bin: eight bits per byte, most significant first. */
  function BitsOf(s: seq<byte>): (bits: seq<bool>)
    ensures |bits| == 8 * |s|
  {
    if s == [] then []
    else
      Pow2Eight();
      BitsOf(s[..|s| - 1]) + BinFixed(s[|s| - 1], 8)
  }

  /** BitArray(bin=s).tobytes() for a string of whole bytes: each eight bits become one byte. */
  function BitsToBytes(bits: seq<bool>): (s: seq<byte>)
    requires |bits| % 8 == 0
    ensures 8 * |s| == |bits|
  {
    if bits == [] then []
    else
      var last := bits[|bits| - 8..];
      Pow2Eight();
      BitsToBytes(bits[..|bits| - 8]) + [BinValue(last)]
  }

  /** Python's normalisation of a slice bound against a sequence of length n. */
  function SliceBound(i: int, n: nat): (b: nat)
    ensures b <= n
  {
    if i < 0 then (if n + i < 0 then 0 else n + i) else if i > n then n else i
  }

  /** Python's s[start:stop] (step 1), negative bounds counting from the end. */
  function Slice<T>(s: seq<T>, start: int, stop: int): (r: seq<T>)
    ensures |r| <= |s|
  {
    var lo, hi := SliceBound(start, |s|), SliceBound(stop, |s|);
    if lo < hi then s[lo..hi] else []
  }

  /** Negative bounds count from the end; a start before the beginning is clamped to 0,
      and a stop before the beginning gives the empty slice. */
  lemma SliceFromEnd<T>(s: seq<T>, i: int, j: int)
    requires i <= j < 0
    ensures -|s| <= i ==> Slice(s, i, j) == s[|s| + i..|s| + j]
    ensures i < -|s| && -|s| <= j ==> Slice(s, i, j) == s[..|s| + j]
    ensures j < -|s| ==> Slice(s, i, j) == []
  {
  }

  /** An omitted stop (the length) with a negative start takes the last -i elements. */
  lemma SliceTail<T>(s: seq<T>, i: int)
    requires -|s| <= i < 0
    ensures Slice(s, i, |s|) == s[|s| + i..]
  {
  }

  lemma {:induction false} Pow2Add(a: nat, b: nat)
    ensures Pow2(a + b) == Pow2(a) * Pow2(b)
  {
    if b > 0 {
      Pow2Add(a, b - 1);
      calc {
        Pow2(a + b);
        2 * Pow2(a + b - 1);
        2 * (Pow2(a) * Pow2(b - 1));
        Pow2(a) * (2 * Pow2(b - 1));
      }
    }
  }

  lemma Pow2Eight()
    ensures Pow2(8) == 256
  {
    assert Pow2(4) == 16;
  }

  lemma Pow2Constants()
    ensures Pow2(5) == 32 && Pow2(10) == 1024 && Pow2(11) == 2048
    ensures Pow2(15) == 32768 && Pow2(22) == 4194304
  {
    assert Pow2(4) == 16;
    assert Pow2(8) == 256;
    assert Pow2(10) == 1024;
    Pow2Add(11, 11);
    Pow2Add(10, 5);
  }

  /** Concatenating bit strings shifts the first by the width of the second. */
  lemma {:induction false} BinValueConcat(a: seq<bool>, b: seq<bool>)
    ensures BinValue(a + b) == BinValue(a) * Pow2(|b|) + BinValue(b)
  {
    if b == [] {
      assert a + b == a;
    } else {
      var b' := b[..|b| - 1];
      assert (a + b)[..|a + b| - 1] == a + b';
      BinValueConcat(a, b');
      var bit := if b[|b| - 1] then 1 else 0;
      assert BinValue(a + b) == 2 * BinValue(a + b') + bit;
      assert BinValue(b) == 2 * BinValue(b') + bit;
      ShiftStep(BinValue(a), Pow2(|b'|), BinValue(b'), bit);
    }
  }

  lemma ShiftStep(x: int, p: int, y: int, bit: int)
    ensures 2 * (x * p + y) + bit == x * (2 * p) + (2 * y + bit)
  {
  }

  /** The bit string of a byte sequence reads as its big-endian value. */
  lemma {:induction false} BitsOfValue(s: seq<byte>)
    ensures BinValue(BitsOf(s)) == BeValue(s)
  {
    if s != [] {
      var init, last := s[..|s| - 1], s[|s| - 1];
      Pow2Eight();
      BitsOfValue(init);
      assert BitsOf(s) == BitsOf(init) + BinFixed(last, 8);
      BinValueConcat(BitsOf(init), BinFixed(last, 8));
      assert BinValue(BitsOf(s)) == BeValue(init) * 256 + last;
    }
  }

  /** Converting a whole-byte bit string to bytes keeps its value, read big-endian. */
  lemma {:induction false} BitsToBytesValue(bits: seq<bool>)
    requires |bits| % 8 == 0
    ensures BeValue(BitsToBytes(bits)) == BinValue(bits)
  {
    if bits != [] {
      var n := |bits|;
      var s := BitsToBytes(bits);
      Pow2Eight();
      assert s[..|s| - 1] == BitsToBytes(bits[..n - 8]);
      BitsToBytesValue(bits[..n - 8]);
      assert bits == bits[..n - 8] + bits[n - 8..];
      BinValueConcat(bits[..n - 8], bits[n - 8..]);
    }
  }

  /** Division and remainder are the only quotient and remainder. */
  lemma DivModUnique(v: int, d: int, q: int, r: int)
    requires d > 0 && 0 <= r < d && v == q * d + r
    ensures v / d == q && v % d == r
  {
    var q', r' := v / d, v % d;
    assert v == q' * d + r';
    MulSub(q, q', d);
    if q > q' {
      MulAtLeast(q - q', d);
      assert false;
    } else if q < q' {
      MulAtLeast(q' - q, d);
      assert false;
    }
  }

  lemma MulSub(x: int, y: int, d: int)
    ensures x * d - y * d == (x - y) * d
  {
  }

  lemma {:induction false} MulAtLeast(x: int, d: int)
    requires x >= 1 && d > 0
    ensures x * d >= d
  {
    if x > 1 {
      MulAtLeast(x - 1, d);
      assert x * d == (x - 1) * d + d;
    }
  }

  /** A suffix of a bit string reads as the value modulo its width. */
  lemma BinValueSuffix(bits: seq<bool>, k: nat)
    requires k <= |bits|
    ensures BinValue(bits[k..]) == BinValue(bits) % Pow2(|bits| - k)
  {
    assert bits == bits[..k] + bits[k..];
    BinValueConcat(bits[..k], bits[k..]);
    DivModUnique(BinValue(bits), Pow2(|bits| - k), BinValue(bits[..k]), BinValue(bits[k..]));
  }

  /** A prefix of a bit string reads as the value shifted right by the rest's width. */
  lemma BinValuePrefix(bits: seq<bool>, k: nat)
    requires k <= |bits|
    ensures BinValue(bits[..k]) == BinValue(bits) / Pow2(|bits| - k)
  {
    assert bits == bits[..k] + bits[k..];
    BinValueConcat(bits[..k], bits[k..]);
    DivModUnique(BinValue(bits), Pow2(|bits| - k), BinValue(bits[..k]), BinValue(bits[k..]));
  }

  /** Taking bits lo..hi of a string reads as a shift followed by a mask. */
  lemma BinValueMiddle(bits: seq<bool>, lo: nat, hi: nat)
    requires lo <= hi <= |bits|
    ensures BinValue(bits[lo..hi]) == BinValue(bits) % Pow2(|bits| - lo) / Pow2(|bits| - hi)
  {
    var tail := bits[lo..];
    assert tail[..hi - lo] == bits[lo..hi];
    BinValueSuffix(bits, lo);
    BinValuePrefix(tail, hi - lo);
  }

  /** Masking to d*e then shifting by d is shifting by d then masking to e. */
  lemma ModThenDiv(v: nat, d: nat, e: nat)
    requires d > 0 && e > 0
    ensures v % (d * e) / d == v / d % e
  {
    var q, r := v / d, v % d;
    var hi, mid := q / e, q % e;
    assert v == d * q + r;
    assert q == e * hi + mid;
    Regroup(d, e, hi, mid, r);
    MulBelow(d, mid, e);
    DivModUnique(v, d * e, hi, d * mid + r);
    DivModUnique(d * mid + r, d, mid, r);
  }

  lemma Regroup(d: int, e: int, hi: int, mid: int, r: int)
    ensures d * (e * hi + mid) + r == hi * (d * e) + (d * mid + r)
  {
  }

  lemma MulBelow(d: int, mid: int, e: int)
    requires d > 0 && 0 <= mid < e
    ensures d * mid + d <= d * e
  {
    assert d * mid + d == d * (mid + 1);
    if mid + 1 < e {
      MulAtLeast(e - (mid + 1), d);
      MulSub(e, mid + 1, d);
    }
  }
}
