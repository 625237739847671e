/** Byte sequences, their integer readings in either byte order, and Python's int.to_bytes. */
module Bytes {
  import opened Wrappers

  type byte = x: int | 0 <= x < 256

  function Pow256(n: nat): (p: nat)
    ensures p > 0
  {
    if n == 0 then 1 else 256 * Pow256(n - 1)
  }

  lemma Pow256Three()
    ensures Pow256(3) == 16777216
  {
  }

  /** The integer whose little-endian serialisation is s (s[0] least significant). */
  function LeValue(s: seq<byte>): (v: nat)
    ensures v < Pow256(|s|)
  {
    if s == [] then 0 else s[0] + 256 * LeValue(s[1..])
  }

  /** The integer whose big-endian serialisation is s (s[0] most significant). */
  function BeValue(s: seq<byte>): (v: nat)
    ensures v < Pow256(|s|)
  {
    if s == [] then 0 else 256 * BeValue(s[..|s| - 1]) + s[|s| - 1]
  }

  /** bytearray.reverse(), as a value. */
  function Reverse<T>(s: seq<T>): seq<T>
  {
    seq(|s|, i requires 0 <= i < |s| => s[|s| - 1 - i])
  }

  /** The n low bytes of v, least significant first. */
  function LeBytes(v: nat, n: nat): (s: seq<byte>)
    requires v < Pow256(n)
    ensures |s| == n && LeValue(s) == v
  {
    if n == 0 then []
    else
      var rest := LeBytes(v / 256, n - 1);
      assert ([v % 256] + rest)[1..] == rest;
      [v % 256] + rest
  }

  /** Python's v.to_bytes(n, byteorder="little"): unsigned, so OverflowError unless 0 <= v < 256^n. */
  function ToBytesLittle(v: int, n: nat): (r: Result<seq<byte>>)
    ensures r.Ok? <==> 0 <= v < Pow256(n)
    ensures r.Ok? ==> |r.value| == n && LeValue(r.value) == v
    ensures r.Err? ==> r.error == OverflowError
  {
    if 0 <= v < Pow256(n) then Ok(LeBytes(v, n)) else Err(OverflowError)
  }

  /** Reading a sequence little-endian is reading its reverse big-endian. */
  lemma {:induction false} LeValueReversed(s: seq<byte>)
    ensures BeValue(Reverse(s)) == LeValue(s)
  {
    if s != [] {
      var r := Reverse(s);
      assert r[..|r| - 1] == Reverse(s[1..]);
      LeValueReversed(s[1..]);
    }
  }

  /** Reversing twice gives the sequence back. */
  lemma ReverseReverse<T>(s: seq<T>)
    ensures Reverse(Reverse(s)) == s
  {
  }

  /** A big-endian reading determines the bytes of a given length. */
  lemma {:induction false} BeValueInjective(s: seq<byte>, t: seq<byte>)
    requires |s| == |t| && BeValue(s) == BeValue(t)
    ensures s == t
  {
    if s != [] {
      var n := |s|;
      assert 256 * BeValue(s[..n - 1]) + s[n - 1] == 256 * BeValue(t[..n - 1]) + t[n - 1];
      assert s[n - 1] == t[n - 1];
      BeValueInjective(s[..n - 1], t[..n - 1]);
      assert s == s[..n - 1] + [s[n - 1]];
      assert t == t[..n - 1] + [t[n - 1]];
    }
  }

  /** A little-endian reading determines the bytes of a given length. */
  lemma LeValueInjective(s: seq<byte>, t: seq<byte>)
    requires |s| == |t| && LeValue(s) == LeValue(t)
    ensures s == t
  {
    LeValueReversed(s);
    LeValueReversed(t);
    BeValueInjective(Reverse(s), Reverse(t));
    ReverseReverse(s);
    ReverseReverse(t);
  }

  /** The three bytes of a frame expressed through its little-endian value. */
  lemma LeValue3(s: seq<byte>)
    requires |s| == 3
    ensures LeValue(s) == s[0] as int + 256 * s[1] as int + 65536 * s[2] as int
  {
    assert s[1..][1..] == [s[2]];
    assert s[1..][1..][1..] == [];
    assert LeValue(s[1..][1..]) == s[2] as int;
    assert LeValue(s[1..]) == s[1] as int + 256 * s[2] as int;
  }

  /** The three bytes of a frame expressed through its big-endian value. */
  lemma BeValue3(s: seq<byte>)
    requires |s| == 3
    ensures BeValue(s) == 65536 * s[0] as int + 256 * s[1] as int + s[2] as int
  {
    assert s[..2][..1] == [s[0]];
    assert s[..2][..1][..0] == [];
    assert BeValue(s[..2][..1]) == s[0] as int;
    assert BeValue(s[..2]) == 256 * s[0] as int + s[1] as int;
  }
}
