/** Machine integers, little-endian fields and splices of byte buffers. */
module Bytes {
  type byte = x: int | 0 <= x < 256
  type u32 = x: int | 0 <= x < 0x1_0000_0000
  type u64 = x: int | 0 <= x < 0x1_0000_0000_0000_0000


  /** Subtraction of u64 values, which wraps. */
  function Sub64(a: nat, b: nat): (r: nat)
    ensures r < 0x1_0000_0000_0000_0000
  {
    (a - b) % 0x1_0000_0000_0000_0000
  }

  function Min(a: nat, b: nat): nat { if a < b then a else b }

  /** The integer stored little-endian in s. */
  function LE(s: seq<byte>): nat {
    if |s| == 0 then 0 else s[0] + 256 * LE(s[1..])
  }

  /** v, modulo 256^n, as n little-endian bytes. */
  function ToLE(v: nat, n: nat): (s: seq<byte>)
    ensures |s| == n
  {
    if n == 0 then [] else [v % 256] + ToLE(v / 256, n - 1)
  }

  function Pow256(n: nat): nat { if n == 0 then 1 else 256 * Pow256(n - 1) }

  lemma {:induction false} LEOfToLE(v: nat, n: nat)
    requires v < Pow256(n)
    ensures LE(ToLE(v, n)) == v
  {
    if n > 0 {
      assert v / 256 < Pow256(n - 1);
      LEOfToLE(v / 256, n - 1);
      assert ToLE(v, n)[1..] == ToLE(v / 256, n - 1);
    }
  }

  lemma {:induction false} ToLEOfLE(s: seq<byte>)
    ensures LE(s) < Pow256(|s|) && ToLE(LE(s), |s|) == s
  {
    if |s| > 0 {
      ToLEOfLE(s[1..]);
      assert LE(s) / 256 == LE(s[1..]) && LE(s) % 256 == s[0];
      assert s == [s[0]] + s[1..];
    }
  }

  lemma PowerSizes()
    ensures Pow256(1) == 256 && Pow256(4) == 0x1_0000_0000 && Pow256(8) == 0x1_0000_0000_0000_0000
  {
    assert Pow256(2) == 0x1_0000 && Pow256(3) == 0x100_0000;
    assert Pow256(5) == 0x100 * 0x1_0000_0000 && Pow256(6) == 0x1_0000 * 0x1_0000_0000;
    assert Pow256(7) == 0x100_0000 * 0x1_0000_0000;
  }

  /** s with the bytes from position at on overwritten by x. */
  function Splice(s: seq<byte>, at: nat, x: seq<byte>): (r: seq<byte>)
    requires at + |x| <= |s|
    ensures |r| == |s|
  {
    s[..at] + x + s[at + |x|..]
  }

  lemma SpliceSlices(s: seq<byte>, at: nat, x: seq<byte>, lo: nat, hi: nat)
    requires at + |x| <= |s| && lo <= hi <= |s|
    ensures Splice(s, at, x)[at..at + |x|] == x
    ensures hi <= at || lo >= at + |x| ==> Splice(s, at, x)[lo..hi] == s[lo..hi]
  {
    var r := Splice(s, at, x);
    assert forall j :: 0 <= j < |x| ==> r[at + j] == x[j];
    assert r[at..at + |x|] == x;
    if hi <= at || lo >= at + |x| {
      assert forall j :: lo <= j < hi ==> r[j] == s[j];
      assert r[lo..hi] == s[lo..hi];
    }
  }

  lemma TakeDrop<T>(a: seq<T>, b: seq<T>)
    ensures (a + b)[..|a|] == a && (a + b)[|a|..] == b
  {
  }

  lemma SliceOfSlice<T>(s: seq<T>, lo: nat, hi: nat, a: nat, b: nat)
    requires lo <= hi <= |s| && a <= b <= hi - lo
    ensures s[lo..hi][a..b] == s[lo + a..lo + b]
  {
    var t := s[lo..hi];
    forall i | 0 <= i < b - a ensures t[a..b][i] == s[lo + a..lo + b][i] {
      assert t[a..b][i] == t[a + i];
      assert t[a + i] == s[lo + (a + i)];
    }
  }

  /** The pieces of a concatenation. */
  lemma Parts<T>(h: seq<T>, t: seq<T>, e: seq<T>, p: seq<T>)
    ensures var r := h + t + e + p;
            && |r| == |h| + |t| + |e| + |p|
            && r[..|h|] == h
            && r[|h|..|h| + |t|] == t
            && r[|h| + |t|..|h| + |t| + |e|] == e
            && r[|h| + |t| + |e|..] == p
  {
  }

  /** memcpy into a byte buffer. */
  method Memcpy(dst: array<byte>, at: nat, src: seq<byte>)
    requires at + |src| <= dst.Length
    modifies dst
    ensures dst[..] == Splice(old(dst[..]), at, src)
  {
    forall j | 0 <= j < |src| {
      dst[at + j] := src[j];
    }
    assert dst[..] == Splice(old(dst[..]), at, src);
  }
}
