/** The data area as a value: sectors of 512 bytes and what a chain of them holds. */
module Sectors {
  import opened Bytes

  type Sector = s: seq<byte> | |s| == 512 witness seq(512, _ => 0)

  function UpDiv(a: nat, b: nat): nat
    requires b > 0
  {
    (a + b - 1) / b
  }

  /** The sector with its first bytes overwritten by x. */
  function Overwrite(sector: Sector, x: seq<byte>): (r: Sector)
    requires |x| <= 512
  {
    x + sector[|x|..]
  }

  /** c lists sectors of the data area. */
  ghost predicate Covered(data: seq<Sector>, c: seq<nat>) {
    forall i :: 0 <= i < |c| ==> c[i] < |data|
  }

  /** The bytes of the sectors listed in c, in order. */
  function Content(data: seq<Sector>, c: seq<nat>): (r: seq<byte>)
    requires Covered(data, c)
    ensures |r| == 512 * |c|
  {
    if c == [] then [] else Content(data, c[..|c| - 1]) + data[c[|c| - 1]]
  }

  lemma {:induction false} ContentFirst(data: seq<Sector>, c: seq<nat>)
    requires |c| > 0 && forall i :: 0 <= i < |c| ==> c[i] < |data|
    ensures Content(data, c)[..512] == data[c[0]]
  {
    if |c| > 1 {
      ContentFirst(data, c[..|c| - 1]);
    }
  }

  /** Two data areas that agree on the sectors of c hold the same bytes along c. */
  lemma {:induction false} ContentSame(data: seq<Sector>, data': seq<Sector>, c: seq<nat>)
    requires forall i :: 0 <= i < |c| ==> c[i] < |data| && c[i] < |data'| && data[c[i]] == data'[c[i]]
    ensures Content(data, c) == Content(data', c)
  {
    if c != [] {
      ContentSame(data, data', c[..|c| - 1]);
    }
  }

  /** How many of the size bytes fall in the k-th sector. */
  function Share(size: nat, k: nat): (n: nat)
    ensures n <= 512
  {
    if 512 * k >= size then 0 else Min(512, size - 512 * k)
  }

  /** The first w sectors of c hold the first bytes of src, of which size are meant. */
  ghost predicate Stored(data: seq<Sector>, c: seq<nat>, w: nat, src: seq<byte>, size: nat)
    requires w <= |c| && size <= |src|
    requires forall i :: 0 <= i < |c| ==> c[i] < |data|
  {
    forall k :: 0 <= k < w ==>
      data[c[k]][..Share(size, k)] == src[Min(512 * k, size)..Min(512 * k, size) + Share(size, k)]
  }

  lemma {:induction false} StoredContent(data: seq<Sector>, c: seq<nat>, src: seq<byte>, size: nat)
    requires size <= |src| && forall i :: 0 <= i < |c| ==> c[i] < |data|
    requires Stored(data, c, |c|, src, size)
    ensures forall m :: 0 <= m <= size && m <= 512 * |c| ==> Content(data, c)[..m] == src[..m]
  {
    if c != [] {
      var k := |c| - 1;
      var d := c[..k];
      assert Stored(data, d, k, src, size) by {
        assert forall i :: 0 <= i < k ==> d[i] == c[i];
      }
      StoredContent(data, d, src, size);
      forall m | 0 <= m <= size && m <= 512 * |c| ensures Content(data, c)[..m] == src[..m] {
        if m > 512 * k {
          LastSector(data, c, src, size, m);
        } else {
          assert Content(data, c)[..m] == Content(data, d)[..m];
        }
      }
    }
  }

  lemma LastSector(data: seq<Sector>, c: seq<nat>, src: seq<byte>, size: nat, m: nat)
    requires |c| > 0 && size <= |src| && forall i :: 0 <= i < |c| ==> c[i] < |data|
    requires Stored(data, c, |c|, src, size)
    requires 512 * (|c| - 1) < m <= size && m <= 512 * |c|
    requires Content(data, c[..|c| - 1]) == src[..512 * (|c| - 1)]
    ensures Content(data, c)[..m] == src[..m]
  {
    var k := |c| - 1;
    var last := data[c[k]];
    var lo := 512 * k;
    var n := m - lo;
    assert n <= Share(size, k) && Min(lo, size) == lo;
    PrefixOfSlice(last, src, lo, Share(size, k), n);
    assert Content(data, c) == src[..lo] + last;
    JoinPrefix(src[..lo], last, src, lo, n);
  }

  lemma PrefixOfSlice(last: seq<byte>, src: seq<byte>, lo: nat, share: nat, n: nat)
    requires n <= share <= |last| && lo + share <= |src| && last[..share] == src[lo..lo + share]
    ensures last[..n] == src[lo..lo + n]
  {
    assert forall i :: 0 <= i < n ==> last[i] == last[..share][i] == src[lo..lo + share][i] == src[lo + i];
  }

  lemma JoinPrefix(front: seq<byte>, last: seq<byte>, src: seq<byte>, lo: nat, n: nat)
    requires lo + n <= |src| && front == src[..lo] && n <= |last| && last[..n] == src[lo..lo + n]
    ensures (front + last)[..lo + n] == src[..lo + n]
  {
    assert (front + last)[..lo + n] == front + last[..n];
  }

  /** src can be written to count sectors, size bytes of it being meant: either the last
      sector still holds some of the size bytes, or src fills all the sectors. */
  ghost predicate Covers(src: seq<byte>, size: nat, count: nat) {
    && size <= |src| && size < 0x1_0000_0000_0000_0000 && 1 <= count < 0x1_0000_0000
    && size <= 512 * count
    && (512 * (count - 1) < size || 512 * count <= |src|)
  }

  /** The u64 counter after i subtractions of a sector makes the loop copy the share of
      sector i, or a whole sector once the counter has wrapped. */
  lemma Remaining(src: seq<byte>, size: nat, count: nat, i: nat)
    requires Covers(src, size, count) && i < count
    ensures Share(size, i) <= Min(Sub64(size, 512 * i), 512) && 512 * i + Min(Sub64(size, 512 * i), 512) <= |src|
    ensures 512 * i <= size ==> Min(Sub64(size, 512 * i), 512) == Share(size, i)
  {
    if 512 * i <= size {
      assert Sub64(size, 512 * i) == size - 512 * i;
    }
  }

  lemma NoRemaining(src: seq<byte>, size: nat, count: nat)
    requires Covers(src, size, count)
    ensures 1 <= count && Sub64(size, 0) == size <= |src|
  {
  }

  lemma NextRemaining(size: nat, i: nat)
    ensures Sub64(Sub64(size, 512 * i), 512) == Sub64(size, 512 * (i + 1))
  {
    var whole := size - 512 * i;
    assert whole == whole / 0x1_0000_0000_0000_0000 * 0x1_0000_0000_0000_0000 + Sub64(size, 512 * i);
  }

  lemma StoreStep(data: seq<Sector>, c: seq<nat>, src: seq<byte>, size: nat, i: nat, len: nat)
    requires size <= |src| && i == |c| - 1
    requires forall k :: 0 <= k < |c| ==> c[k] < |data|
    requires forall k :: 0 <= k < i ==> c[k] != c[i]
    requires Stored(data, c, i, src, size)
    requires Share(size, i) <= len <= 512 && 512 * i + len <= |src|
    requires 512 * i <= size ==> len == Share(size, i)
    ensures Stored(data[c[i] := Overwrite(data[c[i]], src[512 * i..512 * i + len])], c, i + 1, src, size)
  {
    var sector := Overwrite(data[c[i]], src[512 * i..512 * i + len]);
    var data' := data[c[i] := sector];
    forall k | 0 <= k < i + 1
      ensures data'[c[k]][..Share(size, k)] == src[Min(512 * k, size)..Min(512 * k, size) + Share(size, k)]
    {
      if k == i && 512 * i <= size {
        assert sector[..len] == src[512 * i..512 * i + len];
      }
    }
  }

  lemma StoredExtend(data: seq<Sector>, data': seq<Sector>, c: seq<nat>, w: nat, src: seq<byte>, size: nat, next: nat)
    requires w <= |c| && size <= |src| && |data| <= |data'| && next < |data'|
    requires forall i :: 0 <= i < |c| ==> c[i] < |data|
    requires forall i :: 0 <= i < |data| ==> data'[i] == data[i]
    requires Stored(data, c, w, src, size)
    ensures Stored(data', c + [next], w, src, size)
  {
    var c' := c + [next];
    forall k | 0 <= k < w
      ensures data'[c'[k]][..Share(size, k)] == src[Min(512 * k, size)..Min(512 * k, size) + Share(size, k)]
    {
      assert c'[k] == c[k];
    }
  }
}
