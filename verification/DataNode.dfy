/** The block store of a data node: one file of 16 MiB for each block. */
module DataNode {
  import opened Bytes

  /** The block files of one node, by block number. */
  type Store = map<u64, seq<byte>>

  function Zeros(n: nat): (r: seq<byte>)
    ensures |r| == n && forall i :: 0 <= i < n ==> r[i] == 0
  {
    seq(n, _ => 0)
  }

  /** A file after x has been written at offset; a gap before offset reads as zeros. */
  function PutBytes(f: seq<byte>, offset: nat, x: seq<byte>): seq<byte> {
    if x == [] then f
    else
      var g := if |f| < offset then f + Zeros(offset - |f|) else f;
      g[..offset] + x + (if offset + |x| < |g| then g[offset + |x|..] else [])
  }

  /** A store after a write to a block, which is made of zeros when it is new. */
  function WriteTo(s: Store, num: u64, offset: nat, x: seq<byte>): Store {
    s[num := PutBytes(if num in s then s[num] else Zeros(0x100_0000), offset, x)]
  }

  /** Byte k of block num is v. */
  ghost predicate Byte(s: Store, num: u64, k: nat, v: byte) {
    num in s && k < |s[num]| && s[num][k] == v
  }

  /** What a write changes: the bytes in its range are those written, and others are kept. */
  lemma WriteToBytes(s: Store, num: u64, offset: nat, x: seq<byte>, m: u64, k: nat, v: byte)
    ensures m == num && offset <= k < offset + |x| ==>
              (Byte(WriteTo(s, num, offset, x), m, k, v) <==> x[k - offset] == v)
    ensures !(m == num && offset <= k < offset + |x|) && Byte(s, m, k, v) ==>
              Byte(WriteTo(s, num, offset, x), m, k, v)
  {
    if m == num && x != [] {
      var f := if num in s then s[num] else Zeros(0x100_0000);
      PutBytesAt(f, offset, x, k);
    }
  }

  lemma PutBytesAt(f: seq<byte>, offset: nat, x: seq<byte>, k: nat)
    requires x != []
    ensures var r := PutBytes(f, offset, x);
            && |r| == (if |f| < offset + |x| then offset + |x| else |f|)
            && (offset <= k < offset + |x| ==> r[k] == x[k - offset])
            && (k < |f| && !(offset <= k < offset + |x|) ==> r[k] == f[k])
  {
  }

  class DataNode {
    var files: Store
    // blocklist[0..bnum]: what the node reports to the control node
    var list: seq<u64>

    /** The list names the blocks that have a file. */
    ghost predicate Valid()
      reads this
    {
      forall n :: n in files <==> n in list
    }

    constructor ()
      ensures Valid() && files == map[] && list == []
    {
      files, list := map[], [];
    }

    /** createblock: writes 16384 times 1024 zeros to the block's file. */
    method CreateBlock(num: u64)
      requires Valid()
      modifies this
      ensures Valid()
      ensures files == old(files)[num := Zeros(0x100_0000)] && list == old(list) + [num]
    {
      var file: seq<byte> := [];
      var i := 0;
      while i < 1024 * 16
        invariant 0 <= i <= 1024 * 16 && file == Zeros(1024 * i)
      {
        file := file + Zeros(1024);
        i := i + 1;
      }
      files := files[num := file];
      list := list + [num];
    }

    /** writeblock: creates the block if it has no file yet, and writes data at offset. */
    method WriteBlock(num: u64, offset: u32, data: seq<byte>) returns (ret: int)
      requires Valid()
      modifies this
      ensures Valid() && ret == 0 && files == WriteTo(old(files), num, offset, data)
    {
      if num !in files {
        CreateBlock(num);
      }
      files := files[num := PutBytes(files[num], offset, data)];
      return 0;
    }

    /** readblock: reads up to length bytes at offset; what lies beyond the end of the file is left
        in the buffer as it was, and a block without a file is refused. */
    method ReadBlock(num: u64, offset: u32, length: u32, databuf: array<byte>) returns (ret: int)
      requires databuf.Length >= length
      modifies databuf
      ensures ret == if num in files then 0 else -1
      ensures forall k :: 0 <= k < databuf.Length ==>
                databuf[k] == if num in files && k < length && offset + k < |files[num]| then files[num][offset + k]
                              else old(databuf[k])
    {
      if num !in files {
        return -1;
      }
      var file := files[num];
      var count := if |file| <= offset then 0 else Min(length, |file| - offset);
      forall k | 0 <= k < count {
        databuf[k] := file[offset + k];
      }
      return 0;
    }
  }
}
