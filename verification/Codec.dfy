/** The packed C structures file_meta_t, file_entry_t and file_block_t as bytes. */
module Codec {
  import opened Bytes

  type Reserve = s: seq<byte> | |s| == 3 witness [0, 0, 0]

  datatype Meta = Meta(uid: u32, count: u32, flen: u64, cTime: u64, rTime: u64, wTime: u64,
                       strbase: u64, strlen: u64, blocks: u32, flags: byte, reserve: Reserve)
  datatype Entry = Entry(name: u64, fb: u32, kind: byte, reserve: Reserve)
  datatype Block = Block(num: u64, offset: u32, length: u32, ip0: u32, ip1: u32, ip2: u32,
                         flags: byte, reserve: Reserve)

  // ----- one field at a time -----

  function Get8(s: seq<byte>): (v: u64)
    requires |s| >= 8
  {
    PowerSizes();
    ToLEOfLE(s[..8]);
    LE(s[..8])
  }

  function Get4(s: seq<byte>): (v: u32)
    requires |s| >= 4
  {
    PowerSizes();
    ToLEOfLE(s[..4]);
    LE(s[..4])
  }

  lemma Field8(v: u64, rest: seq<byte>)
    ensures Get8(ToLE(v, 8) + rest) == v && (ToLE(v, 8) + rest)[8..] == rest
  {
    PowerSizes();
    LEOfToLE(v, 8);
    TakeDrop(ToLE(v, 8), rest);
  }

  lemma Field4(v: u32, rest: seq<byte>)
    ensures Get4(ToLE(v, 4) + rest) == v && (ToLE(v, 4) + rest)[4..] == rest
  {
    PowerSizes();
    LEOfToLE(v, 4);
    TakeDrop(ToLE(v, 4), rest);
  }

  lemma Unfield8(s: seq<byte>)
    requires |s| >= 8
    ensures ToLE(Get8(s), 8) + s[8..] == s
  {
    ToLEOfLE(s[..8]);
  }

  lemma Unfield4(s: seq<byte>)
    requires |s| >= 4
    ensures ToLE(Get4(s), 4) + s[4..] == s
  {
    ToLEOfLE(s[..4]);
  }

  // ----- file_meta_t -----

  function EncodeMeta(m: Meta): (s: seq<byte>)
    ensures |s| == 64
  {
    ToLE(m.uid, 4) + (ToLE(m.count, 4) + (ToLE(m.flen, 8) + (ToLE(m.cTime, 8) + (ToLE(m.rTime, 8)
    + (ToLE(m.wTime, 8) + EncodeMetaTail(m))))))
  }

  function EncodeMetaTail(m: Meta): (s: seq<byte>)
    ensures |s| == 24
  {
    ToLE(m.strbase, 8) + (ToLE(m.strlen, 8) + (ToLE(m.blocks, 4) + ([m.flags] + m.reserve)))
  }

  function DecodeMeta(s: seq<byte>): Meta
    requires |s| >= 64
  {
    Meta(Get4(s), Get4(s[4..]), Get8(s[8..]), Get8(s[16..]), Get8(s[24..]), Get8(s[32..]),
         Get8(s[40..]), Get8(s[48..]), Get4(s[56..]), s[60], s[61..64])
  }

  lemma Suffixes(s: seq<byte>, a: nat, b: nat)
    requires a + b <= |s|
    ensures s[a..][b..] == s[a + b..]
  {
  }

  lemma DecodeMetaTail(m: Meta, s: seq<byte>)
    requires |s| == 64 && s[40..] == EncodeMetaTail(m)
    ensures Get8(s[40..]) == m.strbase && Get8(s[48..]) == m.strlen && Get4(s[56..]) == m.blocks
    ensures s[60] == m.flags && s[61..64] == m.reserve
  {
    var t2 := [m.flags] + m.reserve;
    var t1 := ToLE(m.blocks, 4) + t2;
    var t0 := ToLE(m.strlen, 8) + t1;
    Field8(m.strbase, t0);
    Suffixes(s, 40, 8);
    Field8(m.strlen, t1);
    Suffixes(s, 48, 8);
    Field4(m.blocks, t2);
    Suffixes(s, 56, 4);
    assert s[60..] == t2;
    assert s[60..][1..] == m.reserve;
    assert s[61..64] == s[60..][1..];
  }

  /** Writing a file_meta_t and reading it back gives every field unchanged. */
  lemma MetaRoundTrip(m: Meta, rest: seq<byte>)
    ensures DecodeMeta(EncodeMeta(m) + rest) == m
  {
    var s := EncodeMeta(m);
    var t5 := EncodeMetaTail(m);
    var t4 := ToLE(m.wTime, 8) + t5;
    var t3 := ToLE(m.rTime, 8) + t4;
    var t2 := ToLE(m.cTime, 8) + t3;
    var t1 := ToLE(m.flen, 8) + t2;
    var t0 := ToLE(m.count, 4) + t1;
    Field4(m.uid, t0);
    Field4(m.count, t1);
    Suffixes(s, 4, 4);
    Field8(m.flen, t2);
    Suffixes(s, 8, 8);
    Field8(m.cTime, t3);
    Suffixes(s, 16, 8);
    Field8(m.rTime, t4);
    Suffixes(s, 24, 8);
    Field8(m.wTime, t5);
    Suffixes(s, 32, 8);
    DecodeMetaTail(m, s);
    DecodeMetaPrefix(s, rest);
  }

  lemma DecodeMetaPrefix(s: seq<byte>, rest: seq<byte>)
    requires |s| >= 64
    ensures DecodeMeta(s + rest) == DecodeMeta(s)
  {
    var t := s + rest;
    assert t[..4] == s[..4] && t[4..][..4] == s[4..][..4] && t[8..][..8] == s[8..][..8];
    assert t[16..][..8] == s[16..][..8] && t[24..][..8] == s[24..][..8] && t[32..][..8] == s[32..][..8];
    assert t[40..][..8] == s[40..][..8] && t[48..][..8] == s[48..][..8] && t[56..][..4] == s[56..][..4];
    assert t[61..64] == s[61..64];
  }

  /** Reading a file_meta_t and writing it back changes no byte, so a store through one field
      of the structure changes that field only. */
  lemma MetaBytesRoundTrip(s: seq<byte>)
    requires |s| == 64
    ensures EncodeMeta(DecodeMeta(s)) == s
  {
    Unfield4(s);
    Unfield4(s[4..]);
    Suffixes(s, 4, 4);
    Unfield8(s[8..]);
    Suffixes(s, 8, 8);
    Unfield8(s[16..]);
    Suffixes(s, 16, 8);
    Unfield8(s[24..]);
    Suffixes(s, 24, 8);
    Unfield8(s[32..]);
    Suffixes(s, 32, 8);
    MetaTailBytes(s);
  }

  lemma MetaTailBytes(s: seq<byte>)
    requires |s| == 64
    ensures EncodeMetaTail(DecodeMeta(s)) == s[40..]
  {
    hide Get4, Get8, ToLE, LE;
    Unfield8(s[40..]);
    Suffixes(s, 40, 8);
    Unfield8(s[48..]);
    Suffixes(s, 48, 8);
    Unfield4(s[56..]);
    Suffixes(s, 56, 4);
    assert s[60..] == [s[60]] + s[61..64];
  }

  /** The value of a field at an offset of a packed structure. */
  function U32(s: seq<byte>, at: nat): nat
    requires at + 4 <= |s|
  {
    s[at] as int + 0x100 * (s[at + 1] as int) + 0x1_0000 * (s[at + 2] as int) + 0x100_0000 * (s[at + 3] as int)
  }

  function U64(s: seq<byte>, at: nat): nat
    requires at + 8 <= |s|
  {
    U32(s, at) + 0x1_0000_0000 * U32(s, at + 4)
  }

  lemma Get4At(s: seq<byte>, at: nat)
    requires at + 4 <= |s|
    ensures Get4(s[at..]) == U32(s, at)
  {
    var f := s[at..][..4];
    assert LE(f) == f[0] + 256 * LE(f[1..]);
    assert LE(f[1..]) == f[1] + 256 * LE(f[1..][1..]);
    assert LE(f[1..][1..]) == f[2] + 256 * LE(f[1..][1..][1..]);
    assert LE(f[1..][1..][1..]) == f[3];
  }

  lemma Get8At(s: seq<byte>, at: nat)
    requires at + 8 <= |s|
    ensures Get8(s[at..]) == U64(s, at)
  {
    var f := s[at..][..8];
    LEHalves(f);
    Get4At(s, at);
    Get4At(s, at + 4);
    assert f[..4] == s[at..][..4] && f[4..] == s[at + 4..][..4];
  }

  lemma LEHalves(f: seq<byte>)
    requires |f| >= 4
    ensures LE(f) == LE(f[..4]) + 0x1_0000_0000 * LE(f[4..])
  {
    var f1 := f[1..];
    var f2 := f1[1..];
    var f3 := f2[1..];
    Get4At(f, 0);
    assert f[0..] == f && f3[1..] == f[4..];
    assert LE(f) == f[0] + 256 * LE(f1) && LE(f1) == f[1] + 256 * LE(f2);
    assert LE(f2) == f[2] + 256 * LE(f3) && LE(f3) == f[3] + 256 * LE(f[4..]);
  }

  /** The offsets of the fields in the three structures. */
  lemma Layout(s: seq<byte>)
    requires |s| >= 64
    ensures var m := DecodeMeta(s);
            && m.uid == U32(s, 0) && m.count == U32(s, 4) && m.flen == U64(s, 8)
            && m.cTime == U64(s, 16) && m.rTime == U64(s, 24) && m.wTime == U64(s, 32)
            && m.strbase == U64(s, 40) && m.strlen == U64(s, 48) && m.blocks == U32(s, 56) && m.flags == s[60]
    ensures var e := DecodeEntry(s); e.name == U64(s, 0) && e.fb == U32(s, 8) && e.kind == s[12]
    ensures var b := DecodeBlock(s);
            && b.num == U64(s, 0) && b.offset == U32(s, 8) && b.length == U32(s, 12)
            && b.ip0 == U32(s, 16) && b.ip1 == U32(s, 20) && b.ip2 == U32(s, 24) && b.flags == s[28]
  {
    hide Get4, Get8, U32, U64;
    assert s[0..] == s;
    forall at | at in {0, 4, 8, 12, 16, 20, 24, 56} ensures Get4(s[at..]) == U32(s, at) {
      Get4At(s, at);
    }
    forall at | at in {0, 8, 16, 24, 32, 40, 48} ensures Get8(s[at..]) == U64(s, at) {
      Get8At(s, at);
    }
  }

  // ----- file_entry_t -----

  function EncodeEntry(e: Entry): (s: seq<byte>)
    ensures |s| == 16
  {
    ToLE(e.name, 8) + (ToLE(e.fb, 4) + ([e.kind] + e.reserve))
  }

  function DecodeEntry(s: seq<byte>): Entry
    requires |s| >= 16
  {
    Entry(Get8(s), Get4(s[8..]), s[12], s[13..16])
  }

  lemma EntryRoundTrip(e: Entry)
    ensures DecodeEntry(EncodeEntry(e)) == e
  {
    var s := EncodeEntry(e);
    var t1 := [e.kind] + e.reserve;
    Field8(e.name, ToLE(e.fb, 4) + t1);
    Field4(e.fb, t1);
    Suffixes(s, 8, 4);
    assert s[12..] == t1 && s[12..][1..] == e.reserve && s[13..16] == s[12..][1..];
  }

  // ----- file_block_t -----

  function EncodeBlock(b: Block): (s: seq<byte>)
    ensures |s| == 32
  {
    ToLE(b.num, 8) + (ToLE(b.offset, 4) + (ToLE(b.length, 4) + EncodeBlockTail(b)))
  }

  function EncodeBlockTail(b: Block): (s: seq<byte>)
    ensures |s| == 16
  {
    ToLE(b.ip0, 4) + (ToLE(b.ip1, 4) + (ToLE(b.ip2, 4) + ([b.flags] + b.reserve)))
  }

  function DecodeBlock(s: seq<byte>): Block
    requires |s| >= 32
  {
    Block(Get8(s), Get4(s[8..]), Get4(s[12..]), Get4(s[16..]), Get4(s[20..]), Get4(s[24..]), s[28], s[29..32])
  }

  lemma BlockRoundTrip(b: Block)
    ensures DecodeBlock(EncodeBlock(b)) == b
  {
    hide Get4, Get8, ToLE, LE;
    var s := EncodeBlock(b);
    var t3 := [b.flags] + b.reserve;
    var t2 := ToLE(b.ip2, 4) + t3;
    var t1 := ToLE(b.ip1, 4) + t2;
    var t0 := EncodeBlockTail(b);
    var u := ToLE(b.length, 4) + t0;
    Field8(b.num, ToLE(b.offset, 4) + u);
    Field4(b.offset, u);
    Suffixes(s, 8, 4);
    Field4(b.length, t0);
    Suffixes(s, 12, 4);
    Field4(b.ip0, t1);
    Suffixes(s, 16, 4);
    Field4(b.ip1, t2);
    Suffixes(s, 20, 4);
    Field4(b.ip2, t3);
    Suffixes(s, 24, 4);
    assert s[28..] == t3 && s[28..][1..] == b.reserve && s[29..32] == s[28..][1..];
  }
}
