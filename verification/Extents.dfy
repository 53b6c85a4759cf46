/** Which parts of which blocks a byte range of a file is made of, as c_read and c_write answer. */
module Extents {
  import opened Bytes
  import opened Sectors
  import opened Tree

  // BLOCKSIZE, 16 MiB, appears as the literal 0x100_0000.

  /** One piece of a request: a block, where in it, how long, and who holds the block. */
  datatype Extent = Extent(num: u64, offset: u32, length: u32, ip0: u32, ip1: u32, ip2: u32)

  function Piece(d: Desc, offset: u32, length: u32): Extent {
    Extent(d.num, offset, length, d.ip0, d.ip1, d.ip2)
  }

  /** A number assigned to an int: what does not fit wraps around. */
  function ToInt(x: int): int {
    var low := x % 0x1_0000_0000;
    if low >= 0x8000_0000 then low - 0x1_0000_0000 else low
  }

  /** blocknum++ where the condition holds. */
  function PlusOne(n: int, b: bool): int {
    if b then ToInt(n + 1) else n
  }

  /** The number of blocks as the code computes it in an int, with a subtraction that may wrap. */
  function RawCount(offset: nat, length: nat): int {
    var offset1 := UpDiv(offset, 0x100_0000) * 0x100_0000;
    var length1 := (length + offset) / 0x100_0000 * 0x100_0000;
    PlusOne(PlusOne(ToInt(Sub64(length1, offset1) / 0x100_0000), offset != offset1), offset + length != length1)
  }

  /** The number of blocks that the range from offset to offset + length touches. */
  function BlockCount(offset: nat, length: nat): nat {
    UpDiv(offset + length, 0x100_0000) - offset / 0x100_0000
  }

  /** An int can hold that number. */
  predicate Countable(offset: nat, length: nat) {
    BlockCount(offset, length) < 0x8000_0000
  }

  /** The computed count is right, also where the subtraction wraps around, exactly if it fits an int;
      and the pieces fit the buffer that the caller provides. */
  lemma CountExact(offset: nat, length: nat)
    requires offset + length < 0x1_0000_0000_0000_0000
    ensures RawCount(offset, length) == BlockCount(offset, length) <==> Countable(offset, length)
    ensures RawCount(offset, length) == ToInt(BlockCount(offset, length))
    ensures BlockCount(offset, length) <= length / 0x100_0000 + 2
  {
    var up, down := UpDiv(offset, 0x100_0000), (offset + length) / 0x100_0000;
    CountsMeet(offset, length);
    BlockDistance(up, down);
    StepInt(down - up, offset != up * 0x100_0000);
    StepInt(down - up + Bit(offset != up * 0x100_0000), offset + length != down * 0x100_0000);
    IntFits(BlockCount(offset, length));
    hide ToInt;
  }

  function Bit(b: bool): int { if b then 1 else 0 }

  lemma CountsMeet(offset: nat, length: nat)
    ensures UpDiv(offset, 0x100_0000) <= (offset + length) / 0x100_0000 + 1
    ensures var up, down := UpDiv(offset, 0x100_0000), (offset + length) / 0x100_0000;
            BlockCount(offset, length)
            == down - up + Bit(offset != up * 0x100_0000) + Bit(offset + length != down * 0x100_0000)
    ensures BlockCount(offset, length) <= length / 0x100_0000 + 2
  {
  }

  /** The wrapped difference of two block boundaries, counted in blocks. */
  lemma BlockDistance(up: nat, down: nat)
    requires up <= down + 1 && down * 0x100_0000 < 0x1_0000_0000_0000_0000
    ensures ToInt(Sub64(down * 0x100_0000, up * 0x100_0000) / 0x100_0000) == ToInt(down - up)
  {
    if up <= down {
      assert Sub64(down * 0x100_0000, up * 0x100_0000) == (down - up) * 0x100_0000;
    } else {
      assert Sub64(down * 0x100_0000, up * 0x100_0000) == 0x1_0000_0000_0000_0000 - 0x100_0000;
    }
  }

  /** Wrapping around on the way makes no difference in the end. */
  lemma StepInt(n: int, b: bool)
    ensures PlusOne(ToInt(n), b) == ToInt(n + Bit(b))
  {
    var k := if n % 0x1_0000_0000 >= 0x8000_0000 then n / 0x1_0000_0000 + 1 else n / 0x1_0000_0000;
    assert n + 1 == ToInt(n) + 1 + 0x1_0000_0000 * k;
    SameLow(ToInt(n) + 1, k);
  }

  lemma SameLow(x: int, k: int)
    ensures ToInt(x + 0x1_0000_0000 * k) == ToInt(x)
  {
    var q, r := x / 0x1_0000_0000, x % 0x1_0000_0000;
    assert x + 0x1_0000_0000 * k == 0x1_0000_0000 * (q + k) + r;
  }

  lemma IntFits(n: int)
    ensures ToInt(n) == n <==> -0x8000_0000 <= n < 0x8000_0000
  {
  }

  // ----- reading -----

  /** The length written for the first of several pieces: BLOCKSIZE - offset, in 32 bits. */
  function FirstLength(offset: nat): u32 {
    (0x100_0000 - offset) % 0x1_0000_0000
  }

  /** The length of a last piece that ends end bytes into something: a full block at its end. */
  function LastLength(end: nat): u32 {
    if end % 0x100_0000 != 0 then end % 0x100_0000 else 0x100_0000
  }

  /** Offset and length within its block of the i-th of count pieces. */
  function ReadPart(offset: nat, length: nat, count: nat, i: nat): (u32, u32)
    requires count == 1 ==> length < 0x1_0000_0000
  {
    if count == 1 then (offset % 0x100_0000, length)
    else if i == 0 then (offset % 0x100_0000, FirstLength(offset))
    else if i == count - 1 then (0, LastLength(offset + length))
    else (0, 0x100_0000)
  }

  /** Where in the file the i-th part starts and ends, block first being the one of part 0. */
  ghost function Start(parts: seq<(u32, u32)>, first: nat, i: nat): int
    requires i < |parts|
  {
    0x100_0000 * (first + i) + (parts[i].0 as int)
  }

  ghost function End(parts: seq<(u32, u32)>, first: nat, i: nat): int
    requires i < |parts|
  {
    Start(parts, first, i) + (parts[i].1 as int)
  }

  /** The i-th part lies in the block with index first + i of the file. */
  ghost predicate Tiles(parts: seq<(u32, u32)>, first: nat, lo: nat, hi: nat) {
    && (|parts| == 0 ==> lo == hi)
    && (|parts| > 0 ==> Start(parts, first, 0) == lo)
    && (forall i :: 0 <= i < |parts| ==> (parts[i].0 as int) + (parts[i].1 as int) <= 0x100_0000)
    && (forall i :: 0 <= i < |parts| ==>
          End(parts, first, i) == if i == |parts| - 1 then hi else Start(parts, first, i + 1))
  }

  function ReadParts(offset: nat, length: nat, count: nat): (r: seq<(u32, u32)>)
    requires count == 1 ==> length < 0x1_0000_0000
    ensures |r| == count
  {
    seq(count, i requires 0 <= i < count => ReadPart(offset, length, count, i))
  }

  /** A range within one block is short. */
  lemma OneBlock(offset: nat, length: nat)
    requires BlockCount(offset, length) == 1
    ensures offset % 0x100_0000 + length <= 0x100_0000
  {
  }

  /** The first of several pieces is some number of blocks longer than what is left of its block. */
  lemma FirstLengthBlocks(offset: nat) returns (m: int)
    ensures FirstLength(offset) == 0x100_0000 - offset % 0x100_0000 + 0x100_0000 * m
    ensures m == 0 <==> offset / 0x100_0000 % 256 == 0
  {
    var q, r := offset / 0x100_0000, offset % 0x100_0000;
    var k := q % 256;
    assert offset == 0x1_0000_0000 * (q / 256) + 0x100_0000 * k + r;
    FirstLengthMod(q / 256, 0x100_0000 * k + r);
    m := if 0x100_0000 * k + r <= 0x100_0000 then 0 - k else 256 - k;
  }

  /** It ends at the end of its block exactly if the block's index is a multiple of 256: then the
      multiple of 4 GiB too much is lost in 32 bits. */
  lemma FirstLengthExact(offset: nat)
    ensures FirstLength(offset) == 0x100_0000 - offset % 0x100_0000 <==> offset / 0x100_0000 % 256 == 0
  {
    var m := FirstLengthBlocks(offset);
  }

  lemma FirstLengthMod(m: nat, x: nat)
    requires x < 0x1_0000_0000
    ensures (0x100_0000 - (0x1_0000_0000 * m + x)) % 0x1_0000_0000
         == if x <= 0x100_0000 then 0x100_0000 - x else 0x1_0100_0000 - x
  {
    var y := if x <= 0x100_0000 then 0x100_0000 - x else 0x1_0100_0000 - x;
    assert 0 <= y < 0x1_0000_0000;
    var k: int := if x <= 0x100_0000 then 0 - m else 0 - m - 1;
    assert 0x100_0000 - (0x1_0000_0000 * m + x) == k * 0x1_0000_0000 + y;
  }

  /** There is at most one piece, or the first block's index is a multiple of 256. */
  predicate ReadAligned(offset: nat, count: nat) {
    count <= 1 || offset / 0x100_0000 % 256 == 0
  }

  /** What the pieces of a read are: they tile the range under this condition only. */
  lemma ReadTiles(offset: nat, length: nat)
    requires BlockCount(offset, length) == 1 ==> length < 0x1_0000_0000
    ensures Tiles(ReadParts(offset, length, BlockCount(offset, length)), offset / 0x100_0000, offset, offset + length)
       <==> ReadAligned(offset, BlockCount(offset, length))
  {
    var count, q := BlockCount(offset, length), offset / 0x100_0000;
    var parts := ReadParts(offset, length, count);
    if count == 1 {
      OneBlock(offset, length);
    } else if count >= 2 {
      FirstLengthExact(offset);
      if q % 256 == 0 {
        forall i | 0 <= i < count
          ensures (parts[i].0 as int) + (parts[i].1 as int) <= 0x100_0000
          ensures End(parts, q, i) == if i == count - 1 then offset + length else Start(parts, q, i + 1)
        {
          ReadPartEnds(offset, length, count, i);
        }
      } else {
        assert End(parts, q, 0) != Start(parts, q, 1);
      }
    } else {
      EmptyRange(offset, length);
    }
  }

  lemma EmptyRange(offset: nat, length: nat)
    requires BlockCount(offset, length) == 0
    ensures length == 0
  {
  }

  lemma ReadPartEnds(offset: nat, length: nat, count: nat, i: nat)
    requires count == BlockCount(offset, length) >= 2 && i < count
    requires FirstLength(offset) == 0x100_0000 - offset % 0x100_0000
    ensures var p := ReadPart(offset, length, count, i);
            && (p.0 as int) + (p.1 as int) <= 0x100_0000
            && 0x100_0000 * (offset / 0x100_0000 + i) + (p.0 as int) + (p.1 as int)
               == if i == count - 1 then offset + length else 0x100_0000 * (offset / 0x100_0000 + i + 1)
    ensures i > 0 ==> ReadPart(offset, length, count, i).0 == 0
  {
    if i == count - 1 {
      LastLengthExact(offset + length);
    }
  }

  lemma LastLengthExact(end: nat)
    requires end > 0
    ensures 0x100_0000 * (UpDiv(end, 0x100_0000) - 1) + LastLength(end) == end
  {
  }

  // ----- writing -----

  /** How many blocks a write must add to a file of flen bytes; not positive if none. */
  function NewCount(flen: nat, offset: nat, length: nat): int {
    UpDiv(offset + length, 0x100_0000) - UpDiv(flen, 0x100_0000)
  }

  /** The same as the code computes it in an int. */
  function RawNewCount(flen: nat, offset: nat, length: nat): int {
    ToInt(Sub64(UpDiv(offset + length, 0x100_0000), UpDiv(flen, 0x100_0000)))
  }

  /** That is right exactly if it fits an int. */
  lemma NewCountExact(flen: nat, offset: nat, length: nat)
    requires offset + length < 0x1_0000_0000_0000_0000 && flen < 0x1_0000_0000_0000_0000
    ensures var n := NewCount(flen, offset, length);
            RawNewCount(flen, offset, length) == n <==> -0x8000_0000 <= n < 0x8000_0000
  {
    var n := NewCount(flen, offset, length);
    var a, b := UpDiv(offset + length, 0x100_0000), UpDiv(flen, 0x100_0000);
    IntFits(n);
    if n < 0 {
      assert Sub64(a, b) == n + 0x1_0000_0000 * 0x1_0000_0000;
      SameLow(n, 0x1_0000_0000);
    }
  }

  /** Offset and length of the i-th of count pieces of a write that adds added blocks. */
  function WritePart(offset: nat, length: nat, count: nat, added: nat, i: nat): (u32, u32)
    requires count == 1 ==> length < 0x1_0000_0000
    requires added <= count
  {
    if added == 0 then ReadPart(offset, length, count, i)
    else if i < count - added then
      if i == 0 then (offset % 0x100_0000, FirstLength(offset)) else (0, 0x100_0000)
    else (0, if i == count - 1 then LastLength(length) else 0x100_0000)
  }

  function WriteParts(offset: nat, length: nat, count: nat, added: nat): (r: seq<(u32, u32)>)
    requires count == 1 ==> length < 0x1_0000_0000
    requires added <= count
    ensures |r| == count
  {
    seq(count, i requires 0 <= i < count => WritePart(offset, length, count, added, i))
  }

  lemma AddedWithin(flen: nat, offset: nat, length: nat)
    requires offset <= flen
    ensures NewCount(flen, offset, length) <= BlockCount(offset, length)
    ensures 0 < NewCount(flen, offset, length) == BlockCount(offset, length) ==> offset % 0x100_0000 == 0
    ensures 0 < NewCount(flen, offset, length) ==> 0 < length
  {
  }

  /** The pieces of a write that needs no new block, or old ones as well as new ones, tile its range
      under these conditions only. */
  predicate WriteAligned(offset: nat, count: nat, added: nat) {
    if added == 0 then ReadAligned(offset, count)
    else count == added || (offset / 0x100_0000 % 256 == 0 && offset % 0x100_0000 == 0)
  }

  lemma LastLengthMod(offset: nat, length: nat)
    requires length > 0
    ensures LastLength(length) == LastLength(offset + length) <==> offset % 0x100_0000 == 0
  {
    var r, s := offset % 0x100_0000, length % 0x100_0000;
    assert (offset + length) % 0x100_0000 == if r + s < 0x100_0000 then r + s else r + s - 0x100_0000;
  }

  lemma WriteTiles(flen: nat, offset: nat, length: nat, count: nat, added: nat)
    requires offset <= flen && count == BlockCount(offset, length)
    requires added == (if NewCount(flen, offset, length) > 0 then NewCount(flen, offset, length) else 0)
    requires added <= count && (count == 1 ==> length < 0x1_0000_0000)
    ensures Tiles(WriteParts(offset, length, count, added), offset / 0x100_0000, offset, offset + length)
       <==> WriteAligned(offset, count, added)
  {
    if added == 0 {
      ReadTiles(offset, length);
      assert WriteParts(offset, length, count, 0) == ReadParts(offset, length, count);
    } else {
      AddedWithin(flen, offset, length);
      LastLengthMod(offset, length);
      LastLengthExact(offset + length);
      FirstLengthExact(offset);
      if WriteAligned(offset, count, added) {
        GrowingTiles(offset, length, count, added);
      } else {
        GrowingGaps(offset, length, count, added);
      }
    }
  }

  lemma GrowingTiles(offset: nat, length: nat, count: nat, added: nat)
    requires 0 < added <= count == BlockCount(offset, length) && (count == 1 ==> length < 0x1_0000_0000)
    requires offset % 0x100_0000 == 0
    requires count > added ==> FirstLength(offset) == 0x100_0000
    requires LastLength(length) == LastLength(offset + length)
    requires 0x100_0000 * (UpDiv(offset + length, 0x100_0000) - 1) + LastLength(length) == offset + length
    ensures Tiles(WriteParts(offset, length, count, added), offset / 0x100_0000, offset, offset + length)
  {
    var parts, q := WriteParts(offset, length, count, added), offset / 0x100_0000;
    forall i | 0 <= i < count
      ensures (parts[i].0 as int) == 0 && (parts[i].1 as int) <= 0x100_0000
      ensures 0x100_0000 * (q + i) + (parts[i].1 as int)
           == if i == count - 1 then offset + length else 0x100_0000 * (q + i + 1)
    {
    }
  }

  lemma GrowingGaps(offset: nat, length: nat, count: nat, added: nat)
    requires 0 < added < count == BlockCount(offset, length)
    requires FirstLength(offset) != 0x100_0000 - offset % 0x100_0000
             || LastLength(length) != LastLength(offset + length)
    requires 0x100_0000 * (UpDiv(offset + length, 0x100_0000) - 1) + LastLength(offset + length) == offset + length
    ensures !Tiles(WriteParts(offset, length, count, added), offset / 0x100_0000, offset, offset + length)
  {
    var parts, q := WriteParts(offset, length, count, added), offset / 0x100_0000;
    assert parts[0] == (offset % 0x100_0000, FirstLength(offset)) && parts[1].0 == 0;
    assert parts[count - 1] == (0, LastLength(length));
    assert q + count == UpDiv(offset + length, 0x100_0000);
    if LastLength(length) != LastLength(offset + length) {
      assert End(parts, q, count - 1) != offset + length;
    } else {
      assert End(parts, q, 0) != Start(parts, q, 1);
    }
  }

  /** A read of two blocks from the second block of a file on: its first piece is empty, because
      BLOCKSIZE - offset is 0 there. */
  lemma CrossingRead()
    ensures ReadParts(0x100_0000, 0x200_0000, BlockCount(0x100_0000, 0x200_0000)) == [(0, 0), (0, 0x100_0000)]
    ensures !Tiles(ReadParts(0x100_0000, 0x200_0000, BlockCount(0x100_0000, 0x200_0000)), 1, 0x100_0000, 0x300_0000)
  {
    ReadTiles(0x100_0000, 0x200_0000);
  }

  /** Ranges of 2^31 blocks: the computed counts are negative. */
  lemma TooManyBlocks()
    ensures BlockCount(1, 0x7F_FFFF_FFFF_FFFF) == 0x8000_0000 && RawCount(1, 0x7F_FFFF_FFFF_FFFF) == -0x8000_0000
    ensures var length := 0x80_0000_0000_0001 - 0x100_0000;
            && NewCount(0x100_0000, 0x100_0000, length) == 0x8000_0000
            && RawNewCount(0x100_0000, 0x100_0000, length) == -0x8000_0000
  {
    CountExact(1, 0x7F_FFFF_FFFF_FFFF);
  }

  /** A write of a block's length at offset 5 of a file of 5 bytes: the new block is asked for
      whole, which is 16777211 bytes more than the caller has. */
  lemma CrossingWrite()
    ensures BlockCount(5, 0x100_0000) == 2 && NewCount(5, 5, 0x100_0000) == 1
    ensures WriteParts(5, 0x100_0000, 2, 1) == [(5, 0x100_0000 - 5), (0, 0x100_0000)]
    ensures !Tiles(WriteParts(5, 0x100_0000, 2, 1), 0, 5, 5 + 0x100_0000)
  {
    WriteTiles(5, 5, 0x100_0000, 2, 1);
  }
}
