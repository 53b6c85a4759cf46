/** Reading and writing a regular file on the control node: its table of block descriptors. */
module FileIO {
  import opened Blocks
  import opened Bytes
  import opened Cfs
  import opened Changes
  import opened Codec
  import opened Create
  import opened Directory
  import opened Disk
  import opened Extents
  import opened Fat
  import opened Image
  import opened Lookup
  import opened Ops
  import opened Room
  import opened Sectors
  import opened Tree

  const NO_EXTENT := Extent(0, 0, 0, 0, 0, 0)

  /** The pieces answered: parts of the blocks that start at index q of the table. */
  function Pieces(table: seq<Desc>, q: nat, parts: seq<(u32, u32)>): (r: seq<Extent>)
    requires q + |parts| <= |table|
    ensures |r| == |parts|
  {
    seq(|parts|, i requires 0 <= i < |parts| => Extents.Piece(table[q + i], parts[i].0, parts[i].1))
  }

  /** The table of a file, as far as it has been filled in. */
  ghost predicate TableIs(b: seq<byte>, table: seq<Desc>) {
    64 + 32 * |table| <= |b| && forall i :: 0 <= i < |table| ==> DescAt(b, i) == table[i]
  }

  lemma PiecesAppend(table: seq<Desc>, q: nat, parts: seq<(u32, u32)>, i: nat)
    requires q + |parts| <= |table| && i < |parts|
    ensures Pieces(table, q, parts[..i + 1])
         == Pieces(table, q, parts[..i]) + [Extents.Piece(table[q + i], parts[i].0, parts[i].1)]
  {
  }

  // ----- c_read -----

  /** The loop of c_read and c_write over blocks that exist: one piece for each. */
  method ListPieces(buf: seq<byte>, offset: nat, length: nat, count: nat, blocks: array<Extent>, ghost table: seq<Desc>)
    requires TableIs(buf, table) && offset / 0x100_0000 + count <= |table|
    requires count <= blocks.Length && (count == 1 ==> length < 0x1_0000_0000)
    modifies blocks
    ensures blocks[..count] == Pieces(table, offset / 0x100_0000, ReadParts(offset, length, count))
    ensures blocks[count..] == old(blocks[count..])
  {
    ghost var parts, q := ReadParts(offset, length, count), offset / 0x100_0000;
    var i := 0;
    while i < count
      invariant 0 <= i <= count
      invariant blocks[..i] == Pieces(table, q, parts[..i])
      invariant blocks[count..] == old(blocks[count..])
    {
      PiecesAppend(table, q, parts, i);
      var part := ReadPart(offset, length, count, i);
      var d := DescAt(buf, offset / 0x100_0000 + i);
      blocks[i] := Extents.Piece(d, part.0, part.1);
      i := i + 1;
    }
    assert parts[..count] == parts;
  }

  /** What c_read answers about a file. */
  ghost function ReadAnswer(f: Obj, offset: nat, length: nat): Option<seq<Extent>>
    requires f.File? && |f.table| == UpDiv(f.flen, 0x100_0000)
  {
    if f.flen < offset then None
    else
      var len := Min(length, f.flen - offset);
      var count := BlockCount(offset, len);
      ReadFits(f.flen, offset, len);
      Some(Pieces(f.table, offset / 0x100_0000, ReadParts(offset, len, count)))
  }

  lemma ReadFits(flen: nat, offset: nat, len: nat)
    requires offset + len <= flen
    ensures offset / 0x100_0000 + BlockCount(offset, len) <= UpDiv(flen, 0x100_0000)
    ensures BlockCount(offset, len) == 1 ==> len < 0x1_0000_0000
  {
    if BlockCount(offset, len) == 1 {
      OneBlock(offset, len);
    }
  }

  lemma FileContent(dt: Disk, p: Path)
    requires Ready(dt) && p in dt.tree && dt.tree[p].File?
    ensures p in dt.chains && Covered(dt.data, dt.chains[p])
    ensures var b := Content(dt.data, dt.chains[p]);
            && 512 <= |b| <= 0x1_0000_0000 && TableIs(b, dt.tree[p].table)
            && |dt.tree[p].table| <= 0x1000_0000
            && DecodeMeta(b).flen == dt.tree[p].flen && DecodeMeta(b).strbase == 32 * |dt.tree[p].table|
            && DecodeMeta(b).uid == dt.tree[p].uid && DecodeMeta(b).flags == dt.tree[p].flags
  {
    ReadObj(dt, p);
  }

  /** ret and what has been stored in the caller's buffer are the answer. */
  ghost predicate Answered(f: Obj, offset: nat, length: nat, ret: int, blocks: seq<Extent>)
    requires f.File? && |f.table| == UpDiv(f.flen, 0x100_0000)
  {
    match ReadAnswer(f, offset, length)
    case None => ret == -1
    case Some(pieces) => ret == |pieces| <= |blocks| && blocks[..ret] == pieces
  }

  /** c_read: the pieces of blocks that hold the range, as far as the file reaches. */
  method CRead(dt: Disk, fb: u32, offset: u64, length: u64, blocks: array<Extent>, ghost p: Path) returns (ret: int)
    requires Ready(dt) && p in dt.tree && dt.tree[p].File? && fb == HeadAt(dt.chains, p)
    requires |dt.tree[p].table| == UpDiv(dt.tree[p].flen, 0x100_0000)
    requires blocks.Length >= length / 0x100_0000 + 2
    modifies blocks
    ensures Answered(dt.tree[p], offset, length, ret, blocks[..])
  {
    hide *;
    FileContent(dt, p);
    ghost var f := dt.tree[p];
    var buf, meta := ReadAll(dt, fb, p);
    if meta.flen < offset {
      ReadNone(f, offset, length, blocks[..]);
      return -1;
    }
    var len := Min(length, meta.flen - offset);
    ReadSome(f, offset, length, len);
    var count := RawCount(offset, len);
    ListPieces(buf[..], offset, len, count, blocks, f.table);
    ReadDone(f, offset, length, len, count, blocks[..]);
    return count;
  }

  lemma ReadNone(f: Obj, offset: nat, length: nat, blocks: seq<Extent>)
    requires f.File? && |f.table| == UpDiv(f.flen, 0x100_0000) && f.flen < offset
    ensures Answered(f, offset, length, -1, blocks)
  {
  }

  lemma ReadSome(f: Obj, offset: nat, length: nat, len: nat)
    requires f.File? && |f.table| == UpDiv(f.flen, 0x100_0000) <= 0x1000_0000 && offset <= f.flen
    requires len == Min(length, f.flen - offset)
    ensures var count := RawCount(offset, len);
            && 0 <= count == BlockCount(offset, len) && len <= length && count <= length / 0x100_0000 + 2
            && (count == 1 ==> len < 0x1_0000_0000) && offset / 0x100_0000 + count <= |f.table|
  {
    EndsWithin(f.flen, offset, len);
    CountExact(offset, len);
    ReadFits(f.flen, offset, len);
    Quotient(len, length);
  }

  /** What lies within a file that an image can describe is countable. */
  lemma EndsWithin(flen: nat, offset: nat, len: nat)
    requires UpDiv(flen, 0x100_0000) <= 0x1000_0000 && offset + len <= flen
    ensures offset + len < 0x1_0000_0000_0000_0000 && Countable(offset, len)
  {
  }

  lemma Quotient(a: nat, b: nat)
    requires a <= b
    ensures a / 0x100_0000 <= b / 0x100_0000
  {
  }

  lemma ReadDone(f: Obj, offset: nat, length: nat, len: nat, count: nat, blocks: seq<Extent>)
    requires f.File? && |f.table| == UpDiv(f.flen, 0x100_0000) && offset <= f.flen
    requires len == Min(length, f.flen - offset) && count == BlockCount(offset, len) <= |blocks|
    requires (count == 1 ==> len < 0x1_0000_0000) && offset / 0x100_0000 + count <= |f.table|
    requires blocks[..count] == Pieces(f.table, offset / 0x100_0000, ReadParts(offset, len, count))
    ensures Answered(f, offset, length, count, blocks)
  {
  }

  // ----- c_write -----

  /** The number of blocks a write allocates. */
  function Added(flen: nat, offset: nat, length: nat): nat {
    if NewCount(flen, offset, length) > 0 then NewCount(flen, offset, length) else 0
  }

  /** The same from the number as the code computes it. */
  function RawAdded(flen: nat, offset: nat, length: nat): nat {
    if RawNewCount(flen, offset, length) > 0 then RawNewCount(flen, offset, length) else 0
  }

  function DescOf(b: Block): Desc {
    Desc(b.num, b.ip0, b.ip1, b.ip2)
  }

  /** alloc_block: takes addresses round robin until there are three or the first comes again. */
  method AllocBlock(dt: Disk, ips: seq<u32>) returns (b: Block)
    requires Ready(dt) && |ips| > 0 && dt.maxBlockNum + 1 < 0x1_0000_0000_0000_0000
    modifies dt`maxBlockNum, dt`ipIndex
    ensures Ready(dt)
    ensures DescOf(b) == NextDesc(old(dt.maxBlockNum), old(dt.ipIndex), ips)
    ensures dt.maxBlockNum == old(dt.maxBlockNum) + 1 && dt.ipIndex == NextIndex(old(dt.ipIndex), ips)
  {
    hide Partitioned, Represents, Geometry;
    var ip: seq<u32> := [0, 0, 0];
    var i := 0;
    ghost var ctr := dt.ipIndex;
    while i < 3
      invariant 0 <= i <= 3 && |ip| == 3 && dt.ipIndex == ctr + i && dt.maxBlockNum == old(dt.maxBlockNum)
      invariant i > 0 ==> ip[0] == ips[ctr % |ips|]
      invariant if i > 1 then ip[1] == ips[(ctr + 1) % |ips|] != ip[0] else ip[1] == 0
      invariant if i > 2 then ip[2] == ips[(ctr + 2) % |ips|] != ip[0] else ip[2] == 0
    {
      var x := ips[dt.ipIndex % |ips|];
      dt.ipIndex := dt.ipIndex + 1;
      if i != 0 && x == ip[0] {
        break;
      }
      ip := ip[i := x];
      i := i + 1;
    }
    b := Block(dt.maxBlockNum, 0, 0, ip[0], ip[1], ip[2], 1, [0, 0, 0]);
    dt.maxBlockNum := dt.maxBlockNum + 1;
  }

  lemma TablePut(b: seq<byte>, table: seq<Desc>, k: nat, blk: Block)
    requires TableIs(b, table) && 64 + 32 * k + 32 <= |b| && k <= |table|
    requires k < |table| ==> DescOf(blk) == table[k]
    ensures var r := Splice(b, 64 + 32 * k, EncodeBlock(blk));
            && r[..64] == b[..64]
            && TableIs(r, if k < |table| then table else table + [DescOf(blk)])
  {
    hide EncodeBlock, DecodeBlock;
    var r := Splice(b, 64 + 32 * k, EncodeBlock(blk));
    SpliceSlices(b, 64 + 32 * k, EncodeBlock(blk), 0, 64);
    assert r[0..64] == b[0..64];
    BlockRoundTrip(blk);
    forall i | 0 <= i <= |table| && (i < |table| || k == |table|)
      ensures DescAt(r, i) == if i == k then DescOf(blk) else table[i]
    {
      SpliceSlices(b, 64 + 32 * k, EncodeBlock(blk), 64 + 32 * i, 64 + 32 * i + 32);
    }
  }

  /** Stores a length in the k-th descriptor. */
  method SetLength(buf: array<byte>, k: nat, length: u32, ghost table: seq<Desc>)
    requires TableIs(buf[..], table) && k < |table|
    modifies buf
    ensures TableIs(buf[..], table) && buf[..][..64] == old(buf[..])[..64]
  {
    var bytes := buf[..];
    assert DescAt(bytes, k) == table[k];
    var blk := DecodeBlock(bytes[64 + 32 * k..64 + 32 * k + 32]);
    TablePut(bytes, table, k, blk.(length := length));
    hide *;
    Memcpy(buf, 64 + 32 * k, EncodeBlock(blk.(length := length)));
  }

  /** The loop of c_write over the old blocks of a growing file. */
  method ListOld(buf: seq<byte>, offset: nat, length: nat, count: nat, added: nat, blocks: array<Extent>,
                 ghost table: seq<Desc>)
    requires TableIs(buf, table) && 0 < added <= count <= blocks.Length
    requires offset / 0x100_0000 + count - added <= |table|
    requires count == 1 ==> length < 0x1_0000_0000
    modifies blocks
    ensures blocks[..count - added]
         == Pieces(table, offset / 0x100_0000, WriteParts(offset, length, count, added)[..count - added])
  {
    ghost var parts, q := WriteParts(offset, length, count, added)[..count - added], offset / 0x100_0000;
    var i := 0;
    while i < count - added
      invariant 0 <= i <= count - added
      invariant blocks[..i] == Pieces(table, q, parts[..i])
    {
      PiecesAppend(table, q, parts, i);
      var part := WritePart(offset, length, count, added, i);
      var d := DescAt(buf, offset / 0x100_0000 + i);
      blocks[i] := Extents.Piece(d, part.0, part.1);
      i := i + 1;
    }
    assert parts[..count - added] == parts;
  }

  /** The table of the file after n more blocks. */
  ghost function Longer(table: seq<Desc>, n: nat, num: nat, ctr: nat, ips: seq<u32>): seq<Desc>
    requires |ips| > 0 && num + n <= 0x1_0000_0000_0000_0000
  {
    table + NewDescs(n, num, ctr, ips)
  }

  lemma LongerNext(table: seq<Desc>, i: nat, n: nat, num: nat, ctr: nat, ips: seq<u32>)
    requires |ips| > 0 && num + n <= 0x1_0000_0000_0000_0000 && i < n
    ensures num + i < 0x1_0000_0000_0000_0000
    ensures |Longer(table, i, num, ctr, ips)| == |table| + i && |Longer(table, n, num, ctr, ips)| == |table| + n
    ensures Longer(table, i + 1, num, ctr, ips)
         == Longer(table, i, num, ctr, ips) + [NextDesc(num + i, IndexAfter(i, ctr, ips), ips)]
    ensures Longer(table, n, num, ctr, ips)[|table| + i] == NextDesc(num + i, IndexAfter(i, ctr, ips), ips)
    ensures IndexAfter(i + 1, ctr, ips) == NextIndex(IndexAfter(i, ctr, ips), ips)
  {
    hide NextDesc, NextIndex;
    NewDescsEnd(i, num, ctr, ips);
    NewDescsPrefix(i + 1, n, num, ctr, ips);
    assert NewDescs(n, num, ctr, ips)[i] == NewDescs(n, num, ctr, ips)[..i + 1][i];
  }

  lemma LongerNone(table: seq<Desc>, num: nat, ctr: nat, ips: seq<u32>)
    requires |ips| > 0 && num <= 0x1_0000_0000_0000_0000
    ensures Longer(table, 0, num, ctr, ips) == table && IndexAfter(0, ctr, ips) == ctr
  {
  }

  /** The pieces of old blocks stay those of the longer table. */
  lemma PiecesLonger(table: seq<Desc>, longer: seq<Desc>, q: nat, parts: seq<(u32, u32)>)
    requires q + |parts| <= |table| <= |longer| && longer[..|table|] == table
    ensures Pieces(longer, q, parts) == Pieces(table, q, parts)
  {
    forall i | 0 <= i < |parts| ensures Pieces(longer, q, parts)[i] == Pieces(table, q, parts)[i] {
      assert longer[..|table|][q + i] == longer[q + i];
    }
  }

  /** The loop of c_write over the new blocks: allocates each, adds it to the table, answers it. */
  method AppendNew(dt: Disk, buf: array<byte>, ips: seq<u32>, n0: nat, length: nat, count: nat, added: nat,
                   blocks: array<Extent>, ghost offset: nat, ghost table: seq<Desc>, ghost all: seq<Desc>)
    requires Ready(dt) && |ips| > 0 && dt.maxBlockNum + added < 0x1_0000_0000_0000_0000
    requires 0 < added <= count <= blocks.Length && (count == 1 ==> length < 0x1_0000_0000)
    requires n0 == |table| == offset / 0x100_0000 + count - added && TableIs(buf[..], table)
    requires 64 + 32 * (n0 + added) <= buf.Length
    requires all == Longer(table, added, dt.maxBlockNum, dt.ipIndex, ips) && |all| == n0 + added
    requires blocks[..count - added]
          == Pieces(all, offset / 0x100_0000, WriteParts(offset, length, count, added)[..count - added])
    modifies dt`maxBlockNum, dt`ipIndex, buf, blocks
    ensures Ready(dt) && TableIs(buf[..], all) && buf[..][..64] == old(buf[..])[..64]
    ensures dt.maxBlockNum == old(dt.maxBlockNum) + added && dt.ipIndex == IndexAfter(added, old(dt.ipIndex), ips)
    ensures blocks[..count] == Pieces(all, offset / 0x100_0000, WriteParts(offset, length, count, added))
  {
    hide *;
    ghost var parts, q := WriteParts(offset, length, count, added), offset / 0x100_0000;
    ghost var num, ctr := dt.maxBlockNum, dt.ipIndex;
    LongerNone(table, num, ctr, ips);
    var i := 0;
    while i < added
      invariant 0 <= i <= added && Ready(dt)
      invariant dt.maxBlockNum == num + i && dt.ipIndex == IndexAfter(i, ctr, ips)
      invariant TableIs(buf[..], Longer(table, i, num, ctr, ips)) && buf[..][..64] == old(buf[..])[..64]
      invariant blocks[..count - added + i] == Pieces(all, q, parts[..count - added + i])
    {
      LongerNext(table, i, added, num, ctr, ips);
      PiecesAppend(all, q, parts, count - added + i);
      NewPart(offset, length, count, added, i);
      var b := AllocBlock(dt, ips);
      var len := if i == added - 1 then LastLength(length) else 0x100_0000;
      DescLength(b, len);
      TablePut(buf[..], Longer(table, i, num, ctr, ips), n0 + i, b.(length := len));
      Memcpy(buf, 64 + 32 * (n0 + i), EncodeBlock(b.(length := len)));
      blocks[count - added + i] := Extents.Piece(DescOf(b), 0, len);
      i := i + 1;
    }
    assert parts[..count] == parts;
  }

  lemma DescLength(b: Block, length: u32)
    ensures DescOf(b.(length := length)) == DescOf(b)
  {
  }

  lemma NewPart(offset: nat, length: nat, count: nat, added: nat, i: nat)
    requires 0 < added <= count && i < added && (count == 1 ==> length < 0x1_0000_0000)
    ensures WriteParts(offset, length, count, added)[count - added + i]
         == (0, if i == added - 1 then LastLength(length) else 0x100_0000)
  {
  }

  /** What a write of length bytes at offset makes of the file f. */
  ghost function WrittenFile(f: Obj, offset: nat, length: nat, num: nat, ctr: nat, ips: seq<u32>): Obj
    requires f.File? && |ips| > 0 && offset + length < 0x1_0000_0000_0000_0000
    requires num + Added(f.flen, offset, length) < 0x1_0000_0000_0000_0000
  {
    File(f.uid, f.flags, if f.flen < offset + length then offset + length else f.flen,
         Longer(f.table, Added(f.flen, offset, length), num, ctr, ips))
  }

  /** The sizes c_write computes fit together. */
  lemma WriteFits(flen: nat, offset: nat, length: nat)
    requires offset <= flen && offset + length < 0x1_0000_0000_0000_0000 && Countable(offset, length)
    ensures var count, added := RawCount(offset, length), Added(flen, offset, length);
            && 0 <= count == BlockCount(offset, length) <= length / 0x100_0000 + 2
            && added <= count && (count == 1 ==> length < 0x1_0000_0000)
            && offset / 0x100_0000 + count <= UpDiv(flen, 0x100_0000) + added
            && (added > 0 ==> offset / 0x100_0000 + count == UpDiv(flen, 0x100_0000) + added
                              && UpDiv(flen, 0x100_0000) + added == UpDiv(offset + length, 0x100_0000))
    ensures UpDiv(flen, 0x100_0000) <= 0x1000_0000 ==>
              && UpDiv(flen, 0x100_0000) + Added(flen, offset, length) <= 0x1_0000_0000
              && (flen < 0x1_0000_0000_0000_0000 ==> Added(flen, offset, length) == RawAdded(flen, offset, length))
  {
    CountExact(offset, length);
    AddedWithin(flen, offset, length);
    if flen < 0x1_0000_0000_0000_0000 {
      NewCountExact(flen, offset, length);
    }
    if BlockCount(offset, length) == 1 {
      OneBlock(offset, length);
    }
  }

  /** Stores the pieces of a write in blocks and extends the table in buf. */
  method PutPieces(dt: Disk, buf: array<byte>, ips: seq<u32>, flen: nat, n0: nat, offset: nat, length: nat,
                   blocks: array<Extent>, ghost table: seq<Desc>)
    returns (count: nat, added: nat)
    requires Ready(dt) && |ips| > 0 && offset <= flen
    requires offset + length < 0x1_0000_0000_0000_0000 && Countable(offset, length)
    requires blocks.Length >= length / 0x100_0000 + 2
    requires dt.maxBlockNum + length / 0x100_0000 + 2 < 0x1_0000_0000_0000_0000
    requires n0 == |table| == UpDiv(flen, 0x100_0000) <= 0x1000_0000 && flen < 0x1_0000_0000_0000_0000
    requires TableIs(buf[..], table)
    requires 64 + 32 * UpDiv(offset + length, 0x100_0000) <= buf.Length
    modifies dt`maxBlockNum, dt`ipIndex, buf, blocks
    ensures Ready(dt) && added == Added(flen, offset, length) && old(dt.maxBlockNum) + added < 0x1_0000_0000_0000_0000
    ensures dt.maxBlockNum == old(dt.maxBlockNum) + added && dt.ipIndex == IndexAfter(added, old(dt.ipIndex), ips)
    ensures TableIs(buf[..], Longer(table, added, old(dt.maxBlockNum), old(dt.ipIndex), ips))
    ensures buf[..][..64] == old(buf[..])[..64]
    ensures count == BlockCount(offset, length) <= blocks.Length && added <= count
    ensures count == 1 ==> length < 0x1_0000_0000
    ensures offset / 0x100_0000 + count <= |table| + added
    ensures blocks[..count] == Pieces(Longer(table, added, old(dt.maxBlockNum), old(dt.ipIndex), ips),
                                      offset / 0x100_0000, WriteParts(offset, length, count, added))
  {
    hide *;
    WriteFits(flen, offset, length);
    LongerSize(table, Added(flen, offset, length), dt.maxBlockNum, dt.ipIndex, ips);
    count, added := RawCount(offset, length), RawAdded(flen, offset, length);
    if added == 0 {
      LongerNone(table, dt.maxBlockNum, dt.ipIndex, ips);
      ListPieces(buf[..], offset, length, count, blocks, table);
      NoneAdded(offset, length, count);
      UpdateLengths(buf, offset, length, count, table);
    } else {
      ghost var all := Longer(table, added, dt.maxBlockNum, dt.ipIndex, ips);
      ListOld(buf[..], offset, length, count, added, blocks, table);
      PiecesLonger(table, all, offset / 0x100_0000, WriteParts(offset, length, count, added)[..count - added]);
      AppendNew(dt, buf, ips, n0, length, count, added, blocks, offset, table, all);
    }
  }

  lemma LongerSize(table: seq<Desc>, n: nat, num: nat, ctr: nat, ips: seq<u32>)
    requires |ips| > 0 && num + n <= 0x1_0000_0000_0000_0000
    ensures |Longer(table, n, num, ctr, ips)| == |table| + n && Longer(table, n, num, ctr, ips)[..|table|] == table
  {
  }

  lemma NoneAdded(offset: nat, length: nat, count: nat)
    requires count == 1 ==> length < 0x1_0000_0000
    ensures WriteParts(offset, length, count, 0) == ReadParts(offset, length, count)
  {
  }

  /** The stores into the length fields of old descriptors when no block is added. */
  method UpdateLengths(buf: array<byte>, offset: nat, length: nat, count: nat, ghost table: seq<Desc>)
    requires TableIs(buf[..], table) && offset / 0x100_0000 + count <= |table|
    modifies buf
    ensures TableIs(buf[..], table) && buf[..][..64] == old(buf[..])[..64]
  {
    if count == 1 {
      SetLength(buf, offset / 0x100_0000, (length + offset) % 0x1_0000_0000, table);
    } else if count > 1 {
      var k := offset / 0x100_0000 + count - 1;
      var bytes := buf[..];
      assert DescAt(bytes, k) == table[k];
      var stored := DecodeBlock(bytes[64 + 32 * k..64 + 32 * k + 32]).length;
      var last := LastLength(offset + length);
      SetLength(buf, k, if last < stored then stored else last, table);
    }
  }

  lemma TablePrefix(b: seq<byte>, c: seq<byte>, table: seq<Desc>)
    requires TableIs(b, table) && |b| <= |c| && c[..|b|] == b
    ensures TableIs(c, table) && c[..64] == b[..64]
  {
    forall i | 0 <= i < |table| ensures DescAt(c, i) == table[i] {
      SliceOfSlice(c, 0, |b|, 64 + 32 * i, 64 + 32 * i + 32);
    }
    SliceOfSlice(c, 0, |b|, 0, 64);
  }

  /** The meta data c_write leaves behind. */
  function WrittenMeta(m: Meta, newsize: u64, strbase: nat, now: u64): Meta
    requires strbase <= 0x20_0000_0000
  {
    m.(flen := newsize, strbase := strbase, wTime := now, blocks := UpDiv(64 + strbase, 512))
  }

  lemma WrittenBlocks(m: Meta, newsize: u64, strbase: nat, now: u64)
    requires strbase <= 0x20_0000_0000
    ensures WrittenMeta(m, newsize, strbase, now).blocks == UpDiv(64 + strbase, 512)
  {
  }

  /** With the new meta data in front, the buffer stands for the written file. */
  lemma WrittenBytes(b: seq<byte>, t: Tree, chains: Chains, p: Path, f: Obj, m: Meta, table: seq<Desc>,
                     newsize: u64, now: u64)
    requires f.File? && |b| >= 64 && TableIs(b, table) && 32 * |table| <= 0x20_0000_0000
    requires m.uid == f.uid && m.flags == f.flags
    ensures var m' := WrittenMeta(m, newsize, 32 * |table|, now);
            var r := Splice(b, 0, EncodeMeta(m'));
            && DecodeMeta(r) == m'
            && ObjBytes(r, t, chains, p, File(f.uid, f.flags, newsize, table), m'.blocks)
            && BodySize(r, File(f.uid, f.flags, newsize, table)) == 64 + 32 * |table|
            && Covers(r, 64 + 32 * |table|, m'.blocks)
  {
    hide DecodeMeta, EncodeMeta, DecodeBlock;
    var m' := WrittenMeta(m, newsize, 32 * |table|, now);
    var r := Splice(b, 0, EncodeMeta(m'));
    SpliceHead(b, EncodeMeta(m'));
    MetaRoundTrip(m', b[64..]);
    forall i | 0 <= i < |table| ensures DescAt(r, i) == table[i] {
      SpliceSlices(b, 0, EncodeMeta(m'), 64 + 32 * i, 64 + 32 * i + 32);
    }
  }

  /** The end of c_write: the buffer goes to the file's chain. */
  method WriteBack(dt: Disk, fb: u32, buf: array<byte>, meta: Meta, newsize: u64, n: nat, now: u64,
                   ghost p: Path, ghost table: seq<Desc>) returns (ok: bool)
    requires Ready(dt) && p in dt.tree && dt.tree[p].File? && fb == HeadAt(dt.chains, p)
    requires meta.uid == dt.tree[p].uid && meta.flags == dt.tree[p].flags
    requires n == |table| <= 0x1_0000_0000 && buf.Length >= 64 && TableIs(buf[..], table)
    requires p in dt.chains && |dt.chains[p]| > 0
    modifies dt, buf
    ensures ok ==> Performed(dt, old(dt.tree), old(dt.chains),
                             Effect(0, old(dt.tree)[p := File(meta.uid, meta.flags, newsize, table)], p))
    ensures ok ==> dt.maxBlockNum == old(dt.maxBlockNum) && dt.ipIndex == old(dt.ipIndex)
    ensures var need := NeedFor(old(dt.fat), old(dt.fatNum), old(dt.chains)[p], UpDiv(64 + 32 * n, 512));
            && (ok <==> Fits(old(dt.dtSize), need))
            && (ok ==> dt.dtSize == FitSize(old(dt.dtSize), need) && Top(dt.fat) <= MaxOf(Top(old(dt.fat)), need))
  {
    hide *;
    ghost var t, chains, data := dt.tree, dt.chains, dt.data;
    ghost var f := File(meta.uid, meta.flags, newsize, table);
    ReadyFacts(dt);
    HeadOnDisk(dt, p);
    WrittenBytes(buf[..], t, chains, p, t[p], meta, table, newsize, now);
    var meta' := WrittenMeta(meta, newsize, 32 * n, now);
    WrittenBlocks(meta, newsize, 32 * n, now);
    Memcpy(buf, 0, EncodeMeta(meta'));
    ok := dt.DoWriteFile(fb, buf[..], 64 + 32 * n, p);
    if ok {
      HeadOnDisk(dt, p);
      WriteDone(dt.fat, dt.fatNum, data, dt.data, chains, dt.chains, t, p, f, buf[..]);
      dt.SetTree(t[p := f]);
      PerformedWrite(dt, t, chains, p, f);
    }
  }

  lemma WriteDone(fat: seq<u32>, n: nat, data: seq<Sector>, data': seq<Sector>, chains: Chains, chains': Chains,
                  t: Tree, p: Path, f: Obj, src: seq<byte>)
    requires Represents(data, chains, t) && p in t && t[p].File? && f.File?
    requires Wrote(fat, n, data, data', chains, chains', p) && HeadAt(chains', p) == HeadAt(chains, p)
    requires 1 <= |chains'[p]| <= 0x80_0000 && ObjBytes(src, t, chains, p, f, |chains'[p]|)
    requires 64 <= BodySize(src, f) && Holds(data', chains'[p], src, BodySize(src, f))
    ensures Represents(data', chains', t[p := f]) && SameHeads(chains, chains', t.Keys)
  {
    assert SameShape(t[p], f) && SameHeads(chains, chains', t.Keys);
    hide *;
    WroteFacts(fat, n, data, data', chains, chains', p);
    HeldBytes(data', chains'[p], src, t, chains, p, f);
    RewriteRepresents(fat, n, data, data', chains, chains', t, p, f);
  }

  lemma PerformedWrite(dt: Disk, t: Tree, c0: Chains, p: Path, f: Obj)
    requires dt.Valid() && Represents(dt.data, dt.chains, t[p := f]) && dt.tree == t[p := f]
    requires SameHeads(c0, dt.chains, t.Keys)
    ensures Performed(dt, t, c0, Effect(0, t[p := f], p))
  {
  }

  /** A write that c_write can count: the block numbers it may need exist. */
  ghost predicate Writable(t: Tree, p: Path, num: nat, offset: nat, length: nat, ips: seq<u32>) {
    && p in t && t[p].File? && |t[p].table| == UpDiv(t[p].flen, 0x100_0000)
    && |ips| > 0 && offset + length < 0x1_0000_0000_0000_0000 && Countable(offset, length)
    && num + length / 0x100_0000 + 2 < 0x1_0000_0000_0000_0000
  }

  lemma WritableFits(t: Tree, p: Path, num: nat, offset: nat, length: nat, ips: seq<u32>)
    requires Writable(t, p, num, offset, length, ips) && offset <= t[p].flen
    ensures num + Added(t[p].flen, offset, length) < 0x1_0000_0000_0000_0000
    ensures var count, added := BlockCount(offset, length), Added(t[p].flen, offset, length);
            && added <= count && (count == 1 ==> length < 0x1_0000_0000)
            && offset / 0x100_0000 + count <= |t[p].table| + added
  {
    WriteFits(t[p].flen, offset, length);
  }

  /** The pieces that a write is answered with: of the table with the new blocks. */
  ghost function WritePieces(t: Tree, p: Path, offset: nat, length: nat, num: nat, ctr: nat, ips: seq<u32>): seq<Extent>
    requires Writable(t, p, num, offset, length, ips) && offset <= t[p].flen
  {
    WritableFits(t, p, num, offset, length, ips);
    var count, added := BlockCount(offset, length), Added(t[p].flen, offset, length);
    var table := WrittenFile(t[p], offset, length, num, ctr, ips).table;
    Pieces(table, offset / 0x100_0000, WriteParts(offset, length, count, added))
  }

  /** Everything c_write does to the disk and answers to its caller. */
  ghost predicate WriteAnswered(dt: Disk, t: Tree, c0: Chains, num: nat, ctr: nat, p: Path, offset: nat, length: nat,
                                ips: seq<u32>, ret: int, blocks: seq<Extent>)
    requires Writable(t, p, num, offset, length, ips)
    reads dt
  {
    if t[p].flen < offset then
      ret == -1 && Performed(dt, t, c0, Effect(-1, t, p)) && dt.maxBlockNum == num && dt.ipIndex == ctr
    else
      WritableFits(t, p, num, offset, length, ips);
      var f := WrittenFile(t[p], offset, length, num, ctr, ips);
      var added := Added(t[p].flen, offset, length);
      && Performed(dt, t, c0, Effect(0, t[p := f], p))
      && dt.maxBlockNum == num + added && dt.ipIndex == IndexAfter(added, ctr, ips)
      && ret == BlockCount(offset, length) <= |blocks|
      && blocks[..ret] == WritePieces(t, p, offset, length, num, ctr, ips)
  }

  lemma RefusedWrite(dt: Disk, p: Path, offset: nat, length: nat, ips: seq<u32>, blocks: seq<Extent>)
    requires Ready(dt) && Writable(dt.tree, p, dt.maxBlockNum, offset, length, ips) && dt.tree[p].flen < offset
    ensures WriteAnswered(dt, dt.tree, dt.chains, dt.maxBlockNum, dt.ipIndex, p, offset, length, ips, -1, blocks)
  {
    hide Ready;
    PerformedNothing(dt, -1, p);
  }

  lemma AcceptedWrite(dt: Disk, t: Tree, c0: Chains, num: nat, ctr: nat, p: Path, offset: nat, length: nat,
                      ips: seq<u32>, count: nat, added: nat, newsize: u64, blocks: seq<Extent>)
    requires Writable(t, p, num, offset, length, ips) && offset <= t[p].flen
    requires added == Added(t[p].flen, offset, length) && num + added < 0x1_0000_0000_0000_0000
    requires newsize == if t[p].flen < offset + length then offset + length else t[p].flen
    requires var f := File(t[p].uid, t[p].flags, newsize, Longer(t[p].table, added, num, ctr, ips));
             Performed(dt, t, c0, Effect(0, t[p := f], p))
    requires dt.maxBlockNum == num + added && dt.ipIndex == IndexAfter(added, ctr, ips)
    requires count == BlockCount(offset, length) <= |blocks| && added <= count
    requires count == 1 ==> length < 0x1_0000_0000
    requires offset / 0x100_0000 + count <= |t[p].table| + added
    requires |Longer(t[p].table, added, num, ctr, ips)| == |t[p].table| + added
    requires blocks[..count] == Pieces(Longer(t[p].table, added, num, ctr, ips), offset / 0x100_0000,
                                       WriteParts(offset, length, count, added))
    ensures WriteAnswered(dt, t, c0, num, ctr, p, offset, length, ips, count, blocks)
  {
    hide Performed;
  }

  /** Reads the file into a buffer that also has room for the descriptors a write may add. */
  method ReadFor(dt: Disk, fb: u32, offset: nat, length: nat, meta: Meta, ghost p: Path) returns (buf: array<byte>)
    requires Ready(dt) && p in dt.tree && dt.tree[p].File? && p in dt.chains && fb == HeadAt(dt.chains, p)
    requires meta.blocks == |dt.chains[p]|
    ensures fresh(buf) && buf.Length >= 64 + 32 * UpDiv(offset + length, 0x100_0000)
    ensures TableIs(buf[..], dt.tree[p].table)
  {
    hide *;
    ReadyValid(dt);
    FileContent(dt, p);
    HeadOnDisk(dt, p);
    var size1, size2 := 64 + UpDiv(offset + length, 0x100_0000) * 32, 512 * meta.blocks;
    buf := new byte[if size1 > size2 then size1 else size2];
    dt.DoReadFile(fb, buf, p);
    assert buf[..][..512 * meta.blocks] == buf[..512 * meta.blocks];
    TablePrefix(Content(dt.data, dt.chains[p]), buf[..], dt.tree[p].table);
  }

  /** How many sectors a write can take, for the descriptors that it adds. */
  function WriteSectors(length: nat): nat {
    UpDiv(32 * (length / 0x100_0000 + 2), 512)
  }

  lemma TableSectors(c: nat, n0: nat, added: nat, length: nat)
    requires 64 + 32 * n0 <= 512 * c && added <= length / 0x100_0000 + 2
    ensures UpDiv(64 + 32 * (n0 + added), 512) <= c + WriteSectors(length)
  {
  }

  /** c_write: answers the pieces of blocks that take length bytes at offset, allocating blocks as
      the file grows.  A file cannot be written beyond its end. */
  method CWrite(dt: Disk, fb: u32, offset: u64, length: u64, ips: seq<u32>, now: u64, blocks: array<Extent>,
                ghost p: Path)
    returns (ok: bool, ret: int)
    requires Ready(dt) && p in dt.tree && dt.tree[p].File? && fb == HeadAt(dt.chains, p)
    requires Writable(dt.tree, p, dt.maxBlockNum, offset, length, ips) && blocks.Length >= length / 0x100_0000 + 2
    modifies dt, blocks
    ensures ok ==> WriteAnswered(dt, old(dt.tree), old(dt.chains), old(dt.maxBlockNum), old(dt.ipIndex),
                                 p, offset, length, ips, ret, blocks[..])
    ensures Fits(old(dt.dtSize), Top(old(dt.fat)) + WriteSectors(length)) ==> ok
    ensures ok ==> Takes(old(dt.fat), old(dt.dtSize), dt.fat, dt.dtSize, WriteSectors(length))
    ensures old(dt.tree)[p].flen < offset ==> ok && dt.fat == old(dt.fat) && dt.data == old(dt.data)
  {
    hide *;
    ghost var t, chains, num, ctr, f := dt.tree, dt.chains, dt.maxBlockNum, dt.ipIndex, dt.tree[p];
    ghost var fat, size, k := dt.fat, dt.dtSize, WriteSectors(length);
    FileContent(dt, p);
    ReadyValid(dt);
    KeyHead(dt, p);
    ContentSize(dt.data, dt.chains[p]);
    HeadRoom(dt);
    TakesSelf(fat, size, k);
    WritableIs(t, p, num, offset, length, ips);
    var meta := MetaOf(dt, fb, p);
    if meta.flen < offset {
      RefusedWrite(dt, p, offset, length, ips, blocks[..]);
      return true, -1;
    }
    var buf := ReadFor(dt, fb, offset, length, meta, p);
    var n0 := meta.strbase / 32;
    var count, added := PutPieces(dt, buf, ips, meta.flen, n0, offset, length, blocks, f.table);
    LongerSize(f.table, added, num, ctr, ips);
    WriteFits(f.flen, offset, length);
    var newsize := if meta.flen < offset + length then offset + length else meta.flen;
    TableSectors(|dt.chains[p]|, n0, added, length);
    ReadyValid(dt);
    ChainRoom(dt, p, UpDiv(64 + 32 * (n0 + added), 512), k);
    ghost var need := NeedFor(dt.fat, dt.fatNum, dt.chains[p], UpDiv(64 + 32 * (n0 + added), 512));
    if Fits(size, Top(fat) + k) {
      RoomLess(size, need, Top(fat) + k);
    }
    ok := WriteBack(dt, fb, buf, meta, newsize, n0 + added, now, p, Longer(f.table, added, num, ctr, ips));
    ret := count;
    if ok {
      TakesNeed(fat, size, dt.fat, dt.dtSize, need, k);
      AcceptedWrite(dt, t, chains, num, ctr, p, offset, length, ips, count, added, newsize, blocks[..]);
    }
  }

  lemma WritableIs(t: Tree, p: Path, num: nat, offset: nat, length: nat, ips: seq<u32>)
    requires Writable(t, p, num, offset, length, ips)
    ensures p in t && t[p].File? && |t[p].table| == UpDiv(t[p].flen, 0x100_0000)
    ensures |ips| > 0 && offset + length < 0x1_0000_0000_0000_0000 && Countable(offset, length)
    ensures num + length / 0x100_0000 + 2 < 0x1_0000_0000_0000_0000
  {
  }
}
