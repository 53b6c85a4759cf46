/** The bytes of a file, spread over the blocks that the data nodes hold. */
module FileData {
  import opened Blocks
  import opened Bytes
  import opened Execution
  import opened Extents
  import opened FileIO
  import opened Replication
  import opened Runs
  import opened Sectors
  import opened Tree

  // bufsize, 1 MiB, appears as the literal 0x10_0000.

  /** Every node of the block holds v as byte k of it. */
  ghost predicate ByteHeld(stores: Stores, d: Desc, k: nat, v: byte) {
    forall ip :: ip in Nodes(d) ==> OnNode(stores, ip, d.num, k, v)
  }

  /** Every node of each block of the table holds the block's share of data. */
  ghost predicate FileHeld(stores: Stores, table: seq<Desc>, data: seq<byte>) {
    && |table| == UpDiv(|data|, 0x100_0000)
    && forall k :: 0 <= k < |data| ==>
         k / 0x100_0000 < |table| && ByteHeld(stores, table[k / 0x100_0000], k % 0x100_0000, data[k])
  }

  /** The file at p is data, and the nodes hold it. */
  ghost predicate Intact(s: FS, stores: Stores, p: Path, data: seq<byte>) {
    p in s.tree && s.tree[p].File? && s.tree[p].flen == |data| && FileHeld(stores, s.tree[p].table, data)
  }

  ghost predicate DistinctNums(table: seq<Desc>) {
    forall i, j :: 0 <= i < j < |table| ==> table[i].num != table[j].num
  }

  lemma SoundTable(s: FS, p: Path)
    requires Sound(s) && p in s.tree && s.tree[p].File?
    ensures DistinctNums(s.tree[p].table) && |s.tree[p].table| == UpDiv(s.tree[p].flen, 0x100_0000)
  {
    var table := s.tree[p].table;
    forall i, j | 0 <= i < j < |table| ensures table[i].num != table[j].num {
      assert Uses(s.tree, p, i, table[i].num) && Uses(s.tree, p, j, table[j].num);
    }
  }

  /** Pieces of different blocks have no byte in common. */
  lemma PiecesApart(table: seq<Desc>, q: nat, parts: seq<(u32, u32)>)
    requires DistinctNums(table) && q + |parts| <= |table|
    ensures Apart(Pieces(table, q, parts))
  {
  }

  // ----- the pieces of a range -----

  lemma {:induction false} TilesPrefix(table: seq<Desc>, q: nat, parts: seq<(u32, u32)>, lo: nat, hi: nat, i: nat)
    requires q + |parts| <= |table| && Tiles(parts, q, lo, hi) && i < |parts|
    ensures Total(Pieces(table, q, parts)[..i]) == Start(parts, q, i) - lo
  {
    var exts := Pieces(table, q, parts);
    if i > 0 {
      TilesPrefix(table, q, parts, lo, hi, i - 1);
      TotalPrefix(exts, i - 1);
      assert End(parts, q, i - 1) == Start(parts, q, i);
    } else {
      assert exts[..0] == [];
    }
  }

  /** Pieces that tile a range have as many bytes as the range. */
  lemma TilesTotal(table: seq<Desc>, q: nat, parts: seq<(u32, u32)>, lo: nat, hi: nat)
    requires q + |parts| <= |table| && Tiles(parts, q, lo, hi)
    ensures Total(Pieces(table, q, parts)) == hi - lo
  {
    var exts := Pieces(table, q, parts);
    if parts != [] {
      var i := |parts| - 1;
      TilesPrefix(table, q, parts, lo, hi, i);
      TotalPrefix(exts, i);
      assert exts[..i + 1] == exts;
      assert End(parts, q, i) == hi;
    }
  }

  /** Where the i-th of the pieces that tile a range lies, in the range and among their bytes. */
  lemma TileAt(table: seq<Desc>, q: nat, parts: seq<(u32, u32)>, lo: nat, hi: nat, i: nat)
    requires q + |parts| <= |table| && Tiles(parts, q, lo, hi) && i < |parts|
    ensures var exts := Pieces(table, q, parts);
            && Total(exts) == hi - lo && Total(exts[..i]) == Start(parts, q, i) - lo
            && |exts| == |parts| && exts[i] == Extents.Piece(table[q + i], parts[i].0, parts[i].1)
            && exts[i].length == parts[i].1
    ensures lo <= Start(parts, q, i) && End(parts, q, i) <= hi
  {
    TilesPrefix(table, q, parts, lo, hi, i);
    TilesTotal(table, q, parts, lo, hi);
    TotalPrefix(Pieces(table, q, parts), i);
  }

  /** Each byte of a tiled range is in one of the pieces. */
  lemma {:induction false} TileOf(parts: seq<(u32, u32)>, q: nat, lo: nat, hi: nat, k: nat, from: nat) returns (i: nat)
    requires Tiles(parts, q, lo, hi) && from < |parts| && Start(parts, q, from) <= k < hi
    ensures i < |parts| && Start(parts, q, i) <= k < End(parts, q, i)
    decreases |parts| - from
  {
    if k < End(parts, q, from) {
      i := from;
    } else {
      i := TileOf(parts, q, lo, hi, k, from + 1);
    }
  }

  /** A position in the file within the i-th part, and the same in that part's block. */
  lemma InTile(parts: seq<(u32, u32)>, q: nat, i: nat, k: nat)
    requires i < |parts| && (parts[i].0 as int) + (parts[i].1 as int) <= 0x100_0000
    ensures k / 0x100_0000 == q + i && parts[i].0 <= k % 0x100_0000 < (parts[i].0 as int) + (parts[i].1 as int)
       <==> Start(parts, q, i) <= k < End(parts, q, i)
    ensures k / 0x100_0000 == q + i ==> k - Start(parts, q, i) == k % 0x100_0000 - parts[i].0
  {
    var b := 0x100_0000 * (q + i);
    if Start(parts, q, i) <= k < End(parts, q, i) {
      assert 0 <= k - b < 0x100_0000;
      assert k == 0x100_0000 * (q + i) + (k - b);
    }
  }

  // ----- a range written -----

  /** The bytes with x put over them at lo: they become more if x reaches beyond their end. */
  function Overlaid(data: seq<byte>, lo: nat, x: seq<byte>): seq<byte>
    requires lo <= |data|
  {
    data[..lo] + x + (if lo + |x| < |data| then data[lo + |x|..] else [])
  }

  lemma OverlaidSize(data: seq<byte>, lo: nat, x: seq<byte>)
    requires lo <= |data|
    ensures |Overlaid(data, lo, x)| == if |data| < lo + |x| then lo + |x| else |data|
  {
  }

  lemma OverlaidAt(data: seq<byte>, lo: nat, x: seq<byte>, k: nat)
    requires lo <= |data| && k < |Overlaid(data, lo, x)|
    ensures if lo <= k < lo + |x| then Overlaid(data, lo, x)[k] == x[k - lo]
            else k < |data| && Overlaid(data, lo, x)[k] == data[k]
  {
  }

  /** A byte of a block that is in none of the pieces stays. */
  lemma ByteKept(before: Stores, after: Stores, d: Desc, exts: seq<Extent>, k: nat, v: byte)
    requires ByteHeld(before, d, k, v) && KeptOutside(before, after, exts) && !InRange(exts, d.num, k)
    ensures ByteHeld(after, d, k, v)
  {
  }

  lemma OutsideTiles(table: seq<Desc>, q: nat, parts: seq<(u32, u32)>, lo: nat, hi: nat, k: nat)
    requires DistinctNums(table) && q + |parts| <= |table| && Tiles(parts, q, lo, hi)
    requires k / 0x100_0000 < |table| && !(lo <= k < hi)
    ensures !InRange(Pieces(table, q, parts), table[k / 0x100_0000].num, k % 0x100_0000)
  {
    var exts, d := Pieces(table, q, parts), table[k / 0x100_0000];
    forall i | 0 <= i < |exts| ensures !Within(exts[i], d.num, k % 0x100_0000) {
      TileAt(table, q, parts, lo, hi, i);
      InTile(parts, q, i, k);
    }
  }

  /** A byte of the i-th piece, which all nodes of the piece carry. */
  lemma PieceByte(stores: Stores, d: Desc, offset: u32, length: u32, x: seq<byte>, k: nat)
    requires AllCarry(stores, Extents.Piece(d, offset, length), x) && k < |x|
    ensures ByteHeld(stores, d, offset + k, x[k])
  {
    var e := Extents.Piece(d, offset, length);
    forall ip | ip in Nodes(d) ensures OnNode(stores, ip, d.num, offset + k, x[k]) {
      var j := if ip == d.ip0 then 0 else if ip == d.ip1 then 1 else 2;
      assert Slot(e, j) == ip;
      assert Carries(stores, ip, e, x);
    }
  }

  lemma PartByte(stores: Stores, exts: seq<Extent>, x: seq<byte>, i: nat, n: nat)
    requires Replicated(stores, exts, x) && i < |exts| && n < exts[i].length
    ensures Total(exts[..i]) + n < |x| && Total(exts) == |x|
    ensures AllCarry(stores, exts[i], Part(exts, x, i)) && |Part(exts, x, i)| == exts[i].length
    ensures Part(exts, x, i)[n] == x[Total(exts[..i]) + n]
  {
    hide AllCarry;
    TotalPrefix(exts, i);
  }

  lemma InsideTiles(stores: Stores, table: seq<Desc>, q: nat, parts: seq<(u32, u32)>, lo: nat, x: seq<byte>, k: nat)
    requires q + |parts| <= |table| && Tiles(parts, q, lo, lo + |x|) && lo <= k < lo + |x|
    requires Replicated(stores, Pieces(table, q, parts), x)
    ensures k / 0x100_0000 < |table| && ByteHeld(stores, table[k / 0x100_0000], k % 0x100_0000, x[k - lo])
  {
    hide *;
    TilesFacts(parts, q, lo, lo + |x|);
    var i := TileOf(parts, q, lo, lo + |x|, k, 0);
    TileAt(table, q, parts, lo, lo + |x|, i);
    InTile(parts, q, i, k);
    var exts, n := Pieces(table, q, parts), k - Start(parts, q, i);
    PartByte(stores, exts, x, i, n);
    PieceByte(stores, table[q + i], parts[i].0, parts[i].1, Part(exts, x, i), n);
  }

  lemma TilesFacts(parts: seq<(u32, u32)>, q: nat, lo: nat, hi: nat)
    requires Tiles(parts, q, lo, hi)
    ensures lo < hi ==> 0 < |parts| && Start(parts, q, 0) == lo
    ensures forall i :: 0 <= i < |parts| ==> (parts[i].0 as int) + (parts[i].1 as int) <= 0x100_0000
  {
  }

  /** Once the pieces that tile a range have been written to all nodes of their blocks, the nodes
      hold the file with the new bytes in that range. */
  lemma RangeHeld(before: Stores, after: Stores, table: seq<Desc>, table': seq<Desc>, q: nat, parts: seq<(u32, u32)>,
                  data: seq<byte>, lo: nat, x: seq<byte>)
    requires FileHeld(before, table, data) && lo <= |data|
    requires DistinctNums(table') && |table'| == UpDiv(|Overlaid(data, lo, x)|, 0x100_0000)
    requires |table| <= |table'| && table'[..|table|] == table
    requires q + |parts| <= |table'| && Tiles(parts, q, lo, lo + |x|)
    requires KeptOutside(before, after, Pieces(table', q, parts)) && Replicated(after, Pieces(table', q, parts), x)
    ensures FileHeld(after, table', Overlaid(data, lo, x))
  {
    var whole := Overlaid(data, lo, x);
    OverlaidSize(data, lo, x);
    hide KeptOutside, Replicated, Tiles, DistinctNums, ByteHeld, Overlaid, Pieces;
    forall k | 0 <= k < |whole|
      ensures k / 0x100_0000 < |table'| && ByteHeld(after, table'[k / 0x100_0000], k % 0x100_0000, whole[k])
    {
      OverlaidAt(data, lo, x, k);
      if lo <= k < lo + |x| {
        InsideTiles(after, table', q, parts, lo, x, k);
      } else {
        var i := k / 0x100_0000;
        assert table'[i] == table'[..|table|][i] == table[i];
        OutsideTiles(table', q, parts, lo, lo + |x|, k);
        ByteKept(before, after, table[i], Pieces(table', q, parts), k % 0x100_0000, whole[k]);
      }
    }
  }

  /** The accepted write: it is answered with pieces of the blocks that the file has afterwards, and
      these tile the range of the write just if it is aligned. */
  lemma AcceptedReply(s: FS, op: Op, p: Path) returns (parts: seq<(u32, u32)>)
    requires Sound(s) && op.WriteOp? && Allowed(s, op) && s.open[op.fd] == Some(p)
    requires p in s.tree && s.tree[p].File? && op.offset <= s.tree[p].flen
    ensures var t, q := Apply(s, op).tree, op.offset / 0x100_0000;
            && p in t && t[p].File? && q + |parts| <= |t[p].table| == UpDiv(t[p].flen, 0x100_0000)
            && |s.tree[p].table| <= |t[p].table| && t[p].table[..|s.tree[p].table|] == s.tree[p].table
            && DistinctNums(t[p].table)
            && t[p].flen == (if s.tree[p].flen < op.offset + op.length then op.offset + op.length else s.tree[p].flen)
            && WriteReply(s, op) == Some(Pieces(t[p].table, q, parts))
            && (Tiles(parts, q, op.offset, op.offset + op.length) <==> Aligned(s, op, p))
    ensures var count, added := BlockCount(op.offset, op.length), Added(s.tree[p].flen, op.offset, op.length);
            && added <= count && (count == 1 ==> op.length < 0x1_0000_0000)
            && parts == WriteParts(op.offset, op.length, count, added)
            && Apply(s, op).num == s.num + added && Apply(s, op).open == s.open
  {
    var f := s.tree[p];
    var count, added := BlockCount(op.offset, op.length), Added(f.flen, op.offset, op.length);
    WritableFits(s.tree, p, s.num, op.offset, op.length, op.ips);
    WriteAppends(s, p, op.offset, op.length, op.ips);
    ApplySound(s, op);
    SoundTable(Apply(s, op), p);
    WriteTiles(f.flen, op.offset, op.length, count, added);
    parts := WriteParts(op.offset, op.length, count, added);
    hide Sound, Longer, BlockCount, Added, WriteParts, WriteAligned, Tiles, Writable, DistinctNums;
  }

  /** The pieces of the write tile its range; see WriteTiles. */
  ghost predicate Aligned(s: FS, op: Op, p: Path)
    requires op.WriteOp? && p in s.tree && s.tree[p].File?
  {
    WriteAligned(op.offset, BlockCount(op.offset, op.length), Added(s.tree[p].flen, op.offset, op.length))
  }

  /** An aligned write whose pieces all reach their nodes: the file at p then holds its bytes. */
  lemma WriteIntact(s: FS, op: Op, p: Path, before: Stores, after: Stores, data: seq<byte>, x: seq<byte>)
    requires Sound(s) && op.WriteOp? && Allowed(s, op) && s.open[op.fd] == Some(p)
    requires Intact(s, before, p, data) && op.offset <= |data| && op.length == |x| && Aligned(s, op, p)
    requires WriteReply(s, op).Some? && KeptOutside(before, after, WriteReply(s, op).value)
    requires Replicated(after, WriteReply(s, op).value, x)
    ensures Intact(Apply(s, op), after, p, Overlaid(data, op.offset, x))
  {
    hide *;
    SoundTree(s);
    var s' := Apply(s, op);
    IntactFacts(s, before, p, data);
    var parts := AcceptedReply(s, op, p);
    OverlaidSize(data, op.offset, x);
    RangeHeld(before, after, s.tree[p].table, s'.tree[p].table, op.offset / 0x100_0000, parts, data, op.offset, x);
    IntactFacts(s', after, p, Overlaid(data, op.offset, x));
  }

  lemma SoundTree(s: FS)
    requires Sound(s)
    ensures WellFormed(s.tree)
  {
  }

  lemma IntactFacts(s: FS, stores: Stores, p: Path, data: seq<byte>)
    ensures Intact(s, stores, p, data) <==>
              p in s.tree && s.tree[p].File? && s.tree[p].flen == |data| && FileHeld(stores, s.tree[p].table, data)
  {
  }

  /** Whatever has been written, the bytes of every other file stay where they are. */
  lemma OthersIntact(s: FS, op: Op, p: Path, before: Stores, after: Stores, other: Path, data: seq<byte>)
    requires Sound(s) && op.WriteOp? && Allowed(s, op) && s.open[op.fd] == Some(p)
    requires p in s.tree && s.tree[p].File? && op.offset <= s.tree[p].flen
    requires WriteReply(s, op).Some? && KeptOutside(before, after, WriteReply(s, op).value)
    requires other != p && Intact(s, before, other, data)
    ensures Intact(Apply(s, op), after, other, data)
  {
    var parts := AcceptedReply(s, op, p);
    ApplySound(s, op);
    var s' := Apply(s, op);
    assert s'.tree[other] == s.tree[other];
    hide *;
    IntactFacts(s, before, other, data);
    var exts := WriteReply(s, op).value;
    forall k, i | 0 <= k < |s.tree[other].table| && 0 <= i < |exts| ensures exts[i].num != s.tree[other].table[k].num {
      PieceNum(s'.tree[p].table, op.offset / 0x100_0000, parts, i);
      OtherBlock(s', p, op.offset / 0x100_0000 + i, other, k);
    }
    OtherHeld(before, after, s.tree[other].table, exts, data);
    IntactFacts(s', after, other, data);
  }

  lemma PieceNum(table: seq<Desc>, q: nat, parts: seq<(u32, u32)>, i: nat)
    requires q + |parts| <= |table| && i < |parts|
    ensures |Pieces(table, q, parts)| == |parts| && Pieces(table, q, parts)[i].num == table[q + i].num
  {
  }

  lemma OtherHeld(before: Stores, after: Stores, table: seq<Desc>, exts: seq<Extent>, data: seq<byte>)
    requires FileHeld(before, table, data) && KeptOutside(before, after, exts)
    requires forall k, i :: 0 <= k < |table| && 0 <= i < |exts| ==> exts[i].num != table[k].num
    ensures FileHeld(after, table, data)
  {
    hide KeptOutside, ByteHeld;
    forall k | 0 <= k < |data| ensures ByteHeld(after, table[k / 0x100_0000], k % 0x100_0000, data[k]) {
      ByteKept(before, after, table[k / 0x100_0000], exts, k % 0x100_0000, data[k]);
    }
  }

  lemma OtherBlock(s: FS, p: Path, i: nat, q: Path, j: nat)
    requires Sound(s) && p in s.tree && q in s.tree && p != q && s.tree[p].File? && s.tree[q].File?
    requires i < |s.tree[p].table| && j < |s.tree[q].table|
    ensures s.tree[p].table[i].num != s.tree[q].table[j].num
  {
    assert Uses(s.tree, p, i, s.tree[p].table[i].num) && Uses(s.tree, q, j, s.tree[q].table[j].num);
  }

  // ----- which nodes a file is on -----

  /** The blocks of the table are on nodes of the set only, the first of which is named. */
  ghost predicate TableOn(table: seq<Desc>, up: set<u32>) {
    forall i :: 0 <= i < |table| ==> Nodes(table[i]) <= up && table[i].ip0 in up
  }

  ghost predicate AllIn(ips: seq<u32>, up: set<u32>) {
    forall i :: 0 <= i < |ips| ==> ips[i] in up
  }

  lemma {:induction false} NewOn(n: nat, num: nat, ctr: nat, ips: seq<u32>, up: set<u32>)
    requires |ips| > 0 && num + n <= 0x1_0000_0000_0000_0000 && AllIn(ips, up)
    ensures TableOn(NewDescs(n, num, ctr, ips), up)
  {
    if n > 0 {
      NextOn(num, ctr, ips, up);
      NewOn(n - 1, num + 1, NextIndex(ctr, ips), ips, up);
    }
  }

  lemma NextOn(num: u64, ctr: nat, ips: seq<u32>, up: set<u32>)
    requires |ips| > 0 && AllIn(ips, up)
    ensures Nodes(NextDesc(num, ctr, ips)) <= up && NextDesc(num, ctr, ips).ip0 in up
  {
  }

  /** Writing to a file allocates blocks on the given nodes. */
  lemma WriteOnNodes(s: FS, op: Op, p: Path, up: set<u32>)
    requires Sound(s) && op.WriteOp? && Allowed(s, op) && s.open[op.fd] == Some(p)
    requires p in s.tree && s.tree[p].File? && op.offset <= s.tree[p].flen
    requires TableOn(s.tree[p].table, up) && AllIn(op.ips, up)
    ensures p in Apply(s, op).tree && Apply(s, op).tree[p].File? && TableOn(Apply(s, op).tree[p].table, up)
  {
    WritableFits(s.tree, p, s.num, op.offset, op.length, op.ips);
    NewOn(Added(s.tree[p].flen, op.offset, op.length), s.num, s.ctr, op.ips, up);
  }

  // ----- a range read -----

  /** The pieces that tile a range of the file carry the bytes of that range. */
  lemma RangeReplicated(stores: Stores, table: seq<Desc>, q: nat, parts: seq<(u32, u32)>, data: seq<byte>,
                        lo: nat, hi: nat)
    requires FileHeld(stores, table, data) && lo <= hi <= |data|
    requires q + |parts| <= |table| && Tiles(parts, q, lo, hi)
    ensures Replicated(stores, Pieces(table, q, parts), data[lo..hi])
  {
    var exts, x := Pieces(table, q, parts), data[lo..hi];
    TilesTotal(table, q, parts, lo, hi);
    TilesFacts(parts, q, lo, hi);
    hide Tiles, FileHeld, AllCarry, Total;
    forall i | 0 <= i < |exts| ensures AllCarry(stores, exts[i], Part(exts, x, i)) {
      TileAt(table, q, parts, lo, hi, i);
      SliceOfSlice(data, lo, hi, Start(parts, q, i) - lo, End(parts, q, i) - lo);
      TileCarried(stores, table, q, parts, data, i, Part(exts, x, i));
    }
  }

  lemma TileCarried(stores: Stores, table: seq<Desc>, q: nat, parts: seq<(u32, u32)>, data: seq<byte>, i: nat,
                    x: seq<byte>)
    requires FileHeld(stores, table, data) && i < |parts| && q + i < |table|
    requires (parts[i].0 as int) + (parts[i].1 as int) <= 0x100_0000 && End(parts, q, i) <= |data|
    requires x == data[Start(parts, q, i)..End(parts, q, i)]
    ensures AllCarry(stores, Extents.Piece(table[q + i], parts[i].0, parts[i].1), x)
  {
    var e := Extents.Piece(table[q + i], parts[i].0, parts[i].1);
    forall j, n | 0 <= j < 3 && Slot(e, j) != 0 && 0 <= n < |x|
      ensures OnNode(stores, Slot(e, j), e.num, e.offset + n, x[n])
    {
      var k := Start(parts, q, i) + n;
      InTile(parts, q, i, k);
      assert ByteHeld(stores, table[k / 0x100_0000], k % 0x100_0000, data[k]);
      assert Slot(e, j) in Nodes(table[q + i]);
    }
  }

  /** A new file is held by whatever nodes there are. */
  lemma EmptyHeld(stores: Stores)
    ensures FileHeld(stores, [], [])
  {
  }

  // ----- how many bytes a request is about -----

  lemma {:induction false} SumPrefix(table: seq<Desc>, q: nat, parts: seq<(u32, u32)>, i: nat)
    requires q + |parts| <= |table| && 1 <= i < |parts|
    requires forall j :: 0 < j < |parts| - 1 ==> parts[j].1 == 0x100_0000
    ensures Total(Pieces(table, q, parts)[..i]) == (parts[0].1 as int) + 0x100_0000 * (i - 1)
  {
    var exts := Pieces(table, q, parts);
    TotalPrefix(exts, i - 1);
    if i > 1 {
      SumPrefix(table, q, parts, i - 1);
      assert parts[i - 1].1 == 0x100_0000;
    } else {
      assert exts[..0] == [];
    }
  }

  /** The bytes of several pieces, all but the first and the last of which are whole blocks. */
  lemma SumOf(table: seq<Desc>, q: nat, parts: seq<(u32, u32)>)
    requires q + |parts| <= |table| && 2 <= |parts|
    requires forall j :: 0 < j < |parts| - 1 ==> parts[j].1 == 0x100_0000
    ensures Total(Pieces(table, q, parts))
         == (parts[0].1 as int) + 0x100_0000 * (|parts| - 2) + (parts[|parts| - 1].1 as int)
  {
    var exts, i := Pieces(table, q, parts), |parts| - 1;
    SumPrefix(table, q, parts, i);
    TotalPrefix(exts, i);
    assert exts[..i + 1] == exts;
  }

  /** The bytes of a range over several blocks. */
  lemma LengthOf(offset: nat, length: nat)
    requires BlockCount(offset, length) >= 2
    ensures length == 0x100_0000 - offset % 0x100_0000 + 0x100_0000 * (BlockCount(offset, length) - 2)
                      + LastLength(offset + length)
  {
    LastLengthExact(offset + length);
  }

  /** What is too much at the front is whole blocks and so cannot be made up for at the end. */
  lemma SumExact(offset: nat, length: nat, first: int, last: int)
    requires BlockCount(offset, length) >= 2 && first == FirstLength(offset) && 0 < last <= 0x100_0000
    ensures first + 0x100_0000 * (BlockCount(offset, length) - 2) + last == length
       <==> offset / 0x100_0000 % 256 == 0 && last == LastLength(offset + length)
  {
    LengthOf(offset, length);
    var m := FirstLengthBlocks(offset);
    var back := LastLength(offset + length);
    assert 0 < back <= 0x100_0000;
    hide BlockCount, FirstLength, LastLength;
  }

  /** The pieces of a read have as many bytes as were asked for exactly if they tile the range. */
  lemma ReadTotal(table: seq<Desc>, offset: nat, length: nat)
    requires offset / 0x100_0000 + BlockCount(offset, length) <= |table|
    requires BlockCount(offset, length) == 1 ==> length < 0x1_0000_0000
    ensures Total(Pieces(table, offset / 0x100_0000, ReadParts(offset, length, BlockCount(offset, length)))) == length
       <==> ReadAligned(offset, BlockCount(offset, length))
  {
    var count, q := BlockCount(offset, length), offset / 0x100_0000;
    var parts := ReadParts(offset, length, count);
    ReadTiles(offset, length);
    if ReadAligned(offset, count) {
      TilesTotal(table, q, parts, offset, offset + length);
    } else {
      SumOf(table, q, parts);
      SumExact(offset, length, parts[0].1, parts[count - 1].1);
    }
  }

  /** The same for a write. */
  lemma WriteTotal(table: seq<Desc>, flen: nat, offset: nat, length: nat, count: nat, added: nat)
    requires offset <= flen && count == BlockCount(offset, length) && added == Added(flen, offset, length)
    requires added <= count && (count == 1 ==> length < 0x1_0000_0000) && offset / 0x100_0000 + count <= |table|
    ensures Total(Pieces(table, offset / 0x100_0000, WriteParts(offset, length, count, added))) == length
       <==> WriteAligned(offset, count, added)
  {
    var q := offset / 0x100_0000;
    var parts := WriteParts(offset, length, count, added);
    if added == 0 {
      assert parts == ReadParts(offset, length, count);
      ReadTotal(table, offset, length);
    } else if WriteAligned(offset, count, added) {
      WriteTiles(flen, offset, length, count, added);
      TilesTotal(table, q, parts, offset, offset + length);
    } else {
      AddedWithin(flen, offset, length);
      LastLengthMod(offset, length);
      SumOf(table, q, parts);
      SumExact(offset, length, parts[0].1, parts[count - 1].1);
    }
  }

  /** The pieces of any accepted write have no byte in common, and what the client's bytes have to
      be enough for is their number exactly if the write is aligned. */
  lemma ReplyFits(s: FS, op: Op, p: Path)
    requires Sound(s) && op.WriteOp? && Allowed(s, op) && s.open[op.fd] == Some(p)
    requires p in s.tree && s.tree[p].File? && op.offset <= s.tree[p].flen
    ensures WriteReply(s, op).Some? && Apart(WriteReply(s, op).value)
    ensures Total(WriteReply(s, op).value) == op.length <==> Aligned(s, op, p)
    ensures |WriteReply(s, op).value| == BlockCount(op.offset, op.length)
  {
    var parts := AcceptedReply(s, op, p);
    var count, added := BlockCount(op.offset, op.length), Added(s.tree[p].flen, op.offset, op.length);
    var table, q := Apply(s, op).tree[p].table, op.offset / 0x100_0000;
    hide Apply, Allowed, WriteReply, Sound, Tiles, DistinctNums, BlockCount, Added, WriteAligned, WriteParts;
    hide Apart, Total;
    PiecesApart(table, q, parts);
    WriteTotal(table, s.tree[p].flen, op.offset, op.length, count, added);
  }
}
