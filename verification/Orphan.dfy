/** Writing through a descriptor whose file has been removed. */
module Orphan {
  import opened Bytes
  import opened Cfs
  import opened Changes
  import opened Codec
  import opened Delete
  import opened Disk
  import opened Extents
  import opened Fat
  import opened FileIO
  import opened Image
  import opened Lookup
  import opened Ops
  import opened Paths
  import opened Reset
  import opened Room
  import opened Sectors
  import opened Tree

  /** The sector holds the meta data of a file, which may be gone: its sizes fit each other. */
  ghost predicate StaleFile(sector: Sector) {
    var m := DecodeMeta(sector);
    && m.strbase == 32 * UpDiv(m.flen, 0x100_0000) && UpDiv(m.flen, 0x100_0000) <= 0x1000_0000
    && 64 + m.strbase <= 512 * m.blocks
  }

  lemma StaleFacts(sector: Sector)
    requires StaleFile(sector)
    ensures |sector| == 512
    ensures var m := DecodeMeta(sector);
            && m.strbase == 32 * UpDiv(m.flen, 0x100_0000) && UpDiv(m.flen, 0x100_0000) <= 0x1000_0000
            && 64 + m.strbase <= 512 * m.blocks && m.flen < 0x1_0000_0000_0000_0000
  {
  }

  /** The descriptors that a buffer holds, whatever they are. */
  ghost function TableIn(b: seq<byte>, n: nat): (r: seq<Desc>)
    requires 64 + 32 * n <= |b|
    ensures |r| == n && TableIs(b, r)
  {
    seq(n, i requires 0 <= i < n => DescAt(b, i))
  }

  lemma TableInSize(b: seq<byte>, n: nat)
    requires 64 + 32 * n <= |b|
    ensures |TableIn(b, n)| == n && TableIs(b, TableIn(b, n))
  {
  }

  /** What c_write gets to see: it takes the sector for the head of a chain, which leads to sector 0,
      and copies both to its buffer.  The memory behind a smaller buffer counts as part of it. */
  method ReadOrphan(dt: Disk, fb: u32, size: nat) returns (buf: array<byte>)
    requires fb < |dt.data| && |dt.data[fb]| == |dt.data[0]| == 512
    ensures fresh(buf) && buf.Length >= size && buf.Length >= 1024 && buf[..512] == dt.data[fb]
  {
    buf := new byte[if size > 1024 then size else 1024];
    Memcpy(buf, 0, dt.data[fb]);
    ghost var b := buf[..];
    assert b[..512] == dt.data[fb];
    Memcpy(buf, 512, dt.data[0]);
    assert buf[..512] == b[..512];
  }

  /** The sectors of the table of a file after a write. */
  function TableCount(flen: nat, offset: nat, length: nat): nat {
    UpDiv(64 + 32 * (UpDiv(flen, 0x100_0000) + Added(flen, offset, length)), 512)
  }

  lemma TableCountIs(flen: nat, offset: nat, length: nat)
    ensures TableCount(flen, offset, length)
         == UpDiv(64 + 32 * (UpDiv(flen, 0x100_0000) + Added(flen, offset, length)), 512) > 0
  {
  }

  /** c_write on a removed file while no other file has taken its head: a write that does not start
      beyond the old length frees sector 0 for good, any other is refused and changes nothing. */
  method CWriteOrphan(dt: Disk, fb: u32, offset: u64, length: u64, ips: seq<u32>, now: u64, blocks: array<Extent>)
    returns (ok: bool, ret: int)
    requires Ready(dt) && 0 < fb < dt.fatNum && fb < |dt.data| && fb < |dt.fat| && dt.fat[fb] == FREESEC
    requires StaleFile(dt.data[fb])
    requires |ips| > 0 && offset + length < 0x1_0000_0000_0000_0000 && Countable(offset, length)
    requires dt.maxBlockNum + length / 0x100_0000 + 2 < 0x1_0000_0000_0000_0000
    requires blocks.Length >= length / 0x100_0000 + 2
    modifies dt, blocks
    ensures var flen := DecodeMeta(old(dt.data)[fb]).flen;
            if flen < offset
            then ok && ret == -1 && Ready(dt) && dt.fat == old(dt.fat) && dt.data == old(dt.data)
            else
              && (ok ==> RootLost(dt.fat))
              && (ok <==> Fits(old(dt.dtSize),
                               Rank(old(dt.fat), old(dt.fatNum), fb) + TableCount(flen, offset, length) - 1))
  {
    hide *;
    StaleFacts(dt.data[fb]);
    var meta := DecodeMeta(dt.data[fb]);
    TableCountIs(meta.flen, offset, length);
    if meta.flen < offset {
      return true, -1;
    }
    var n0 := meta.strbase / 32;
    var size1, size2 := 64 + UpDiv(offset + length, 0x100_0000) * 32, 512 * meta.blocks;
    var buf := ReadOrphan(dt, fb, if size1 > size2 then size1 else size2);
    ghost var table, num, ctr := TableIn(buf[..], n0), dt.maxBlockNum, dt.ipIndex;
    TableInSize(buf[..], n0);
    var count, added := PutPieces(dt, buf, ips, meta.flen, n0, offset, length, blocks, table);
    LongerSize(table, added, num, ctr, ips);
    WriteFits(meta.flen, offset, length);
    var newsize := if meta.flen < offset + length then offset + length else meta.flen;
    ghost var f := File(meta.uid, meta.flags, newsize, []);
    WrittenBytes(buf[..], map[], map[], [], f, meta, Longer(table, added, num, ctr, ips), newsize, now);
    var meta' := WrittenMeta(meta, newsize, 32 * (n0 + added), now);
    WrittenBlocks(meta, newsize, 32 * (n0 + added), now);
    Memcpy(buf, 0, EncodeMeta(meta'));
    ReadyValid(dt);
    ok := DoWriteFree(dt, fb, buf[..], 64 + 32 * (n0 + added), meta'.blocks);
    ret := count;
  }

  /** The sector at fb looks like the head of a file of that length. */
  ghost predicate StaleAt(data: seq<Sector>, fb: nat, flen: u64) {
    fb < |data| && StaleFile(data[fb]) && DecodeMeta(data[fb]).flen == flen
  }

  lemma StaleIs(data: seq<Sector>, fb: nat, flen: u64)
    ensures StaleAt(data, fb, flen) <==> fb < |data| && StaleFile(data[fb]) && DecodeMeta(data[fb]).flen == flen
  {
  }

  lemma ChainStale(data: seq<Sector>, chains: Chains, t: Tree, p: Path)
    requires Head(data, chains, t, p) && t[p].File? && |t[p].table| == UpDiv(t[p].flen, 0x100_0000)
    requires |t[p].table| <= 0x1000_0000
    ensures HeadAt(chains, p) < |data| && StaleFile(data[HeadAt(chains, p)])
    ensures DecodeMeta(data[HeadAt(chains, p)]).flen == t[p].flen
  {
    hide DecodeMeta, DecodeBlock;
  }

  /** A file's head sector still looks like one after the file has gone, as long as it is free. */
  lemma FileStale(dt: Disk, p: Path)
    requires Ready(dt) && p in dt.tree && dt.tree[p].File? && |dt.tree[p].table| == UpDiv(dt.tree[p].flen, 0x100_0000)
    ensures 0 < HeadAt(dt.chains, p) < dt.fatNum && HeadAt(dt.chains, p) < |dt.data|
    ensures HeadAt(dt.chains, p) < Top(dt.fat)
    ensures StaleAt(dt.data, HeadAt(dt.chains, p), dt.tree[p].flen)
  {
    hide *;
    FileContent(dt, p);
    HeadOf(dt, p);
    ChainStale(dt.data, dt.chains, dt.tree, p);
    StaleIs(dt.data, HeadAt(dt.chains, p), dt.tree[p].flen);
    ReadyValid(dt);
    HeadBelow(dt, p);
  }

  lemma HeadBelow(dt: Disk, p: Path)
    requires dt.Valid() && p in dt.chains
    ensures 0 < HeadAt(dt.chains, p) < dt.fatNum && HeadAt(dt.chains, p) < Top(dt.fat)
  {
    GeometryFits(dt.totSecNum, dt.fatSecNum, dt.fatNum, dt.dtSize);
    HeadOfChain(dt.fat, dt.fatNum, dt.chains, p);
    ChainBelow(dt.fat, dt.fatNum, dt.chains, p, dt.chains[p][0]);
    TopAbove(dt.fat, HeadAt(dt.chains, p));
  }

  lemma FreeSector(dt: Disk, before: seq<Sector>, fb: nat)
    requires Ready(dt) && FreeKept(dt.fat, before, dt.data) && fb < |before|
    ensures fb < |dt.data| == dt.fatNum <= |dt.fat|
    ensures dt.fat[fb] == FREESEC ==> dt.data[fb] == before[fb]
    ensures 0 < fb ==> (dt.fat[fb] == FREESEC <==> !Owned(dt.chains, fb))
  {
    if 0 < fb && Owned(dt.chains, fb) {
      var p :| p in dt.chains && fb in dt.chains[p];
      ChainBelow(dt.fat, dt.fatNum, dt.chains, p, fb);
    }
  }

  lemma RemovedFacts(dt: Disk, t: Tree, c0: Chains, s: seq<byte>, uid: u32)
    requires WellFormed(t) && Performed(dt, t, c0, Remove(t, s, uid))
    ensures Ready(dt) && dt.tree == Remove(t, s, uid).tree
  {
    hide Remove;
  }

  /** c_remove and then c_write through a descriptor of the file: where no other file has got the
      sector of the old head, a write that does not start beyond the old length loses sector 0. */
  method RemoveThenWrite(dt: Disk, path: array<byte>, uid: u32, fb: u32, offset: u64, length: u64, ips: seq<u32>,
                         now: u64, blocks: array<Extent>, ghost s: seq<byte>, ghost p: Path)
    returns (ok: bool, free: bool, ret: int, ghost left: Chains)
    requires Ready(dt) && CString(path[..], 0, s) && path.Length < 0x8000_0000
    requires p in dt.tree && dt.tree[p].File? && |dt.tree[p].table| == UpDiv(dt.tree[p].flen, 0x100_0000)
    requires fb == HeadAt(dt.chains, p)
    requires |ips| > 0 && offset + length < 0x1_0000_0000_0000_0000 && Countable(offset, length)
    requires dt.maxBlockNum + length / 0x100_0000 + 2 < 0x1_0000_0000_0000_0000
    requires blocks.Length >= length / 0x100_0000 + 2
    modifies dt, path, blocks
    ensures WellFormed(old(dt.tree))
    ensures free <==> !Owned(left, fb)
    ensures ok && free ==> if old(dt.tree)[p].flen < offset then ret == -1 && Ready(dt) else RootLost(dt.fat)
    ensures left.Keys == Remove(old(dt.tree), s, uid).tree.Keys
    ensures Fits(old(dt.dtSize), Top(old(dt.fat)) + TableCount(old(dt.tree)[p].flen, offset, length)) ==> ok
  {
    hide *;
    ReadyFacts(dt);
    FileStale(dt, p);
    StaleIs(dt.data, fb, dt.tree[p].flen);
    ghost var t, c0, before, top, size := dt.tree, dt.chains, dt.data, Top(dt.fat), dt.dtSize;
    HeadRoom(dt);
    ok, ret := true, -1;
    var code := CRemove(dt, path, uid, now, s);
    left := dt.chains;
    RemovedFacts(dt, t, c0, s, uid);
    ReadyFacts(dt);
    FreeSector(dt, before, fb);
    free := dt.fat[fb] == FREESEC;
    if free {
      TableCountIs(t[p].flen, offset, length);
      RankTop(dt.fat, dt.fatNum, fb);
      MaxIs(Top(dt.fat), fb + 1);
      ghost var count := TableCount(t[p].flen, offset, length);
      if Fits(size, top + count) {
        RoomLess(size, Rank(dt.fat, dt.fatNum, fb) + count - 1, top + count);
      }
      ok, ret := CWriteOrphan(dt, fb, offset, length, ips, now, blocks);
    }
  }
}
