/** The in-memory image of the control node: superblock, file allocation table and data area. */
module Disk {
  import opened Bytes
  import opened Codec
  import opened Fat
  import opened Room
  import opened Sectors
  import opened Tree

  const INIT_MAX: nat := 32 * 1024
  const NO_SECTOR: u32 := 0xFFFF_FFFF

  /** after is before, with free entries added at the end. */
  ghost predicate Grown(before: seq<u32>, after: seq<u32>) {
    && |before| <= |after|
    && after[..|before|] == before
    && (forall s :: |before| <= s < |after| ==> after[s] == FREESEC)
  }

  /** after is before with sectors added at the end. */
  ghost predicate Enlarged(before: seq<Sector>, after: seq<Sector>) {
    |before| <= |after| && after[..|before|] == before
  }

  /** after agrees with before on every old sector outside c. */
  ghost predicate Untouched(before: seq<Sector>, after: seq<Sector>, c: seq<nat>) {
    && |before| <= |after|
    && (forall s :: 0 <= s < |before| && s !in c ==> after[s] == before[s])
  }

  /** The FAT and the data area fill an image of totSecNum sectors: the superblock takes one
      sector, and fatNum is the number of data sectors. */
  ghost predicate Geometry(totSecNum: nat, fatSecNum: nat, fatNum: nat, dtSize: nat) {
    && 64 <= totSecNum
    && dtSize == 512 * totSecNum
    && dtSize < 0x1_0000_0000
    && 512 * fatSecNum - 512 < 4 * totSecNum <= 512 * fatSecNum
    && fatNum == totSecNum - 1 - fatSecNum
  }

  /** The geometry in the code's own divisions: the FAT takes ceil(4T / 512) sectors, and what
      is left after it and the superblock is exactly the data area. */
  lemma GeometryExact(totSecNum: nat, fatSecNum: nat, fatNum: nat, dtSize: nat)
    requires Geometry(totSecNum, fatSecNum, fatNum, dtSize)
    ensures totSecNum == dtSize / 512 && fatSecNum == UpDiv(4 * totSecNum, 512)
    ensures fatNum == (dtSize - 4 * totSecNum - 512) / 512
    ensures 512 + 512 * fatSecNum + 512 * fatNum == dtSize
  {
  }

  lemma GeometryFits(totSecNum: nat, fatSecNum: nat, fatNum: nat, dtSize: nat)
    requires Geometry(totSecNum, fatSecNum, fatNum, dtSize)
    ensures 1 <= fatNum <= 128 * fatSecNum <= 0x100_0000 && fatNum < totSecNum <= 0x80_0000
  {
  }

  /** The number of data sectors follows from the size. */
  lemma GeometryCap(totSecNum: nat, fatSecNum: nat, fatNum: nat, dtSize: nat)
    requires Geometry(totSecNum, fatSecNum, fatNum, dtSize)
    ensures dtSize % 512 == 0 && 0x8000 <= dtSize < 0x1_0000_0000 && fatNum == Cap(dtSize) && 1 < fatNum
  {
    GeometryExact(totSecNum, fatSecNum, fatNum, dtSize);
  }

  class Disk {
    // superblock
    var totSecNum: nat
    var fatSecNum: nat
    var fatNum: nat
    var maxBlockNum: u64
    // size and areas of the image
    var dtSize: nat
    var fat: seq<u32>
    var data: seq<Sector>
    // the static counter behind gen_ip_index
    var ipIndex: nat
    // which sectors hold the file at each path
    ghost var chains: map<Path, seq<nat>>
    // what users see at each path
    ghost var tree: Tree

    ghost predicate Shape()
      reads this
    {
      && Geometry(totSecNum, fatSecNum, fatNum, dtSize)
      && |fat| == 128 * fatSecNum && |data| == fatNum
      && forall s :: fatNum <= s < |fat| ==> fat[s] == FREESEC
    }

    ghost predicate Valid()
      reads this
    {
      Shape() && fatNum <= |fat| && Partitioned(fat, fatNum, chains)
    }

    /** A formatted but still empty image of 32 KiB; what the data area holds is arbitrary. */
    constructor ()
      ensures Valid() && chains == map[] && maxBlockNum == 0 && ipIndex == 0 && dtSize == INIT_MAX
      ensures fatNum == 62 && forall s :: 0 < s < |fat| ==> fat[s] == FREESEC
    {
      totSecNum, fatSecNum, fatNum, maxBlockNum := 64, 1, 62, 0;
      dtSize, ipIndex := INIT_MAX, 0;
      fat := [ENDSEC] + seq(127, _ => FREESEC);
      var room: array<Sector> := new Sector[62];
      data := room[..];
      chains := map[];
    }

    /** Records what users now see. */
    ghost method SetTree(t: Tree)
      requires Valid()
      modifies `tree
      ensures Valid() && tree == t
    {
      tree := t;
    }

    /** memcpy of x to the beginning of sector s. */
    method Store(s: nat, x: seq<byte>)
      requires Valid() && s < |data| && |x| <= 512
      modifies `data
      ensures Valid() && data == old(data)[s := Overwrite(old(data)[s], x)]
    {
      data := data[s := Overwrite(data[s], x)];
    }

    /** The least free sector from base on. */
    method NextFreeFat(base: nat) returns (r: u32)
      requires Shape()
      ensures r == NO_SECTOR ==> forall s :: base <= s < fatNum && s < |fat| ==> fat[s] != FREESEC
      ensures r != NO_SECTOR ==> base <= r < fatNum && r < |fat| && fat[r] == FREESEC
      ensures r != NO_SECTOR ==> forall s :: base <= s < r ==> fat[s] != FREESEC
    {
      GeometryFits(totSecNum, fatSecNum, fatNum, dtSize);
      var i := base;
      while i < fatNum
        invariant base <= i
        invariant forall s :: base <= s < i && s < |fat| ==> fat[s] != FREESEC
      {
        if fat[i] == FREESEC {
          return i;
        }
        i := i + 1;
      }
      return NO_SECTOR;
    }

    /** Moves the image into a buffer of newsize bytes; refuses a size that is not larger. */
    method Extend(newsize: nat) returns (refused: bool)
      requires Shape() && newsize < 0x1_0000_0000 && newsize % 512 == 0
      modifies `totSecNum, `fatSecNum, `fatNum, `dtSize, `fat, `data
      ensures Shape()
      ensures refused <==> old(dtSize) >= newsize
      ensures refused ==> fat == old(fat) && data == old(data) && dtSize == old(dtSize) && fatNum == old(fatNum)
      ensures !refused ==> dtSize == newsize && Grown(old(fat), fat) && Enlarged(old(data), data)
      ensures !refused && newsize >= 2 * old(dtSize) ==> fatNum > old(fatNum)
    {
      if dtSize >= newsize {
        return true;
      }
      var newTot := newsize / 512;
      var fatSize := newTot * 4;
      var newFatSec := (fatSize + 512 - 1) / 512;
      var newFatNum := (newsize - fatSize - 512) / 512;
      LargerImage(totSecNum, fatSecNum, fatNum, newTot);
      var room: array<Sector> := new Sector[newFatNum - |data|];  // fresh memory, not cleared
      fat := fat + seq(128 * newFatSec - |fat|, _ => FREESEC);
      data := data + room[..];
      totSecNum, fatSecNum, fatNum, dtSize := newTot, newFatSec, newFatNum, newsize;
      return false;
    }

    /** extend(dt, dt->dt_size * 2), the product taken modulo 2^32. */
    method Double() returns (refused: bool)
      requires Shape()
      modifies `totSecNum, `fatSecNum, `fatNum, `dtSize, `fat, `data
      ensures Shape() && Grown(old(fat), fat) && Enlarged(old(data), data)
      ensures refused <==> 2 * old(dtSize) >= 0x1_0000_0000
      ensures if refused then dtSize == old(dtSize) else dtSize == 2 * old(dtSize)
      ensures if refused then fatNum == old(fatNum) else fatNum > old(fatNum)
    {
      DoubleSize(dtSize);
      hide Doubled, Grown, Enlarged;
      refused := Extend(Doubled(dtSize));
      if refused {
        NoGrowth(fat, data);
      }
    }

    /** The allocate-or-extend loop: the least free sector from base on, or the first new one after
        doubling the image if there is none.  ok is false where the original would loop for ever,
        because the doubled size no longer fits in 32 bits. */
    method Allocate(base: nat) returns (ok: bool, r: u32)
      requires Shape() && base <= fatNum
      modifies `totSecNum, `fatSecNum, `fatNum, `dtSize, `fat, `data
      ensures Shape() && Grown(old(fat), fat) && Enlarged(old(data), data) && old(fatNum) <= fatNum
      ensures ok <==> AnyFree(old(fat), base, old(fatNum)) || 2 * old(dtSize) < 0x1_0000_0000
      ensures ok ==> base <= r < fatNum && r < |fat| && fat[r] == FREESEC
      ensures ok ==> forall s :: base <= s < r ==> fat[s] != FREESEC
      ensures AnyFree(old(fat), base, old(fatNum)) ==> r < old(fatNum)
      ensures AnyFree(old(fat), base, old(fatNum)) || !ok ==>
                fat == old(fat) && data == old(data) && dtSize == old(dtSize) && fatNum == old(fatNum)
      ensures ok && !AnyFree(old(fat), base, old(fatNum)) ==> dtSize == 2 * old(dtSize) && r == old(fatNum) < fatNum
    {
      GeometryFits(totSecNum, fatSecNum, fatNum, dtSize);
      NoGrowth(fat, data);
      r := NextFreeFat(base);
      while r == NO_SECTOR
        invariant Shape() && Grown(old(fat), fat) && Enlarged(old(data), data) && old(fatNum) <= fatNum
        invariant r != NO_SECTOR ==> base <= r < fatNum && r < |fat| && fat[r] == FREESEC
        invariant r != NO_SECTOR ==> forall s :: base <= s < r ==> fat[s] != FREESEC
        invariant r == NO_SECTOR || !AnyFree(old(fat), base, old(fatNum)) || fat == old(fat)
        invariant if fatNum == old(fatNum) then
                    && fat == old(fat) && data == old(data) && dtSize == old(dtSize)
                    && (r == NO_SECTOR <==> !AnyFree(old(fat), base, old(fatNum)))
                  else
                    && dtSize == 2 * old(dtSize) < 0x1_0000_0000 && r == old(fatNum) < fatNum
                    && !AnyFree(old(fat), base, old(fatNum))
        decreases 0x1_0000_0000 - dtSize
      {
        ghost var f, d := fat, data;
        var refused := Double();
        if refused {
          return false, NO_SECTOR;
        }
        r := NextFreeFat(base);
        FirstNew(f, old(fatNum), fat, fatNum, base);
      }
      return true, r;
    }

    /** Frees every sector met from fb on. */
    method ResetFat(fb: nat, ghost walk: seq<nat>)
      requires LinkWalk(fat, walk) && walk[0] == fb && |fat| < ENDSEC
      modifies `fat
      ensures Freed(old(fat), fat, walk)
    {
      var cur := fb;
      ghost var k := 0;
      while cur != ENDSEC
        invariant 0 <= k <= |walk| && |fat| == |old(fat)|
        invariant cur == (if k < |walk| then walk[k] else ENDSEC) && (k < |walk| ==> cur < ENDSEC)
        invariant forall s :: 0 <= s < |fat| ==> fat[s] == if s in walk[..k] then FREESEC else old(fat)[s]
        decreases |walk| - k
      {
        ResetStep(old(fat), walk, k);
        var next := fat[cur];
        fat := fat[cur := FREESEC];
        cur := next;
        k := k + 1;
      }
      assert walk[..|walk|] == walk;
    }

    /** Links the last sector written to the next free one above it. */
    method LinkNext(cur: nat, ghost base: seq<u32>, ghost d0: seq<Sector>, ghost c: seq<nat>, ghost i: nat,
                    ghost src: seq<byte>, ghost size: nat)
      returns (ok: bool, next: u32)
      requires Shape() && Writing(base, d0, fat, data, c, i, src, size, ENDSEC)
      requires |c| == i && cur == c[i - 1]
      modifies `totSecNum, `fatSecNum, `fatNum, `dtSize, `fat, `data
      ensures ok <==> Fits(old(dtSize), Rank(old(fat), old(fatNum), cur) + 1)
      ensures ok ==> Shape() && old(fatNum) <= fatNum
      ensures ok ==> Writing(base, d0, fat, data, c + [next], i, src, size, FREESEC)
      ensures ok ==> dtSize == FitSize(old(dtSize), Rank(old(fat), old(fatNum), cur) + 1)
      ensures ok ==> Rank(fat, fatNum, next) == Rank(old(fat), old(fatNum), cur) + 1
      ensures ok ==> Top(fat) <= MaxOf(Top(old(fat)), Rank(fat, fatNum, next))
    {
      hide *;
      ghost var f, d, n, s := fat, data, fatNum, dtSize;
      LastOfChain(this, base, d0, c, i, src, size);
      GeometryFits(totSecNum, fatSecNum, fatNum, dtSize);
      GeometryCap(totSecNum, fatSecNum, fatNum, dtSize);
      ShapeFacts(this);
      ok, next := Allocate(cur);
      ShapeFacts(this);
      if ok {
        GeometryFits(totSecNum, fatSecNum, fatNum, dtSize);
        WritingNext(base, d0, f, d, c, i, src, size, fat, data, next);
        GrownFacts(f, fat);
        TopGrown(f, fat);
      }
      AllocRank(f, n, s, fat, fatNum, dtSize, ok, cur, next);
      if ok {
        ghost var f2 := fat;
        fat := fat[cur := next];
        LinkShape(this, f2, cur, next);
        RankLinked(f2, fatNum, next, cur, next);
        MaxIs(Top(f2), Rank(f2, fatNum, next));
        MaxIs(Top(f), Rank(f2, fatNum, next));
      }
    }

    /** Copies the share of sector i of the file to sector cur and marks it as the last one. */
    method WriteSector(cur: nat, src: seq<byte>, i: nat, left: nat, ghost base: seq<u32>, ghost d0: seq<Sector>,
                       ghost c: seq<nat>, ghost size: nat, ghost count: nat)
      requires Shape() && Covers(src, size, count) && i < count
      requires Writing(base, d0, fat, data, c, i, src, size, FREESEC)
      requires |c| == i + 1 && cur == c[i] && left == Sub64(size, 512 * i)
      modifies `fat, `data
      ensures Shape() && Writing(base, d0, fat, data, c, i + 1, src, size, ENDSEC)
      ensures cur < fatNum <= |fat| == |old(fat)| && fat == old(fat)[cur := ENDSEC]
    {
      Remaining(src, size, count, i);
      hide Writing, Covers, Sub64, Geometry;
      var len := Min(left, 512);
      WritingSector(base, d0, fat, data, c, i, src, size, len);
      data := data[cur := Overwrite(data[cur], src[512 * i..512 * i + len])];
      fat := fat[cur := ENDSEC];
    }

    /** Writes src to count sectors from the free sector start on, linking as many more as are
        needed; size is the number of bytes meant, and its u64 counter may wrap. */
    method WriteChain(start: nat, src: seq<byte>, size: nat, count: nat) returns (ok: bool, ghost c: seq<nat>)
      requires Shape() && Covers(src, size, count)
      requires 0 < start < |data| <= |fat| && fat[start] == FREESEC
      modifies `totSecNum, `fatSecNum, `fatNum, `dtSize, `fat, `data
      ensures ok <==> Fits(old(dtSize), Rank(old(fat), old(fatNum), start) + count - 1)
      ensures ok ==> Shape() && old(fatNum) <= fatNum
      ensures ok ==> |c| == count && c[0] == start
      ensures ok ==> Writing(old(fat), old(data), fat, data, c, count, src, size, ENDSEC)
      ensures ok ==> dtSize == FitSize(old(dtSize), Rank(old(fat), old(fatNum), start) + count - 1)
      ensures ok ==> Top(fat) <= MaxOf(Top(old(fat)), Rank(old(fat), old(fatNum), start) + count - 1)
    {
      hide *;
      ghost var need := Rank(fat, fatNum, start);
      ShapeFacts(this);
      GeometryCap(totSecNum, fatSecNum, fatNum, dtSize);
      WalkBegins(this, start);
      c := [start];
      var cur := start;
      var left := size;
      var i := 0;
      NoRemaining(src, size, count);
      WritingStart(fat, data, start, src, size);
      while true
        invariant 0 <= i < count && Shape() && old(fatNum) <= fatNum
        invariant Writing(old(fat), old(data), fat, data, c, i, src, size, FREESEC)
        invariant |c| == i + 1 && c[0] == start && cur == c[i]
        invariant left == Sub64(size, 512 * i)
        invariant Walked(old(fat), old(dtSize), fat, fatNum, dtSize, cur, need + i)
        decreases count - i
      {
        ghost var f := fat;
        WriteSector(cur, src, i, left, old(fat), old(data), c, size, count);
        WalkMarks(this, old(fat), old(dtSize), f, cur, need + i);
        i := i + 1;
        if i >= count {
          return true, c;
        }
        ghost var s, top := dtSize, Top(fat);
        var fits, next := LinkNext(cur, old(fat), old(data), c, i, src, size);
        if !fits {
          WalkEnds(old(dtSize), s, need + i - 1, need + i, need + count - 1);
          return false, c;
        }
        WalkGoesOn(this, old(fat), old(dtSize), s, top, next, need + i);
        NextRemaining(size, i - 1);
        c, cur, left := c + [next], next, Sub64(left, 512);
      }
    }

    /** Allocates the first sector of a new file. */
    method AllocHead() returns (ok: bool, r: u32)
      requires Valid()
      modifies `totSecNum, `fatSecNum, `fatNum, `dtSize, `fat, `data
      ensures ok <==> Fits(old(dtSize), Rank(old(fat), old(fatNum), 0) + 1)
      ensures ok ==> Valid() && Enlarged(old(data), data)
      ensures ok ==> 0 < r < fatNum && r < |fat| && fat[r] == FREESEC
      ensures ok ==> dtSize == FitSize(old(dtSize), Rank(old(fat), old(fatNum), 0) + 1)
      ensures ok ==> Rank(fat, fatNum, r) == Rank(old(fat), old(fatNum), 0) + 1 && Top(fat) <= Top(old(fat))
    {
      hide *;
      ghost var f, n, s := fat, fatNum, dtSize;
      ValidParts(this);
      ShapeFacts(this);
      GeometryFits(totSecNum, fatSecNum, fatNum, dtSize);
      GeometryCap(totSecNum, fatSecNum, fatNum, dtSize);
      ok, r := Allocate(0);
      ShapeFacts(this);
      if ok {
        GeometryFits(totSecNum, fatSecNum, fatNum, dtSize);
        GrownPartition(f, n, fat, fatNum, chains);
        GrownFacts(f, fat);
        TopGrown(f, fat);
        ValidFrom(this);
      }
      AllocRank(f, n, s, fat, fatNum, dtSize, ok, 0, r);
    }

    /** Writes a new file for key from the free sector start on. */
    method WriteNew(start: nat, src: seq<byte>, size: nat, count: nat, ghost key: Path) returns (ok: bool)
      requires Valid() && key !in chains && Covers(src, size, count)
      requires 0 < start < fatNum && start < |fat| && fat[start] == FREESEC
      modifies `totSecNum, `fatSecNum, `fatNum, `dtSize, `fat, `data, `chains
      ensures ok <==> Fits(old(dtSize), Rank(old(fat), old(fatNum), start) + count - 1)
      ensures ok ==> Valid() && Wrote(fat, fatNum, old(data), data, old(chains), chains, key)
      ensures ok ==> key in chains && |chains[key]| == count && chains[key][0] == start
      ensures ok ==> Holds(data, chains[key], src, size)
      ensures ok ==> dtSize == FitSize(old(dtSize), Rank(old(fat), old(fatNum), start) + count - 1)
      ensures ok ==> Top(fat) <= MaxOf(Top(old(fat)), Rank(old(fat), old(fatNum), start) + count - 1)
    {
      ghost var c;
      ok, c := WriteChain(start, src, size, count);
      if ok {
        GeometryFits(totSecNum, fatSecNum, fatNum, dtSize);
        WritingDone(old(fat), old(data), fat, data, c, src, size, old(fatNum), fatNum, chains, key);
        WritingHolds(old(fat), old(data), fat, data, c, src, size);
        chains := chains[key := c];
      }
    }

    /** Frees the chain of key. */
    method FreeChain(fb: nat, ghost key: Path)
      requires Valid() && key in chains && fb == chains[key][0]
      modifies `fat, `chains
      ensures Valid() && chains == old(chains) - {key}
      ensures fb < |fat| && fat[fb] == FREESEC && 0 < fb < fatNum
      ensures Rank(fat, fatNum, fb) == Rank(old(fat), fatNum, fb) - |old(chains)[key]| + 1
      ensures Top(fat) <= Top(old(fat)) && fb < Top(old(fat))
    {
      hide Partitioned, LinkWalk, Freed, Geometry;
      GeometryFits(totSecNum, fatSecNum, fatNum, dtSize);
      ghost var f, c := fat, chains[key];
      ChainWalk(fat, fatNum, chains, key);
      ResetFat(fb, c);
      FreedHead(f, fat, c);
      FreedDone(f, fat, fatNum, chains, key);
      FreedRoom(f, fat, fatNum, chains, key);
      chains := chains - {key};
    }

    /** do_writefile: frees the old chain of fb and grows a new one from the same head, as long
        as the block count in the meta data at the start of src says. */
    method DoWriteFile(fb: nat, src: seq<byte>, size: nat, ghost key: Path) returns (ok: bool)
      requires Valid() && key in chains && fb == chains[key][0]
      requires |src| >= 64 && Covers(src, size, DecodeMeta(src).blocks)
      modifies `totSecNum, `fatSecNum, `fatNum, `dtSize, `fat, `data, `chains
      ensures ok ==> Valid() && Wrote(fat, fatNum, old(data), data, old(chains), chains, key)
      ensures ok ==> key in chains && |chains[key]| == DecodeMeta(src).blocks && chains[key][0] == fb
      ensures ok ==> Holds(data, chains[key], src, size)
      ensures var need := NeedFor(old(fat), old(fatNum), old(chains)[key], DecodeMeta(src).blocks);
              && (ok <==> Fits(old(dtSize), need))
              && (ok ==> dtSize == FitSize(old(dtSize), need) && Top(fat) <= MaxOf(Top(old(fat)), need))
    {
      hide *;
      KeyHead(this, key);
      ghost var need := NeedFor(fat, fatNum, chains[key], DecodeMeta(src).blocks);
      NeedIs(fat, fatNum, chains[key], DecodeMeta(src).blocks);
      ghost var top := Top(fat);
      FreeChain(fb, key);
      MaxIs(top, need);
      MaxIs(Top(fat), need);
      ghost var d, c := data, chains;
      ok := WriteNew(fb, src, size, DecodeMeta(src).blocks, key);
      if ok {
        WroteAgain(fat, fatNum, d, data, old(chains), c, chains, key);
      }
    }

    /** do_readfile: copies the sectors of fb's chain to buf, one after the other. */
    method DoReadFile(fb: nat, buf: array<byte>, ghost key: Path)
      requires Valid() && key in chains && fb == chains[key][0]
      requires buf.Length >= 512 * |chains[key]|
      modifies buf
      ensures Covered(data, chains[key])
      ensures buf[..512 * |chains[key]|] == Content(data, chains[key])
    {
      ghost var c := chains[key];
      assert |data| <= 0x80_0000 && Covered(data, c) by {
        GeometryFits(totSecNum, fatSecNum, fatNum, dtSize);
        ChainWalk(fat, fatNum, chains, key);
      }
      ChainWalk(fat, fatNum, chains, key);
      ReadStart(fat, data, c);
      hide *;
      var cur := fb;
      var i := 0;
      while cur != ENDSEC
        invariant 0 <= i <= |c| && cur == (if i < |c| then c[i] else ENDSEC) && (i < |c| ==> cur < ENDSEC)
        invariant Covered(data, c[..i]) && buf[..512 * i] == Content(data, c[..i])
        decreases |c| - i
      {
        ReadStep(fat, data, c, i);
        CopyStep(buf[..], i, data[cur]);
        Memcpy(buf, 512 * i, data[cur]);
        cur := fat[cur];
        i := i + 1;
      }
      assert c[..|c|] == c;
    }
  }

  // ----- how much room is needed -----

  /** The number of data sectors that writing count sectors to the chain c takes: the sectors of the
      chain serve again. */
  ghost function NeedFor(fat: seq<u32>, n: nat, c: seq<nat>, count: nat): int
    requires |c| > 0
  {
    Rank(fat, n, c[0]) + count - |c|
  }

  lemma NeedIs(fat: seq<u32>, n: nat, c: seq<nat>, count: nat)
    requires |c| > 0
    ensures NeedFor(fat, n, c, count) == Rank(fat, n, c[0]) + count - |c|
  {
  }

  lemma ShapeFacts(dt: Disk)
    requires dt.Shape()
    ensures Geometry(dt.totSecNum, dt.fatSecNum, dt.fatNum, dt.dtSize)
    ensures |dt.fat| == 128 * dt.fatSecNum && |dt.data| == dt.fatNum
    ensures forall s :: dt.fatNum <= s < |dt.fat| ==> dt.fat[s] == FREESEC
  {
  }

  lemma LinkShape(dt: Disk, f: seq<u32>, cur: nat, next: u32)
    requires Geometry(dt.totSecNum, dt.fatSecNum, dt.fatNum, dt.dtSize) && |dt.data| == dt.fatNum
    requires cur < dt.fatNum && cur < |f| == 128 * dt.fatSecNum && dt.fat == f[cur := next]
    requires forall s :: dt.fatNum <= s < |f| ==> f[s] == FREESEC
    ensures dt.Shape()
  {
  }

  lemma ValidParts(dt: Disk)
    requires dt.Valid()
    ensures dt.Shape() && Partitioned(dt.fat, dt.fatNum, dt.chains) && dt.fatNum <= |dt.fat|
    ensures 0 < dt.fatNum && dt.fat[0] == ENDSEC != FREESEC
  {
  }

  lemma ValidFrom(dt: Disk)
    requires dt.Shape() && dt.fatNum <= |dt.fat| && Partitioned(dt.fat, dt.fatNum, dt.chains)
    ensures dt.Valid()
  {
  }

  lemma GrownFacts(f: seq<u32>, f': seq<u32>)
    requires Grown(f, f')
    ensures |f| <= |f'| && f'[..|f|] == f && forall s :: |f| <= s < |f'| ==> f'[s] == FREESEC
  {
  }

  /** Where the chain written so far ends: at a sector in use. */
  lemma LastOfChain(dt: Disk, base: seq<u32>, d0: seq<Sector>, c: seq<nat>, i: nat, src: seq<byte>, size: nat)
    requires dt.Shape() && Writing(base, d0, dt.fat, dt.data, c, i, src, size, ENDSEC) && |c| == i
    ensures i > 0 && c[i - 1] < dt.fatNum <= |dt.fat| && dt.fat[c[i - 1]] == ENDSEC != FREESEC
    ensures Geometry(dt.totSecNum, dt.fatSecNum, dt.fatNum, dt.dtSize)
  {
  }

  /** An allocation takes the walk one step on, in an image as large as that needs. */
  lemma AllocRank(f: seq<u32>, n: nat, s: nat, f': seq<u32>, n': nat, s': nat, ok: bool, base: nat, r: nat)
    requires base < n <= |f| && f[base] != FREESEC && n == Cap(s) && s % 512 == 0 && 0x8000 <= s < 0x1_0000_0000
    requires ok <==> AnyFree(f, base, n) || 2 * s < 0x1_0000_0000
    requires AnyFree(f, base, n) || !ok ==> f' == f && s' == s && n' == n
    requires ok ==> base <= r < n' <= |f'| && f'[r] == FREESEC && forall x :: base <= x < r ==> f'[x] != FREESEC
    requires AnyFree(f, base, n) ==> r < n
    requires ok ==> |f| <= |f'| && f'[..|f|] == f && forall x :: |f| <= x < |f'| ==> f'[x] == FREESEC
    requires forall x :: n <= x < |f| ==> f[x] == FREESEC
    requires ok && !AnyFree(f, base, n) ==> s' == 2 * s && r == n < n'
    ensures ok <==> Fits(s, Rank(f, n, base) + 1)
    ensures ok ==> s' == FitSize(s, Rank(f, n, base) + 1) && Rank(f', n', r) == Rank(f, n, base) + 1
  {
    if AnyFree(f, base, n) {
      RankNext(f, n, base, r);
      RankAbove(f, n, r);
      FitNone(s, Rank(f, n, base) + 1);
    } else {
      FreeInNone(f, base, n);
      FitOne(s, n + 1);
      if ok {
        forall x | n <= x < n' ensures f'[x] == FREESEC {
          if x < |f| {
            assert f'[..|f|][x] == f[x];
          }
        }
        RankGrown(f, n, f', n', base);
      }
    }
  }

  /** A link out of cur changes nothing above it. */
  lemma RankLinked(fat: seq<u32>, n: nat, next: nat, cur: nat, v: u32)
    requires cur <= next < n <= |fat|
    ensures Rank(fat[cur := v], n, next) == Rank(fat, n, next)
    ensures Top(fat[cur := v]) <= MaxOf(Top(fat), Rank(fat, n, next))
  {
    RankAbove(fat, n, next);
    FreeInSame(fat, fat[cur := v], next, n);
    TopPut(fat, cur, v, MaxOf(Top(fat), Rank(fat, n, next)));
  }

  /** How far a walk has come, and how much room it has needed. */
  ghost predicate Walked(f0: seq<u32>, s0: nat, fat: seq<u32>, n: nat, size: nat, cur: nat, need: int) {
    && Rank(fat, n, cur) == need && Fits(s0, need) && size == FitSize(s0, need)
    && Top(fat) <= MaxOf(Top(f0), need)
  }

  lemma WalkBegins(dt: Disk, start: nat)
    requires dt.Shape() && 0 < start < |dt.data| <= |dt.fat|
    ensures Walked(dt.fat, dt.dtSize, dt.fat, dt.fatNum, dt.dtSize, start, Rank(dt.fat, dt.fatNum, start))
  {
    GeometryCap(dt.totSecNum, dt.fatSecNum, dt.fatNum, dt.dtSize);
    RankAbove(dt.fat, dt.fatNum, start);
    FitNone(dt.dtSize, Rank(dt.fat, dt.fatNum, start));
  }

  /** Marking the sector the walk has come to. */
  lemma WalkMarks(dt: Disk, f0: seq<u32>, s0: nat, f: seq<u32>, cur: nat, need: int)
    requires cur < |f| && dt.fat == f[cur := ENDSEC] && cur < dt.fatNum <= |f|
    requires Walked(f0, s0, f, dt.fatNum, dt.dtSize, cur, need)
    ensures Walked(f0, s0, dt.fat, dt.fatNum, dt.dtSize, cur, need)
  {
    RankPut(f, dt.fatNum, cur, ENDSEC);
    RankAbove(f, dt.fatNum, cur);
    TopPut(f, cur, ENDSEC, MaxOf(Top(f0), need));
  }

  lemma WalkEnds(s0: nat, size: nat, need: int, next: int, last: int)
    requires s0 % 512 == 0 && 0x8000 <= s0 < 0x1_0000_0000
    requires Fits(s0, need) && size == FitSize(s0, need) && !Fits(size, next) && next <= last
    ensures !Fits(s0, last)
  {
    FitAgain(s0, need, next);
    FitsLess(s0, next, last);
  }

  lemma WalkGoesOn(dt: Disk, f0: seq<u32>, s0: nat, size: nat, top: nat, next: nat, need: int)
    requires s0 % 512 == 0 && 0x8000 <= s0 < 0x1_0000_0000
    requires Fits(s0, need - 1) && size == FitSize(s0, need - 1) && top <= MaxOf(Top(f0), need - 1)
    requires Fits(size, need) && dt.dtSize == FitSize(size, need) && Rank(dt.fat, dt.fatNum, next) == need
    requires Top(dt.fat) <= MaxOf(top, need)
    ensures Walked(f0, s0, dt.fat, dt.fatNum, dt.dtSize, next, need)
  {
    FitAgain(s0, need - 1, need);
  }

  lemma KeyHead(dt: Disk, key: Path)
    requires dt.Valid() && key in dt.chains
    ensures |dt.chains[key]| > 0
  {
    ChainWalk(dt.fat, dt.fatNum, dt.chains, key);
  }

  /** What freeing a chain does to the room above its head. */
  lemma FreedRoom(f: seq<u32>, f': seq<u32>, n: nat, chains: map<Path, seq<nat>>, key: Path)
    requires Partitioned(f, n, chains) && key in chains && Freed(f, f', chains[key]) && n <= |f|
    ensures var c := chains[key];
            && |c| > 0 && Rank(f', n, c[0]) == Rank(f, n, c[0]) - |c| + 1
            && Top(f') <= Top(f) && c[0] < Top(f)
  {
    var c := chains[key];
    assert Chain(f, c);
    forall i | 0 <= i < |c| ensures c[i] < n && f[c[i]] != FREESEC {
      ChainBelow(f, n, chains, key, c[i]);
    }
    FreeInFreed(f, f', c, n);
    TopFreed(f, f', c);
    TopAbove(f, c[0]);
  }

  /** A new head takes one sector more than the walk from sector 0 has come past. */
  lemma HeadRoom(dt: Disk)
    requires dt.Valid()
    ensures Sized(dt.dtSize) && dt.dtSize % 512 == 0 && 0x8000 <= dt.dtSize < 0x1_0000_0000
    ensures Rank(dt.fat, dt.fatNum, 0) <= Top(dt.fat)
  {
    GeometryCap(dt.totSecNum, dt.fatSecNum, dt.fatNum, dt.dtSize);
    ValidParts(dt);
    TopAbove(dt.fat, 0);
    RankTop(dt.fat, dt.fatNum, 0);
  }

  /** Writing a file again takes what its chain gets more sectors. */
  lemma ChainRoom(dt: Disk, p: Path, count: nat, k: nat)
    requires dt.Valid() && p in dt.chains && count <= |dt.chains[p]| + k
    ensures Sized(dt.dtSize) && |dt.chains[p]| > 0
    ensures NeedFor(dt.fat, dt.fatNum, dt.chains[p], count) <= Top(dt.fat) + k
  {
    GeometryCap(dt.totSecNum, dt.fatSecNum, dt.fatNum, dt.dtSize);
    ValidParts(dt);
    KeyHead(dt, p);
    var fb := dt.chains[p][0];
    ChainBelow(dt.fat, dt.fatNum, dt.chains, p, fb);
    TopAbove(dt.fat, fb);
    RankTop(dt.fat, dt.fatNum, fb);
  }

  /** Writing a file again in as many sectors as it has always works, in an image of the same size. */
  lemma SameRoom(dt: Disk, p: Path)
    requires dt.Valid() && p in dt.chains
    ensures |dt.chains[p]| > 0
    ensures var need := NeedFor(dt.fat, dt.fatNum, dt.chains[p], |dt.chains[p]|);
            Fits(dt.dtSize, need) && FitSize(dt.dtSize, need) == dt.dtSize && need <= Top(dt.fat)
  {
    ChainRoom(dt, p, |dt.chains[p]|, 0);
    GeometryCap(dt.totSecNum, dt.fatSecNum, dt.fatNum, dt.dtSize);
    ChainBelow(dt.fat, dt.fatNum, dt.chains, p, dt.chains[p][0]);
    RankAbove(dt.fat, dt.fatNum, dt.chains[p][0]);
    FitNone(dt.dtSize, Rank(dt.fat, dt.fatNum, dt.chains[p][0]));
  }

  lemma ReadStart(fat: seq<u32>, data: seq<Sector>, c: seq<nat>)
    requires LinkWalk(fat, c) && Covered(data, c) && |data| <= 0x80_0000
    ensures 0 < |c| && c[0] < ENDSEC && Covered(data, c[..0]) && Content(data, c[..0]) == []
  {
  }

  /** Other paths keep their chains. */
  ghost predicate Elsewhere(chains: map<Path, seq<nat>>, chains': map<Path, seq<nat>>, key: Path) {
    forall k :: k != key ==> (k in chains' <==> k in chains) && (k in chains ==> chains'[k] == chains[k])
  }

  /** key got a new chain that shares no sector with the others, and nothing else has changed. */
  ghost predicate Wrote(fat: seq<u32>, n: nat, data: seq<Sector>, data': seq<Sector>,
                        chains: map<Path, seq<nat>>, chains': map<Path, seq<nat>>, key: Path) {
    && Partitioned(fat, n, chains')
    && key in chains' && |chains'[key]| > 0
    && Elsewhere(chains, chains', key)
    && Untouched(data, data', chains'[key])
    && Covered(data', chains'[key])
  }

  lemma WroteAgain(fat: seq<u32>, n: nat, data: seq<Sector>, data': seq<Sector>,
                   c0: map<Path, seq<nat>>, c1: map<Path, seq<nat>>, c2: map<Path, seq<nat>>, key: Path)
    requires Wrote(fat, n, data, data', c1, c2, key) && c1 == c0 - {key}
    ensures Wrote(fat, n, data, data', c0, c2, key)
  {
  }

  lemma ChainWalk(fat: seq<u32>, n: nat, chains: map<Path, seq<nat>>, key: Path)
    requires Partitioned(fat, n, chains) && key in chains
    ensures LinkWalk(fat, chains[key]) && |fat| >= n && |chains[key]| > 0
    ensures forall i :: 0 <= i < |chains[key]| ==> 0 < chains[key][i] < n
  {
    forall i | 0 <= i < |chains[key]| ensures 0 < chains[key][i] < n {
      ChainBelow(fat, n, chains, key, chains[key][i]);
    }
  }

  lemma ReadStep(fat: seq<u32>, data: seq<Sector>, c: seq<nat>, i: nat)
    requires LinkWalk(fat, c) && i < |c| && Covered(data, c) && |data| <= 0x80_0000
    ensures c[i] < |data| && c[i] < |fat|
    ensures if i < |c| - 1 then fat[c[i]] == c[i + 1] && c[i + 1] < ENDSEC else fat[c[i]] == ENDSEC
    ensures Covered(data, c[..i]) && Covered(data, c[..i + 1])
    ensures Content(data, c[..i + 1]) == Content(data, c[..i]) + data[c[i]]
  {
    ReadLink(fat, c, i);
    hide LinkWalk;
    ReadSector(data, c, i);
  }

  lemma ReadLink(fat: seq<u32>, c: seq<nat>, i: nat)
    requires LinkWalk(fat, c) && i < |c|
    ensures c[i] < |fat|
    ensures if i < |c| - 1 then fat[c[i]] == c[i + 1] else fat[c[i]] == ENDSEC
  {
  }

  lemma ReadSector(data: seq<Sector>, c: seq<nat>, i: nat)
    requires i < |c| && Covered(data, c)
    ensures c[i] < |data| && Covered(data, c[..i]) && Covered(data, c[..i + 1])
    ensures Content(data, c[..i + 1]) == Content(data, c[..i]) + data[c[i]]
  {
    hide *;
    CoveredParts(data, c, i);
    ContentAppend(data, c[..i], c[i]);
    TakeOneMore(c, i);
  }

  lemma TakeOneMore(c: seq<nat>, i: nat)
    requires i < |c|
    ensures c[..i + 1] == c[..i] + [c[i]]
  {
  }

  lemma CoveredParts(data: seq<Sector>, c: seq<nat>, i: nat)
    requires i < |c| && Covered(data, c)
    ensures c[i] < |data| && Covered(data, c[..i]) && Covered(data, c[..i + 1])
  {
  }

  lemma ContentAppend(data: seq<Sector>, c: seq<nat>, x: nat)
    requires Covered(data, c) && x < |data|
    ensures Covered(data, c + [x]) && Content(data, c + [x]) == Content(data, c) + data[x]
  {
    assert (c + [x])[..|c|] == c;
  }

  lemma CopyStep(buf: seq<byte>, i: nat, sector: Sector)
    requires |buf| >= 512 * i + 512
    ensures Splice(buf, 512 * i, sector)[..512 * (i + 1)] == buf[..512 * i] + sector
  {
  }

  /** The sectors of c hold the first size bytes of src. */
  ghost predicate Holds(data: seq<Sector>, c: seq<nat>, src: seq<byte>, size: nat) {
    && Covered(data, c)
    && size <= |src| && size <= 512 * |c|
    && Content(data, c)[..size] == src[..size]
  }

  /** What the writing loop keeps: starting from base and d0, the sectors of c are linked, the
      first w of them hold their share of src, and nothing else has changed. */
  ghost predicate Writing(base: seq<u32>, d0: seq<Sector>, fat: seq<u32>, data: seq<Sector>, c: seq<nat>,
                          w: nat, src: seq<byte>, size: nat, tail: u32) {
    && Linking(base, fat, c, tail)
    && |data| <= |fat|
    && (forall k :: 0 <= k < |c| ==> c[k] < |data|)
    && Untouched(d0, data, c)
    && w <= |c| && size <= |src|
    && Stored(data, c, w, src, size)
  }

  lemma WritingStart(fat: seq<u32>, data: seq<Sector>, start: nat, src: seq<byte>, size: nat)
    requires 0 < start < |data| <= |fat| && fat[start] == FREESEC && size <= |src|
    ensures Writing(fat, data, fat, data, [start], 0, src, size, FREESEC)
  {
    LinkingStart(fat, start);
  }

  lemma WritingSector(base: seq<u32>, d0: seq<Sector>, fat: seq<u32>, data: seq<Sector>, c: seq<nat>,
                      i: nat, src: seq<byte>, size: nat, len: nat)
    requires Writing(base, d0, fat, data, c, i, src, size, FREESEC) && |c| == i + 1
    requires Share(size, i) <= len <= 512 && 512 * i + len <= |src|
    requires 512 * i <= size ==> len == Share(size, i)
    ensures c[i] < |data| <= |fat|
    ensures var sector := Overwrite(data[c[i]], src[512 * i..512 * i + len]);
            Writing(base, d0, fat[c[i] := ENDSEC], data[c[i] := sector], c, i + 1, src, size, ENDSEC)
  {
    LinkingMark(base, fat, c);
    StoreStep(data, c, src, size, i, len);
    assert c[i] in c;
  }

  lemma WritingNext(base: seq<u32>, d0: seq<Sector>, fat: seq<u32>, data: seq<Sector>, c: seq<nat>,
                    i: nat, src: seq<byte>, size: nat, fat': seq<u32>, data': seq<Sector>, next: u32)
    requires Writing(base, d0, fat, data, c, i, src, size, ENDSEC) && |c| == i
    requires Grown(fat, fat') && Enlarged(data, data')
    requires c[i - 1] <= next < |data'| <= |fat'| && fat'[next] == FREESEC
    ensures Writing(base, d0, fat'[c[i - 1] := next], data', c + [next], i, src, size, FREESEC)
  {
    LinkingGrow(base, fat, c, fat', ENDSEC);
    LinkingNext(base, fat', c, next);
    EnlargedAt(data, data');
    StoredExtend(data, data', c, i, src, size, next);
    assert forall s :: s in c ==> s in c + [next];
  }

  lemma EnlargedAt(before: seq<Sector>, after: seq<Sector>)
    requires Enlarged(before, after)
    ensures forall i :: 0 <= i < |before| ==> after[i] == before[i]
  {
    assert forall i :: 0 <= i < |before| ==> after[..|before|][i] == before[i];
  }

  lemma WritingPartition(base: seq<u32>, d0: seq<Sector>, fat: seq<u32>, data: seq<Sector>, c: seq<nat>,
                         src: seq<byte>, size: nat, n0: nat, n: nat, chains: map<Path, seq<nat>>, key: Path)
    requires Writing(base, d0, fat, data, c, |c|, src, size, ENDSEC)
    requires n0 <= n == |data| && Partitioned(base, n0, chains) && key !in chains
    ensures Partitioned(fat, n, chains[key := c]) && |c| > 0
  {
    LinkingDone(base, fat, c, n0, n, chains, key);
  }

  lemma WroteIntro(fat: seq<u32>, n: nat, data: seq<Sector>, data': seq<Sector>,
                   chains: map<Path, seq<nat>>, c: seq<nat>, key: Path)
    requires Partitioned(fat, n, chains[key := c]) && |c| > 0 && Untouched(data, data', c) && Covered(data', c)
    ensures Wrote(fat, n, data, data', chains, chains[key := c], key)
  {
    hide Partitioned, Untouched, Covered;
    assert Elsewhere(chains, chains[key := c], key);
  }

  lemma WritingFacts(base: seq<u32>, d0: seq<Sector>, fat: seq<u32>, data: seq<Sector>, c: seq<nat>,
                     w: nat, src: seq<byte>, size: nat, tail: u32)
    requires Writing(base, d0, fat, data, c, w, src, size, tail)
    ensures Untouched(d0, data, c) && Covered(data, c)
  {
  }

  lemma WritingDone(base: seq<u32>, d0: seq<Sector>, fat: seq<u32>, data: seq<Sector>, c: seq<nat>,
                    src: seq<byte>, size: nat, n0: nat, n: nat, chains: map<Path, seq<nat>>, key: Path)
    requires Writing(base, d0, fat, data, c, |c|, src, size, ENDSEC)
    requires n0 <= n == |data| && Partitioned(base, n0, chains) && key !in chains
    ensures Wrote(fat, n, d0, data, chains, chains[key := c], key)
  {
    hide *;
    WritingPartition(base, d0, fat, data, c, src, size, n0, n, chains, key);
    WritingFacts(base, d0, fat, data, c, |c|, src, size, ENDSEC);
    WroteIntro(fat, n, d0, data, chains, c, key);
  }

  lemma WritingHolds(base: seq<u32>, d0: seq<Sector>, fat: seq<u32>, data: seq<Sector>, c: seq<nat>,
                     src: seq<byte>, size: nat)
    requires Writing(base, d0, fat, data, c, |c|, src, size, ENDSEC) && size <= 512 * |c|
    ensures Holds(data, c, src, size)
  {
    StoredContent(data, c, src, size);
  }

  lemma ResetStep(fat: seq<u32>, walk: seq<nat>, k: nat)
    requires LinkWalk(fat, walk) && k < |walk|
    ensures walk[k] !in walk[..k] && walk[..k + 1] == walk[..k] + [walk[k]]
    ensures k < |walk| - 1 ==> fat[walk[k]] == walk[k + 1]
    ensures k == |walk| - 1 ==> fat[walk[k]] == ENDSEC
  {
  }

  lemma GrownPartition(fat: seq<u32>, n: nat, fat': seq<u32>, n': nat, chains: map<Path, seq<nat>>)
    requires Partitioned(fat, n, chains) && Grown(fat, fat') && n <= n' <= |fat'|
    ensures Partitioned(fat', n', chains)
    ensures fat'[0] != FREESEC
  {
    forall s | 0 <= s < |fat| ensures fat'[s] == fat[s] {
      assert fat'[..|fat|][s] == fat[s];
    }
    forall k | k in chains ensures Chain(fat', chains[k]) {
      ChainGrown(fat, fat', chains[k]);
    }
  }

  lemma ChainGrown(fat: seq<u32>, fat': seq<u32>, c: seq<nat>)
    requires Chain(fat, c) && |fat| <= |fat'| && forall s :: 0 <= s < |fat| ==> fat'[s] == fat[s]
    ensures Chain(fat', c)
  {
  }

  /** Writing after the image has been enlarged is writing to the image as it was before. */
  lemma WroteEnlarged(fat: seq<u32>, n: nat, d0: seq<Sector>, data: seq<Sector>, data': seq<Sector>,
                      chains: map<Path, seq<nat>>, chains': map<Path, seq<nat>>, key: Path)
    requires Enlarged(d0, data) && Wrote(fat, n, data, data', chains, chains', key)
    ensures Wrote(fat, n, d0, data', chains, chains', key)
  {
    hide Partitioned;
    EnlargedAt(d0, data);
  }

  /** A larger image has no fewer data sectors, and one twice as large has more. */
  lemma LargerImage(t: nat, fatSecNum: nat, fatNum: nat, t': nat)
    requires Geometry(t, fatSecNum, fatNum, 512 * t) && t < t' && 512 * t' < 0x1_0000_0000
    ensures var f := (t' * 4 + 512 - 1) / 512;
            var n := (512 * t' - t' * 4 - 512) / 512;
            && Geometry(t', f, n, 512 * t')
            && fatSecNum <= f && fatNum <= n
            && (2 * t <= t' ==> fatNum < n)
  {
  }

  /** dt_size * 2 in 32-bit arithmetic. */
  function Doubled(size: nat): nat {
    size * 2 % 0x1_0000_0000
  }

  lemma DoubleSize(size: nat)
    requires size % 512 == 0 && size < 0x1_0000_0000
    ensures Doubled(size) % 512 == 0
    ensures if 2 * size < 0x1_0000_0000 then Doubled(size) == 2 * size else Doubled(size) <= size
  {
    var k := size / 512;
    DoubledIs(size);
    hide Doubled;
    WholeSectors(if k < 0x40_0000 then 2 * k else 2 * k - 0x80_0000);
  }

  lemma DoubledIs(size: nat)
    requires size < 0x1_0000_0000
    ensures Doubled(size) == if 2 * size < 0x1_0000_0000 then 2 * size else 2 * size - 0x1_0000_0000
  {
  }

  lemma WholeSectors(n: nat)
    ensures (512 * n) % 512 == 0
  {
  }

  /** After an enlargement that was needed, the first new sector is the least free one. */
  lemma FirstNew(f: seq<u32>, n: nat, f': seq<u32>, n': nat, base: nat)
    requires Grown(f, f') && base <= n < n' <= |f'| && n <= |f| && !AnyFree(f, base, n)
    requires forall s :: n <= s < |f| ==> f[s] == FREESEC
    ensures f'[n] == FREESEC && forall s :: base <= s < n ==> f'[s] != FREESEC
  {
    forall s | 0 <= s < |f| ensures f'[s] == f[s] {
      assert f'[..|f|][s] == f[s];
    }
  }

  lemma NoGrowth(f: seq<u32>, d: seq<Sector>)
    ensures Grown(f, f) && Enlarged(d, d)
  {
  }
}
