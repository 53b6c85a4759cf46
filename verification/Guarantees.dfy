/** What holds of every disk that a run can reach: where its sectors are, what its links are, and
    what one operation leaves alone. */
module Guarantees {
  import opened Bytes
  import opened Cfs
  import opened Changes
  import opened Codec
  import opened Delete
  import opened Disk
  import opened Execution
  import opened Fat
  import opened FileIO
  import opened Format
  import opened Image
  import opened Lookup
  import opened Ops
  import opened Paths
  import opened Reset
  import opened Room
  import opened Runs
  import opened Sectors
  import opened Tree

  // ----- sectors -----

  /** Nothing leaks and nothing is shared: the sectors in use are sector 0 and those of the files
      of the tree, each sector in one file only, and a file's chain runs from its head through as
      many sectors as its meta data says. */
  lemma SectorsAccounted(dt: Disk, s: nat)
    requires Ready(dt) && s < |dt.fat|
    ensures dt.fat[s] != FREESEC <==> s == 0 || exists p :: p in dt.tree && p in dt.chains && s in dt.chains[p]
    ensures forall p, q :: p in dt.chains && q in dt.chains && s in dt.chains[p] && s in dt.chains[q] ==> p == q
  {
    hide Represents, Geometry;
    RepresentsFacts(dt.data, dt.chains, dt.tree);
    if s != 0 && dt.fat[s] != FREESEC {
      assert Owned(dt.chains, s);
    }
    if p :| p in dt.tree && p in dt.chains && s in dt.chains[p] {
      NotFree(dt.fat, dt.chains[p], s);
    }
  }

  lemma ChainIsFile(dt: Disk, p: Path)
    requires Ready(dt) && p in dt.tree
    ensures p in dt.chains && LinkWalk(dt.fat, dt.chains[p]) && dt.chains[p][0] == HeadAt(dt.chains, p) < |dt.data|
    ensures DecodeMeta(dt.data[HeadAt(dt.chains, p)]).blocks == |dt.chains[p]|
  {
    HeadOf(dt, p);
    hide Represents, Geometry, ObjBytes, DecodeMeta;
    assert Chain(dt.fat, dt.chains[p]);
    HeadBlocks(dt, p);
  }

  lemma HeadBlocks(dt: Disk, p: Path)
    requires Head(dt.data, dt.chains, dt.tree, p)
    ensures DecodeMeta(dt.data[HeadAt(dt.chains, p)]).blocks == |dt.chains[p]|
  {
  }

  /** Links only go upward and stay below fatNum, so every walk ends. */
  lemma LinksGoUp(dt: Disk, s: nat)
    requires Ready(dt) && s < |dt.fat|
    ensures dt.fat[s] == FREESEC || dt.fat[s] == ENDSEC || s < dt.fat[s] < dt.fatNum
  {
    hide Represents, Geometry;
    if s > 0 && dt.fat[s] != FREESEC {
      assert Owned(dt.chains, s);
      var p :| p in dt.chains && s in dt.chains[p];
      var c := dt.chains[p];
      assert Chain(dt.fat, c);
      var i :| 0 <= i < |c| && c[i] == s;
      if i < |c| - 1 {
        assert dt.fat[c[i]] == c[i + 1] && c[i] < c[i + 1];
        ChainBelow(dt.fat, dt.fatNum, dt.chains, p, c[i + 1]);
      }
    }
  }

  // ----- files -----

  /** Writing one file leaves the contents of every other as they were, even where the image has been
      moved and freed sectors are used again. */
  lemma OthersReadSame(fat: seq<u32>, n: nat, data: seq<Sector>, data': seq<Sector>, chains: Chains, chains': Chains,
                       key: Path, other: Path)
    requires Wrote(fat, n, data, data', chains, chains', key)
    requires other != key && other in chains && Covered(data, chains[other])
    ensures other in chains' && chains'[other] == chains[other] && Covered(data', chains[other])
    ensures Content(data', chains[other]) == Content(data, chains[other])
  {
    OutsideKept(fat, n, data, data', chains', other, key);
    hide Partitioned;
    ContentSame(data, data', chains[other]);
  }

  /** What do_writefile has written do_readfile reads, also when the number of bytes that are left
      wraps below zero because the meta data speak of more sectors than these need. */
  method WriteThenRead(dt: Disk, fb: nat, src: seq<byte>, size: nat, key: Path) returns (ok: bool, buf: array<byte>)
    requires dt.Valid() && key in dt.chains && fb == dt.chains[key][0]
    requires |src| >= 64 && Covers(src, size, DecodeMeta(src).blocks)
    modifies dt
    ensures ok ==> size <= buf.Length && buf[..size] == src[..size]
    ensures var need := NeedFor(old(dt.fat), old(dt.fatNum), old(dt.chains)[key], DecodeMeta(src).blocks);
            ok <==> Fits(old(dt.dtSize), need)
  {
    hide *;
    ok := dt.DoWriteFile(fb, src, size, key);
    buf := new byte[512 * DecodeMeta(src).blocks];
    if ok {
      dt.DoReadFile(fb, buf, key);
      HeldPrefix(dt.data, dt.chains[key], src, size);
      assert buf[..][..size] == buf[..512 * |dt.chains[key]|][..size];
    }
  }

  lemma HeldPrefix(data: seq<Sector>, c: seq<nat>, src: seq<byte>, size: nat)
    requires Holds(data, c, src, size)
    ensures Covered(data, c) && size <= |src| && size <= 512 * |c| && Content(data, c)[..size] == src[..size]
  {
  }

  // ----- removing the directory a path ends in -----

  const SLASH_DOT: seq<byte> := [47, 46]

  /** "/." names the root of a fresh disk, to be removed from itself, and rmdir sees no error. */
  lemma SelfRemoval()
    ensures WellFormed(FRESH) && RemovesItself(FRESH, SLASH_DOT, 0) && PathOk(SLASH_DOT)
    ensures Rmdir(FRESH, SLASH_DOT, 0) == Effect(0, FRESH, [])
    ensures !RemovesOne(FRESH, Rmdir(FRESH, SLASH_DOT, 0).tree, Rmdir(FRESH, SLASH_DOT, 0).at)
  {
    FreshWellFormed();
    assert LastSlash(SLASH_DOT, 2) == 0;
    assert SLASH_DOT[..0] == [] && SLASH_DOT[1..] == DOT;
  }

  /** rmdir of "/." on a fresh disk answers 0 and leaves a table without its sector 0. */
  method RemoveRoot(now: u64) returns (ret: int, dt: Disk)
    ensures ret == 0 && RootLost(dt.fat)
  {
    hide *;
    dt := OpenDisk(now);
    SelfRemoval();
    var path := ToCString(SLASH_DOT);
    ret := CRmdir(dt, path, 0, now, SLASH_DOT);
  }

  // ----- lookups -----

  /** A change that keeps everything outside the path q and the directory above it, and there at
      least the kind. */
  lemma KindKept(t: Tree, t': Tree, q: Path, p: Path)
    requires AddsOne(t, t', q) || RemovesOne(t, t', q)
    requires p != q
    ensures p in t <==> p in t'
    ensures KindAt(t', p) == KindAt(t, p)
  {
  }

  /** After an operation that adds or removes the path e.at, looking up any other path by its
      names, proper ones, gives the answer it gave before, wherever the image has been moved to
      and whichever directories were rewritten. */
  lemma OtherLookupsKept(dt: Disk, t0: Tree, c0: Chains, e: Effect, p: Path)
    requires WellFormed(t0) && WellFormed(e.tree) && Performed(dt, t0, c0, e)
    requires AddsOne(t0, e.tree, e.at) || RemovesOne(t0, e.tree, e.at)
    requires p != e.at && forall i :: 0 <= i < |p| ==> ValidName(p[i])
    ensures Resolve(dt.tree, p) == Resolve(t0, p) == if p in t0 then Some(p) else None
    ensures p in t0 ==> HeadAt(dt.chains, p) == HeadAt(c0, p) && KindAt(dt.tree, p) == KindAt(t0, p)
  {
    hide Ready;
    KindKept(t0, e.tree, e.at, p);
    ResolveExact(t0, p);
    ResolveExact(e.tree, p);
  }

  /** For any components, "." and ".." among them: a removal ends exactly the lookups that meet the
      path removed, an addition begins exactly those that meet the path added, and every other
      lookup leads to the same head and kind as before. */
  lemma LookupsExact(dt: Disk, t0: Tree, c0: Chains, e: Effect, comps: seq<Name>)
    requires WellFormed(t0) && WellFormed(e.tree) && Performed(dt, t0, c0, e)
    requires AddsOne(t0, e.tree, e.at) || RemovesOne(t0, e.tree, e.at)
    requires AddsOne(t0, e.tree, e.at) && e.tree[e.at].Dir? ==> e.tree[e.at].names == []
    requires RemovesOne(t0, e.tree, e.at) && t0[e.at].Dir? ==> t0[e.at].names == []
    ensures [] in t0 && t0[[]].Dir? && [] in e.tree && e.tree[[]].Dir? && dt.tree == e.tree
    ensures RemovesOne(t0, e.tree, e.at) ==>
              Resolve(dt.tree, comps) == if e.at in Visited(t0, [], comps) then None else Resolve(t0, comps)
    ensures AddsOne(t0, e.tree, e.at) ==>
              Resolve(t0, comps) == if e.at in Visited(e.tree, [], comps) then None else Resolve(dt.tree, comps)
    ensures Resolve(t0, comps).Some? && Resolve(dt.tree, comps).Some? ==>
              var p := Resolve(t0, comps).value;
              && Resolve(dt.tree, comps) == Some(p)
              && HeadAt(dt.chains, p) == HeadAt(c0, p) && KindAt(dt.tree, p) == KindAt(t0, p)
  {
    RootDir(t0);
    RootDir(e.tree);
    if AddsOne(t0, e.tree, e.at) {
      ResolveAfterGain(t0, e.tree, e.at, comps);
    } else {
      ResolveAfterLoss(t0, e.tree, e.at, comps);
    }
    SameAnswers(dt, t0, c0, e);
    hide Performed, AddsOne, RemovesOne, WellFormed, Resolve, Visited;
  }

  lemma SameAnswers(dt: Disk, t0: Tree, c0: Chains, e: Effect)
    requires Performed(dt, t0, c0, e) && (AddsOne(t0, e.tree, e.at) || RemovesOne(t0, e.tree, e.at))
    ensures dt.tree == e.tree && (AddsOne(t0, e.tree, e.at) ==> !RemovesOne(t0, e.tree, e.at))
    ensures forall p :: p in t0 && p in e.tree ==>
              HeadAt(dt.chains, p) == HeadAt(c0, p) && KindAt(e.tree, p) == KindAt(t0, p)
  {
    hide Ready;
    forall p | p in t0 && p in e.tree ensures KindAt(e.tree, p) == KindAt(t0, p) {
      KindKept(t0, e.tree, e.at, p);
    }
  }

  /** The path added is found by its names, and the path removed is not. */
  lemma ChangedLookup(t: Tree, t': Tree, q: Path)
    requires WellFormed(t) && WellFormed(t') && forall i :: 0 <= i < |q| ==> ValidName(q[i])
    ensures AddsOne(t, t', q) ==> Resolve(t, q).None? && Resolve(t', q) == Some(q)
    ensures RemovesOne(t, t', q) ==> Resolve(t, q) == Some(q) && Resolve(t', q).None?
  {
    ResolveExact(t, q);
    ResolveExact(t', q);
  }

  // ----- tables -----

  /** A file that stands before and after an operation keeps its blocks: a write only appends. */
  lemma TablesGrow(s: FS, op: Op, p: Path)
    requires Sound(s) && Allowed(s, op) && p in s.tree && s.tree[p].File?
    requires p in Apply(s, op).tree && Apply(s, op).tree[p].File?
    ensures |s.tree[p].table| <= |Apply(s, op).tree[p].table|
    ensures Apply(s, op).tree[p].table[..|s.tree[p].table|] == s.tree[p].table
  {
    if op.WriteOp? {
      var file := s.open[op.fd].value;
      if op.offset <= s.tree[file].flen {
        WritableFits(s.tree, file, s.num, op.offset, op.length, op.ips);
        WriteAppends(s, file, op.offset, op.length, op.ips);
        hide WrittenFile;
      }
    } else {
      OthersNoNewBlocks(s, op);
    }
  }

  lemma StaysOpen(s: FS, op: Op, i: nat, p: Path)
    requires WellFormed(s.tree) && Allowed(s, op)
    requires i < |s.open| && i < |Apply(s, op).open| && Apply(s, op).open[i] == Some(p)
    ensures s.open[i] == Some(p)
  {
  }

  /** Over any run, the file behind a descriptor that is still alive keeps all the blocks it had. */
  lemma {:induction false} OpenTablesGrow(s: FS, ops: seq<Op>, i: nat, p: Path)
    requires Sound(s) && AllowedRun(s, ops) && i < |s.open|
    requires i < |ApplyAll(s, ops).open| && ApplyAll(s, ops).open[i] == Some(p)
    ensures s.open[i] == Some(p) && p in s.tree && s.tree[p].File?
    ensures var t := ApplyAll(s, ops).tree;
            && p in t && t[p].File? && |s.tree[p].table| <= |t[p].table|
            && t[p].table[..|s.tree[p].table|] == s.tree[p].table
    decreases |ops|
  {
    hide Apply, Allowed, BlocksOk;
    if ops != [] {
      var s1 := Apply(s, ops[0]);
      ApplySound(s, ops[0]);
      OpenCount(s, ops[0]);
      OpenTablesGrow(s1, ops[1..], i, p);
      StaysOpen(s, ops[0], i, p);
      TablesGrow(s, ops[0], p);
    }
  }

  lemma OpenCount(s: FS, op: Op)
    requires WellFormed(s.tree) && Allowed(s, op)
    ensures |s.open| <= |Apply(s, op).open|
  {
  }
}
