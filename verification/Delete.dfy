/** Removing files and directories. */
module Delete {
  import opened Bytes
  import opened Cfs
  import opened Changes
  import opened Codec
  import opened Create
  import opened Directory
  import opened Disk
  import opened Fat
  import opened Growth
  import opened Image
  import opened Lookup
  import opened Ops
  import opened Paths
  import opened Reset
  import opened Room
  import opened Sectors
  import opened Tree

  /** The bytes left in the parent's buffer stand for it in the tree without the entry. */
  lemma RemovedObj(pdata: seq<byte>, t: Tree, chains: Chains, d: Path, k: nat, q: Path, blocks: nat, x: seq<byte>,
                   now: u64)
    requires |x| == 16 && WellFormed(t) && d in t && t[d].Dir? && k < |t[d].names| && q == d + [t[d].names[k]]
    requires 512 <= |pdata| <= 0x1_0000_0000 && ObjBytes(pdata, t, chains, d, t[d], blocks)
    ensures Framed(pdata, 2 + |t[d].names|)
    ensures var b := Removed(pdata, 2 + |t[d].names|, k + 2, x, now);
            && |b| == |pdata| && 64 <= DecodeMeta(b).flen <= |b| && DecodeMeta(b).blocks == blocks
            && ObjBytes(b, RemoveChild(t, d, k), chains - {q}, d, RemoveChild(t, d, k)[d], blocks)
  {
    hide Raw, Pool, Listed, DecodeMeta, EncodeMeta, Removed;
    var ents := EntsAt(t, chains, d, t[d].names);
    RemovedLists(pdata, ents, k + 2, x, now);
    RemoveEnts(t, chains, d, k);
    ChildPath(d, t[d].names[k]);
  }

  lemma CoversAll(b: seq<byte>, size: nat, count: nat)
    requires 64 <= size <= |b| && |b| == 512 * count && 1 <= count <= 0x80_0000
    ensures Covers(b, size, count)
  {
  }

  lemma RemoveDone(fat: seq<u32>, n: nat, data: seq<Sector>, data': seq<Sector>, chains: Chains, chains': Chains,
                   t: Tree, d: Path, k: nat, q: Path, buf: seq<byte>)
    requires Represents(data, chains, t) && d in t && t[d].Dir? && k < |t[d].names| && q == d + [t[d].names[k]]
    requires q in t && (t[q].Dir? ==> t[q].names == [])
    requires Wrote(fat, n, data, data', chains - {q}, chains', d) && HeadAt(chains', d) == HeadAt(chains, d)
    requires |buf| >= 64 && 64 <= DecodeMeta(buf).flen && 1 <= |chains'[d]| <= 0x80_0000
    requires Holds(data', chains'[d], buf, DecodeMeta(buf).flen)
    requires ObjBytes(buf, RemoveChild(t, d, k), chains - {q}, d, RemoveChild(t, d, k)[d], |chains'[d]|)
    ensures Represents(data', chains', RemoveChild(t, d, k))
    ensures SameHeads(chains, chains', t.Keys * RemoveChild(t, d, k).Keys)
  {
    hide *;
    var t' := RemoveChild(t, d, k);
    RemoveKeeps(t, d, k, q);
    WroteFacts(fat, n, data, data', chains - {q}, chains', d);
    DirSize(buf, t'[d]);
    HeldBytes(data', chains'[d], buf, t', chains - {q}, d, t'[d]);
    RemoveRepresents(fat, n, data, data', chains, chains', t, d, k, q);
    HeadsAfterDrop(chains, chains', q, d, t.Keys * t'.Keys);
  }

  lemma DirSize(buf: seq<byte>, obj: Obj)
    requires |buf| >= 64 && obj.Dir?
    ensures BodySize(buf, obj) == DecodeMeta(buf).flen
  {
  }

  lemma RemoveKeeps(t: Tree, d: Path, k: nat, q: Path)
    requires d in t && t[d].Dir? && k < |t[d].names| && q == d + [t[d].names[k]]
    ensures var t' := RemoveChild(t, d, k); d in t' && t'[d].Dir? && q !in t' && q != d
  {
    ChildPath(d, t[d].names[k]);
  }

  lemma HeadsAfterDrop(chains: Chains, chains': Chains, q: Path, d: Path, s: set<Path>)
    requires Elsewhere(chains - {q}, chains', d) && HeadAt(chains', d) == HeadAt(chains, d) && q !in s
    ensures SameHeads(chains, chains', s)
  {
  }

  lemma HeadAfterFree(dt: Disk, chains: Chains, q: Path, d: Path)
    requires dt.Valid() && dt.chains == chains - {q} && d in chains && d != q
    ensures d in dt.chains && HeadAt(dt.chains, d) == HeadAt(chains, d) && dt.chains[d] == chains[d]
  {
  }

  lemma EntryHere(dt: Disk, d: Path, k: nat)
    requires Ready(dt) && d in dt.tree && dt.tree[d].Dir? && k < |dt.tree[d].names|
    ensures var q := d + [dt.tree[d].names[k]]; q != d && q in dt.tree && q in dt.chains && d in dt.chains
    ensures dt.Valid() && WellFormed(dt.tree) && Represents(dt.data, dt.chains, dt.tree)
  {
    ChildInTree(dt.tree, d, dt.tree[d].names[k]);
  }

  /** The bytes of a directory with the count in its meta data one lower. */
  function Uncounted(b: seq<byte>): seq<byte>
    requires |b| >= 64
  {
    var m := DecodeMeta(b);
    EncodeMeta(m.(count := (m.count - 1) % 0x1_0000_0000)) + b[64..]
  }

  /** Adding an entry and then counting one down leaves the count of a directory right only if the entry
      was a directory's: the entries of files are never counted up. */
  lemma CountDrifts(b: seq<byte>, name: Name, e: Entry)
    requires 64 <= |b| < 0x2_0000_0000 && |name| < 0x8000_0000
    requires var m := DecodeMeta(b); 64 + m.strbase + m.strlen == m.flen <= |b|
    ensures DecodeMeta(Uncounted(Inserted(b, name, e))).count == DecodeMeta(b).count <==> e.kind == S_DIR
    ensures e.kind != S_DIR ==>
              DecodeMeta(Uncounted(Inserted(b, name, e))).count == (DecodeMeta(b).count - 1) % 0x1_0000_0000
  {
    hide DecodeMeta, EncodeMeta;
    var m, r := DecodeMeta(b), Inserted(b, name, e);
    var g := GrownMeta(m, name, e.kind);
    var rest := b[64..64 + m.strbase] + EncodeEntry(e) + (b[64 + m.strbase..m.flen] + (name + [0]));
    assert r == EncodeMeta(g) + rest;
    MetaRoundTrip(g, rest);
    MetaRoundTrip(g.(count := (g.count - 1) % 0x1_0000_0000), r[64..]);
  }

  lemma UncountedObj(b: seq<byte>, t: Tree, chains: Chains, d: Path, obj: Obj, blocks: nat)
    requires obj.Dir? && ObjBytes(b, t, chains, d, obj, blocks)
    ensures |b| >= 64 && |Uncounted(b)| == |b| && ObjBytes(Uncounted(b), t, chains, d, obj, blocks)
    ensures Splice(b, 0, EncodeMeta(DecodeMeta(b).(count := (DecodeMeta(b).count - 1) % 0x1_0000_0000))) == Uncounted(b)
  {
    var m := DecodeMeta(b).(count := (DecodeMeta(b).count - 1) % 0x1_0000_0000);
    SameSizesDir(b, EntsAt(t, chains, d, obj.names), m);
    MetaRoundTrip(m, b[64..]);
    hide DecodeMeta, EncodeMeta, DirBytes;
    SpliceHead(b, EncodeMeta(m));
  }

  /** real_pmeta->count--. */
  method CountDown(pdata: array<byte>, ghost t: Tree, ghost chains: Chains, ghost d: Path, ghost obj: Obj,
                   ghost blocks: nat)
    requires obj.Dir? && ObjBytes(pdata[..], t, chains, d, obj, blocks)
    modifies pdata
    ensures pdata.Length >= 64 && pdata[..] == Uncounted(old(pdata[..]))
    ensures ObjBytes(pdata[..], t, chains, d, obj, blocks)
  {
    hide *;
    UncountedObj(pdata[..], t, chains, d, obj, blocks);
    var m := DecodeMeta(pdata[..]);
    Memcpy(pdata, 0, EncodeMeta(m.(count := (m.count - 1) % 0x1_0000_0000)));
  }

  /** The bytes of a directory that has lost its k-th entry. */
  ghost predicate Without(b: seq<byte>, t: Tree, chains: Chains, d: Path, k: nat) {
    && d in t && t[d].Dir? && k < |t[d].names|
    && var t' := RemoveChild(t, d, k);
       d in t' && ObjBytes(b, t', chains, d, t'[d], |b| / 512)
  }

  lemma WithoutIs(b: seq<byte>, t: Tree, chains: Chains, d: Path, k: nat)
    requires d in t && t[d].Dir? && k < |t[d].names|
    ensures var t' := RemoveChild(t, d, k);
            Without(b, t, chains, d, k) <==> d in t' && ObjBytes(b, t', chains, d, t'[d], |b| / 512)
  {
    hide RemoveChild, ObjBytes;
  }

  /** Frees the chain of the removed file and takes its entry out of the parent's buffer in place. */
  method CutEntry(dt: Disk, pdata: array<byte>, k: nat, efb: u32, now: u64, ghost d: Path, ghost q: Path)
    requires Ready(dt) && d in dt.tree && dt.tree[d].Dir? && k < |dt.tree[d].names|
    requires q == d + [dt.tree[d].names[k]] && q in dt.tree && efb == HeadAt(dt.chains, q)
    requires d in dt.chains && Covered(dt.data, dt.chains[d]) && pdata[..] == Content(dt.data, dt.chains[d])
    modifies dt`fat, dt`chains, pdata
    ensures dt.Valid() && dt.chains == old(dt.chains) - {q} && d in dt.chains && dt.chains[d] == old(dt.chains)[d]
    ensures HeadAt(dt.chains, d) == HeadAt(old(dt.chains), d) && Top(dt.fat) <= Top(old(dt.fat))
    ensures pdata.Length >= 64 && 64 <= DecodeMeta(pdata[..]).flen
    ensures DecodeMeta(pdata[..]).blocks == |pdata[..]| / 512 == |dt.chains[d]|
    ensures Covers(pdata[..], DecodeMeta(pdata[..]).flen, DecodeMeta(pdata[..]).blocks)
    ensures Without(pdata[..], old(dt.tree), dt.chains, d, k)
  {
    hide *;
    ghost var t, chains := dt.tree, dt.chains;
    EntryHere(dt, d, k);
    ReadObj(dt, d);
    ContentSize(dt.data, dt.chains[d]);
    HeadOnDisk(dt, d);
    HeadOnDisk(dt, q);
    CountDown(pdata, t, chains, d, t[d], |pdata[..]| / 512);
    var beyond := MemoryBeyond();
    DirFrame(pdata[..], t, chains, d, |pdata[..]| / 512);
    RemovedObj(pdata[..], t, chains, d, k, q, |pdata[..]| / 512, Behind(pdata[..], beyond), now);
    RemoveKeeps(t, d, k, q);
    dt.FreeChain(efb, q);
    HeadAfterFree(dt, chains, q, d);
    DoRemoveEntry(pdata, k + 2, beyond, now, 2 + |t[d].names|);
    CoversAll(pdata[..], DecodeMeta(pdata[..]).flen, DecodeMeta(pdata[..]).blocks);
    WithoutIs(pdata[..], t, dt.chains, d, k);
  }

  /** The tail of c_remove and c_rmdir: frees the chain of the removed file, takes its entry out of
      the parent's buffer and writes the parent back.  The block count of the parent stays, so its
      chain keeps its length, and the image is never too small. */
  method DropEntry(dt: Disk, fb: u32, pdata: array<byte>, k: nat, efb: u32, now: u64, ghost d: Path, ghost q: Path)
    requires Ready(dt) && d in dt.tree && dt.tree[d].Dir? && k < |dt.tree[d].names|
    requires q == d + [dt.tree[d].names[k]] && q in dt.tree && (dt.tree[q].Dir? ==> dt.tree[q].names == [])
    requires fb == HeadAt(dt.chains, d) && efb == HeadAt(dt.chains, q)
    requires d in dt.chains && Covered(dt.data, dt.chains[d]) && pdata[..] == Content(dt.data, dt.chains[d])
    modifies dt, pdata
    ensures Performed(dt, old(dt.tree), old(dt.chains), Effect(0, RemoveChild(old(dt.tree), d, k), q))
    ensures FreeKept(dt.fat, old(dt.data), dt.data)
    ensures dt.maxBlockNum == old(dt.maxBlockNum) && dt.ipIndex == old(dt.ipIndex)
    ensures dt.dtSize == old(dt.dtSize) && Top(dt.fat) <= Top(old(dt.fat))
  {
    hide *;
    ghost var t, chains, data := dt.tree, dt.chains, dt.data;
    EntryHere(dt, d, k);
    CutEntry(dt, pdata, k, efb, now, d, q);
    WithoutIs(pdata[..], t, dt.chains, d, k);
    HeadOnDisk(dt, d);
    SameRoom(dt, d);
    MaxIs(Top(dt.fat), NeedFor(dt.fat, dt.fatNum, dt.chains[d], |dt.chains[d]|));
    var ok := dt.DoWriteFile(fb, pdata[..], DecodeMeta(pdata[..]).flen, d);
    HeadOnDisk(dt, d);
    RemoveDone(dt.fat, dt.fatNum, data, dt.data, chains, dt.chains, t, d, k, q, pdata[..]);
    WroteFreeKept(dt.fat, dt.fatNum, data, dt.data, chains - {q}, dt.chains, d);
    dt.SetTree(RemoveChild(t, d, k));
    PerformedRemove(dt, t, chains, RemoveChild(t, d, k), q);
  }

  lemma DirFrame(b: seq<byte>, t: Tree, chains: Chains, d: Path, blocks: nat)
    requires d in t && t[d].Dir? && ObjBytes(b, t, chains, d, t[d], blocks)
    ensures |b| >= 64 && DecodeMeta(b).flen <= |b|
  {
    hide Raw, Pool, Listed;
  }

  /** What the memory holds after a buffer. */
  method MemoryBeyond() returns (x: seq<byte>)
    ensures |x| == 16
  {
    assert |seq<byte>(16, _ => 0)| == 16;
    x :| |x| == 16;
  }

  /** The bytes of an empty directory after one of its two entries has been taken out. */
  lemma EmptiedBytes(pdata: seq<byte>, t: Tree, chains: Chains, d: Path, k: nat, blocks: nat, x: seq<byte>, now: u64)
    requires |x| == 16 && k < 2 && d in t && t[d].Dir? && t[d].names == []
    requires |pdata| == 512 * blocks && 1 <= blocks <= 0x80_0000 && ObjBytes(pdata, t, chains, d, t[d], blocks)
    ensures Framed(pdata, 2) && |Removed(pdata, 2, k, x, now)| == |pdata| && |pdata| >= 64
    ensures var m := DecodeMeta(Removed(pdata, 2, k, x, now));
            64 <= m.flen <= |pdata| && m.blocks == blocks && Covers(Removed(pdata, 2, k, x, now), m.flen, m.blocks)
  {
    hide Content, Raw, Pool, Listed;
    RemovedLists(pdata, EntsAt(t, chains, d, []), k, x, now);
  }

  /** The same tail of c_rmdir where the directory to remove is the one it would be removed from: its
      chain is freed, its entry taken out, and do_writefile frees the chain from the freed head on
      once more before it writes the directory back. */
  method DropItself(dt: Disk, fb: u32, pdata: array<byte>, k: nat, now: u64, ghost d: Path)
    requires Ready(dt) && d in dt.tree && dt.tree[d].Dir? && dt.tree[d].names == [] && k < 2
    requires fb == HeadAt(dt.chains, d)
    requires d in dt.chains && Covered(dt.data, dt.chains[d]) && pdata[..] == Content(dt.data, dt.chains[d])
    modifies dt, pdata
    ensures RootLost(dt.fat) && dt.dtSize == old(dt.dtSize)
    ensures dt.maxBlockNum == old(dt.maxBlockNum) && dt.ipIndex == old(dt.ipIndex)
  {
    hide *;
    ReadyFacts(dt);
    SameRoom(dt, d);
    NeedIs(dt.fat, dt.fatNum, dt.chains[d], |dt.chains[d]|);
    ReadObj(dt, d);
    HeadOnDisk(dt, d);
    ContentSize(dt.data, dt.chains[d]);
    CountDown(pdata, dt.tree, dt.chains, d, dt.tree[d], |dt.chains[d]|);
    var beyond := MemoryBeyond();
    DirFrame(pdata[..], dt.tree, dt.chains, d, |dt.chains[d]|);
    EmptiedBytes(pdata[..], dt.tree, dt.chains, d, k, |dt.chains[d]|, Behind(pdata[..], beyond), now);
    dt.FreeChain(fb, d);
    DoRemoveEntry(pdata, k, beyond, now, 2);
    var meta := DecodeMeta(pdata[..]);
    var ok := DoWriteFree(dt, fb, pdata[..], meta.flen, meta.blocks);
  }

  /** Sectors that are free now hold what they held before. */
  ghost predicate FreeKept(fat: seq<u32>, before: seq<Sector>, after: seq<Sector>) {
    |before| <= |after| && forall s :: 0 <= s < |before| && s < |fat| && fat[s] == FREESEC ==> after[s] == before[s]
  }

  lemma WroteFreeKept(fat: seq<u32>, n: nat, data: seq<Sector>, data': seq<Sector>, chains: Chains, chains': Chains,
                      d: Path)
    requires Wrote(fat, n, data, data', chains, chains', d)
    ensures FreeKept(fat, data, data')
  {
    forall s | 0 <= s < |data| && s < |fat| && fat[s] == FREESEC ensures s !in chains'[d] {
      if s in chains'[d] {
        ChainBelow(fat, n, chains', d, s);
      }
    }
  }

  lemma NothingKept(fat: seq<u32>, data: seq<Sector>)
    ensures FreeKept(fat, data, data)
  {
  }

  lemma PerformedRemove(dt: Disk, t: Tree, c0: Chains, t': Tree, q: Path)
    requires dt.Valid() && Represents(dt.data, dt.chains, t') && dt.tree == t'
    requires SameHeads(c0, dt.chains, t.Keys * t'.Keys)
    ensures Performed(dt, t, c0, Effect(0, t', q))
  {
  }

  // ----- c_remove -----

  lemma RemoveIs(t: Tree, chains: Chains, s: seq<byte>, uid: u32, found: bool, name: Name, e: Entry)
    requires Located(t, chains, s, found, name, e)
    ensures !found ==> Remove(t, s, uid) == Effect(1, t, [])
    ensures found ==>
              var d := Target(t, s).value.0;
              && Target(t, s).Some? && d in t && e.fb == HeadAt(chains, d) && (e.kind == S_DIR <==> t[d].Dir?)
              && Remove(t, s, uid) ==
                   if t[d].File? then Effect(1, t, [])
                   else if !MayWrite(uid, t[d].uid, t[d].flags) then Effect(4, t, [])
                   else match Step(t, d, name)
                        case None => Effect(1, t, [])
                        case Some(q) =>
                          if t[q].Dir? then Effect(2, t, [])
                          else if name in t[d].names then Effect(0, RemoveChild(t, d, IndexOf(t[d].names, name)), q)
                          else Effect(0, t, q)
  {
  }

  /** The entry found is the only one with its name, so its index is that of the name. */
  lemma FoundIndex(t: Tree, chains: Chains, d: Path, name: Name, k: nat, e: Entry)
    requires FoundAs(t, chains, d, name, true, k, e)
    ensures WellFormed(t) && d in t && t[d].Dir? && Step(t, d, name).Some?
    ensures var q := Step(t, d, name).value;
            && q in t && e.fb == HeadAt(chains, q) && (e.kind == S_DIR <==> t[q].Dir?)
            && (name !in t[d].names ==> t[q].Dir?)
            && (name !in t[d].names && t[q].names == [] ==> q == d && t[d].names == [])
            && (name in t[d].names ==>
                  k >= 2 && k - 2 < |t[d].names| && k - 2 == IndexOf(t[d].names, name) && q == d + [t[d].names[k - 2]])
  {
    StepName(t, d, name);
    if name in t[d].names {
      ChildInTree(t, d, name);
    }
  }

  method CRemove(dt: Disk, path: array<byte>, uid: u32, now: u64, ghost s: seq<byte>) returns (ret: int)
    requires Ready(dt) && CString(path[..], 0, s) && path.Length < 0x8000_0000
    modifies dt, path
    ensures WellFormed(old(dt.tree))
    ensures Performed(dt, old(dt.tree), old(dt.chains), Remove(old(dt.tree), s, uid))
    ensures FreeKept(dt.fat, old(dt.data), dt.data)
    ensures ret == Remove(old(dt.tree), s, uid).code
    ensures ret != 0 ==> dt.fat == old(dt.fat) && dt.data == old(dt.data)
    ensures dt.maxBlockNum == old(dt.maxBlockNum) && dt.ipIndex == old(dt.ipIndex)
    ensures dt.dtSize == old(dt.dtSize) && Top(dt.fat) <= Top(old(dt.fat))
  {
    hide *;
    ReadyFacts(dt);
    NothingKept(dt.fat, dt.data);
    var found, name, e := FindParent(dt, path, s);
    RemoveIs(dt.tree, dt.chains, s, uid, found, name, e);
    if !found || e.kind != S_DIR {
      PerformedNothing(dt, 1, []);
      return 1;
    }
    ghost var d := Target(dt.tree, s).value.0;
    var pdata, meta := ReadAll(dt, e.fb, d);
    if !MayWrite(uid, meta.uid, meta.flags) {
      PerformedNothing(dt, 4, []);
      return 4;
    }
    LocatedName(dt.tree, dt.chains, s, found, name, e);
    var there, k, x := FindIn(dt, pdata[..], name, d);
    if !there {
      FoundNowhere(dt.tree, dt.chains, d, name, k, x);
      PerformedNothing(dt, 1, []);
      return 1;
    }
    FoundIndex(dt.tree, dt.chains, d, name, k, x);
    if x.kind == S_DIR {
      PerformedNothing(dt, 2, []);
      return 2;
    }
    DropEntry(dt, e.fb, pdata, k - 2, x.fb, now, d, Step(dt.tree, d, name).value);
    ret := 0;
  }

  lemma FoundNowhere(t: Tree, chains: Chains, d: Path, name: Name, k: nat, e: Entry)
    requires FoundAs(t, chains, d, name, false, k, e)
    ensures WellFormed(t) && d in t && t[d].Dir? && Step(t, d, name).None?
  {
  }

  // ----- c_rmdir -----

  lemma RmdirIs(t: Tree, chains: Chains, s: seq<byte>, uid: u32, found: bool, name: Name, e: Entry)
    requires Located(t, chains, s, found, name, e)
    ensures WellFormed(t)
    ensures !found ==> Rmdir(t, s, uid) == Effect(1, t, []) && !RemovesItself(t, s, uid)
    ensures found ==>
              var d := Target(t, s).value.0;
              && Target(t, s).Some? && d in t && e.fb == HeadAt(chains, d) && (e.kind == S_DIR <==> t[d].Dir?)
              && (RemovesItself(t, s, uid) <==>
                    t[d].Dir? && MayWrite(uid, t[d].uid, t[d].flags) && t[d].names == [] && Step(t, d, name) == Some(d))
              && Rmdir(t, s, uid) ==
                   if t[d].File? then Effect(1, t, [])
                   else if !MayWrite(uid, t[d].uid, t[d].flags) then Effect(4, t, [])
                   else match Step(t, d, name)
                        case None => Effect(1, t, [])
                        case Some(q) =>
                          if t[q].File? then Effect(2, t, [])
                          else if t[q].names != [] then Effect(3, t, [])
                          else if name in t[d].names then Effect(0, RemoveChild(t, d, IndexOf(t[d].names, name)), q)
                          else Effect(0, t, q)
  {
  }

  /** is_dir_empty, by the size of the entry table. */
  lemma EmptyDir(dt: Disk, q: Path, m: Meta)
    requires Ready(dt) && q in dt.tree && dt.tree[q].Dir?
    requires q in dt.chains && Covered(dt.data, dt.chains[q]) && |Content(dt.data, dt.chains[q])| >= 64
    requires m == DecodeMeta(Content(dt.data, dt.chains[q]))
    ensures m.strbase > 32 <==> dt.tree[q].names != []
  {
    DirContent(dt, q);
    DirBytesSize(Content(dt.data, dt.chains[q]), EntsAt(dt.tree, dt.chains, q, dt.tree[q].names));
  }

  /** Removing a directory.  An empty one that is removed from itself takes the root with it. */
  method CRmdir(dt: Disk, path: array<byte>, uid: u32, now: u64, ghost s: seq<byte>) returns (ret: int)
    requires Ready(dt) && CString(path[..], 0, s) && path.Length < 0x8000_0000
    modifies dt, path
    ensures WellFormed(old(dt.tree))
    ensures if RemovesItself(old(dt.tree), s, uid) then RootLost(dt.fat)
            else Performed(dt, old(dt.tree), old(dt.chains), Rmdir(old(dt.tree), s, uid))
    ensures ret == Rmdir(old(dt.tree), s, uid).code
    ensures ret != 0 ==> dt.fat == old(dt.fat) && dt.data == old(dt.data)
    ensures dt.maxBlockNum == old(dt.maxBlockNum) && dt.ipIndex == old(dt.ipIndex)
    ensures dt.dtSize == old(dt.dtSize)
    ensures !RemovesItself(old(dt.tree), s, uid) ==> Top(dt.fat) <= Top(old(dt.fat))
  {
    hide *;
    var found, name, e := FindParent(dt, path, s);
    RmdirIs(dt.tree, dt.chains, s, uid, found, name, e);
    if !found || e.kind != S_DIR {
      PerformedNothing(dt, 1, []);
      return 1;
    }
    ghost var d := Target(dt.tree, s).value.0;
    var pdata, meta := ReadAll(dt, e.fb, d);
    if !MayWrite(uid, meta.uid, meta.flags) {
      PerformedNothing(dt, 4, []);
      return 4;
    }
    LocatedName(dt.tree, dt.chains, s, found, name, e);
    var there, k, x := FindIn(dt, pdata[..], name, d);
    if !there {
      FoundNowhere(dt.tree, dt.chains, d, name, k, x);
      PerformedNothing(dt, 1, []);
      return 1;
    }
    FoundIndex(dt.tree, dt.chains, d, name, k, x);
    if x.kind != S_DIR {
      PerformedNothing(dt, 2, []);
      return 2;
    }
    var empty := IsDirEmpty(dt, x.fb, Step(dt.tree, d, name).value);
    if !empty {
      PerformedNothing(dt, 3, []);
      return 3;
    }
    EntryOrItself(dt.tree, dt.chains, d, name, k, x);
    if k < 2 {
      DropItself(dt, e.fb, pdata, k, now, d);
    } else {
      DropEntry(dt, e.fb, pdata, k - 2, x.fb, now, d, Step(dt.tree, d, name).value);
    }
    ret := 0;
  }

  /** The entry of an empty directory is one of a child, or the directory's own. */
  lemma EntryOrItself(t: Tree, chains: Chains, d: Path, name: Name, k: nat, e: Entry)
    requires FoundAs(t, chains, d, name, true, k, e)
    ensures WellFormed(t) && d in t && t[d].Dir? && Step(t, d, name).Some?
    ensures var q := Step(t, d, name).value;
            t[q].Dir? && t[q].names == [] ==>
              if k < 2 then q == d && t[d].names == [] && name !in t[d].names
              else name in t[d].names && t[d].names != [] && q != d
  {
    FoundIndex(t, chains, d, name, k, e);
  }

  method IsDirEmpty(dt: Disk, fb: u32, ghost q: Path) returns (empty: bool)
    requires Ready(dt) && q in dt.tree && dt.tree[q].Dir? && fb == HeadAt(dt.chains, q)
    ensures empty <==> dt.tree[q].names == []
  {
    hide *;
    var meta := MetaOf(dt, fb, q);
    ReadObj(dt, q);
    EmptyDir(dt, q, meta);
    return meta.strbase <= 32;
  }
}
