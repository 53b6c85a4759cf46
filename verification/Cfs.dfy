/** The operations of the control node on paths. */
module Cfs {
  import opened Bytes
  import opened Changes
  import opened Codec
  import opened Create
  import opened Directory
  import opened Disk
  import opened Growth
  import opened Image
  import opened Lookup
  import opened Ops
  import opened Paths
  import opened Room
  import opened Sectors
  import opened Tree

  /** The image is consistent, holds the tree the effect e speaks of, and every path that is in
      the tree before and after still has the same first sector. */
  ghost predicate Performed(dt: Disk, t0: Tree, c0: Chains, e: Effect)
    reads dt
  {
    Ready(dt) && dt.tree == e.tree && SameHeads(c0, dt.chains, t0.Keys * e.tree.Keys)
  }

  lemma PerformedNothing(dt: Disk, code: int, at: Path)
    requires Ready(dt)
    ensures Performed(dt, dt.tree, dt.chains, Effect(code, dt.tree, at))
  {
  }

  // ----- the directory part of a path -----

  /** What cutting off the last component and looking up the rest must answer. */
  ghost predicate Located(t: Tree, chains: Chains, s: seq<byte>, found: bool, name: Name, e: Entry) {
    && WellFormed(t)
    && match Target(t, s)
       case None => !found
       case Some(target) =>
         && found && name == target.1 && NulFree(name) && SLASH !in name && target.0 in t
         && e.fb == HeadAt(chains, target.0) && e.kind == KindAt(t, target.0)
  }

  lemma NothingToCut(t: Tree, chains: Chains, s: seq<byte>, e: Entry)
    requires WellFormed(t) && CutLast(s).None?
    ensures Located(t, chains, s, false, [], e)
  {
  }

  lemma LocatedBy(t: Tree, chains: Chains, s: seq<byte>, name: Name, ret: int, e: Entry)
    requires WellFormed(t) && CutLast(s).Some? && name == CutLast(s).value.1 && NulFree(name)
    requires Leads(t, chains, Resolve(t, LookupComps(CutLast(s).value.0)), ret, e)
    ensures Located(t, chains, s, ret == 0, name, e)
  {
    TargetFacts(t, s);
  }

  /** get_filename_from_path followed by c_lookup, as every operation on a path begins. */
  method FindParent(dt: Disk, path: array<byte>, ghost s: seq<byte>) returns (found: bool, name: Name, e: Entry)
    requires Ready(dt) && CString(path[..], 0, s)
    modifies path
    ensures Located(dt.tree, dt.chains, s, found, name, e)
    ensures |name| < path.Length && |name| <= |s|
  {
    hide *;
    RootHead(dt);
    CStringByte(path[..], 0, s, 0);
    var filename := GetFilenameFromPath(path, s);
    if filename == -1 {
      e := Entry(0, 0, 0, [0, 0, 0]);
      NothingToCut(dt.tree, dt.chains, s, e);
      return false, [], e;
    }
    ghost var cut := CutLast(s).value;
    name := StringAt(path, filename, cut.1);
    CutShorter(s);
    CStringNulFree(path[..], filename, cut.1);
    CStringByte(path[..], filename, cut.1, |cut.1|);
    var ret;
    ret, e := CLookup(dt, path, cut.0);
    LocatedBy(dt.tree, dt.chains, s, name, ret, e);
    found := ret == 0;
  }

  lemma CutShorter(s: seq<byte>)
    ensures CutLast(s).Some? ==> |CutLast(s).value.1| <= |s|
  {
  }

  // ----- c_mkdir -----

  lemma MkdirIs(t: Tree, chains: Chains, s: seq<byte>, uid: u32, found: bool, name: Name, e: Entry)
    requires Located(t, chains, s, found, name, e)
    ensures !found ==> Mkdir(t, s, uid) == Effect(1, t, [])
    ensures found ==>
              var d := Target(t, s).value.0;
              && Target(t, s).Some? && d in t && e.fb == HeadAt(chains, d) && (e.kind == S_DIR <==> t[d].Dir?)
              && Mkdir(t, s, uid) ==
                   if t[d].File? then Effect(2, t, [])
                   else if !MayWrite(uid, t[d].uid, t[d].flags) then Effect(4, t, [])
                   else if Step(t, d, name).Some? then Effect(3, t, [])
                   else Effect(0, AddChild(t, d, name, Dir(uid, INITMODE, [])), d + [name])
  {
  }

  lemma NewName(t: Tree, chains: Chains, d: Path, name: Name, k: nat, e: Entry)
    requires FoundAs(t, chains, d, name, false, k, e) && NulFree(name) && SLASH !in name
    ensures Step(t, d, name).None? && ValidName(name) && name !in t[d].names && d + [name] !in t
  {
    FreshName(t, d, name);
    NoChild(t, d, name);
  }

  lemma LocatedName(t: Tree, chains: Chains, s: seq<byte>, found: bool, name: Name, e: Entry)
    requires Located(t, chains, s, found, name, e) && found
    ensures NulFree(name) && SLASH !in name && WellFormed(t)
  {
  }

  /** How many sectors a new entry can take: a head, and what the name adds to the directory. */
  function EntrySectors(n: nat): nat {
    1 + UpDiv(17 + n, 512)
  }

  lemma EntryIs(n: nat)
    ensures EntrySectors(n) == 1 + UpDiv(17 + n, 512)
  {
  }

  lemma EntryLess(n: nat, m: nat)
    requires n <= m
    ensures EntrySectors(n) <= EntrySectors(m)
  {
  }

  /** Makes the directory: its own chain first, then the entry in directory d. */
  method MakeDir(dt: Disk, uid: u32, fb: u32, pdata: seq<byte>, name: Name, now: u64, ghost d: Path) returns (ok: bool)
    requires Ready(dt) && WellFormed(dt.tree) && d in dt.tree && dt.tree[d].Dir? && d + [name] !in dt.tree
    requires ValidName(name) && name !in dt.tree[d].names && |name| < 0x8000_0000
    requires fb == HeadAt(dt.chains, d)
    requires 512 <= |pdata| <= 0x1_0000_0000 && ObjBytes(pdata, dt.tree, dt.chains, d, dt.tree[d], |pdata| / 512)
    requires d in dt.chains && |pdata| == 512 * |dt.chains[d]|
    modifies dt
    ensures ok ==> Performed(dt, old(dt.tree), old(dt.chains),
                             Effect(0, AddChild(old(dt.tree), d, name, Dir(uid, INITMODE, [])), d + [name]))
    ensures ok ==> dt.maxBlockNum == old(dt.maxBlockNum) && dt.ipIndex == old(dt.ipIndex)
    ensures Fits(old(dt.dtSize), Top(old(dt.fat)) + EntrySectors(|name|)) ==> ok
    ensures ok ==> Takes(old(dt.fat), old(dt.dtSize), dt.fat, dt.dtSize, EntrySectors(|name|))
  {
    hide *;
    ghost var f, size, k := dt.fat, dt.dtSize, UpDiv(17 + |name|, 512);
    EntryIs(|name|);
    ghost var t, c0, d0, q, obj := dt.tree, dt.chains, dt.data, d + [name], Dir(uid, INITMODE, []);
    ReadyFacts(dt);
    HeadRoom(dt);
    ghost var need := Rank(dt.fat, dt.fatNum, 0) + 1;
    if Fits(size, Top(f) + 1 + k) {
      RoomLess(size, need, Top(f) + 1 + k);
    }
    var made, newfb := InitDir(dt, uid, Some(fb), now, q);
    if !made {
      return false;
    }
    ghost var f1, size1 := dt.fat, dt.dtSize;
    if Fits(size, Top(f) + 1 + k) {
      TakesRoom(f, size, f1, size1, 1, k);
    }
    DirPrepared(dt.fat, dt.fatNum, d0, dt.data, c0, dt.chains, t, d, name, uid, newfb, now);
    ok := AddEntryTo(dt, fb, pdata, name, newfb, S_DIR, c0, d, obj);
    if ok {
      TakesBoth(f, size, f1, size1, dt.fat, dt.dtSize, 1, k);
      PerformedAdd(dt, t, c0, AddChild(t, d, name, obj), q);
    }
  }

  lemma ReadyFacts(dt: Disk)
    requires Ready(dt)
    ensures dt.Valid() && WellFormed(dt.tree) && dt.chains.Keys == dt.tree.Keys
    ensures Represents(dt.data, dt.chains, dt.tree)
  {
  }

  lemma PerformedAdd(dt: Disk, t: Tree, c0: Chains, t': Tree, q: Path)
    requires Ready(dt) && dt.tree == t' && SameHeads(c0, dt.chains, t.Keys)
    ensures Performed(dt, t, c0, Effect(0, t', q))
  {
  }

  /** The new directory is on disk; what remains is to list it. */
  lemma DirPrepared(fat: seq<u32>, n: nat, d0: seq<Sector>, d1: seq<Sector>, c0: Chains, c1: Chains,
                    t: Tree, d: Path, name: Name, uid: u32, newfb: u32, now: u64)
    requires Represents(d0, c0, t) && WellFormed(t) && d in t && t[d].Dir? && d + [name] !in t
    requires Wrote(fat, n, d0, d1, c0, c1, d + [name])
    requires d + [name] in c1 && |c1[d + [name]]| == 1 && c1[d + [name]][0] == newfb
    requires Holds(d1, c1[d + [name]], FreshDir(uid, newfb, HeadAt(c0, d), now), 101)
    ensures Prepared(d1, c1, t, AddChild(t, d, name, Dir(uid, INITMODE, [])), d + [name])
    ensures Elsewhere(c0, c1, d + [name]) && d in c0 && d in c1 && c1[d] == c0[d]
    ensures HeadAt(c1, d) == HeadAt(c0, d) && HeadAt(c1, d + [name]) == newfb
  {
    var q, obj := d + [name], Dir(uid, INITMODE, []);
    var t' := AddChild(t, d, name, obj);
    ChildPath(d, name);
    WroteFacts(fat, n, d0, d1, c0, c1, q);
    assert HeadAt(c1, d) == HeadAt(c0, d) && HeadAt(c1, q) == newfb;
    RepresentsFacts(d0, c0, t);
    hide Represents, Wrote, Holds, WellFormed, FreshDir, ObjBytes, Content, Covered, HeadAt;
    FreshDirObj(d1, c1, t', d, name, uid, newfb, now);
    AllocPrepares(fat, n, d0, d1, c0, c1, t, t', q);
  }

  lemma WroteFacts(fat: seq<u32>, n: nat, data: seq<Sector>, data': seq<Sector>, chains: Chains, chains': Chains,
                   q: Path)
    requires Wrote(fat, n, data, data', chains, chains', q)
    ensures Elsewhere(chains, chains', q) && q in chains' && Covered(data', chains'[q])
  {
  }

  method CMkdir(dt: Disk, path: array<byte>, uid: u32, now: u64, ghost s: seq<byte>) returns (ok: bool, ret: int)
    requires Ready(dt) && CString(path[..], 0, s) && path.Length < 0x8000_0000
    modifies dt, path
    ensures WellFormed(old(dt.tree))
    ensures ok ==> Performed(dt, old(dt.tree), old(dt.chains), Mkdir(old(dt.tree), s, uid))
    ensures ok ==> ret == Mkdir(old(dt.tree), s, uid).code
    ensures ok ==> dt.maxBlockNum == old(dt.maxBlockNum) && dt.ipIndex == old(dt.ipIndex)
    ensures Fits(old(dt.dtSize), Top(old(dt.fat)) + EntrySectors(|s|)) ==> ok
    ensures ok ==> Takes(old(dt.fat), old(dt.dtSize), dt.fat, dt.dtSize, EntrySectors(|s|))
    ensures Mkdir(old(dt.tree), s, uid).code != 0 ==> ok && dt.fat == old(dt.fat) && dt.data == old(dt.data)
  {
    hide *;
    ReadyFacts(dt);
    ghost var f, size := dt.fat, dt.dtSize;
    HeadRoom(dt);
    TakesSelf(f, size, EntrySectors(|s|));
    var found, name, e := FindParent(dt, path, s);
    MkdirIs(dt.tree, dt.chains, s, uid, found, name, e);
    if !found {
      PerformedNothing(dt, 1, []);
      return true, 1;
    }
    ghost var d := Target(dt.tree, s).value.0;
    if e.kind != S_DIR {
      PerformedNothing(dt, 2, []);
      return true, 2;
    }
    var pdata, meta := ReadAll(dt, e.fb, d);
    if !MayWrite(uid, meta.uid, meta.flags) {
      PerformedNothing(dt, 4, []);
      return true, 4;
    }
    LocatedName(dt.tree, dt.chains, s, found, name, e);
    var dup, k, x := FindIn(dt, pdata[..], name, d);
    if dup {
      FoundSomewhere(dt.tree, dt.chains, d, name, k, x);
      PerformedNothing(dt, 3, []);
      return true, 3;
    }
    NewName(dt.tree, dt.chains, d, name, k, x);
    ReadObj(dt, d);
    ContentSize(dt.data, dt.chains[d]);
    EntryLess(|name|, |s|);
    if Fits(size, Top(f) + EntrySectors(|s|)) {
      RoomLess(size, Top(f) + EntrySectors(|name|), Top(f) + EntrySectors(|s|));
    }
    ok := MakeDir(dt, uid, e.fb, pdata[..], name, now, d);
    ret := 0;
    if ok {
      TakesMore(f, size, dt.fat, dt.dtSize, EntrySectors(|name|), EntrySectors(|s|));
    }
  }

  lemma FoundSomewhere(t: Tree, chains: Chains, d: Path, name: Name, k: nat, e: Entry)
    requires FoundAs(t, chains, d, name, true, k, e)
    ensures WellFormed(t) && d in t && t[d].Dir? && Step(t, d, name).Some?
  {
  }

  /** What has been read of a path is the bytes of its object. */
  lemma ReadObj(dt: Disk, p: Path)
    requires Ready(dt) && p in dt.tree
    ensures p in dt.chains && Covered(dt.data, dt.chains[p])
    ensures 512 <= |Content(dt.data, dt.chains[p])| <= 0x1_0000_0000
    ensures ObjBytes(Content(dt.data, dt.chains[p]), dt.tree, dt.chains, p, dt.tree[p],
                     |Content(dt.data, dt.chains[p])| / 512)
  {
    HeadOf(dt, p);
  }

  // ----- c_open -----

  lemma OpenIs(t: Tree, chains: Chains, s: seq<byte>, mode: byte, uid: u32, found: bool, name: Name, e: Entry)
    requires Located(t, chains, s, found, name, e)
    ensures !found ==> Open(t, s, mode, uid) == Effect(-1, t, [])
    ensures found ==>
              var d := Target(t, s).value.0;
              && Target(t, s).Some? && d in t && e.fb == HeadAt(chains, d) && (e.kind == S_DIR <==> t[d].Dir?)
              && Open(t, s, mode, uid) ==
                   if t[d].File? then Effect(-1, t, [])
                   else if !MayWrite(uid, t[d].uid, t[d].flags) && !MayRead(uid, t[d].uid, t[d].flags)
                   then Effect(-4, t, [])
                   else match Step(t, d, name)
                        case None => Effect(0, AddChild(t, d, name, File(uid, mode, 0, [])), d + [name])
                        case Some(q) => if t[q].Dir? then Effect(-2, t, []) else Effect(0, t, q)
  {
  }

  lemma FoundKind(t: Tree, chains: Chains, d: Path, name: Name, k: nat, e: Entry)
    requires FoundAs(t, chains, d, name, true, k, e)
    ensures WellFormed(t) && d in t && t[d].Dir? && Step(t, d, name).Some?
    ensures var q := Step(t, d, name).value;
            e.fb == HeadAt(chains, q) && (e.kind == S_DIR <==> t[q].Dir?)
  {
  }

  lemma FilePrepared(fat: seq<u32>, n: nat, d0: seq<Sector>, d1: seq<Sector>, c0: Chains, c1: Chains,
                     t: Tree, d: Path, name: Name, uid: u32, mode: byte, newfb: u32, now: u64)
    requires Represents(d0, c0, t) && WellFormed(t) && d in t && t[d].Dir? && d + [name] !in t
    requires Wrote(fat, n, d0, d1, c0, c1, d + [name])
    requires d + [name] in c1 && |c1[d + [name]]| == 1 && c1[d + [name]][0] == newfb
    requires Holds(d1, c1[d + [name]], EncodeMeta(FreshFileMeta(uid, mode, now)), 64)
    ensures Prepared(d1, c1, t, AddChild(t, d, name, File(uid, mode, 0, [])), d + [name])
    ensures Elsewhere(c0, c1, d + [name]) && d in c0 && d in c1 && c1[d] == c0[d]
    ensures HeadAt(c1, d) == HeadAt(c0, d) && HeadAt(c1, d + [name]) == newfb
  {
    var q, obj := d + [name], File(uid, mode, 0, []);
    var t' := AddChild(t, d, name, obj);
    ChildPath(d, name);
    WroteFacts(fat, n, d0, d1, c0, c1, q);
    assert HeadAt(c1, d) == HeadAt(c0, d) && HeadAt(c1, q) == newfb;
    RepresentsFacts(d0, c0, t);
    hide Represents, Wrote, Holds, WellFormed, EncodeMeta, ObjBytes, Content, Covered, HeadAt;
    FreshFileObj(d1, c1, t', q, uid, mode, now);
    AllocPrepares(fat, n, d0, d1, c0, c1, t, t', q);
  }

  /** Makes the file: its own chain first, then the entry in directory d. */
  method MakeFile(dt: Disk, uid: u32, mode: byte, fb: u32, pdata: seq<byte>, name: Name, now: u64, ghost d: Path)
    returns (ok: bool, newfb: u32)
    requires Ready(dt) && WellFormed(dt.tree) && d in dt.tree && dt.tree[d].Dir? && d + [name] !in dt.tree
    requires ValidName(name) && name !in dt.tree[d].names && |name| < 0x8000_0000
    requires fb == HeadAt(dt.chains, d)
    requires 512 <= |pdata| <= 0x1_0000_0000 && ObjBytes(pdata, dt.tree, dt.chains, d, dt.tree[d], |pdata| / 512)
    requires d in dt.chains && |pdata| == 512 * |dt.chains[d]|
    modifies dt
    ensures ok ==> Performed(dt, old(dt.tree), old(dt.chains),
                             Effect(0, AddChild(old(dt.tree), d, name, File(uid, mode, 0, [])), d + [name]))
    ensures ok ==> newfb == HeadAt(dt.chains, d + [name])
    ensures ok ==> dt.maxBlockNum == old(dt.maxBlockNum) && dt.ipIndex == old(dt.ipIndex)
    ensures Fits(old(dt.dtSize), Top(old(dt.fat)) + EntrySectors(|name|)) ==> ok
    ensures ok ==> Takes(old(dt.fat), old(dt.dtSize), dt.fat, dt.dtSize, EntrySectors(|name|))
  {
    hide *;
    ghost var f, size, k := dt.fat, dt.dtSize, UpDiv(17 + |name|, 512);
    EntryIs(|name|);
    ghost var t, c0, d0, q, obj := dt.tree, dt.chains, dt.data, d + [name], File(uid, mode, 0, []);
    ReadyFacts(dt);
    HeadRoom(dt);
    ghost var need := Rank(dt.fat, dt.fatNum, 0) + 1;
    if Fits(size, Top(f) + 1 + k) {
      RoomLess(size, need, Top(f) + 1 + k);
    }
    ok, newfb := InitFile(dt, uid, mode, now, q);
    if !ok {
      return;
    }
    ghost var f1, size1 := dt.fat, dt.dtSize;
    if Fits(size, Top(f) + 1 + k) {
      TakesRoom(f, size, f1, size1, 1, k);
    }
    FilePrepared(dt.fat, dt.fatNum, d0, dt.data, c0, dt.chains, t, d, name, uid, mode, newfb, now);
    ok := AddEntryTo(dt, fb, pdata, name, newfb, S_FIL, c0, d, obj);
    if ok {
      TakesBoth(f, size, f1, size1, dt.fat, dt.dtSize, 1, k);
      PerformedAdd(dt, t, c0, AddChild(t, d, name, obj), q);
    }
  }

  /** Answers the first sector of the file, creating the file when it is missing. */
  method COpen(dt: Disk, path: array<byte>, mode: byte, uid: u32, now: u64, ghost s: seq<byte>)
    returns (ok: bool, ret: int)
    requires Ready(dt) && CString(path[..], 0, s) && path.Length < 0x8000_0000
    modifies dt, path
    ensures WellFormed(old(dt.tree))
    ensures ok ==> Performed(dt, old(dt.tree), old(dt.chains), Open(old(dt.tree), s, mode, uid))
    ensures ok ==> var e := Open(old(dt.tree), s, mode, uid);
                   ret == if e.code == 0 then HeadAt(dt.chains, e.at) else e.code
    ensures ok ==> dt.maxBlockNum == old(dt.maxBlockNum) && dt.ipIndex == old(dt.ipIndex)
    ensures Fits(old(dt.dtSize), Top(old(dt.fat)) + EntrySectors(|s|)) ==> ok
    ensures ok ==> Takes(old(dt.fat), old(dt.dtSize), dt.fat, dt.dtSize, EntrySectors(|s|))
    ensures var e := Open(old(dt.tree), s, mode, uid);
            e.code != 0 || e.at in old(dt.tree) ==> ok && dt.fat == old(dt.fat) && dt.data == old(dt.data)
  {
    hide *;
    ReadyFacts(dt);
    ghost var f, size := dt.fat, dt.dtSize;
    HeadRoom(dt);
    TakesSelf(f, size, EntrySectors(|s|));
    var found, name, e := FindParent(dt, path, s);
    OpenIs(dt.tree, dt.chains, s, mode, uid, found, name, e);
    if !found {
      PerformedNothing(dt, -1, []);
      return true, -1;
    }
    ghost var d := Target(dt.tree, s).value.0;
    if e.kind != S_DIR {
      PerformedNothing(dt, -1, []);
      return true, -1;
    }
    var pdata, meta := ReadAll(dt, e.fb, d);
    if !MayWrite(uid, meta.uid, meta.flags) && !MayRead(uid, meta.uid, meta.flags) {
      PerformedNothing(dt, -4, []);
      return true, -4;
    }
    LocatedName(dt.tree, dt.chains, s, found, name, e);
    var there, k, x := FindIn(dt, pdata[..], name, d);
    if there {
      FoundKind(dt.tree, dt.chains, d, name, k, x);
      if x.kind == S_DIR {
        PerformedNothing(dt, -2, []);
        return true, -2;
      }
      PerformedNothing(dt, 0, Step(dt.tree, d, name).value);
      return true, x.fb;
    }
    NewName(dt.tree, dt.chains, d, name, k, x);
    ReadObj(dt, d);
    ContentSize(dt.data, dt.chains[d]);
    EntryLess(|name|, |s|);
    if Fits(size, Top(f) + EntrySectors(|s|)) {
      RoomLess(size, Top(f) + EntrySectors(|name|), Top(f) + EntrySectors(|s|));
    }
    ok, ret := MakeFile(dt, uid, mode, e.fb, pdata[..], name, now, d);
    if ok {
      TakesMore(f, size, dt.fat, dt.dtSize, EntrySectors(|name|), EntrySectors(|s|));
    }
  }
}
