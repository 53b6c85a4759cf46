/** Formatting an image and creating directories and files in it. */
module Create {
  import opened Bytes
  import opened Changes
  import opened Codec
  import opened Directory
  import opened Disk
  import opened Growth
  import opened Image
  import opened Lookup
  import opened Ops
  import opened Room
  import opened Sectors
  import opened Tree

  // ----- initdir and initfile -----

  function FreshDirMeta(uid: u32, now: u64): Meta {
    Meta(uid, 3, 101, now, now, now, 32, 5, 1, INITMODE, [0, 0, 0])
  }

  /** The bytes of an empty directory that starts at sector fb. */
  function FreshDir(uid: u32, fb: u32, parent: u32, now: u64): (b: seq<byte>)
    ensures |b| == 101
  {
    EncodeMeta(FreshDirMeta(uid, now)) + EncodeEntry(Entry(0, fb, S_DIR, [0, 0, 0]))
    + EncodeEntry(Entry(2, parent, S_DIR, [0, 0, 0])) + [46, 0, 46, 46, 0]
  }

  lemma FreshDirBytes(uid: u32, fb: u32, parent: u32, now: u64)
    ensures var b := FreshDir(uid, fb, parent, now);
            && DecodeMeta(b) == FreshDirMeta(uid, now)
            && DirBytes(b, [DirEnt(DOT, fb, S_DIR), DirEnt(DOTDOT, parent, S_DIR)])
  {
    hide DecodeMeta, EncodeMeta, DecodeEntry, EncodeEntry;
    var b := FreshDir(uid, fb, parent, now);
    var m := EncodeMeta(FreshDirMeta(uid, now));
    var e0, e1 := Entry(0, fb, S_DIR, [0, 0, 0]), Entry(2, parent, S_DIR, [0, 0, 0]);
    var pool: seq<byte> := [46, 0, 46, 46, 0];
    Parts(m, EncodeEntry(e0), EncodeEntry(e1), pool);
    MetaRoundTrip(FreshDirMeta(uid, now), EncodeEntry(e0) + EncodeEntry(e1) + pool);
    assert b == m + (EncodeEntry(e0) + EncodeEntry(e1) + pool);
    EntryRoundTrip(e0);
    EntryRoundTrip(e1);
    assert EntryAt(b, 0) == e0 && EntryAt(b, 1) == e1;
    assert b[96..101] == pool;
    DotNames(pool);
  }

  lemma DotNames(pool: seq<byte>)
    requires pool == [46, 0, 46, 46, 0]
    ensures StrAt(pool, 0, DOT) && StrAt(pool, 2, DOTDOT) && NulFree(DOT) && NulFree(DOTDOT) && DOT != DOTDOT
  {
    assert pool[0..1] == DOT && pool[2..4] == DOTDOT;
  }

  lemma CoversOne(src: seq<byte>)
    requires 1 <= |src| <= 512
    ensures Covers(src, |src|, 1)
  {
  }

  /** initdir: a new empty directory at a fresh chain; without a parent it is its own parent. */
  method InitDir(dt: Disk, uid: u32, parent: Option<u32>, now: u64, ghost q: Path) returns (ok: bool, fb: u32)
    requires dt.Valid() && q !in dt.chains
    modifies dt
    ensures ok ==> dt.Valid() && dt.tree == old(dt.tree)
    ensures ok ==> Wrote(dt.fat, dt.fatNum, old(dt.data), dt.data, old(dt.chains), dt.chains, q)
    ensures ok ==> q in dt.chains && |dt.chains[q]| == 1 && dt.chains[q][0] == fb
    ensures ok ==> Holds(dt.data, dt.chains[q], FreshDir(uid, fb, if parent.Some? then parent.value else fb, now), 101)
    ensures ok ==> dt.maxBlockNum == old(dt.maxBlockNum) && dt.ipIndex == old(dt.ipIndex)
    ensures ok <==> Fits(old(dt.dtSize), Rank(old(dt.fat), old(dt.fatNum), 0) + 1)
    ensures ok ==> Takes(old(dt.fat), old(dt.dtSize), dt.fat, dt.dtSize, 1)
  {
    hide *;
    ghost var f, s, need := dt.fat, dt.dtSize, Rank(dt.fat, dt.fatNum, 0) + 1;
    HeadRoom(dt);
    ok, fb := dt.AllocHead();
    if !ok {
      return;
    }
    ghost var d1 := dt.data;
    FitAgain(s, need, need);
    MaxIs(Top(dt.fat), need);
    MaxIs(Top(f), need);
    var src := FreshDir(uid, fb, if parent.Some? then parent.value else fb, now);
    CoversOne(src);
    ok := dt.WriteNew(fb, src, 101, 1, q);
    if ok {
      WroteEnlarged(dt.fat, dt.fatNum, old(dt.data), d1, dt.data, old(dt.chains), dt.chains, q);
      TakesNeed(f, s, dt.fat, dt.dtSize, need, 1);
    }
  }

  /** initfile: a new empty file at a fresh chain. */
  method InitFile(dt: Disk, uid: u32, mode: byte, now: u64, ghost q: Path) returns (ok: bool, fb: u32)
    requires dt.Valid() && q !in dt.chains
    modifies dt
    ensures ok ==> dt.Valid() && dt.tree == old(dt.tree)
    ensures ok ==> Wrote(dt.fat, dt.fatNum, old(dt.data), dt.data, old(dt.chains), dt.chains, q)
    ensures ok ==> q in dt.chains && |dt.chains[q]| == 1 && dt.chains[q][0] == fb
    ensures ok ==> Holds(dt.data, dt.chains[q], EncodeMeta(FreshFileMeta(uid, mode, now)), 64)
    ensures ok ==> dt.maxBlockNum == old(dt.maxBlockNum) && dt.ipIndex == old(dt.ipIndex)
    ensures ok <==> Fits(old(dt.dtSize), Rank(old(dt.fat), old(dt.fatNum), 0) + 1)
    ensures ok ==> Takes(old(dt.fat), old(dt.dtSize), dt.fat, dt.dtSize, 1)
  {
    hide *;
    ghost var f, s, need := dt.fat, dt.dtSize, Rank(dt.fat, dt.fatNum, 0) + 1;
    HeadRoom(dt);
    ok, fb := dt.AllocHead();
    if !ok {
      return;
    }
    ghost var d1 := dt.data;
    FitAgain(s, need, need);
    MaxIs(Top(dt.fat), need);
    MaxIs(Top(f), need);
    var src := EncodeMeta(FreshFileMeta(uid, mode, now));
    CoversOne(src);
    ok := dt.WriteNew(fb, src, 64, 1, q);
    if ok {
      WroteEnlarged(dt.fat, dt.fatNum, old(dt.data), d1, dt.data, old(dt.chains), dt.chains, q);
      TakesNeed(f, s, dt.fat, dt.dtSize, need, 1);
    }
  }

  function FreshFileMeta(uid: u32, mode: byte, now: u64): Meta {
    Meta(uid, 1, 0, now, now, now, 0, 0, 1, mode, [0, 0, 0])
  }

  /** What initdir wrote stands for an empty directory below d. */
  lemma FreshDirObj(data: seq<Sector>, chains: Chains, t: Tree, d: Path, name: Name, uid: u32, fb: u32, now: u64)
    requires d + [name] in chains && Covered(data, chains[d + [name]])
    requires |chains[d + [name]]| == 1 && chains[d + [name]][0] == fb
    requires Holds(data, chains[d + [name]], FreshDir(uid, fb, HeadAt(chains, d), now), 101)
    ensures ObjBytes(Content(data, chains[d + [name]]), t, chains, d + [name], Dir(uid, INITMODE, []), 1)
  {
    var q := d + [name];
    ChildPath(d, name);
    FreshDirBytes(uid, fb, HeadAt(chains, d), now);
    assert EntsAt(t, chains, q, []) == [DirEnt(DOT, fb, S_DIR), DirEnt(DOTDOT, HeadAt(chains, d), S_DIR)];
    hide DirBytes, FreshDir, DecodeMeta, Content, Covered;
    HeldBytes(data, chains[q], FreshDir(uid, fb, HeadAt(chains, d), now), t, chains, q, Dir(uid, INITMODE, []));
  }

  lemma FreshFileObj(data: seq<Sector>, chains: Chains, t: Tree, q: Path, uid: u32, mode: byte, now: u64)
    requires q in chains && Covered(data, chains[q]) && |chains[q]| == 1
    requires Holds(data, chains[q], EncodeMeta(FreshFileMeta(uid, mode, now)), 64)
    ensures ObjBytes(Content(data, chains[q]), t, chains, q, File(uid, mode, 0, []), 1)
  {
    var m := FreshFileMeta(uid, mode, now);
    MetaRoundTrip(m, []);
    assert EncodeMeta(m) + [] == EncodeMeta(m);
    hide DecodeMeta, EncodeMeta, Content, Covered;
    HeldBytes(data, chains[q], EncodeMeta(m), t, chains, q, File(uid, mode, 0, []));
  }

  // ----- listing the new file in its directory -----

  /** The bytes built for the parent directory stand for it in the tree with the new entry. */
  lemma InsertedObj(pdata: seq<byte>, t: Tree, c0: Chains, c1: Chains, d: Path, name: Name, obj: Obj, e: Entry,
                    blocks: nat)
    requires WellFormed(t) && d in t && t[d].Dir? && ValidName(name) && name !in t[d].names && d + [name] !in t
    requires Elsewhere(c0, c1, d + [name]) && 512 <= |pdata| <= 0x1_0000_0000 && |name| < 0x8000_0000
    requires ObjBytes(pdata, t, c0, d, t[d], blocks)
    requires e.name == DecodeMeta(pdata).strlen && e.fb == HeadAt(c1, d + [name])
    requires e.kind == if obj.Dir? then S_DIR else S_FIL
    ensures Framed(pdata, 2 + |t[d].names|)
    ensures var b := Inserted(pdata, name, e);
            && 64 <= |b| == DecodeMeta(b).flen < 0x2_0000_0000 && |b| <= |pdata| + 17 + |name|
            && DecodeMeta(b).blocks == (|b| + 511) / 512
            && ObjBytes(b, AddChild(t, d, name, obj), c1, d, AddChild(t, d, name, obj)[d], DecodeMeta(b).blocks)
  {
    var ents := EntsAt(t, c0, d, t[d].names);
    FreshEnts(t, c0, d, name);
    InsertedLists(pdata, ents, name, e);
    AddEnts(t, c0, c1, d, name, obj);
    ChildPath(d, name);
  }

  lemma FreshEnts(t: Tree, chains: Chains, d: Path, name: Name)
    requires d in t && t[d].Dir? && ValidName(name) && name !in t[d].names
    ensures forall i :: 0 <= i < 2 + |t[d].names| ==> EntsAt(t, chains, d, t[d].names)[i].name != name
  {
  }

  lemma CoversSize(b: seq<byte>, count: nat)
    requires 1 <= |b| < 0x2_0000_0000 && count == (|b| + 511) / 512
    ensures Covers(b, |b|, count)
  {
  }

  /** Heads of the paths in s are the same. */
  ghost predicate SameHeads(chains: Chains, chains': Chains, s: set<Path>) {
    forall p :: p in s ==> HeadAt(chains', p) == HeadAt(chains, p)
  }

  lemma HeadsElsewhere(c0: Chains, c1: Chains, c2: Chains, q: Path, d: Path, s: set<Path>)
    requires Elsewhere(c0, c1, q) && Elsewhere(c1, c2, d) && HeadAt(c2, d) == HeadAt(c1, d) && q !in s
    ensures SameHeads(c0, c2, s) && (q != d ==> HeadAt(c2, q) == HeadAt(c1, q))
  {
  }

  /** The tail of c_mkdir and c_open: writes the parent directory with one entry more. */
  method AddEntryTo(dt: Disk, fb: u32, pdata: seq<byte>, name: Name, newfb: u32, kind: byte,
                    ghost c0: Chains, ghost d: Path, ghost obj: Obj) returns (ok: bool)
    requires dt.Valid() && WellFormed(dt.tree) && d in dt.tree && dt.tree[d].Dir? && d + [name] !in dt.tree
    requires ValidName(name) && name !in dt.tree[d].names && |name| < 0x8000_0000
    requires obj.Dir? ==> obj.names == []
    requires Prepared(dt.data, dt.chains, dt.tree, AddChild(dt.tree, d, name, obj), d + [name])
    requires Elsewhere(c0, dt.chains, d + [name]) && d in dt.chains
    requires 512 <= |pdata| <= 0x1_0000_0000 && ObjBytes(pdata, dt.tree, c0, d, dt.tree[d], |pdata| / 512)
    requires fb == HeadAt(dt.chains, d) && newfb == HeadAt(dt.chains, d + [name])
    requires kind == (if obj.Dir? then S_DIR else S_FIL) && |pdata| == 512 * |dt.chains[d]|
    modifies dt
    ensures ok ==> Ready(dt) && dt.tree == AddChild(old(dt.tree), d, name, obj)
    ensures ok ==> SameHeads(c0, dt.chains, old(dt.tree).Keys) && HeadAt(dt.chains, d + [name]) == newfb
    ensures ok ==> dt.maxBlockNum == old(dt.maxBlockNum) && dt.ipIndex == old(dt.ipIndex)
    ensures Fits(old(dt.dtSize), Top(old(dt.fat)) + UpDiv(17 + |name|, 512)) ==> ok
    ensures ok ==> Takes(old(dt.fat), old(dt.dtSize), dt.fat, dt.dtSize, UpDiv(17 + |name|, 512))
  {
    hide *;
    HeadOnDisk(dt, d);
    ghost var f, s, k := dt.fat, dt.dtSize, UpDiv(17 + |name|, 512);
    ghost var t, c1, d1 := dt.tree, dt.chains, dt.data;
    var e := Entry(DecodeMeta(pdata).strlen, newfb, kind, [0, 0, 0]);
    InsertedObj(pdata, t, c0, c1, d, name, obj, e, |pdata| / 512);
    var buf := AppendEntry(pdata, name, e, 2 + |t[d].names|);
    CoversSize(buf[..], DecodeMeta(buf[..]).blocks);
    MoreSectors(|buf[..]|, |pdata|, 17 + |name|);
    ChainRoom(dt, d, DecodeMeta(buf[..]).blocks, k);
    ghost var need := NeedFor(dt.fat, dt.fatNum, dt.chains[d], DecodeMeta(buf[..]).blocks);
    if Fits(s, Top(f) + k) {
      RoomLess(s, need, Top(f) + k);
    }
    ok := dt.DoWriteFile(fb, buf[..], buf.Length, d);
    if ok {
      TakesNeed(f, s, dt.fat, dt.dtSize, need, k);
      HeadOnDisk(dt, d);
      AddDone(dt.fat, dt.fatNum, d1, dt.data, c0, c1, dt.chains, t, d, name, obj, buf[..]);
      dt.SetTree(AddChild(t, d, name, obj));
      ReadyIntro(dt);
    }
  }

  lemma MoreSectors(n: nat, m: nat, more: nat)
    requires n <= m + more && m % 512 == 0
    ensures (n + 511) / 512 <= m / 512 + UpDiv(more, 512)
  {
  }

  lemma ReadyIntro(dt: Disk)
    requires dt.Valid() && Represents(dt.data, dt.chains, dt.tree)
    ensures Ready(dt)
  {
  }

  lemma AddDone(fat: seq<u32>, n: nat, d1: seq<Sector>, d2: seq<Sector>, c0: Chains, c1: Chains, c2: Chains,
                t: Tree, d: Path, name: Name, obj: Obj, buf: seq<byte>)
    requires WellFormed(t) && d in t && t[d].Dir? && ValidName(name) && name !in t[d].names && d + [name] !in t
    requires obj.Dir? ==> obj.names == []
    requires Prepared(d1, c1, t, AddChild(t, d, name, obj), d + [name]) && Elsewhere(c0, c1, d + [name])
    requires Wrote(fat, n, d1, d2, c1, c2, d) && HeadAt(c2, d) == HeadAt(c1, d)
    requires 64 <= |buf| == DecodeMeta(buf).flen && 1 <= |c2[d]| <= 0x80_0000
    requires Holds(d2, c2[d], buf, |buf|)
    requires ObjBytes(buf, AddChild(t, d, name, obj), c1, d, AddChild(t, d, name, obj)[d], |c2[d]|)
    ensures Represents(d2, c2, AddChild(t, d, name, obj))
    ensures SameHeads(c0, c2, t.Keys) && HeadAt(c2, d + [name]) == HeadAt(c1, d + [name])
  {
    var t', q := AddChild(t, d, name, obj), d + [name];
    ChildPath(d, name);
    assert t'[d].Dir?;
    assert Elsewhere(c1, c2, d);
    hide Wrote, Holds, ObjBytes, WellFormed, HeadAt, Prepared, DecodeMeta, Content, Elsewhere;
    HeldBytes(d2, c2[d], buf, t', c1, d, t'[d]);
    AddRepresents(fat, n, d1, d2, c1, c2, t, d, name, obj);
    HeadsElsewhere(c0, c1, c2, q, d, t.Keys);
  }
}
