/** chmod and chown: a store into the meta data of one file. */
module Attrs {
  import opened Bytes
  import opened Cfs
  import opened Changes
  import opened Codec
  import opened Create
  import opened Directory
  import opened Disk
  import opened Fat
  import opened Image
  import opened Lookup
  import opened Ops
  import opened Paths
  import opened Sectors
  import opened Tree

  /** The meta data with new owner and flags; sizes and times stay. */
  function Reowned(m: Meta, uid: u32, flags: byte): Meta {
    m.(uid := uid, flags := flags)
  }

  /** Overwriting the first sector of a file changes the beginning of its contents only. */
  lemma {:induction false} ContentStore(data: seq<Sector>, c: seq<nat>, x: seq<byte>)
    requires |c| > 0 && Covered(data, c) && |x| <= 512 && forall i :: 0 < i < |c| ==> c[i] != c[0]
    ensures var data' := data[c[0] := Overwrite(data[c[0]], x)];
            Content(data', c) == x + Content(data, c)[|x|..]
  {
    var data' := data[c[0] := Overwrite(data[c[0]], x)];
    var k := |c| - 1;
    if k == 0 {
      assert c[..0] == [];
      assert Content(data, c) == data[c[0]] && Content(data', c) == data'[c[0]];
    } else {
      ContentStore(data, c[..k], x);
    }
  }

  lemma ReownedDir(b: seq<byte>, ents: seq<DirEnt>, uid: u32, flags: byte)
    requires DirBytes(b, ents)
    ensures DirBytes(EncodeMeta(Reowned(DecodeMeta(b), uid, flags)) + b[64..], ents)
  {
    hide DecodeMeta, EncodeMeta;
    SameSizesDir(b, ents, Reowned(DecodeMeta(b), uid, flags));
  }

  lemma ReownedFile(b: seq<byte>, flen: u64, table: seq<Desc>, uid: u32, flags: byte)
    requires FileBytes(b, flen, table)
    ensures FileBytes(EncodeMeta(Reowned(DecodeMeta(b), uid, flags)) + b[64..], flen, table)
  {
    hide DecodeMeta, EncodeMeta, DecodeBlock;
    var m := Reowned(DecodeMeta(b), uid, flags);
    var r := EncodeMeta(m) + b[64..];
    MetaRoundTrip(m, b[64..]);
    TakeDrop(EncodeMeta(m), b[64..]);
    assert r[64..|r|] == b[64..|b|];
    forall i | 0 <= i < |table| ensures DescAt(r, i) == DescAt(b, i) {
      SliceOfSlice(r, 64, |r|, 32 * i, 32 * i + 32);
      SliceOfSlice(b, 64, |b|, 32 * i, 32 * i + 32);
    }
  }

  lemma ReownedObj(b: seq<byte>, t: Tree, chains: Chains, p: Path, obj: Obj, blocks: nat, uid: u32, flags: byte)
    requires ObjBytes(b, t, chains, p, obj, blocks)
    ensures ObjBytes(EncodeMeta(Reowned(DecodeMeta(b), uid, flags)) + b[64..], t, chains, p,
                     WithAttrs(obj, uid, flags), blocks)
  {
    MetaRoundTrip(Reowned(DecodeMeta(b), uid, flags), b[64..]);
    hide DecodeMeta, EncodeMeta, DirBytes, FileBytes;
    match obj
    case Dir(_, _, names) => ReownedDir(b, EntsAt(t, chains, p, names), uid, flags);
    case File(_, _, flen, table) => ReownedFile(b, flen, table, uid, flags);
  }

  /** The data area after x has been stored at the beginning of the first sector of c. */
  ghost function Stored1(data: seq<Sector>, c: seq<nat>, x: seq<byte>): seq<Sector>
    requires |c| > 0 && Covered(data, c) && |x| <= 512
  {
    data[c[0] := Overwrite(data[c[0]], x)]
  }

  lemma StoredOutside(data: seq<Sector>, c: seq<nat>, x: seq<byte>)
    requires |c| > 0 && Covered(data, c) && |x| <= 512
    ensures Untouched(data, Stored1(data, c, x), c) && Covered(Stored1(data, c, x), c)
  {
    assert c[0] in c;
  }

  lemma ChainHead(fat: seq<u32>, n: nat, chains: Chains, p: Path)
    requires Partitioned(fat, n, chains) && p in chains
    ensures |chains[p]| > 0 && forall i :: 0 < i < |chains[p]| ==> chains[p][i] != chains[p][0]
  {
    assert Chain(fat, chains[p]);
  }

  lemma WroteStore(fat: seq<u32>, n: nat, data: seq<Sector>, data': seq<Sector>, chains: Chains, p: Path)
    requires Partitioned(fat, n, chains) && p in chains && |chains[p]| > 0
    requires Untouched(data, data', chains[p]) && Covered(data', chains[p])
    ensures Wrote(fat, n, data, data', chains, chains, p)
  {
    hide Partitioned, Untouched, Covered;
  }

  lemma AttrsRepresents(fat: seq<u32>, n: nat, data: seq<Sector>, chains: Chains, t: Tree, p: Path,
                        uid: u32, flags: byte, m: Meta)
    requires Partitioned(fat, n, chains) && Represents(data, chains, t)
    requires p in t && p in chains && |chains[p]| > 0 && Covered(data, chains[p])
    requires |Content(data, chains[p])| >= 64 && m == DecodeMeta(Content(data, chains[p]))
    requires ObjBytes(Content(data, chains[p]), t, chains, p, t[p], |chains[p]|)
    ensures Represents(Stored1(data, chains[p], EncodeMeta(Reowned(m, uid, flags))), chains,
                       t[p := WithAttrs(t[p], uid, flags)])
  {
    hide *;
    var c, x := chains[p], EncodeMeta(Reowned(m, uid, flags));
    ChainHead(fat, n, chains, p);
    StoredOutside(data, c, x);
    WroteStore(fat, n, data, Stored1(data, c, x), chains, p);
    StoredContent1(data, c, x);
    ReownedObj(Content(data, c), t, chains, p, t[p], |c|, uid, flags);
    WithAttrsShape(t[p], uid, flags);
    RewriteRepresents(fat, n, data, Stored1(data, c, x), chains, chains, t, p, WithAttrs(t[p], uid, flags));
  }

  lemma StoredContent1(data: seq<Sector>, c: seq<nat>, x: seq<byte>)
    requires |c| > 0 && Covered(data, c) && |x| <= 512 && forall i :: 0 < i < |c| ==> c[i] != c[0]
    ensures Covered(Stored1(data, c, x), c)
    ensures Content(Stored1(data, c, x), c) == x + Content(data, c)[|x|..]
  {
    ContentStore(data, c, x);
  }

  lemma WithAttrsShape(obj: Obj, uid: u32, flags: byte)
    ensures SameShape(obj, WithAttrs(obj, uid, flags))
  {
  }

  /** memcpy of the changed meta data back to the first sector of the file. */
  method PutMeta(dt: Disk, fb: u32, meta: Meta, uid: u32, flags: byte, ghost p: Path)
    requires Ready(dt) && p in dt.tree && fb == HeadAt(dt.chains, p)
    requires p in dt.chains && Covered(dt.data, dt.chains[p]) && |Content(dt.data, dt.chains[p])| >= 64
    requires meta == DecodeMeta(Content(dt.data, dt.chains[p]))
    modifies dt
    ensures Ready(dt) && dt.tree == old(dt.tree)[p := WithAttrs(old(dt.tree)[p], uid, flags)]
    ensures dt.chains == old(dt.chains) && dt.maxBlockNum == old(dt.maxBlockNum) && dt.ipIndex == old(dt.ipIndex)
    ensures dt.fat == old(dt.fat) && dt.dtSize == old(dt.dtSize)
  {
    hide *;
    ReadyFacts(dt);
    ValidFacts(dt);
    HeadOnDisk(dt, p);
    ReadObj(dt, p);
    BlocksOf(dt, p);
    ghost var t, data, chains := dt.tree, dt.data, dt.chains;
    var x := EncodeMeta(Reowned(meta, uid, flags));
    AttrsRepresents(dt.fat, dt.fatNum, data, chains, t, p, uid, flags, meta);
    StoredIs(data, chains[p], x);
    dt.Store(fb, x);
    dt.SetTree(t[p := WithAttrs(t[p], uid, flags)]);
    ReadyIntro(dt);
  }

  lemma StoredIs(data: seq<Sector>, c: seq<nat>, x: seq<byte>)
    requires |c| > 0 && Covered(data, c) && |x| <= 512
    ensures c[0] < |data| && Stored1(data, c, x) == data[c[0] := Overwrite(data[c[0]], x)]
  {
  }

  lemma BlocksOf(dt: Disk, p: Path)
    requires Ready(dt) && p in dt.tree && p in dt.chains && Covered(dt.data, dt.chains[p])
    ensures |Content(dt.data, dt.chains[p])| / 512 == |dt.chains[p]|
  {
  }

  // ----- c_chmod and c_chown -----

  lemma ChmodIs(t: Tree, chains: Chains, s: seq<byte>, mode: byte, uid: u32, ret: int, e: Entry)
    requires WellFormed(t) && Leads(t, chains, Resolve(t, LookupComps(s)), ret, e)
    ensures ret != 0 ==> ret == 1 && Chmod(t, s, mode, uid) == Effect(1, t, [])
    ensures ret == 0 ==>
              && Resolve(t, LookupComps(s)).Some?
              && var p := Resolve(t, LookupComps(s)).value;
                 && p in t && e.fb == HeadAt(chains, p)
                 && Chmod(t, s, mode, uid) ==
                      if !Owns(uid, t[p].uid) then Effect(4, t, [])
                      else Effect(0, t[p := WithAttrs(t[p], t[p].uid, SetMode(t[p].flags, mode))], p)
  {
    hide SetMode;
  }

  lemma ChownIs(t: Tree, chains: Chains, s: seq<byte>, newuid: u32, uid: u32, ret: int, e: Entry)
    requires WellFormed(t) && Leads(t, chains, Resolve(t, LookupComps(s)), ret, e)
    ensures ret != 0 ==> ret == 1 && Chown(t, s, newuid, uid) == Effect(1, t, [])
    ensures ret == 0 ==>
              && Resolve(t, LookupComps(s)).Some?
              && var p := Resolve(t, LookupComps(s)).value;
                 && p in t && e.fb == HeadAt(chains, p)
                 && Chown(t, s, newuid, uid) ==
                      if !Owns(uid, t[p].uid) then Effect(4, t, [])
                      else if t[p].uid == newuid then Effect(0, t, p)
                      else if uid != 0 then Effect(4, t, [])
                      else Effect(0, t[p := WithAttrs(t[p], newuid, t[p].flags)], p)
  {
  }

  lemma PerformedSet(dt: Disk, t: Tree, c0: Chains, p: Path, obj: Obj)
    requires Ready(dt) && dt.tree == t[p := obj] && dt.chains == c0
    ensures Performed(dt, t, c0, Effect(0, t[p := obj], p))
  {
  }

  method CChmod(dt: Disk, path: array<byte>, mode: byte, uid: u32, ghost s: seq<byte>) returns (ret: int)
    requires Ready(dt) && CString(path[..], 0, s)
    modifies dt, path
    ensures WellFormed(old(dt.tree))
    ensures Performed(dt, old(dt.tree), old(dt.chains), Chmod(old(dt.tree), s, mode, uid))
    ensures ret == Chmod(old(dt.tree), s, mode, uid).code
    ensures dt.maxBlockNum == old(dt.maxBlockNum) && dt.ipIndex == old(dt.ipIndex)
    ensures dt.fat == old(dt.fat) && dt.dtSize == old(dt.dtSize)
  {
    hide *;
    ReadyFacts(dt);
    var e;
    ret, e := CLookup(dt, path, s);
    ChmodIs(dt.tree, dt.chains, s, mode, uid, ret, e);
    if ret != 0 {
      PerformedNothing(dt, 1, []);
      return;
    }
    ghost var p, t, chains := Resolve(dt.tree, LookupComps(s)).value, dt.tree, dt.chains;
    var meta := MetaOf(dt, e.fb, p);
    if !Owns(uid, meta.uid) {
      PerformedNothing(dt, 4, []);
      return 4;
    }
    ReadObj(dt, p);
    PutMeta(dt, e.fb, meta, meta.uid, SetMode(meta.flags, mode), p);
    PerformedSet(dt, t, chains, p, WithAttrs(t[p], t[p].uid, SetMode(t[p].flags, mode)));
  }

  method CChown(dt: Disk, path: array<byte>, newuid: u32, uid: u32, ghost s: seq<byte>) returns (ret: int)
    requires Ready(dt) && CString(path[..], 0, s)
    modifies dt, path
    ensures WellFormed(old(dt.tree))
    ensures Performed(dt, old(dt.tree), old(dt.chains), Chown(old(dt.tree), s, newuid, uid))
    ensures ret == Chown(old(dt.tree), s, newuid, uid).code
    ensures dt.maxBlockNum == old(dt.maxBlockNum) && dt.ipIndex == old(dt.ipIndex)
    ensures dt.fat == old(dt.fat) && dt.dtSize == old(dt.dtSize)
  {
    hide *;
    ReadyFacts(dt);
    var e;
    ret, e := CLookup(dt, path, s);
    ChownIs(dt.tree, dt.chains, s, newuid, uid, ret, e);
    if ret != 0 {
      PerformedNothing(dt, 1, []);
      return;
    }
    ghost var p, t, chains := Resolve(dt.tree, LookupComps(s)).value, dt.tree, dt.chains;
    var meta := MetaOf(dt, e.fb, p);
    if !Owns(uid, meta.uid) {
      PerformedNothing(dt, 4, []);
      return 4;
    }
    if meta.uid == newuid {
      PerformedNothing(dt, 0, p);
      return 0;
    }
    if uid != 0 {
      PerformedNothing(dt, 4, []);
      return 4;
    }
    ReadObj(dt, p);
    PutMeta(dt, e.fb, meta, newuid, meta.flags, p);
    PerformedSet(dt, t, chains, p, WithAttrs(t[p], newuid, t[p].flags));
  }
}
