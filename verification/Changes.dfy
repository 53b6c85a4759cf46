/** How allocating, rewriting and freeing one chain carries a represented tree to the next one. */
module Changes {
  import opened Bytes
  import opened Codec
  import opened Directory
  import opened Disk
  import opened Fat
  import opened Image
  import opened Sectors
  import opened Tree

  lemma {:induction false} IncreasingBound(c: seq<nat>, n: nat)
    requires Increasing(c) && forall i :: 0 <= i < |c| ==> c[i] < n
    ensures |c| <= n
  {
    if c != [] {
      var k := |c| - 1;
      forall i | 0 <= i < k ensures c[..k][i] < c[k] {}
      IncreasingBound(c[..k], c[k]);
    }
  }

  /** A chain holds less than 4 GiB. */
  lemma ChainSize(fat: seq<u32>, n: nat, chains: Chains, p: Path)
    requires Partitioned(fat, n, chains) && p in chains && n <= 0x80_0000
    ensures 1 <= |chains[p]| <= 0x80_0000
  {
    forall i | 0 <= i < |chains[p]| ensures chains[p][i] < n {
      ChainBelow(fat, n, chains, p, chains[p][i]);
    }
    IncreasingBound(chains[p], n);
  }

  lemma HeadOfChain(fat: seq<u32>, n: nat, chains: Chains, p: Path)
    requires Partitioned(fat, n, chains) && p in chains && n <= 0x80_0000
    ensures |chains[p]| > 0 && chains[p][0] == HeadAt(chains, p) && 0 < chains[p][0] < n
  {
    ChainBelow(fat, n, chains, p, chains[p][0]);
  }

  /** The head of a path's chain, on a consistent image. */
  lemma HeadOnDisk(dt: Disk, p: Path)
    requires dt.Valid() && p in dt.chains
    ensures |dt.chains[p]| > 0 && dt.chains[p][0] == HeadAt(dt.chains, p)
    ensures 1 <= |dt.chains[p]| <= 0x80_0000
  {
    hide Partitioned;
    GeometryFits(dt.totSecNum, dt.fatSecNum, dt.fatNum, dt.dtSize);
    HeadOfChain(dt.fat, dt.fatNum, dt.chains, p);
    ChainSize(dt.fat, dt.fatNum, dt.chains, p);
  }

  lemma ValidFacts(dt: Disk)
    requires dt.Valid()
    ensures Partitioned(dt.fat, dt.fatNum, dt.chains) && |dt.data| == dt.fatNum <= 0x80_0000
  {
    hide Partitioned;
    GeometryFits(dt.totSecNum, dt.fatSecNum, dt.fatNum, dt.dtSize);
  }

  /** The number of bytes of src that matter for obj. */
  ghost function BodySize(src: seq<byte>, obj: Obj): nat
    requires |src| >= 64
  {
    if obj.Dir? then DecodeMeta(src).flen else 64 + DecodeMeta(src).strbase
  }

  lemma FileBytesPrefix(b: seq<byte>, c: seq<byte>, flen: u64, table: seq<Desc>)
    requires FileBytes(b, flen, table)
    requires var n := 64 + 32 * |table|; n <= |c| && c[..n] == b[..n]
    ensures FileBytes(c, flen, table)
  {
    var n := 64 + 32 * |table|;
    SliceOfSlice(b, 0, n, 0, 64);
    SliceOfSlice(c, 0, n, 0, 64);
    DecodeMetaSame(b, c);
    forall i | 0 <= i < |table| ensures DescAt(c, i) == table[i] {
      SliceOfSlice(b, 0, n, 64 + 32 * i, 64 + 32 * i + 32);
      SliceOfSlice(c, 0, n, 64 + 32 * i, 64 + 32 * i + 32);
    }
  }

  /** What has been written out stands on disk. */
  lemma HeldBytes(data: seq<Sector>, c: seq<nat>, src: seq<byte>, t: Tree, chains: Chains, p: Path, obj: Obj)
    requires ObjBytes(src, t, chains, p, obj, |c|) && 1 <= |c| <= 0x80_0000
    requires Holds(data, c, src, BodySize(src, obj)) && 64 <= BodySize(src, obj)
    ensures ObjBytes(Content(data, c), t, chains, p, obj, |c|)
  {
    var b := Content(data, c);
    var n := BodySize(src, obj);
    SliceOfSlice(src, 0, n, 0, 64);
    SliceOfSlice(b, 0, n, 0, 64);
    DecodeMetaSame(src, b);
    match obj
    case Dir(_, _, names) =>
      DirBytesPrefix(src, b, EntsAt(t, chains, p, names));
    case File(_, _, flen, table) =>
      FileBytesPrefix(src, b, flen, table);
  }

  // ----- allocating a chain for a new path -----

  lemma AllocEnts(chains: Chains, chains': Chains, t: Tree, q: Path, p: Path)
    requires WellFormed(t) && q !in t && p in t && t[p].Dir? && Elsewhere(chains, chains', q)
    ensures SameEnts(t, chains, t, chains', p, t[p].names)
  {
    if p != [] { ParentInTree(t, p); }
    forall x | x in t[p].names ensures p + [x] in t {
      ChildInTree(t, p, x);
    }
  }

  lemma WroteOutside(fat: seq<u32>, n: nat, data: seq<Sector>, data': seq<Sector>, chains: Chains, chains': Chains,
                     q: Path, t: Tree, p: Path)
    requires Wrote(fat, n, data, data', chains, chains', q)
    requires Stands(data, chains, t, p) && p != q
    ensures p in t && p in chains && p in chains' && chains'[p] == chains[p] && SameSectors(data, data', chains[p])
  {
    OutsideKept(fat, n, data, data', chains', p, q);
  }

  lemma AllocStands(fat: seq<u32>, n: nat, data: seq<Sector>, data': seq<Sector>, chains: Chains, chains': Chains,
                    t: Tree, q: Path, p: Path)
    requires Wrote(fat, n, data, data', chains, chains', q)
    requires WellFormed(t) && Stands(data, chains, t, p) && q !in t && p in t
    ensures Stands(data', chains', t, p)
  {
    assert Elsewhere(chains, chains', q);
    hide Wrote, Stands, WellFormed, SameSectors, SameEnts, Elsewhere;
    WroteOutside(fat, n, data, data', chains, chains', q, t, p);
    if t[p].Dir? {
      AllocEnts(chains, chains', t, q, p);
    }
    StandsKept(data, chains, t, data', chains', t, p);
  }

  // ----- rewriting the chain of one path -----

  /** t' differs from t at d only, and d keeps its kind. */
  ghost predicate ChangedAt(t: Tree, t': Tree, d: Path) {
    && d in t && d in t' && t'[d].Dir? == t[d].Dir?
    && (forall p :: p in t && p in t' && p != d ==> t'[p] == t[p])
  }

  lemma RewriteEnts(chains: Chains, chains': Chains, t: Tree, t': Tree, d: Path, p: Path)
    requires p in t && t[p].Dir?
    requires forall x {:trigger p + [x]} :: x in t[p].names ==> p + [x] in t && p + [x] in t'
    requires ChangedAt(t, t', d) && Elsewhere(chains, chains', d) && HeadAt(chains', d) == HeadAt(chains, d)
    ensures SameEnts(t, chains, t', chains', p, t[p].names)
  {
  }

  lemma RewriteStands(fat: seq<u32>, n: nat, data: seq<Sector>, data': seq<Sector>, chains: Chains, chains': Chains,
                      t: Tree, t': Tree, d: Path, p: Path)
    requires Wrote(fat, n, data, data', chains, chains', d) && HeadAt(chains', d) == HeadAt(chains, d)
    requires Stands(data, chains, t, p) && p != d && p in t' && p in t
    requires t[p].Dir? ==> forall x {:trigger p + [x]} :: x in t[p].names ==> p + [x] in t && p + [x] in t'
    requires ChangedAt(t, t', d)
    ensures Stands(data', chains', t', p)
  {
    assert Elsewhere(chains, chains', d) && t'[p] == t[p];
    hide Wrote, Stands, SameSectors, SameEnts, Elsewhere, ChangedAt, HeadAt;
    WroteOutside(fat, n, data, data', chains, chains', d, t, p);
    if t[p].Dir? {
      RewriteEnts(chains, chains', t, t', d, p);
    }
    StandsKept(data, chains, t, data', chains', t', p);
  }

  /** The rewritten file itself, whose entries name the same heads as before. */
  lemma RewrittenStands(fat: seq<u32>, n: nat, data: seq<Sector>, data': seq<Sector>, chains: Chains, chains': Chains,
                        t: Tree, d: Path, obj: Obj)
    requires WellFormed(t) && d in t && SameShape(t[d], obj)
    requires Wrote(fat, n, data, data', chains, chains', d) && HeadAt(chains', d) == HeadAt(chains, d)
    requires ObjBytes(Content(data', chains'[d]), t, chains, d, obj, |chains'[d]|)
    ensures Stands(data', chains', t[d := obj], d)
  {
    if t[d].Dir? {
      var t' := t[d := obj];
      forall x | x in t[d].names ensures d + [x] in t { ChildInTree(t, d, x); }
      assert ChangedAt(t, t', d);
      RewriteEnts(chains, chains', t, t', d, d);
      EntsSame(t, chains, t', chains', d, t[d].names);
    }
  }

  /** Writing a chain leaves the root entry valid and adds no path but the one written. */
  lemma WroteRoot(fat: seq<u32>, n: nat, data: seq<Sector>, data': seq<Sector>, chains: Chains, chains': Chains,
                  q: Path)
    requires Wrote(fat, n, data, data', chains, chains', q) && RootEntry(data, chains)
    requires q != [] || HeadAt(chains', q) == HeadAt(chains, q)
    ensures RootEntry(data', chains') && chains'.Keys == chains.Keys + {q}
  {
    hide Partitioned, Untouched, Covered, DecodeEntry;
    RootKept(fat, n, data, data', chains', q);
  }

  lemma RepresentsFacts(data: seq<Sector>, chains: Chains, t: Tree)
    requires Represents(data, chains, t)
    ensures WellFormed(t) && chains.Keys == t.Keys && RootEntry(data, chains) && AllStand(data, chains, t, t.Keys)
  {
  }

  lemma RepresentsIntro(data: seq<Sector>, chains: Chains, t: Tree)
    requires WellFormed(t) && chains.Keys == t.Keys && RootEntry(data, chains) && AllStand(data, chains, t, t.Keys)
    ensures Represents(data, chains, t)
  {
  }

  /** The paths in s stand on disk. */
  ghost predicate AllStand(data: seq<Sector>, chains: Chains, t: Tree, s: set<Path>) {
    forall p {:trigger Stands(data, chains, t, p)} :: p in s ==> Stands(data, chains, t, p)
  }

  lemma OneStands(data: seq<Sector>, chains: Chains, t: Tree, s: set<Path>, p: Path)
    requires AllStand(data, chains, t, s) && p in s
    ensures Stands(data, chains, t, p)
  {
  }

  lemma AllButOne(data: seq<Sector>, chains: Chains, t: Tree, s: set<Path>, d: Path)
    requires AllStand(data, chains, t, s) && Stands(data, chains, t, d)
    ensures AllStand(data, chains, t, s + {d})
  {
    hide Stands;
  }

  lemma RewriteOthers(fat: seq<u32>, n: nat, data: seq<Sector>, data': seq<Sector>, chains: Chains, chains': Chains,
                      t: Tree, d: Path, obj: Obj, p: Path)
    requires Wrote(fat, n, data, data', chains, chains', d) && HeadAt(chains', d) == HeadAt(chains, d)
    requires WellFormed(t) && Stands(data, chains, t, p) && p in t && p != d && d in t && SameShape(t[d], obj)
    ensures Stands(data', chains', t[d := obj], p)
  {
    hide Wrote, Stands, HeadAt;
    var t' := t[d := obj];
    if t[p].Dir? {
      forall x | x in t[p].names ensures p + [x] in t && p + [x] in t' { ChildInTree(t, p, x); }
    }
    RewriteStands(fat, n, data, data', chains, chains', t, t', d, p);
  }

  lemma RewriteAllOthers(fat: seq<u32>, n: nat, data: seq<Sector>, data': seq<Sector>, chains: Chains, chains': Chains,
                         t: Tree, d: Path, obj: Obj)
    requires Wrote(fat, n, data, data', chains, chains', d) && HeadAt(chains', d) == HeadAt(chains, d)
    requires WellFormed(t) && AllStand(data, chains, t, t.Keys) && d in t && SameShape(t[d], obj)
    ensures AllStand(data', chains', t[d := obj], t.Keys - {d})
  {
    hide Wrote, Stands, HeadAt, WellFormed, SameShape;
    forall p | p in t.Keys - {d} ensures Stands(data', chains', t[d := obj], p) {
      OneStands(data, chains, t, t.Keys, p);
      RewriteOthers(fat, n, data, data', chains, chains', t, d, obj, p);
    }
  }

  /** Rewriting the file at d, by bytes that stand for its new object, changes that object only. */
  lemma RewriteRepresents(fat: seq<u32>, n: nat, data: seq<Sector>, data': seq<Sector>, chains: Chains, chains': Chains,
                          t: Tree, d: Path, obj: Obj)
    requires Represents(data, chains, t) && d in t && SameShape(t[d], obj)
    requires Wrote(fat, n, data, data', chains, chains', d) && HeadAt(chains', d) == HeadAt(chains, d)
    requires ObjBytes(Content(data', chains'[d]), t, chains, d, obj, |chains'[d]|)
    ensures Represents(data', chains', t[d := obj])
  {
    hide *;
    RepresentsFacts(data, chains, t);
    SetObjWellFormed(t, d, obj);
    WroteRoot(fat, n, data, data', chains, chains', d);
    RewrittenStands(fat, n, data, data', chains, chains', t, d, obj);
    RewriteAllOthers(fat, n, data, data', chains, chains', t, d, obj);
    AllButOne(data', chains', t[d := obj], t.Keys - {d}, d);
    assert t.Keys - {d} + {d} == t[d := obj].Keys;
    RepresentsIntro(data', chains', t[d := obj]);
  }
}
