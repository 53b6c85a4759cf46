/** Opening a fresh disk: formatting the image and making the root directory. */
module Format {
  import opened Bytes
  import opened Changes
  import opened Codec
  import opened Create
  import opened Directory
  import opened Disk
  import opened Fat
  import opened Image
  import opened Lookup
  import opened Ops
  import opened Room
  import opened Sectors
  import opened Tree

  /** The tree of a freshly formatted disk: an empty root directory of user 0. */
  const FRESH: Tree := map[[] := Dir(0, INITMODE, [])]

  lemma FreshWellFormed()
    ensures WellFormed(FRESH) && FRESH.Keys == {[]}
  {
    assert UpOk(FRESH, []) && ChildrenOk(FRESH, []);
  }

  lemma RootObj(data: seq<Sector>, chains: Chains, fb: u32, now: u64)
    requires [] in chains && Covered(data, chains[[]]) && |chains[[]]| == 1 && chains[[]][0] == fb
    requires Holds(data, chains[[]], FreshDir(0, fb, fb, now), 101)
    ensures ObjBytes(Content(data, chains[[]]), FRESH, chains, [], Dir(0, INITMODE, []), 1)
  {
    FreshDirBytes(0, fb, fb, now);
    assert EntsAt(FRESH, chains, [], []) == [DirEnt(DOT, fb, S_DIR), DirEnt(DOTDOT, fb, S_DIR)];
    hide DirBytes, FreshDir, DecodeMeta, Content, Covered;
    HeldBytes(data, chains[[]], FreshDir(0, fb, fb, now), FRESH, chains, [], Dir(0, INITMODE, []));
  }

  lemma RootStands(data: seq<Sector>, data': seq<Sector>, chains: Chains, fb: u32, e: Entry)
    requires [] in chains && Covered(data, chains[[]]) && |chains[[]]| == 1 && chains[[]][0] == fb > 0
    requires ObjBytes(Content(data, chains[[]]), FRESH, chains, [], Dir(0, INITMODE, []), 1)
    requires |data| > 0 && data' == data[0 := Overwrite(data[0], EncodeEntry(e))]
    requires e.fb == fb && e.kind == S_DIR
    ensures Stands(data', chains, FRESH, []) && RootEntry(data', chains)
  {
    ContentSame(data, data', chains[[]]);
    EntryRoundTrip(e);
    EntryPrefix(EncodeEntry(e), data[0][16..]);
  }

  lemma EntryPrefix(x: seq<byte>, rest: seq<byte>)
    requires |x| == 16
    ensures DecodeEntry(x + rest) == DecodeEntry(x)
  {
    assert (x + rest)[..8] == x[..8] && (x + rest)[8..][..4] == x[8..][..4] && (x + rest)[13..16] == x[13..16];
  }

  lemma FreshReady(dt: Disk)
    requires dt.Valid() && dt.tree == FRESH && dt.chains.Keys == {[]}
    requires Stands(dt.data, dt.chains, FRESH, []) && RootEntry(dt.data, dt.chains)
    ensures Ready(dt)
  {
    FreshWellFormed();
    hide Stands, RootEntry, WellFormed, Partitioned;
    RepresentsIntro(dt.data, dt.chains, dt.tree);
  }

  lemma WroteFirst(dt: Disk, d0: seq<Sector>)
    requires dt.Valid() && Wrote(dt.fat, dt.fatNum, d0, dt.data, map[], dt.chains, [])
    ensures [] in dt.chains && dt.chains.Keys == {[]} && Covered(dt.data, dt.chains[[]]) && |dt.data| > 0
  {
  }

  /** In a fresh table only sector 0 is in use. */
  lemma FreshRoom(dt: Disk)
    requires dt.Valid() && dt.fatNum == 62 && dt.dtSize == INIT_MAX
    requires forall s :: 0 < s < |dt.fat| ==> dt.fat[s] == FREESEC
    ensures Rank(dt.fat, dt.fatNum, 0) == 1 && Top(dt.fat) == 1 && Sized(dt.dtSize)
    ensures Fits(dt.dtSize, 2) && FitSize(dt.dtSize, 2) == INIT_MAX
  {
    ValidParts(dt);
    FreeInAll(dt.fat, 0, 62);
    TopAtMost(dt.fat, 1);
    TopAbove(dt.fat, 0);
    FitsExact(2);
  }

  /** open_disk without an image file to load: a fresh image holds the empty root directory.  There
      is always room for it. */
  method OpenDisk(now: u64) returns (dt: Disk)
    ensures Ready(dt) && dt.tree == FRESH && dt.maxBlockNum == 0 && dt.ipIndex == 0
    ensures fresh(dt) && dt.dtSize == INIT_MAX && Top(dt.fat) <= 2
  {
    hide *;
    dt := new Disk();
    FreshRoom(dt);
    ghost var d0, f0 := dt.data, dt.fat;
    var ok, fb := InitDir(dt, 0, None, now, []);
    FreshSize(f0, dt.fat, dt.dtSize);
    WroteFirst(dt, d0);
    HeadOnDisk(dt, []);
    ValidFacts(dt);
    var e := Entry(0, fb, S_DIR, [0, 0, 0]);
    RootObj(dt.data, dt.chains, fb, now);
    FirstAbove(dt, []);
    RootStands(dt.data, dt.data[0 := Overwrite(dt.data[0], EncodeEntry(e))], dt.chains, fb, e);
    dt.Store(0, EncodeEntry(e));
    dt.SetTree(FRESH);
    FreshReady(dt);
  }

  lemma FreshSize(f0: seq<u32>, fat: seq<u32>, size: nat)
    requires Takes(f0, INIT_MAX, fat, size, 1) && Top(f0) == 1
    ensures size == INIT_MAX && Top(fat) <= 2
  {
    hide Fits, FitSize, Top;
    var x: int :| x <= 2 && Fits(INIT_MAX, x) && size == FitSize(INIT_MAX, x);
    FitsExact(x);
  }

  lemma FirstAbove(dt: Disk, p: Path)
    requires dt.Valid() && p in dt.chains
    ensures |dt.chains[p]| > 0 && dt.chains[p][0] > 0
  {
    ChainBelow(dt.fat, dt.fatNum, dt.chains, p, dt.chains[p][0]);
  }
}
