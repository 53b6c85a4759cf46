/** What reset_fat does to the reserved sector 0. */
module Reset {
  import opened Bytes
  import opened Disk
  import opened Fat
  import opened Image
  import opened Room
  import opened Sectors

  lemma NextInUse(fat: seq<u32>, n: nat, chains: Chains, s: nat)
    requires Partitioned(fat, n, chains) && 0 < s < |fat| && fat[s] != FREESEC
    ensures fat[s] != 0xFFFF_FFFF ==> 0 < fat[s] < |fat| && fat[fat[s]] != FREESEC
  {
    assert Owned(chains, s);
    var p :| p in chains && s in chains[p];
    var d := chains[p];
    assert Chain(fat, d);
    var j :| 0 <= j < |d| && d[j] == s;
    if j < |d| - 1 {
      assert fat[d[j]] == d[j + 1];
      NotFree(fat, d, d[j + 1]);
    }
  }

  lemma WalkLink(fat: seq<u32>, c: seq<nat>, i: nat)
    requires LinkWalk(fat, c) && i < |c|
    ensures c[i] < |fat| && c[0] < |fat| && (i < |c| - 1 ==> fat[c[i]] == c[i + 1])
  {
  }

  lemma {:induction false} WalkStaysInUse(fat: seq<u32>, n: nat, chains: Chains, c: seq<nat>, i: nat)
    requires Partitioned(fat, n, chains) && LinkWalk(fat, c) && |fat| <= 0x100_0000
    requires 0 < c[0] < |fat| && fat[c[0]] != FREESEC && i < |c|
    ensures 0 < c[i] < |fat| && fat[c[i]] != FREESEC
  {
    hide *;
    WalkLink(fat, c, i);
    if i > 0 {
      WalkLink(fat, c, i - 1);
      WalkStaysInUse(fat, n, chains, c, i - 1);
      NextInUse(fat, n, chains, c[i - 1]);
    }
  }

  /** reset_fat keeps the reserved sector 0 exactly if the sector it starts from is in use; from a
      free one the link 0 leads it to sector 0, which it frees. */
  lemma ResetKeepsRoot(fat: seq<u32>, fat': seq<u32>, n: nat, chains: Chains, fb: nat, walk: seq<nat>)
    requires Partitioned(fat, n, chains) && 0 < fb < |fat| <= 0x100_0000
    requires LinkWalk(fat, walk) && walk[0] == fb && Freed(fat, fat', walk)
    ensures fat'[0] == ENDSEC <==> fat[fb] != FREESEC
    ensures fat[fb] == FREESEC ==> fat'[0] == FREESEC
  {
    if fat[fb] == FREESEC {
      if |walk| > 1 {
        assert fat[walk[0]] == walk[1];
        assert walk[1] in walk;
      }
    } else if 0 in walk {
      var i :| 0 <= i < |walk| && walk[i] == 0;
      WalkStaysInUse(fat, n, chains, walk, i);
    }
  }

  /** Such walks from free sectors exist: of the sector itself and sector 0. */
  lemma FreeHeadWalk(fat: seq<u32>, n: nat, chains: Chains, fb: nat)
    requires Partitioned(fat, n, chains) && 0 < fb < |fat| && fat[fb] == FREESEC
    ensures LinkWalk(fat, [fb, 0])
  {
  }

  /** Sector 0 is not reserved any more, and no set of files accounts for the table. */
  ghost predicate RootLost(fat: seq<u32>) {
    && |fat| > 0 && fat[0] == FREESEC
    && forall m: nat, cs: Chains :: !Partitioned(fat, m, cs)
  }

  /** When the chain of a file is freed, its head is freed again, and then written anew, upward from
      there, sector 0 is free from then on. */
  lemma FreedTwice(fat: seq<u32>, n: nat, chains: Chains, fb: nat, walk: seq<nat>, fat': seq<u32>, c: seq<nat>,
                   fat'': seq<u32>)
    requires Partitioned(fat, n, chains) && 0 < fb < |fat| <= 0x100_0000 && fat[fb] == FREESEC
    requires LinkWalk(fat, walk) && walk[0] == fb && Freed(fat, fat', walk)
    requires Linking(fat', fat'', c, ENDSEC) && c[0] == fb
    ensures RootLost(fat'')
  {
    ResetKeepsRoot(fat, fat', n, chains, fb, walk);
    assert 0 !in c by {
      assert forall i :: 0 < i < |c| ==> c[0] < c[i];
    }
  }

  lemma StillShaped(dt: Disk)
    requires Geometry(dt.totSecNum, dt.fatSecNum, dt.fatNum, dt.dtSize)
    requires |dt.fat| == 128 * dt.fatSecNum && |dt.data| == dt.fatNum
    requires forall s :: dt.fatNum <= s < |dt.fat| ==> dt.fat[s] == FREESEC
    ensures dt.Shape()
  {
  }

  lemma FreedHeadWalks(dt: Disk, fb: nat)
    requires dt.Valid() && 0 < fb < dt.fatNum && fb < |dt.fat| && dt.fat[fb] == FREESEC
    ensures dt.Shape() && Partitioned(dt.fat, dt.fatNum, dt.chains) && LinkWalk(dt.fat, [fb, 0])
    ensures |dt.fat| <= 0x100_0000 && |dt.fat| < ENDSEC && |dt.data| == dt.fatNum <= |dt.fat|
    ensures fb < dt.fatNum
    ensures Geometry(dt.totSecNum, dt.fatSecNum, dt.fatNum, dt.dtSize) && |dt.fat| == 128 * dt.fatSecNum
    ensures forall s :: dt.fatNum <= s < |dt.fat| ==> dt.fat[s] == FREESEC
  {
    GeometryFits(dt.totSecNum, dt.fatSecNum, dt.fatNum, dt.dtSize);
    FreeHeadWalk(dt.fat, dt.fatNum, dt.chains, fb);
  }

  lemma FreeAgain(f: seq<u32>, f2: seq<u32>, walk: seq<nat>)
    requires Freed(f, f2, walk) && |walk| > 0 && walk[0] < |f|
    ensures |f2| == |f| && f2[walk[0]] == FREESEC
    ensures forall s :: 0 <= s < |f| && f[s] == FREESEC ==> f2[s] == FREESEC
  {
    FreedHead(f, f2, walk);
  }

  lemma RankFreedBelow(f: seq<u32>, f2: seq<u32>, n: nat, fb: nat)
    requires Freed(f, f2, [fb, 0]) && fb < n <= |f|
    ensures Rank(f2, n, fb) == Rank(f, n, fb)
  {
    FreeInSame(f, f2, fb, n);
  }

  lemma LinkedAnew(f2: seq<u32>, fat: seq<u32>, data: seq<Sector>, c: seq<nat>, d0: seq<Sector>, src: seq<byte>,
                   size: nat)
    requires Writing(f2, d0, fat, data, c, |c|, src, size, ENDSEC)
    ensures Linking(f2, fat, c, ENDSEC)
  {
  }

  /** do_writefile on a head that is free: it frees the chain from there, which leads to sector 0, and
      links a new one. */
  method DoWriteFree(dt: Disk, fb: nat, src: seq<byte>, size: nat, count: nat) returns (ok: bool)
    requires dt.Valid() && 0 < fb < dt.fatNum && fb < |dt.fat| && dt.fat[fb] == FREESEC && Covers(src, size, count)
    modifies dt`totSecNum, dt`fatSecNum, dt`fatNum, dt`dtSize, dt`fat, dt`data
    ensures ok <==> Fits(old(dt.dtSize), Rank(old(dt.fat), old(dt.fatNum), fb) + count - 1)
    ensures ok ==> RootLost(dt.fat)
    ensures ok ==> dt.dtSize == FitSize(old(dt.dtSize), Rank(old(dt.fat), old(dt.fatNum), fb) + count - 1)
  {
    hide *;
    ghost var f, n, cs := dt.fat, dt.fatNum, dt.chains;
    FreedHeadWalks(dt, fb);
    dt.ResetFat(fb, [fb, 0]);
    ghost var f2, d2 := dt.fat, dt.data;
    FreeAgain(f, f2, [fb, 0]);
    RankFreedBelow(f, f2, n, fb);
    StillShaped(dt);
    ghost var c;
    ok, c := dt.WriteChain(fb, src, size, count);
    if ok {
      LinkedAnew(f2, dt.fat, dt.data, c, d2, src, size);
      FreedTwice(f, n, cs, fb, [fb, 0], f2, c, dt.fat);
    }
  }
}
