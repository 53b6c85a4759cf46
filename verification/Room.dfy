/** How far an image is used, and how large it must get to take more sectors. */
module Room {
  import opened Bytes
  import opened Fat

  // ----- free sectors -----

  /** The number of free sectors above lo and below hi. */
  ghost function FreeIn(fat: seq<u32>, lo: nat, hi: nat): nat {
    if hi <= lo + 1 then 0
    else FreeIn(fat, lo, hi - 1) + (if hi - 1 < |fat| && fat[hi - 1] == FREESEC then 1 else 0)
  }

  lemma {:induction false} FreeInBound(fat: seq<u32>, lo: nat, hi: nat)
    requires lo < hi
    ensures FreeIn(fat, lo, hi) <= hi - lo - 1
  {
    if hi > lo + 1 {
      FreeInBound(fat, lo, hi - 1);
    }
  }

  lemma {:induction false} FreeInSplit(fat: seq<u32>, lo: nat, mid: nat, hi: nat)
    requires lo <= mid < hi
    ensures FreeIn(fat, lo, hi) == FreeIn(fat, lo, mid + 1) + FreeIn(fat, mid, hi)
  {
    if hi > mid + 1 {
      FreeInSplit(fat, lo, mid, hi - 1);
    }
  }

  lemma {:induction false} FreeInNone(fat: seq<u32>, lo: nat, hi: nat)
    requires hi <= |fat|
    ensures FreeIn(fat, lo, hi) == 0 <==> forall s :: lo < s < hi ==> fat[s] != FREESEC
  {
    if hi > lo + 1 {
      FreeInNone(fat, lo, hi - 1);
      assert FreeIn(fat, lo, hi) == 0 ==> forall s :: lo < s < hi - 1 ==> fat[s] != FREESEC;
    }
  }

  lemma {:induction false} FreeInAll(fat: seq<u32>, lo: nat, hi: nat)
    requires lo < hi <= |fat| && forall s :: lo < s < hi ==> fat[s] == FREESEC
    ensures FreeIn(fat, lo, hi) == hi - lo - 1
  {
    if hi > lo + 1 {
      FreeInAll(fat, lo, hi - 1);
    }
  }

  lemma {:induction false} FreeInSame(fat: seq<u32>, fat': seq<u32>, lo: nat, hi: nat)
    requires hi <= |fat| && hi <= |fat'| && forall s :: lo < s < hi ==> fat[s] == fat'[s]
    ensures FreeIn(fat, lo, hi) == FreeIn(fat', lo, hi)
  {
    if hi > lo + 1 {
      FreeInSame(fat, fat', lo, hi - 1);
    }
  }

  /** Freeing one more sector. */
  lemma {:induction false} FreeInOne(fat: seq<u32>, x: nat, lo: nat, hi: nat)
    requires lo < x < hi <= |fat| && fat[x] != FREESEC
    ensures FreeIn(fat[x := FREESEC], lo, hi) == FreeIn(fat, lo, hi) + 1
  {
    if x < hi - 1 {
      FreeInOne(fat, x, lo, hi - 1);
    } else {
      FreeInSame(fat, fat[x := FREESEC], lo, hi - 1);
    }
  }

  /** The least free sector above lo is counted first. */
  lemma FreeInLeast(fat: seq<u32>, lo: nat, next: nat, hi: nat)
    requires lo < next < hi <= |fat| && fat[next] == FREESEC && forall s :: lo < s < next ==> fat[s] != FREESEC
    ensures FreeIn(fat, lo, hi) == 1 + FreeIn(fat, next, hi)
  {
    FreeInSplit(fat, lo, next, hi);
    FreeInNone(fat, lo, next);
  }

  /** Freeing a chain makes room for as many sectors above its head as it had. */
  lemma {:induction false} FreeInFreed(fat: seq<u32>, fat': seq<u32>, c: seq<nat>, hi: nat)
    requires Freed(fat, fat', c) && |c| > 0 && Increasing(c) && hi <= |fat|
    requires forall i :: 0 <= i < |c| ==> c[i] < hi && fat[c[i]] != FREESEC
    ensures FreeIn(fat', c[0], hi) == FreeIn(fat, c[0], hi) + |c| - 1
    decreases |c|
  {
    var n := |c| - 1;
    if n == 0 {
      FreeInSame(fat, fat', c[0], hi);
    } else {
      var x := c[n];
      var mid := fat'[x := fat[x]];
      AllButLast(fat, fat', c);
      hide Freed, Increasing, FreeIn;
      FreeInFreed(fat, mid, c[..n], hi);
      FreeInOne(mid, x, c[0], hi);
    }
  }

  /** The last sector of a freed chain apart from the others. */
  lemma AllButLast(fat: seq<u32>, fat': seq<u32>, c: seq<nat>)
    requires Freed(fat, fat', c) && |c| > 1 && Increasing(c) && c[|c| - 1] < |fat|
    ensures var n, x := |c| - 1, c[|c| - 1];
            && c[0] < x && Increasing(c[..n]) && |fat'| == |fat|
            && Freed(fat, fat'[x := fat[x]], c[..n]) && fat'[x := fat[x]][x := FREESEC] == fat'
  {
    var n, x := |c| - 1, c[|c| - 1];
    assert c == c[..n] + [x] && x !in c[..n];
  }

  /** Some sector from base on is free. */
  ghost predicate AnyFree(fat: seq<u32>, base: nat, n: nat) {
    exists s :: base <= s < n && s < |fat| && fat[s] == FREESEC
  }

  // ----- where the next sector will be -----

  /** How many data sectors there must be for the sectors in use and a walk that has come to cur: those
      above cur that are taken are skipped. */
  ghost function Rank(fat: seq<u32>, n: nat, cur: nat): int {
    n - FreeIn(fat, cur, n)
  }

  lemma RankAbove(fat: seq<u32>, n: nat, cur: nat)
    requires cur < n
    ensures cur < Rank(fat, n, cur) <= n
  {
    FreeInBound(fat, cur, n);
  }

  /** One step of a walk, to the least free sector of the table. */
  lemma RankNext(fat: seq<u32>, n: nat, cur: nat, next: nat)
    requires cur < next < n <= |fat| && fat[next] == FREESEC && forall s :: cur < s < next ==> fat[s] != FREESEC
    ensures Rank(fat, n, next) == Rank(fat, n, cur) + 1
  {
    FreeInLeast(fat, cur, next, n);
  }

  /** Or to the first of the sectors that have been added because there was none. */
  lemma RankGrown(fat: seq<u32>, n: nat, fat': seq<u32>, n': nat, cur: nat)
    requires cur < n < n' <= |fat'| && n <= |fat| && (forall s :: cur < s < n ==> fat[s] != FREESEC)
    requires forall s :: n <= s < n' ==> fat'[s] == FREESEC
    ensures Rank(fat', n', n) == Rank(fat, n, cur) + 1 == n + 1
  {
    FreeInNone(fat, cur, n);
    FreeInAll(fat', n, n');
  }

  // ----- the highest sector in use -----

  /** The number of entries of the table up to the last one in use. */
  ghost function Top(fat: seq<u32>): nat {
    if fat == [] then 0 else if fat[|fat| - 1] != FREESEC then |fat| else Top(fat[..|fat| - 1])
  }

  lemma {:induction false} TopFacts(fat: seq<u32>)
    ensures Top(fat) <= |fat| && (Top(fat) > 0 ==> fat[Top(fat) - 1] != FREESEC)
    ensures forall s :: Top(fat) <= s < |fat| ==> fat[s] == FREESEC
  {
    if fat != [] && fat[|fat| - 1] == FREESEC {
      TopFacts(fat[..|fat| - 1]);
    }
  }

  lemma TopAtMost(fat: seq<u32>, top: nat)
    requires forall s :: top <= s < |fat| ==> fat[s] == FREESEC
    ensures Top(fat) <= top
  {
    TopFacts(fat);
  }

  lemma TopAbove(fat: seq<u32>, s: nat)
    requires s < |fat| && fat[s] != FREESEC
    ensures s < Top(fat)
  {
    TopFacts(fat);
  }

  /** A walk has room above the sectors in use. */
  lemma RankTop(fat: seq<u32>, n: nat, cur: nat)
    requires cur < n <= |fat|
    ensures Rank(fat, n, cur) <= MaxOf(Top(fat), cur + 1)
  {
    var top := Top(fat);
    TopFacts(fat);
    if top <= cur {
      FreeInAll(fat, cur, n);
    } else if top < n {
      FreeInSplit(fat, cur, top - 1, n);
      FreeInAll(fat, top - 1, n);
    }
  }

  lemma TopGrown(fat: seq<u32>, fat': seq<u32>)
    requires |fat| <= |fat'| && fat'[..|fat|] == fat && forall s :: |fat| <= s < |fat'| ==> fat'[s] == FREESEC
    ensures Top(fat') <= Top(fat)
  {
    TopFacts(fat);
    forall s | Top(fat) <= s < |fat'| ensures fat'[s] == FREESEC {
      if s < |fat| {
        assert fat'[s] == fat'[..|fat|][s];
      }
    }
    TopAtMost(fat', Top(fat));
  }

  lemma TopFreed(fat: seq<u32>, fat': seq<u32>, c: seq<nat>)
    requires Freed(fat, fat', c)
    ensures Top(fat') <= Top(fat)
  {
    TopFacts(fat);
    TopAtMost(fat', Top(fat));
  }

  lemma TopPut(fat: seq<u32>, x: nat, v: u32, top: int)
    requires x < |fat| && Top(fat) <= top && x < top
    ensures Top(fat[x := v]) <= top
  {
    TopFacts(fat);
    TopAtMost(fat[x := v], top);
  }

  lemma RankPut(fat: seq<u32>, n: nat, cur: nat, v: u32)
    requires cur < n <= |fat|
    ensures Rank(fat[cur := v], n, cur) == Rank(fat, n, cur)
  {
    FreeInSame(fat, fat[cur := v], cur, n);
  }

  // ----- the size an image needs -----

  /** The number of data sectors in an image of that size. */
  ghost function Cap(size: nat): int {
    (size - 4 * (size / 512) - 512) / 512
  }

  /** The size of the image once it has been doubled until it has that many data sectors, or until it
      cannot be doubled any more. */
  ghost function FitSize(size: nat, need: int): nat
    decreases if size < 0x1_0000_0000 then 0x1_0000_0000 - size else 0
  {
    if need <= Cap(size) || size == 0 || 2 * size >= 0x1_0000_0000 then size else FitSize(2 * size, need)
  }

  /** An image of at most 2 GiB that has been got by doubling has that many data sectors. */
  ghost predicate Fits(size: nat, need: int) {
    need <= Cap(FitSize(size, need))
  }

  lemma CapIs(k: nat)
    ensures Cap(512 * k) == (508 * k - 512) / 512
  {
    assert 512 * k / 512 == k;
  }

  lemma DivMore(a: int, b: int)
    requires b >= a + 512
    ensures b / 512 > a / 512
  {
  }

  lemma CapDoubles(size: nat)
    requires size % 512 == 0 && size >= 0x8000
    ensures Cap(2 * size) > Cap(size) && 2 * size % 512 == 0
  {
    var k := size / 512;
    assert size == 512 * k;
    CapIs(k);
    CapIs(2 * k);
    hide Cap;
    DivMore(508 * k - 512, 508 * (2 * k) - 512);
  }

  lemma FitNone(size: nat, need: int)
    requires need <= Cap(size)
    ensures FitSize(size, need) == size && Fits(size, need)
  {
  }

  /** One sector more than there are needs one doubling. */
  lemma FitOne(size: nat, need: int)
    requires size % 512 == 0 && 0x8000 <= size < 0x1_0000_0000 && need == Cap(size) + 1
    ensures Fits(size, need) <==> 2 * size < 0x1_0000_0000
    ensures 2 * size < 0x1_0000_0000 ==> FitSize(size, need) == 2 * size
  {
    CapDoubles(size);
    hide Cap;
    if 2 * size < 0x1_0000_0000 {
      FitNone(2 * size, need);
    }
  }

  lemma {:induction false} FitSound(size: nat, need: int)
    requires size % 512 == 0 && 0x8000 <= size < 0x1_0000_0000
    ensures var r := FitSize(size, need); r % 512 == 0 && size <= r < 0x1_0000_0000 && Cap(size) <= Cap(r)
    decreases 0x1_0000_0000 - size
  {
    hide *;
    CapDoubles(size);
    FitStep(size, need);
    if need > Cap(size) && 2 * size < 0x1_0000_0000 {
      FitSound(2 * size, need);
    }
  }

  /** One doubling, where the image is too small and can be doubled. */
  lemma FitStep(size: nat, need: int)
    requires 0 < size
    ensures if need <= Cap(size) || 2 * size >= 0x1_0000_0000 then
              FitSize(size, need) == size && (Fits(size, need) <==> need <= Cap(size))
            else FitSize(size, need) == FitSize(2 * size, need) && (Fits(size, need) <==> Fits(2 * size, need))
  {
    hide Cap;
  }

  /** What fits more fits less, in an image that is no larger. */
  lemma {:induction false} FitsLess(size: nat, x: int, y: int)
    requires size % 512 == 0 && 0x8000 <= size < 0x1_0000_0000 && x <= y
    ensures Fits(size, y) ==> Fits(size, x)
    ensures FitSize(size, x) <= FitSize(size, y)
    decreases 0x1_0000_0000 - size
  {
    hide *;
    CapDoubles(size);
    FitStep(size, x);
    FitStep(size, y);
    if x <= Cap(size) {
      FitSound(size, y);
    } else if 2 * size < 0x1_0000_0000 {
      FitsLess(2 * size, x, y);
    }
  }

  /** Doubling on from a size that was got by doubling. */
  lemma {:induction false} FitAgain(size: nat, x: int, y: int)
    requires size % 512 == 0 && 0x8000 <= size < 0x1_0000_0000 && Fits(size, x)
    ensures FitSize(FitSize(size, x), y) == FitSize(size, if x < y then y else x)
    ensures Fits(size, y) <==> Fits(FitSize(size, x), y)
    decreases 0x1_0000_0000 - size
  {
    hide *;
    CapDoubles(size);
    FitStep(size, x);
    FitStep(size, y);
    if x > Cap(size) {
      FitAgain(2 * size, x, y);
      if y <= Cap(size) {
        FitSound(2 * size, x);
        FitsLess(2 * size, y, x);
        FitReached(2 * size, x);
        FitNone(FitSize(2 * size, x), y);
      }
    }
  }

  lemma FitReached(size: nat, need: int)
    requires Fits(size, need)
    ensures need <= Cap(FitSize(size, need))
  {
  }

  /** The largest image that can be got. */
  ghost function MaxSize(size: nat): nat
    decreases if size < 0x1_0000_0000 then 0x1_0000_0000 - size else 0
  {
    if size == 0 || 2 * size >= 0x1_0000_0000 then size else MaxSize(2 * size)
  }

  lemma {:induction false} FitsMax(size: nat, need: int)
    requires size % 512 == 0 && 0x8000 <= size < 0x1_0000_0000
    ensures Fits(size, need) <==> need <= Cap(MaxSize(size))
    ensures Cap(size) <= Cap(MaxSize(size))
    decreases 0x1_0000_0000 - size
  {
    hide *;
    FitStep(size, need);
    MaxStep(size);
    if 2 * size < 0x1_0000_0000 {
      CapDoubles(size);
      FitsMax(2 * size, need);
    }
  }

  lemma MaxStep(size: nat)
    requires 0 < size
    ensures MaxSize(size) == if 2 * size >= 0x1_0000_0000 then size else MaxSize(2 * size)
  {
  }

  /** From 32 KiB on, with 62 data sectors, an image can get 4161535 of them, in 2 GiB. */
  lemma FitsExact(need: int)
    ensures Fits(0x8000, need) <==> need <= 4161535
    ensures need <= 62 ==> FitSize(0x8000, need) == 0x8000
  {
    FitsMax(0x8000, need);
    assert MaxSize(0x800_0000) == 0x8000_0000;
    assert MaxSize(0x80_0000) == MaxSize(0x800_0000);
    assert MaxSize(0x8_0000) == MaxSize(0x80_0000);
    assert MaxSize(0x8000) == MaxSize(0x8_0000);
    hide FitSize, MaxSize, Fits;
    FitStep(0x8000, need);
  }

  ghost function MaxOf(a: int, b: int): int {
    if a < b then b else a
  }

  lemma MaxIs(a: int, b: int)
    ensures MaxOf(a, b) == if a < b then b else a
  {
  }

  // ----- what an operation takes -----

  /** The size of an image. */
  ghost predicate Sized(size: nat) {
    size % 512 == 0 && 0x8000 <= size < 0x1_0000_0000
  }

  /** At most k sectors more are in use, counted from the bottom, and the image has not been doubled
      more often than they need. */
  ghost predicate Takes(f: seq<u32>, size: nat, f': seq<u32>, size': nat, k: nat) {
    Top(f') <= Top(f) + k && exists x: int :: x <= Top(f) + k && Fits(size, x) && size' == FitSize(size, x)
  }

  lemma TakesNeed(f: seq<u32>, size: nat, f': seq<u32>, size': nat, need: int, k: nat)
    requires need <= Top(f) + k && Fits(size, need) && size' == FitSize(size, need) && Top(f') <= MaxOf(Top(f), need)
    ensures Takes(f, size, f', size', k)
  {
    hide Fits, FitSize, Top;
  }

  lemma TakesSelf(f: seq<u32>, size: nat, k: nat)
    requires Sized(size)
    ensures Takes(f, size, f, size, k)
  {
    FitNone(size, 0);
    hide Fits, FitSize, Top;
    assert Fits(size, 0);
  }

  lemma TakesMore(f: seq<u32>, size: nat, f': seq<u32>, size': nat, k: nat, l: nat)
    requires Takes(f, size, f', size', k) && k <= l
    ensures Takes(f, size, f', size', l)
  {
    hide Fits, FitSize, Top;
  }

  /** One operation after another. */
  lemma TakesBoth(f: seq<u32>, s: nat, f1: seq<u32>, s1: nat, f2: seq<u32>, s2: nat, k: nat, l: nat)
    requires Sized(s) && Takes(f, s, f1, s1, k) && Takes(f1, s1, f2, s2, l)
    ensures Takes(f, s, f2, s2, k + l)
  {
    hide Fits, FitSize, Top;
    var x: int :| x <= Top(f) + k && Fits(s, x) && s1 == FitSize(s, x);
    var y: int :| y <= Top(f1) + l && Fits(s1, y) && s2 == FitSize(s1, y);
    FitAgain(s, x, y);
    assert Fits(s, if x < y then y else x);
  }

  /** Room for both operations is room for the second after the first. */
  lemma TakesRoom(f: seq<u32>, s: nat, f1: seq<u32>, s1: nat, k: nat, l: nat)
    requires Sized(s) && Takes(f, s, f1, s1, k) && Fits(s, Top(f) + k + l)
    ensures Fits(s1, Top(f1) + l)
  {
    hide Fits, FitSize, Top;
    var x: int :| x <= Top(f) + k && Fits(s, x) && s1 == FitSize(s, x);
    FitsLess(s, Top(f1) + l, Top(f) + k + l);
    FitAgain(s, x, Top(f1) + l);
  }

  lemma RoomLess(s: nat, x: int, y: int)
    requires Sized(s) && Fits(s, y) && x <= y
    ensures Fits(s, x)
  {
    hide Fits, FitSize;
    FitsLess(s, x, y);
  }
}
