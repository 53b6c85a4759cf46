/** The file allocation table as a value: chains of sectors, who owns them, and how links change. */
module Fat {
  import opened Bytes

  const FREESEC: u32 := 0
  const ENDSEC: u32 := 0xFFFF_FFFF

  /** c is the list of sectors met when following links from c[0] until ENDSEC. */
  ghost predicate LinkWalk(fat: seq<u32>, c: seq<nat>) {
    && |c| > 0
    && (forall i :: 0 <= i < |c| ==> c[i] < |fat|)
    && (forall i {:trigger fat[c[i]]} :: 0 <= i < |c| - 1 ==> fat[c[i]] == c[i + 1])
    && fat[c[|c| - 1]] == ENDSEC
    && (forall i, j :: 0 <= i < j < |c| ==> c[i] != c[j])
  }

  ghost predicate Increasing(c: seq<nat>) {
    forall i, j :: 0 <= i < j < |c| ==> c[i] < c[j]
  }

  /** The sectors of one file: a walk that only goes upward and avoids the reserved sector 0. */
  ghost predicate Chain(fat: seq<u32>, c: seq<nat>) {
    LinkWalk(fat, c) && Increasing(c) && c[0] > 0
  }

  ghost predicate Owned<K>(chains: map<K, seq<nat>>, s: nat) {
    exists k :: k in chains && s in chains[k]
  }

  ghost predicate Disjoint<K(!new)>(chains: map<K, seq<nat>>) {
    forall k, l, s :: k in chains && l in chains && s in chains[k] && s in chains[l] ==> k == l
  }

  /** Sector 0 is reserved, and the other sectors in use are exactly those of the
      chains, each in one chain only. */
  ghost predicate Partitioned<K(!new)>(fat: seq<u32>, fatNum: nat, chains: map<K, seq<nat>>) {
    && 1 <= fatNum <= |fat|
    && fat[0] == ENDSEC
    && (forall s :: fatNum <= s < |fat| ==> fat[s] == FREESEC)
    && (forall k :: k in chains ==> Chain(fat, chains[k]))
    && Disjoint(chains)
    && (forall s :: 0 < s < |fat| && fat[s] != FREESEC ==> Owned(chains, s))
  }

  /** Freeing exactly the sectors in c. */
  ghost predicate Freed(prev: seq<u32>, next: seq<u32>, c: seq<nat>) {
    && |next| == |prev|
    && (forall s :: 0 <= s < |prev| ==> next[s] == if s in c then FREESEC else prev[s])
  }

  lemma FreedHead(prev: seq<u32>, next: seq<u32>, c: seq<nat>)
    requires Freed(prev, next, c) && |c| > 0 && c[0] < |prev|
    ensures |next| == |prev| && next[c[0]] == FREESEC
  {
    assert c[0] in c;
  }

  /** fat was obtained from base by growing it with free entries and linking the sectors of c,
      all of them free before, upward; the last one holds tail. */
  ghost predicate Linking(base: seq<u32>, fat: seq<u32>, c: seq<nat>, tail: u32) {
    && |base| <= |fat|
    && |c| > 0 && c[0] > 0 && Increasing(c)
    && (forall i :: 0 <= i < |c| ==> c[i] < |fat| && (c[i] < |base| ==> base[c[i]] == FREESEC))
    && (forall i {:trigger fat[c[i]]} :: 0 <= i < |c| - 1 ==> fat[c[i]] == c[i + 1])
    && fat[c[|c| - 1]] == tail
    && (forall s :: 0 <= s < |fat| && s !in c ==> fat[s] == if s < |base| then base[s] else FREESEC)
  }

  lemma LinkingStart(fat: seq<u32>, head: nat)
    requires 0 < head < |fat| && fat[head] == FREESEC
    ensures Linking(fat, fat, [head], FREESEC)
  {
  }

  lemma LinkingMark(base: seq<u32>, fat: seq<u32>, c: seq<nat>)
    requires Linking(base, fat, c, FREESEC)
    ensures Linking(base, fat[c[|c| - 1] := ENDSEC], c, ENDSEC)
  {
    var fat' := fat[c[|c| - 1] := ENDSEC];
    forall i {:trigger fat'[c[i]]} | 0 <= i < |c| - 1 ensures fat'[c[i]] == c[i + 1] {
      assert c[i] < c[|c| - 1];
      assert fat[c[i]] == c[i + 1];
    }
    assert c[|c| - 1] in c;
  }

  lemma LinkingGrow(base: seq<u32>, fat: seq<u32>, c: seq<nat>, fat': seq<u32>, tail: u32)
    requires Linking(base, fat, c, tail)
    requires |fat| <= |fat'| && fat'[..|fat|] == fat
    requires forall s :: |fat| <= s < |fat'| ==> fat'[s] == FREESEC
    ensures Linking(base, fat', c, tail)
  {
    assert forall s :: 0 <= s < |fat| ==> fat'[s] == fat'[..|fat|][s] == fat[s];
  }

  lemma LinkingNext(base: seq<u32>, fat: seq<u32>, c: seq<nat>, next: nat)
    requires Linking(base, fat, c, ENDSEC)
    requires c[|c| - 1] < next < |fat| && next < 0x1_0000_0000 && fat[next] == FREESEC
    ensures Linking(base, fat[c[|c| - 1] := next], c + [next], FREESEC)
  {
    var cur := c[|c| - 1];
    var fat' := fat[cur := next];
    var c' := c + [next];
    forall i | 0 <= i < |c| ensures c[i] < next { if i < |c| - 1 { assert c[i] < cur; } }
    assert next !in c;
    forall i {:trigger fat'[c'[i]]} | 0 <= i < |c'| - 1 ensures fat'[c'[i]] == c'[i + 1] {
      if i < |c| - 1 {
        assert c[i] < cur;
        assert fat[c[i]] == c[i + 1];
      }
    }
    assert c[|c| - 1] in c && forall s :: s in c ==> s in c';
  }

  /** The sectors linked anew belong to none of the old chains. */
  lemma LinkedAreNew<K(!new)>(base: seq<u32>, fat: seq<u32>, c: seq<nat>, chains: map<K, seq<nat>>, n0: nat, k: K,
                       s: nat)
    requires Partitioned(base, n0, chains) && Linking(base, fat, c, ENDSEC)
    requires k in chains && s in chains[k]
    ensures s !in c
  {
    NotFree(base, chains[k], s);
  }

  lemma LinkingDisjoint<K(!new)>(base: seq<u32>, fat: seq<u32>, c: seq<nat>, n0: nat, chains: map<K, seq<nat>>, key: K)
    requires Partitioned(base, n0, chains) && Linking(base, fat, c, ENDSEC) && key !in chains
    ensures Disjoint(chains[key := c])
  {
    forall k, s | k in chains && s in chains[k] ensures s !in c {
      LinkedAreNew(base, fat, c, chains, n0, k, s);
    }
  }

  lemma LinkingOwned<K(!new)>(base: seq<u32>, fat: seq<u32>, c: seq<nat>, n0: nat, chains: map<K, seq<nat>>, key: K,
                       s: nat)
    requires Partitioned(base, n0, chains) && Linking(base, fat, c, ENDSEC) && key !in chains
    requires 0 < s < |fat| && fat[s] != FREESEC
    ensures Owned(chains[key := c], s)
  {
    var chains' := chains[key := c];
    if s in c {
      assert key in chains' && s in chains'[key];
    } else {
      assert Owned(chains, s);
      var k :| k in chains && s in chains[k];
      assert k in chains' && s in chains'[k];
    }
  }

  lemma LinkedChain(base: seq<u32>, fat: seq<u32>, c: seq<nat>)
    requires Linking(base, fat, c, ENDSEC)
    ensures Chain(fat, c) && 0 !in c
  {
  }

  /** A finished linking adds one chain to a partition. */
  lemma LinkingDone<K(!new)>(base: seq<u32>, fat: seq<u32>, c: seq<nat>, n0: nat, n: nat,
                             chains: map<K, seq<nat>>, key: K)
    requires Partitioned(base, n0, chains) && key !in chains
    requires Linking(base, fat, c, ENDSEC)
    requires n0 <= n <= |fat| && forall i :: 0 <= i < |c| ==> c[i] < n
    ensures Partitioned(fat, n, chains[key := c])
  {
    var chains' := chains[key := c];
    LinkedChain(base, fat, c);
    LinkingDisjoint(base, fat, c, n0, chains, key);
    hide Chain, Owned, Disjoint;
    forall k | k in chains' ensures Chain(fat, chains'[k]) {
      if k != key {
        ChainKept(base, fat, c, chains[k]);
      }
    }
    forall s | 0 < s < |fat| && fat[s] != FREESEC ensures Owned(chains', s) {
      LinkingOwned(base, fat, c, n0, chains, key, s);
    }
  }

  lemma ChainKept(base: seq<u32>, fat: seq<u32>, c: seq<nat>, d: seq<nat>)
    requires Linking(base, fat, c, ENDSEC) && Chain(base, d)
    ensures Chain(fat, d)
  {
    forall i | 0 <= i < |d| ensures d[i] !in c {
      NotFree(base, d, d[i]);
    }
    forall i {:trigger fat[d[i]]} | 0 <= i < |d| - 1 ensures fat[d[i]] == d[i + 1] {
      assert d[i] !in c;
      assert base[d[i]] == d[i + 1];
    }
    assert d[|d| - 1] !in c;
  }

  lemma NotFree(fat: seq<u32>, c: seq<nat>, s: nat)
    requires Chain(fat, c) && s in c
    ensures 0 < s < |fat| && fat[s] != FREESEC
  {
    var i :| 0 <= i < |c| && c[i] == s;
    if i > 0 { assert c[0] < c[i]; }
    if i < |c| - 1 { assert fat[c[i]] == c[i + 1]; assert c[0] < c[i + 1]; }
  }

  lemma ChainElsewhere(fat: seq<u32>, fat': seq<u32>, c: seq<nat>, d: seq<nat>)
    requires Freed(fat, fat', c) && Chain(fat, d) && forall s :: s in d ==> s !in c
    ensures Chain(fat', d)
  {
    forall i | 0 <= i < |d| ensures fat'[d[i]] == fat[d[i]] {
      assert d[i] in d;
    }
  }

  lemma OwnedWithout<K>(chains: map<K, seq<nat>>, key: K, s: nat)
    requires Owned(chains, s) && key in chains && s !in chains[key]
    ensures Owned(chains - {key}, s)
  {
    var k :| k in chains && s in chains[k];
    assert k in chains - {key} && s in (chains - {key})[k];
  }

  lemma DisjointWithout<K(!new)>(chains: map<K, seq<nat>>, key: K)
    requires Disjoint(chains) && key in chains
    ensures Disjoint(chains - {key})
    ensures forall k, s :: k in chains - {key} && s in chains[k] ==> s !in chains[key]
  {
  }

  /** Freeing one chain takes it out of a partition. */
  lemma FreedDone<K(!new)>(fat: seq<u32>, fat': seq<u32>, n: nat, chains: map<K, seq<nat>>, key: K)
    requires Partitioned(fat, n, chains) && key in chains
    requires Freed(fat, fat', chains[key])
    ensures Partitioned(fat', n, chains - {key})
  {
    hide Chain, Owned, Disjoint;
    var chains' := chains - {key};
    if 0 in chains[key] {
      NotFree(fat, chains[key], 0);
    }
    DisjointWithout(chains, key);
    forall k | k in chains' ensures Chain(fat', chains'[k]) {
      ChainElsewhere(fat, fat', chains[key], chains[k]);
    }
    forall s | 0 < s < |fat'| && fat'[s] != FREESEC ensures Owned(chains', s) {
      OwnedWithout(chains, key, s);
    }
  }

  /** Every sector of a chain lies below fatNum. */
  lemma ChainBelow<K(!new)>(fat: seq<u32>, n: nat, chains: map<K, seq<nat>>, key: K, s: nat)
    requires Partitioned(fat, n, chains) && key in chains && s in chains[key]
    ensures 0 < s < n && fat[s] != FREESEC
  {
    NotFree(fat, chains[key], s);
  }
}
