/** Allocation of blocks: their numbers and the data nodes chosen for them. */
module Blocks {
  import opened Bytes
  import opened Tree

  /** alloc_block: up to three addresses taken round robin, stopping when the first comes again. */
  function NextDesc(num: u64, ctr: nat, ips: seq<u32>): Desc
    requires |ips| > 0
  {
    var first, second, third := ips[ctr % |ips|], ips[(ctr + 1) % |ips|], ips[(ctr + 2) % |ips|];
    if second == first then Desc(num, first, 0, 0)
    else if third == first then Desc(num, first, second, 0)
    else Desc(num, first, second, third)
  }

  /** The round-robin counter after one allocation; the address that ends it early is used up. */
  function NextIndex(ctr: nat, ips: seq<u32>): nat
    requires |ips| > 0
  {
    if ips[(ctr + 1) % |ips|] == ips[ctr % |ips|] then ctr + 2 else ctr + 3
  }

  function IndexAfter(n: nat, ctr: nat, ips: seq<u32>): nat
    requires |ips| > 0
  {
    if n == 0 then ctr else IndexAfter(n - 1, NextIndex(ctr, ips), ips)
  }

  /** The descriptors of n blocks allocated one after the other. */
  function NewDescs(n: nat, num: nat, ctr: nat, ips: seq<u32>): (r: seq<Desc>)
    requires |ips| > 0 && num + n <= 0x1_0000_0000_0000_0000
    ensures |r| == n
    ensures forall i :: 0 <= i < n ==> r[i].num == num + i
  {
    if n == 0 then [] else [NextDesc(num, ctr, ips)] + NewDescs(n - 1, num + 1, NextIndex(ctr, ips), ips)
  }

  lemma {:induction false} NewDescsEnd(n: nat, num: nat, ctr: nat, ips: seq<u32>)
    requires |ips| > 0 && num + n + 1 <= 0x1_0000_0000_0000_0000
    ensures NewDescs(n + 1, num, ctr, ips)
         == NewDescs(n, num, ctr, ips) + [NextDesc(num + n, IndexAfter(n, ctr, ips), ips)]
    ensures IndexAfter(n + 1, ctr, ips) == NextIndex(IndexAfter(n, ctr, ips), ips)
    decreases n
  {
    hide NextDesc, NextIndex;
    if n > 0 {
      NewDescsEnd(n - 1, num + 1, NextIndex(ctr, ips), ips);
    }
  }

  lemma {:induction false} NewDescsPrefix(i: nat, n: nat, num: nat, ctr: nat, ips: seq<u32>)
    requires |ips| > 0 && i <= n && num + n <= 0x1_0000_0000_0000_0000
    ensures NewDescs(n, num, ctr, ips)[..i] == NewDescs(i, num, ctr, ips)
    decreases n - i
  {
    if i < n {
      NewDescsPrefix(i + 1, n, num, ctr, ips);
      NewDescsEnd(i, num, ctr, ips);
    }
  }

  // ----- each block gets as many replicas as it can -----

  ghost predicate Proper(ips: seq<u32>) {
    && |ips| > 0 && (forall i :: 0 <= i < |ips| ==> ips[i] != 0)
    && (forall i, j :: 0 <= i < j < |ips| ==> ips[i] != ips[j])
  }

  /** The addresses a descriptor names. */
  function Nodes(d: Desc): set<u32> {
    {d.ip0, d.ip1, d.ip2} - {0}
  }

  lemma ThreeApart(ctr: nat, m: nat)
    requires m > 0
    ensures (ctr + 1) % m == ctr % m <==> m == 1
    ensures m > 1 ==> ((ctr + 2) % m == ctr % m <==> m == 2)
    ensures m > 1 ==> (ctr + 2) % m != (ctr + 1) % m
  {
    NextMod(ctr, m);
    NextMod(ctr + 1, m);
  }

  lemma NextMod(x: nat, m: nat)
    requires m > 0
    ensures 0 <= x % m < m
    ensures (x + 1) % m == if x % m == m - 1 then 0 else x % m + 1
  {
    var q, r := x / m, x % m;
    assert x == m * q + r;
    if r == m - 1 {
      assert x + 1 == m * (q + 1);
      ModUnique(x + 1, m, q + 1, 0);
    } else {
      ModUnique(x + 1, m, q, r + 1);
    }
  }

  lemma ModUnique(x: nat, m: nat, q: nat, r: nat)
    requires m > 0 && r < m && x == m * q + r
    ensures x % m == r
  {
    var d := x / m - q;
    assert x == m * (x / m) + x % m;
    assert m * d == r - x % m by {
      assert m * (x / m) - m * q == m * d;
    }
    Multiples(m, d);
  }

  lemma Multiples(m: nat, d: int)
    ensures d > 0 ==> m * d >= m
    ensures d < 0 ==> m * d <= 0 - m
  {
  }

  /** A block is placed on min(3, m) different nodes, all from the list. */
  lemma ReplicaCount(num: u64, ctr: nat, ips: seq<u32>)
    requires Proper(ips)
    ensures var d := NextDesc(num, ctr, ips);
            && |Nodes(d)| == (if |ips| < 3 then |ips| else 3)
            && d.ip0 != 0
            && forall ip :: ip in Nodes(d) ==> ip in ips
  {
    ThreeApart(ctr, |ips|);
    var d := NextDesc(num, ctr, ips);
    if |ips| == 1 {
      assert Nodes(d) == {d.ip0};
    } else if |ips| == 2 {
      assert Nodes(d) == {d.ip0, d.ip1};
    } else {
      assert Nodes(d) == {d.ip0, d.ip1, d.ip2};
    }
  }

  // ----- whose turn it is -----

  /** An allocation takes a turn for each replica, and one more where the first address comes again
      before there are three. */
  lemma TurnsTaken(num: u64, ctr: nat, ips: seq<u32>)
    requires Proper(ips)
    ensures NextIndex(ctr, ips) == ctr + (if |ips| == 1 then 2 else 3)
    ensures NextDesc(num, ctr, ips).ip0 == ips[ctr % |ips|]
  {
    ThreeApart(ctr, |ips|);
  }

  /** With two nodes the first addresses of one block and the next are different ones. */
  lemma FirstsAlternate(num: u64, num': u64, ctr: nat, ips: seq<u32>)
    requires Proper(ips) && |ips| == 2
    ensures NextDesc(num, ctr, ips).ip0 != NextDesc(num', NextIndex(ctr, ips), ips).ip0
    ensures NextDesc(num, ctr, ips).ip1 == NextDesc(num', NextIndex(ctr, ips), ips).ip0
  {
    TurnsTaken(num, ctr, ips);
    TurnsTaken(num', ctr + 3, ips);
    NextMod(ctr, 2);
    NextMod(ctr + 1, 2);
    NextMod(ctr + 2, 2);
  }

  // ----- the nodes get the same share -----

  function One(b: bool): nat { if b then 1 else 0 }

  /** How many of the descriptors name the node. */
  function Load(ds: seq<Desc>, ip: u32): nat {
    if ds == [] then 0 else One(ip in Nodes(ds[0])) + Load(ds[1..], ip)
  }

  /** How often a round-robin counter running from lo to hi selects index a of m. */
  function Hits(lo: nat, hi: nat, m: nat, a: nat): nat
    requires m > 0 && lo <= hi
    decreases hi - lo
  {
    if lo == hi then 0 else One(lo % m == a) + Hits(lo + 1, hi, m, a)
  }

  lemma {:induction false} HitsSplit(lo: nat, mid: nat, hi: nat, m: nat, a: nat)
    requires m > 0 && lo <= mid <= hi
    ensures Hits(lo, hi, m, a) == Hits(lo, mid, m, a) + Hits(mid, hi, m, a)
    decreases mid - lo
  {
    if lo < mid {
      HitsSplit(lo + 1, mid, hi, m, a);
    }
  }

  /** Any m consecutive turns select each index once. */
  lemma {:induction false} FullRound(lo: nat, m: nat, a: nat)
    requires a < m
    ensures Hits(lo, lo + m, m, a) == 1
    decreases lo
  {
    if lo == 0 {
      FirstRound(0, m, a);
    } else {
      FullRound(lo - 1, m, a);
      HitsSplit(lo - 1, lo, lo + m, m, a);
      HitsSplit(lo - 1, lo + m - 1, lo + m, m, a);
      HitsOnce(lo - 1, m, a);
      HitsOnce(lo + m - 1, m, a);
      SameTurn(lo - 1, m);
      hide Hits, One;
    }
  }

  lemma SameTurn(x: nat, m: nat)
    requires m > 0
    ensures (x + m) % m == x % m
  {
    ModUnique(x + m, m, x / m + 1, x % m);
  }

  lemma HitsOnce(lo: nat, m: nat, a: nat)
    requires m > 0
    ensures Hits(lo, lo + 1, m, a) == One(lo % m == a)
  {
  }

  lemma {:induction false} FirstRound(lo: nat, m: nat, a: nat)
    requires a < m && lo <= m
    ensures Hits(lo, m, m, a) == One(lo <= a)
    decreases m - lo
  {
    if lo < m {
      FirstRound(lo + 1, m, a);
      ModUnique(lo, m, 0, lo);
    }
  }

  /** In any number of turns no index is selected twice more often than another. */
  lemma {:induction false} HitsBalanced(lo: nat, hi: nat, m: nat, a: nat, b: nat)
    requires a < m && b < m && lo <= hi
    ensures Hits(lo, hi, m, a) <= Hits(lo, hi, m, b) + 1
    decreases hi - lo
  {
    FullRound(lo, m, a);
    FullRound(lo, m, b);
    if hi - lo <= m {
      HitsSplit(lo, hi, lo + m, m, a);
    } else {
      HitsSplit(lo, lo + m, hi, m, a);
      HitsSplit(lo, lo + m, hi, m, b);
      HitsBalanced(lo + m, hi, m, a, b);
    }
  }

  /** With three nodes or more, each block takes three consecutive turns. */
  lemma {:induction false} LoadIsHits(n: nat, num: nat, ctr: nat, ips: seq<u32>, a: nat)
    requires Proper(ips) && |ips| >= 3 && a < |ips| && num + n <= 0x1_0000_0000_0000_0000
    ensures Load(NewDescs(n, num, ctr, ips), ips[a]) == Hits(ctr, ctr + 3 * n, |ips|, a)
    decreases n
  {
    if n > 0 {
      ThreeTurns(ctr, ips);
      LoadFirst(n, num, ctr, ips, ips[a]);
      OneAllocation(num, ctr, ips, a);
      hide *;
      LoadIsHits(n - 1, num + 1, ctr + 3, ips, a);
      HitsSplit(ctr, ctr + 3, ctr + 3 * n, |ips|, a);
    } else {
      assert ctr + 3 * n == ctr;
    }
  }

  lemma ThreeTurns(ctr: nat, ips: seq<u32>)
    requires Proper(ips) && |ips| >= 3
    ensures NextIndex(ctr, ips) == ctr + 3
  {
    ThreeApart(ctr, |ips|);
  }

  lemma LoadFirst(n: nat, num: nat, ctr: nat, ips: seq<u32>, ip: u32)
    requires |ips| > 0 && 0 < n && num + n <= 0x1_0000_0000_0000_0000
    ensures Load(NewDescs(n, num, ctr, ips), ip)
         == One(ip in Nodes(NextDesc(num, ctr, ips))) + Load(NewDescs(n - 1, num + 1, NextIndex(ctr, ips), ips), ip)
  {
    var ds := NewDescs(n, num, ctr, ips);
    assert ds[1..] == NewDescs(n - 1, num + 1, NextIndex(ctr, ips), ips);
    hide NextDesc, Nodes, NextIndex;
  }

  lemma OneAllocation(num: u64, ctr: nat, ips: seq<u32>, a: nat)
    requires Proper(ips) && |ips| >= 3 && a < |ips|
    ensures One(ips[a] in Nodes(NextDesc(num, ctr, ips))) == Hits(ctr, ctr + 3, |ips|, a)
  {
    var m := |ips|;
    ThreeApart(ctr, m);
    NextMod(ctr, m);
    NextMod(ctr + 1, m);
    assert Hits(ctr + 3, ctr + 3, m, a) == 0;
    assert Hits(ctr + 2, ctr + 3, m, a) == One((ctr + 2) % m == a);
    assert Hits(ctr + 1, ctr + 3, m, a) == One((ctr + 1) % m == a) + One((ctr + 2) % m == a);
  }

  /** With fewer nodes than replicas, every block is on every node. */
  lemma {:induction false} LoadFull(n: nat, num: nat, ctr: nat, ips: seq<u32>, a: nat)
    requires Proper(ips) && |ips| < 3 && a < |ips| && num + n <= 0x1_0000_0000_0000_0000
    ensures Load(NewDescs(n, num, ctr, ips), ips[a]) == n
    decreases n
  {
    if n > 0 {
      var ds := NewDescs(n, num, ctr, ips);
      ThreeApart(ctr, |ips|);
      NextMod(ctr, |ips|);
      NextMod(ctr + 1, |ips|);
      LoadFull(n - 1, num + 1, NextIndex(ctr, ips), ips, a);
      assert ds[1..] == NewDescs(n - 1, num + 1, NextIndex(ctr, ips), ips);
      assert ips[a] in Nodes(ds[0]);
    }
  }

  /** After any number of allocations over a fixed list of nodes, from whatever counter, no node
      holds more than one replica more than another. */
  lemma LoadBalanced(n: nat, num: nat, ctr: nat, ips: seq<u32>, a: nat, b: nat)
    requires Proper(ips) && a < |ips| && b < |ips| && num + n <= 0x1_0000_0000_0000_0000
    ensures Load(NewDescs(n, num, ctr, ips), ips[a]) <= Load(NewDescs(n, num, ctr, ips), ips[b]) + 1
  {
    if |ips| >= 3 {
      LoadIsHits(n, num, ctr, ips, a);
      LoadIsHits(n, num, ctr, ips, b);
      HitsBalanced(ctr, ctr + 3 * n, |ips|, a, b);
    } else {
      LoadFull(n, num, ctr, ips, a);
      LoadFull(n, num, ctr, ips, b);
    }
  }
}
