/** The client's access to the data nodes: a write goes to every replica of a piece, a read is
    content with one. */
module Replication {
  import opened Bytes
  import opened DataNode
  import opened Extents

  type Stores = map<u32, Store>

  /** What becomes of one call to a data node: done and answered, done although the answer is
      lost, or not done. */
  datatype Fate = Done | Unanswered | NotDone

  /** The j-th of the three data nodes of a piece; 0 stands for none. */
  function Slot(e: Extent, j: nat): u32
    requires j < 3
  {
    if j == 0 then e.ip0 else if j == 1 then e.ip1 else e.ip2
  }

  /** The number of bytes of the pieces. */
  function Total(exts: seq<Extent>): nat {
    if exts == [] then 0 else Total(exts[..|exts| - 1]) + exts[|exts| - 1].length
  }

  predicate Within(e: Extent, num: u64, k: nat) {
    e.num == num && e.offset <= k < e.offset + e.length
  }

  ghost predicate InRange(exts: seq<Extent>, num: u64, k: nat) {
    exists i :: 0 <= i < |exts| && Within(exts[i], num, k)
  }

  /** No byte belongs to two of the pieces. */
  ghost predicate Apart(exts: seq<Extent>) {
    forall i, j, k: nat :: 0 <= i < j < |exts| && Within(exts[i], exts[j].num, k) ==> !Within(exts[j], exts[j].num, k)
  }

  /** The node at ip holds v as byte k of block num. */
  ghost predicate OnNode(stores: Stores, ip: u32, num: u64, k: nat, v: byte) {
    ip in stores && Byte(stores[ip], num, k, v)
  }

  /** The node at ip holds the bytes x of the piece. */
  ghost predicate Carries(stores: Stores, ip: u32, e: Extent, x: seq<byte>) {
    forall k :: 0 <= k < |x| ==> OnNode(stores, ip, e.num, e.offset + k, x[k])
  }

  /** All nodes of the piece hold its bytes x. */
  ghost predicate AllCarry(stores: Stores, e: Extent, x: seq<byte>) {
    forall j :: 0 <= j < 3 && Slot(e, j) != 0 ==> Carries(stores, Slot(e, j), e, x)
  }

  /** The bytes of the i-th piece among those of all the pieces. */
  ghost function Part(exts: seq<Extent>, data: seq<byte>, i: nat): seq<byte>
    requires i < |exts| && Total(exts) <= |data|
  {
    TotalPrefix(exts, i);
    data[Total(exts[..i])..Total(exts[..i]) + exts[i].length]
  }

  lemma {:induction false} TotalPrefix(exts: seq<Extent>, i: nat)
    requires i < |exts|
    ensures Total(exts[..i + 1]) == Total(exts[..i]) + exts[i].length <= Total(exts)
    decreases |exts|
  {
    assert exts[..i + 1][..i] == exts[..i];
    if i + 1 < |exts| {
      var front := exts[..|exts| - 1];
      TotalPrefix(front, i);
      assert front[..i] == exts[..i] && front[..i + 1] == exts[..i + 1];
    } else {
      assert exts[..i + 1] == exts;
    }
  }

  /** All nodes hold their pieces of data. */
  ghost predicate Replicated(stores: Stores, exts: seq<Extent>, data: seq<byte>) {
    Total(exts) == |data| && forall i :: 0 <= i < |exts| ==> AllCarry(stores, exts[i], Part(exts, data, i))
  }

  /** Bytes outside the pieces are as they were. */
  ghost predicate KeptOutside(before: Stores, after: Stores, exts: seq<Extent>) {
    && after.Keys == before.Keys
    && (forall ip, num, k: nat, v ::
          OnNode(before, ip, num, k, v) && !InRange(exts, num, k) ==> OnNode(after, ip, num, k, v))
  }

  /** The stores after x has been written to a piece on one node. */
  function WriteOn(stores: Stores, ip: u32, e: Extent, x: seq<byte>): Stores
    requires ip in stores
  {
    stores[ip := WriteTo(stores[ip], e.num, e.offset, x)]
  }

  /** A write of the piece e, by whatever is in the list, reaches that node and keeps the rest. */
  lemma WriteOnKeeps(stores: Stores, ip: u32, e: Extent, x: seq<byte>)
    requires ip in stores && |x| == e.length
    ensures Carries(WriteOn(stores, ip, e, x), ip, e, x)
    ensures KeptOutside(stores, WriteOn(stores, ip, e, x), [e])
    ensures forall other :: Carries(stores, other, e, x) ==> Carries(WriteOn(stores, ip, e, x), other, e, x)
  {
    var after := WriteOn(stores, ip, e, x);
    forall k | 0 <= k < |x| ensures OnNode(after, ip, e.num, e.offset + k, x[k]) {
      WriteHits(stores[ip], e, x, k);
    }
    forall other, num, k: nat, v | OnNode(stores, other, num, k, v) && !InRange([e], num, k)
      ensures OnNode(after, other, num, k, v)
    {
      if other == ip {
        assert !Within([e][0], num, k);
        WriteToBytes(stores[ip], e.num, e.offset, x, num, k, v);
      }
    }
    forall other | Carries(stores, other, e, x) ensures Carries(after, other, e, x) {
      if other != ip {
        forall k | 0 <= k < |x| ensures OnNode(after, other, e.num, e.offset + k, x[k]) {
          assert OnNode(stores, other, e.num, e.offset + k, x[k]);
        }
      }
    }
  }

  lemma WriteHits(s: Store, e: Extent, x: seq<byte>, k: nat)
    requires k < |x|
    ensures Byte(WriteTo(s, e.num, e.offset, x), e.num, e.offset + k, x[k])
  {
    WriteToBytes(s, e.num, e.offset, x, e.num, e.offset + k, x[k]);
  }

  lemma KeptTwice(a: Stores, b: Stores, c: Stores, exts: seq<Extent>)
    requires KeptOutside(a, b, exts) && KeptOutside(b, c, exts)
    ensures KeptOutside(a, c, exts)
  {
  }

  lemma KeptNothing(a: Stores, exts: seq<Extent>)
    ensures KeptOutside(a, a, exts)
  {
  }

  lemma KeptMore(a: Stores, b: Stores, exts: seq<Extent>, i: nat)
    requires i < |exts| && KeptOutside(a, b, [exts[i]])
    ensures KeptOutside(a, b, exts)
  {
    forall ip, num, k: nat, v | OnNode(a, ip, num, k, v) && !InRange(exts, num, k) ensures OnNode(b, ip, num, k, v) {
      assert !InRange([exts[i]], num, k);
    }
  }

  /** A write elsewhere leaves the bytes of a piece where they are. */
  lemma CarriesKept(a: Stores, b: Stores, exts: seq<Extent>, e: Extent, x: seq<byte>)
    requires KeptOutside(a, b, exts) && |x| <= e.length && AllCarry(a, e, x)
    requires forall k: nat :: Within(e, e.num, k) ==> !InRange(exts, e.num, k)
    ensures AllCarry(b, e, x)
  {
    forall j, k | 0 <= j < 3 && Slot(e, j) != 0 && 0 <= k < |x|
      ensures OnNode(b, Slot(e, j), e.num, e.offset + k, x[k])
    {
      assert Carries(a, Slot(e, j), e, x);
      assert OnNode(a, Slot(e, j), e.num, e.offset + k, x[k]);
      assert Within(e, e.num, e.offset + k);
    }
  }

  class Cluster {
    var nodes: map<u32, DataNode>

    constructor (nodes: map<u32, DataNode>)
      requires forall a, b :: a in nodes && b in nodes && nodes[a] == nodes[b] ==> a == b
      requires forall a :: a in nodes ==> nodes[a].Valid()
      ensures Valid() && this.nodes == nodes
    {
      this.nodes := nodes;
    }

    /** Every address has a node of its own. */
    ghost predicate Valid()
      reads this, nodes.Values
    {
      && (forall a, b :: a in nodes && b in nodes && nodes[a] == nodes[b] ==> a == b)
      && (forall a :: a in nodes ==> nodes[a].Valid())
    }

    ghost function Stores(): Stores
      reads this, nodes.Values
    {
      map a | a in nodes :: nodes[a].files
    }

    lemma StoresOfAll()
      ensures Stores().Keys == nodes.Keys
    {
    }

    lemma StoresAre()
      ensures Stores().Keys == nodes.Keys && forall a :: a in nodes ==> Stores()[a] == nodes[a].files
    {
    }

    /** write_block: one call to one node. */
    method WriteBlock(e: Extent, ip: u32, x: seq<byte>, fate: Fate) returns (ret: int)
      requires Valid() && |x| == e.length
      modifies nodes.Values
      ensures Valid()
      ensures ret == if ip in nodes.Keys && fate.Done? then e.length else -1
      ensures Stores() == if ip in nodes && !fate.NotDone? then WriteOn(old(Stores()), ip, e, x) else old(Stores())
    {
      if ip !in nodes || fate.NotDone? {
        return -1;
      }
      var answer := nodes[ip].WriteBlock(e.num, e.offset, x);
      return if fate.Done? && answer >= 0 then e.length else -1;
    }

    /** The replica loop of write_blocks: k of the l nodes that the piece names have answered. */
    method WritePiece(e: Extent, x: seq<byte>, fate: nat -> Fate) returns (k: nat, l: nat)
      requires Valid() && |x| == e.length
      modifies nodes.Values
      ensures Valid() && KeptOutside(old(Stores()), Stores(), [e])
      ensures k == l <==> PieceReached(e, nodes.Keys, fate)
      ensures k == l ==> AllCarry(Stores(), e, x)
    {
      hide *;
      ghost var before, up := Stores(), nodes.Keys;
      StoresOfAll();
      AttemptBegins(before, e, x, up, fate);
      k, l := 0, 0;
      var j: nat := 0;
      while j <= 2
        invariant 0 <= j <= 3 && Valid() && Attempted(before, Stores(), e, x, j, k, l, up, fate)
      {
        ghost var mid := Stores();
        ghost var k0, l0 := k, l;
        StoresOfAll();
        if Slot(e, j) != 0 {
          l := l + 1;
          var len := WriteBlock(e, Slot(e, j), x, fate(j));
          if len >= e.length {
            k := k + 1;
          }
        }
        AttemptGoesOn(before, mid, Stores(), e, x, j, k0, l0, k, l, up, fate);
        j := j + 1;
      }
      AttemptEnds(before, Stores(), e, x, k, l, up, fate);
    }

    /** write_blocks: every piece to all its nodes; refuses at the first piece that does not reach
        one of them.  A piece without nodes is taken for written. */
    method WriteBlocks(exts: seq<Extent>, buf: seq<byte>, fate: nat -> nat -> Fate) returns (ret: int)
      requires Valid() && Total(exts) <= |buf|
      modifies nodes.Values
      ensures Valid() && KeptOutside(old(Stores()), Stores(), exts)
      ensures ret == if AllReached(exts, nodes.Keys, fate) then Total(exts) else -1
      ensures ret >= 0 && Apart(exts) ==> Replicated(Stores(), exts, buf[..ret])
    {
      hide *;
      ghost var before, up := Stores(), nodes.Keys;
      StoresOfAll();
      WritingBegins(before, exts, buf, up, fate);
      var i: nat, ptr: nat := 0, 0;
      while i < |exts|
        invariant 0 <= i <= |exts| && Valid() && Written(before, Stores(), exts, i, ptr, buf, up, fate)
      {
        ghost var mid := Stores();
        WritingRoom(before, mid, exts, i, ptr, buf, up, fate);
        var k, l := WritePiece(exts[i], buf[ptr..ptr + exts[i].length], fate(i));
        if k != l {
          WritingFails(before, mid, Stores(), exts, i, ptr, buf, up, fate);
          return -1;
        }
        WritingGoesOn(before, mid, Stores(), exts, i, ptr, buf, up, fate);
        ptr := ptr + exts[i].length;
        i := i + 1;
      }
      WritingEnds(before, Stores(), exts, ptr, buf, up, fate);
      return ptr;
    }

    /** read_block: the bytes of one piece from one node, to the front of the buffer. */
    method ReadBlock(e: Extent, ip: u32, buf: array<byte>, at: nat, answers: bool) returns (ret: int)
      requires Valid() && at + e.length <= buf.Length
      modifies buf
      ensures ret == if ip in nodes && answers && e.num in nodes[ip].files then e.length else -1
      ensures forall k :: 0 <= k < buf.Length && !(at <= k < at + e.length) ==> buf[k] == old(buf[k])
      ensures forall x :: ret >= 0 && |x| == e.length && Carries(Stores(), ip, e, x) ==> buf[at..at + e.length] == x
    {
      if ip !in nodes || !answers {
        return -1;
      }
      var data := new byte[e.length];
      var served := nodes[ip].ReadBlock(e.num, e.offset, e.length, data);
      if served < 0 {
        return -1;
      }
      Memcpy(buf, at, data[..]);
      assert forall k :: at <= k < at + e.length ==> buf[k] == data[k - at];
      forall x | |x| == e.length && Carries(Stores(), ip, e, x) ensures buf[at..at + e.length] == x {
        forall k | 0 <= k < |x| ensures data[k] == x[k] {
          assert OnNode(Stores(), ip, e.num, e.offset + k, x[k]);
        }
      }
      return e.length;
    }

    /** The replica loop of read_blocks: stops at the first node that answers. */
    method ReadPiece(e: Extent, buf: array<byte>, at: nat, answers: nat -> bool) returns (found: bool)
      requires Valid() && at + e.length <= buf.Length
      modifies buf
      ensures OnlyBetween(old(buf[..]), buf[..], at, at + e.length)
      ensures found <==> AnyServed(e, Stores(), answers)
      ensures found ==> Fetched(Stores(), e, buf[..], at)
    {
      found := false;
      var j := 0;
      while j <= 2
        invariant 0 <= j <= 3 && !found
        invariant forall k :: 0 <= k < buf.Length && !(at <= k < at + e.length) ==> buf[k] == old(buf[k])
        invariant forall i :: 0 <= i < j ==> !Served(e, i, Stores(), answers(i))
      {
        if Slot(e, j) != 0 {
          var len := ReadBlock(e, Slot(e, j), buf, at, answers(j));
          if len >= e.length {
            assert Served(e, j, Stores(), answers(j));
            return true;
          }
        }
        j := j + 1;
      }
    }

    /** read_blocks: fills the buffer piece after piece; refuses at the first piece that no node
        answers for.  data stands for whatever has been written to all the nodes. */
    method ReadBlocks(exts: seq<Extent>, buf: array<byte>, answers: nat -> nat -> bool, ghost data: seq<byte>)
      returns (ret: int)
      requires Valid() && Total(exts) <= buf.Length
      modifies buf
      ensures ret == if AllServed(exts, Stores(), answers) then Total(exts) else -1
      ensures ret >= 0 && Replicated(Stores(), exts, data) ==> buf[..ret] == data
    {
      hide *;
      ReadingBegins(Stores(), exts, buf[..], data, answers);
      var i: nat, ptr: nat := 0, 0;
      while i < |exts|
        invariant 0 <= i <= |exts| && ReadSoFar(Stores(), exts, i, ptr, buf[..], data, answers)
      {
        ghost var before := buf[..];
        ReadingRoom(Stores(), exts, i, ptr, before, data, answers);
        var found := ReadPiece(exts[i], buf, ptr, answers(i));
        if !found {
          ReadingFails(Stores(), exts, i, answers);
          return -1;
        }
        ReadingGoesOn(Stores(), exts, i, ptr, before, buf[..], data, answers);
        ptr := ptr + exts[i].length;
        i := i + 1;
      }
      ReadingEnds(Stores(), exts, ptr, buf[..], data, answers);
      assert buf[..ptr] == buf[..][..ptr];
      return ptr;
    }
  }

  lemma JoinTake(a: seq<byte>, b: seq<byte>, n: nat, m: nat)
    requires n + m <= |a| && n + m <= |b| && a[..n] == b[..n] && a[n..n + m] == b[n..n + m]
    ensures a[..n + m] == b[..n + m]
  {
    assert a[..n + m] == a[..n] + a[n..n + m];
    assert b[..n + m] == b[..n] + b[n..n + m];
  }

  lemma WriteBlockKeeps(before: Stores, after: Stores, ip: u32, e: Extent, x: seq<byte>)
    requires |x| == e.length
    requires after == before || (ip in before && after == WriteOn(before, ip, e, x))
    ensures KeptOutside(before, after, [e])
    ensures forall other :: Carries(before, other, e, x) ==> Carries(after, other, e, x)
    ensures ip in before && after == WriteOn(before, ip, e, x) ==> Carries(after, ip, e, x)
  {
    if ip in before {
      WriteOnKeeps(before, ip, e, x);
    }
  }

  /** The call for the j-th node of the piece has been done and answered. */
  predicate Reached(e: Extent, j: nat, up: set<u32>, fate: Fate)
    requires j < 3
  {
    Slot(e, j) in up && fate.Done?
  }

  ghost predicate AllReached(exts: seq<Extent>, up: set<u32>, fate: nat -> nat -> Fate) {
    forall i :: 0 <= i < |exts| ==> PieceReached(exts[i], up, fate(i))
  }

  /** The j-th node of the piece answers a read. */
  ghost predicate Served(e: Extent, j: nat, stores: Stores, answers: bool)
    requires j < 3
  {
    Slot(e, j) != 0 && answers && Slot(e, j) in stores && e.num in stores[Slot(e, j)]
  }

  ghost predicate AnyServed(e: Extent, stores: Stores, answers: nat -> bool) {
    exists j :: 0 <= j < 3 && Served(e, j, stores, answers(j))
  }

  ghost predicate AllServed(exts: seq<Extent>, stores: Stores, answers: nat -> nat -> bool) {
    forall i :: 0 <= i < |exts| ==> AnyServed(exts[i], stores, answers(i))
  }

  /** All calls for the piece have been done and answered. */
  ghost predicate PieceReached(e: Extent, up: set<u32>, fate: nat -> Fate) {
    forall j :: 0 <= j < 3 && Slot(e, j) != 0 ==> Reached(e, j, up, fate(j))
  }

  /** Where the replica loop of a write stands after j nodes. */
  ghost predicate Attempted(before: Stores, now: Stores, e: Extent, x: seq<byte>, j: nat, k: nat, l: nat,
                            up: set<u32>, fate: nat -> Fate) {
    && j <= 3 && k <= l && now.Keys == up && |x| == e.length && KeptOutside(before, now, [e])
    && (k == l <==> forall i :: 0 <= i < j && Slot(e, i) != 0 ==> Reached(e, i, up, fate(i)))
    && (k == l ==> forall i :: 0 <= i < j && Slot(e, i) != 0 ==> Carries(now, Slot(e, i), e, x))
  }

  lemma AttemptBegins(before: Stores, e: Extent, x: seq<byte>, up: set<u32>, fate: nat -> Fate)
    requires |x| == e.length && before.Keys == up
    ensures Attempted(before, before, e, x, 0, 0, 0, up, fate)
  {
  }

  /** One node more has been tried: its call counts for l, and for k if it was answered. */
  lemma AttemptGoesOn(before: Stores, mid: Stores, now: Stores, e: Extent, x: seq<byte>, j: nat, k: nat, l: nat,
                      k': nat, l': nat, up: set<u32>, fate: nat -> Fate)
    requires Attempted(before, mid, e, x, j, k, l, up, fate) && j < 3
    requires if Slot(e, j) == 0 then now == mid && k' == k && l' == l
             else l' == l + 1 && k' == (if Slot(e, j) in up && fate(j).Done? then k + 1 else k)
    requires Slot(e, j) != 0 ==>
               now == if Slot(e, j) in mid && !fate(j).NotDone? then WriteOn(mid, Slot(e, j), e, x) else mid
    ensures Attempted(before, now, e, x, j + 1, k', l', up, fate)
  {
    hide KeptOutside, Carries, WriteOn;
    if Slot(e, j) != 0 {
      WriteBlockKeeps(mid, now, Slot(e, j), e, x);
      KeptTwice(before, mid, now, [e]);
    }
  }

  lemma AttemptEnds(before: Stores, now: Stores, e: Extent, x: seq<byte>, k: nat, l: nat,
                    up: set<u32>, fate: nat -> Fate)
    requires Attempted(before, now, e, x, 3, k, l, up, fate)
    ensures KeptOutside(before, now, [e]) && (k == l <==> PieceReached(e, up, fate)) && (k == l ==> AllCarry(now, e, x))
  {
  }

  /** Where write_blocks stands after i pieces. */
  ghost predicate Written(before: Stores, now: Stores, exts: seq<Extent>, i: nat, ptr: nat, buf: seq<byte>,
                          up: set<u32>, fate: nat -> nat -> Fate) {
    && i <= |exts| && Total(exts) <= |buf| && ptr == Total(exts[..i])
    && now.Keys == up && KeptOutside(before, now, exts)
    && (forall a :: 0 <= a < i ==> PieceReached(exts[a], up, fate(a)))
    && (Apart(exts) ==> forall a :: 0 <= a < i ==> AllCarry(now, exts[a], Part(exts, buf, a)))
  }

  lemma WritingBegins(before: Stores, exts: seq<Extent>, buf: seq<byte>, up: set<u32>, fate: nat -> nat -> Fate)
    requires Total(exts) <= |buf| && before.Keys == up
    ensures Written(before, before, exts, 0, 0, buf, up, fate)
  {
    assert exts[..0] == [];
  }

  lemma WritingRoom(before: Stores, now: Stores, exts: seq<Extent>, i: nat, ptr: nat, buf: seq<byte>,
                    up: set<u32>, fate: nat -> nat -> Fate)
    requires Written(before, now, exts, i, ptr, buf, up, fate) && i < |exts|
    ensures ptr + exts[i].length <= |buf|
  {
    TotalPrefix(exts, i);
  }

  lemma WritingFails(before: Stores, now: Stores, next: Stores, exts: seq<Extent>, i: nat, ptr: nat, buf: seq<byte>,
                     up: set<u32>, fate: nat -> nat -> Fate)
    requires Written(before, now, exts, i, ptr, buf, up, fate) && i < |exts|
    requires KeptOutside(now, next, [exts[i]]) && !PieceReached(exts[i], up, fate(i))
    ensures KeptOutside(before, next, exts) && !AllReached(exts, up, fate)
  {
    KeptMore(now, next, exts, i);
    KeptTwice(before, now, next, exts);
  }

  lemma WritingGoesOn(before: Stores, now: Stores, next: Stores, exts: seq<Extent>, i: nat, ptr: nat, buf: seq<byte>,
                      up: set<u32>, fate: nat -> nat -> Fate)
    requires Written(before, now, exts, i, ptr, buf, up, fate) && i < |exts| && ptr + exts[i].length <= |buf|
    requires KeptOutside(now, next, [exts[i]]) && PieceReached(exts[i], up, fate(i))
    requires AllCarry(next, exts[i], buf[ptr..ptr + exts[i].length])
    ensures Written(before, next, exts, i + 1, ptr + exts[i].length, buf, up, fate)
  {
    TotalPrefix(exts, i);
    KeptMore(now, next, exts, i);
    KeptTwice(before, now, next, exts);
    hide AllCarry, KeptOutside, PieceReached, Apart;
    EarlierKept(now, next, exts, i, buf);
  }

  lemma WritingEnds(before: Stores, now: Stores, exts: seq<Extent>, ptr: nat, buf: seq<byte>,
                    up: set<u32>, fate: nat -> nat -> Fate)
    requires Written(before, now, exts, |exts|, ptr, buf, up, fate)
    ensures KeptOutside(before, now, exts) && AllReached(exts, up, fate) && ptr == Total(exts)
    ensures Apart(exts) ==> Replicated(now, exts, buf[..ptr])
  {
    assert exts[..|exts|] == exts;
    PartsOfPrefix(exts, buf);
  }

  lemma EarlierKept(before: Stores, after: Stores, exts: seq<Extent>, i: nat, buf: seq<byte>)
    requires i < |exts| && Total(exts) <= |buf| && KeptOutside(before, after, [exts[i]])
    requires Apart(exts) ==> forall a :: 0 <= a < i ==> AllCarry(before, exts[a], Part(exts, buf, a))
    ensures Apart(exts) ==> forall a :: 0 <= a < i ==> AllCarry(after, exts[a], Part(exts, buf, a))
  {
    if Apart(exts) {
      forall a | 0 <= a < i ensures AllCarry(after, exts[a], Part(exts, buf, a)) {
        forall k: nat | Within(exts[a], exts[a].num, k) ensures !InRange([exts[i]], exts[a].num, k) {
          assert exts[i].num == exts[a].num ==> !Within(exts[i], exts[i].num, k);
        }
        TotalPrefix(exts, a);
        CarriesKept(before, after, [exts[i]], exts[a], Part(exts, buf, a));
      }
    }
  }

  lemma PartsOfPrefix(exts: seq<Extent>, buf: seq<byte>)
    requires Total(exts) <= |buf|
    ensures forall i :: 0 <= i < |exts| ==> Part(exts, buf[..Total(exts)], i) == Part(exts, buf, i)
  {
    forall i | 0 <= i < |exts| ensures Part(exts, buf[..Total(exts)], i) == Part(exts, buf, i) {
      TotalPrefix(exts, i);
    }
  }

  /** The buffer has changed between lo and hi only. */
  ghost predicate OnlyBetween(before: seq<byte>, now: seq<byte>, lo: nat, hi: nat) {
    |now| == |before| && forall k :: 0 <= k < |now| && !(lo <= k < hi) ==> now[k] == before[k]
  }

  /** The buffer holds the piece, whatever bytes all its nodes carry. */
  ghost predicate Fetched(stores: Stores, e: Extent, buf: seq<byte>, at: nat) {
    at + e.length <= |buf| && forall x :: |x| == e.length && AllCarry(stores, e, x) ==> buf[at..at + e.length] == x
  }

  /** Where read_blocks stands after i pieces. */
  ghost predicate ReadSoFar(stores: Stores, exts: seq<Extent>, i: nat, ptr: nat, buf: seq<byte>, data: seq<byte>,
                            answers: nat -> nat -> bool) {
    && i <= |exts| && ptr == Total(exts[..i]) <= Total(exts) <= |buf|
    && (forall a :: 0 <= a < i ==> AnyServed(exts[a], stores, answers(a)))
    && (Replicated(stores, exts, data) ==> buf[..ptr] == data[..ptr])
  }

  lemma ReadingBegins(stores: Stores, exts: seq<Extent>, buf: seq<byte>, data: seq<byte>, answers: nat -> nat -> bool)
    requires Total(exts) <= |buf|
    ensures ReadSoFar(stores, exts, 0, 0, buf, data, answers)
  {
    assert exts[..0] == [];
  }

  lemma ReadingRoom(stores: Stores, exts: seq<Extent>, i: nat, ptr: nat, buf: seq<byte>, data: seq<byte>,
                    answers: nat -> nat -> bool)
    requires ReadSoFar(stores, exts, i, ptr, buf, data, answers) && i < |exts|
    ensures ptr + exts[i].length <= |buf|
  {
    TotalPrefix(exts, i);
  }

  lemma ReadingFails(stores: Stores, exts: seq<Extent>, i: nat, answers: nat -> nat -> bool)
    requires i < |exts| && !AnyServed(exts[i], stores, answers(i))
    ensures !AllServed(exts, stores, answers)
  {
  }

  lemma ReadingGoesOn(stores: Stores, exts: seq<Extent>, i: nat, ptr: nat, before: seq<byte>, buf: seq<byte>,
                      data: seq<byte>, answers: nat -> nat -> bool)
    requires ReadSoFar(stores, exts, i, ptr, before, data, answers) && i < |exts|
    requires AnyServed(exts[i], stores, answers(i)) && Fetched(stores, exts[i], buf, ptr)
    requires OnlyBetween(before, buf, ptr, ptr + exts[i].length)
    ensures ReadSoFar(stores, exts, i + 1, ptr + exts[i].length, buf, data, answers)
  {
    hide *;
    ReadingRoom(stores, exts, i, ptr, before, data, answers);
    BeforeKept(before, buf, ptr, ptr + exts[i].length);
    if Replicated(stores, exts, data) {
      ReadAlready(stores, exts, i, ptr, before, data, answers);
      GotPart(stores, exts, i, ptr, buf, data);
      JoinTake(buf, data, ptr, exts[i].length);
    }
    ReadingNext(stores, exts, i, ptr, before, buf, data, answers);
  }

  lemma ReadAlready(stores: Stores, exts: seq<Extent>, i: nat, ptr: nat, buf: seq<byte>, data: seq<byte>,
                    answers: nat -> nat -> bool)
    requires ReadSoFar(stores, exts, i, ptr, buf, data, answers) && Replicated(stores, exts, data)
    ensures ptr == Total(exts[..i]) <= |buf| && ptr <= |data| && buf[..ptr] == data[..ptr]
  {
  }

  lemma ReadingNext(stores: Stores, exts: seq<Extent>, i: nat, ptr: nat, before: seq<byte>, buf: seq<byte>,
                    data: seq<byte>, answers: nat -> nat -> bool)
    requires ReadSoFar(stores, exts, i, ptr, before, data, answers) && i < |exts| && |buf| == |before|
    requires AnyServed(exts[i], stores, answers(i))
    requires Replicated(stores, exts, data) ==>
               var end := ptr + exts[i].length; end <= |buf| && end <= |data| && buf[..end] == data[..end]
    ensures ReadSoFar(stores, exts, i + 1, ptr + exts[i].length, buf, data, answers)
  {
    TotalPrefix(exts, i);
    hide AnyServed, AllCarry, Part;
  }

  lemma GotPart(stores: Stores, exts: seq<Extent>, i: nat, ptr: nat, buf: seq<byte>, data: seq<byte>)
    requires Replicated(stores, exts, data) && i < |exts| && ptr == Total(exts[..i])
    requires Fetched(stores, exts[i], buf, ptr)
    ensures ptr + exts[i].length <= |data| && ptr + exts[i].length <= |buf|
    ensures buf[ptr..ptr + exts[i].length] == data[ptr..ptr + exts[i].length]
  {
    hide AllCarry;
    TotalPrefix(exts, i);
    assert |Part(exts, data, i)| == exts[i].length;
  }

  lemma BeforeKept(before: seq<byte>, buf: seq<byte>, lo: nat, hi: nat)
    requires OnlyBetween(before, buf, lo, hi) && lo <= |before|
    ensures |buf| == |before| && buf[..lo] == before[..lo]
  {
  }

  lemma ReadingEnds(stores: Stores, exts: seq<Extent>, ptr: nat, buf: seq<byte>, data: seq<byte>,
                    answers: nat -> nat -> bool)
    requires ReadSoFar(stores, exts, |exts|, ptr, buf, data, answers)
    ensures AllServed(exts, stores, answers) && ptr == Total(exts) <= |buf|
    ensures Replicated(stores, exts, data) ==> buf[..ptr] == data
  {
    assert exts[..|exts|] == exts;
  }

  /** Once all nodes carry the bytes of a piece, a read of it succeeds exactly if the piece has a
      node at all that answers. */
  lemma ReadableOnceWritten(stores: Stores, e: Extent, x: seq<byte>, answers: nat -> bool)
    requires AllCarry(stores, e, x) && |x| > 0
    ensures AnyServed(e, stores, answers) <==> exists j :: 0 <= j < 3 && Slot(e, j) != 0 && answers(j)
  {
    forall j | 0 <= j < 3 && Slot(e, j) != 0 ensures Served(e, j, stores, answers(j)) <==> answers(j) {
      assert Carries(stores, Slot(e, j), e, x);
      assert OnNode(stores, Slot(e, j), e.num, e.offset + 0, x[0]);
    }
  }

  /** Write-all, read-any: what a successful write stored is what any successful read returns,
      whichever nodes answer. */
  method WriteThenRead(c: Cluster, exts: seq<Extent>, buf: seq<byte>, out: array<byte>,
                       fate: nat -> nat -> Fate, answers: nat -> nat -> bool)
    returns (written: int, got: int)
    requires c.Valid() && Total(exts) <= |buf| && Total(exts) <= out.Length && Apart(exts)
    modifies c.nodes.Values, out
    ensures written >= 0 && got >= 0 ==> got == written <= |buf| && got <= out.Length && out[..got] == buf[..got]
    ensures written >= 0 <==> AllReached(exts, c.nodes.Keys, fate)
  {
    hide *;
    written := c.WriteBlocks(exts, buf, fate);
    got := c.ReadBlocks(exts, out, answers, if written >= 0 then buf[..written] else []);
  }
}
