/** What becomes of the chunks of put and get when some of them fail. */
module Chunks {
  import opened Bytes
  import opened Execution
  import opened FileData
  import opened FileIO
  import opened Replication
  import opened Runs
  import opened Sectors
  import opened Tree

  /** The number of chunks among the first ones that succeeded: each of them has moved the descriptor's
      offset on by 1 MiB. */
  function Successes(b: seq<bool>): nat {
    if b == [] then 0 else Successes(b[..|b| - 1]) + (if b[|b| - 1] then 1 else 0)
  }

  ghost predicate All(b: seq<bool>) {
    forall k :: 0 <= k < |b| ==> b[k]
  }

  lemma SuccessesMore(b: seq<bool>, x: bool)
    ensures Successes(b + [x]) == Successes(b) + (if x then 1 else 0)
    ensures All(b + [x]) <==> All(b) && x
    ensures forall k :: 0 <= k <= |b| ==> (b + [x])[..k] == b[..k]
  {
    assert (b + [x])[..|b|] == b;
    assert All(b + [x]) ==> (b + [x])[|b|];
    assert forall k :: 0 <= k < |b| ==> (b + [x])[k] == b[k];
  }

  lemma {:induction false} SuccessesAll(b: seq<bool>)
    ensures Successes(b) <= |b| && (All(b) ==> Successes(b) == |b|)
  {
    if b != [] {
      var front := b[..|b| - 1];
      SuccessesAll(front);
      assert All(b) ==> b[|b| - 1];
      assert All(b) ==> forall k :: 0 <= k < |front| ==> front[k] == b[k];
    }
  }

  // ----- what succeeds -----

  /** The k-th chunk succeeds just if the block where the descriptor's offset is by then is ok. */
  ghost predicate Outcomes(table: seq<Desc>, reaches: (nat, Desc) -> bool, b: seq<bool>) {
    forall k :: 0 <= k < |b| ==>
      var q := Successes(b[..k]) / 16; q < |table| && (b[k] <==> reaches(k, table[q]))
  }

  lemma OutcomesNone(table: seq<Desc>, reaches: (nat, Desc) -> bool)
    ensures Outcomes(table, reaches, [])
  {
  }

  lemma OutcomesMore(table: seq<Desc>, table': seq<Desc>, reaches: (nat, Desc) -> bool, b: seq<bool>, x: bool)
    requires Outcomes(table, reaches, b) && |table| <= |table'| && table'[..|table|] == table
    requires Successes(b) / 16 < |table'| && (x <==> reaches(|b|, table'[Successes(b) / 16]))
    ensures Outcomes(table', reaches, b + [x])
  {
    SuccessesMore(b, x);
    forall k | 0 <= k < |b + [x]|
      ensures var q := Successes((b + [x])[..k]) / 16;
              q < |table'| && ((b + [x])[k] <==> reaches(k, table'[q]))
    {
      assert (b + [x])[..k] == b[..k];
      if k < |b| {
        var q := Successes(b[..k]) / 16;
        assert b[k] <==> reaches(k, table[q]);
        assert table'[q] == table'[..|table|][q];
      } else {
        assert b[..k] == b;
      }
    }
  }

  /** All chunks succeed if and only if for each of them the block that it belongs into is ok. */
  lemma AllExact(table: seq<Desc>, reaches: (nat, Desc) -> bool, b: seq<bool>)
    requires Outcomes(table, reaches, b)
    ensures All(b) <==> forall k :: 0 <= k < |b| ==> k / 16 < |table| && reaches(k, table[k / 16])
  {
    if All(b) {
      forall k | 0 <= k < |b| ensures k / 16 < |table| && reaches(k, table[k / 16]) {
        SuccessesAll(b[..k]);
        assert b[k];
      }
    } else if forall k :: 0 <= k < |b| ==> k / 16 < |table| && reaches(k, table[k / 16]) {
      forall k | 0 <= k < |b| ensures b[k] {
        AllBefore(table, reaches, b, k);
        SuccessesAll(b[..k]);
      }
    }
  }

  lemma {:induction false} AllBefore(table: seq<Desc>, reaches: (nat, Desc) -> bool, b: seq<bool>, n: nat)
    requires Outcomes(table, reaches, b) && n <= |b|
    requires forall k :: 0 <= k < |b| ==> k / 16 < |table| && reaches(k, table[k / 16])
    ensures All(b[..n])
  {
    if n > 0 {
      AllBefore(table, reaches, b, n - 1);
      SuccessesAll(b[..n - 1]);
      assert b[n - 1];
      assert forall k :: 0 <= k < n - 1 ==> b[..n][k] == b[..n - 1][k];
    }
  }

  // ----- the chunks of a file -----

  /** The k-th MiB of the bytes, or what there is of it. */
  function Chunk(data: seq<byte>, k: nat): seq<byte> {
    if 0x10_0000 * k <= |data| then data[0x10_0000 * k..Min(0x10_0000 * (k + 1), |data|)] else []
  }

  /** The chunks that succeeded, one after the other. */
  function Landed(data: seq<byte>, b: seq<bool>): seq<byte> {
    if b == [] then []
    else Landed(data, b[..|b| - 1]) + (if b[|b| - 1] then Chunk(data, |b| - 1) else [])
  }

  lemma LandedMore(data: seq<byte>, b: seq<bool>, x: bool)
    ensures Landed(data, b + [x]) == Landed(data, b) + (if x then Chunk(data, |b|) else [])
  {
    assert (b + [x])[..|b|] == b;
  }

  lemma ChunkWhole(data: seq<byte>, k: nat)
    requires 0x10_0000 * (k + 1) <= |data|
    ensures |Chunk(data, k)| == 0x10_0000 && data[..0x10_0000 * k] + Chunk(data, k) == data[..0x10_0000 * (k + 1)]
  {
    TakeMore(data, 0x10_0000 * k, 0x10_0000 * (k + 1));
  }

  lemma ChunkLast(data: seq<byte>, k: nat)
    requires k + 1 == UpDiv(|data|, 0x10_0000)
    ensures 0x10_0000 * k <= |data| <= 0x10_0000 * (k + 1)
    ensures data[..0x10_0000 * k] + Chunk(data, k) == data
  {
    TakeMore(data, 0x10_0000 * k, |data|);
    assert data[..|data|] == data;
  }

  lemma TakeMore(data: seq<byte>, n: nat, m: nat)
    requires n <= m <= |data|
    ensures data[..n] + data[n..m] == data[..m]
  {
  }

  lemma LandedNone(data: seq<byte>)
    ensures Landed(data, []) == [] && Successes([]) == 0 && All([])
  {
  }

  /** As long as there are whole chunks, each that succeeded has 1 MiB. */
  lemma {:induction false} LandedSize(data: seq<byte>, b: seq<bool>)
    requires 0x10_0000 * |b| <= |data|
    ensures |Landed(data, b)| == 0x10_0000 * Successes(b)
    ensures All(b) ==> Landed(data, b) == data[..0x10_0000 * |b|]
  {
    hide *;
    if b != [] {
      var front, x := b[..|b| - 1], b[|b| - 1];
      assert b == front + [x];
      LandedSize(data, front);
      LandedMore(data, front, x);
      SuccessesMore(front, x);
      ChunkWhole(data, |front|);
    } else {
      LandedNone(data);
    }
  }

  /** If all chunks have landed they make up the file. */
  lemma LandedAll(data: seq<byte>, b: seq<bool>)
    requires |b| == UpDiv(|data|, 0x10_0000) && All(b)
    ensures Landed(data, b) == data
  {
    if b != [] {
      hide *;
      var front, x := b[..|b| - 1], b[|b| - 1];
      assert b == front + [x];
      ChunkLast(data, |front|);
      LandedSize(data, front);
      LandedMore(data, front, x);
      SuccessesMore(front, x);
    }
  }

  // ----- put: what the nodes hold afterwards -----

  /** The nodes of its block hold v as byte k of the file. */
  ghost predicate ByteAt(s: FS, stores: Stores, p: Path, k: nat, v: byte) {
    && p in s.tree && s.tree[p].File? && k / 0x100_0000 < |s.tree[p].table|
    && ByteHeld(stores, s.tree[p].table[k / 0x100_0000], k % 0x100_0000, v)
  }

  /** The file begins with the bytes x. */
  ghost predicate StartsWith(s: FS, stores: Stores, p: Path, x: seq<byte>) {
    forall k :: 0 <= k < |x| ==> ByteAt(s, stores, p, k, x[k])
  }

  /** What the file was before, from a position on, is still there. */
  ghost predicate KeptFrom(s0: FS, start: Stores, s: FS, stores: Stores, p: Path, from: nat) {
    forall was, k {:trigger Intact(s0, start, p, was), was[k]} ::
      Intact(s0, start, p, was) && from <= k < |was| ==> ByteAt(s, stores, p, k, was[k])
  }

  /** The file begins with the bytes x, and beyond the next MiB it is as it was. */
  ghost predicate Progress(s0: FS, start: Stores, s: FS, stores: Stores, p: Path, x: seq<byte>) {
    StartsWith(s, stores, p, x) && KeptFrom(s0, start, s, stores, p, |x| + 0x10_0000)
  }

  lemma ProgressBegins(s: FS, stores: Stores, p: Path)
    ensures Progress(s, stores, s, stores, p, [])
  {
    forall was, k | Intact(s, stores, p, was) && 0x10_0000 <= k < |was| ensures ByteAt(s, stores, p, k, was[k]) {
      IntactFacts(s, stores, p, was);
    }
  }

  /** A byte of the file outside the range of a write stays, whatever becomes of the write. */
  lemma OutsideStays(s: FS, op: Op, p: Path, before: Stores, after: Stores, k: nat, v: byte)
    requires Sound(s) && op.WriteOp? && Allowed(s, op) && s.open[op.fd] == Some(p)
    requires p in s.tree && s.tree[p].File? && op.offset <= s.tree[p].flen && Aligned(s, op, p)
    requires WriteReply(s, op).Some? && KeptOutside(before, after, WriteReply(s, op).value)
    requires ByteAt(s, before, p, k, v) && !(op.offset <= k < op.offset + op.length)
    ensures ByteAt(Apply(s, op), after, p, k, v)
  {
    hide *;
    SoundTree(s);
    var s' := Apply(s, op);
    ByteAtFacts(s, before, p, k, v);
    var parts := AcceptedReply(s, op, p);
    var table, table', q := s.tree[p].table, s'.tree[p].table, op.offset / 0x100_0000;
    assert table'[k / 0x100_0000] == table'[..|table|][k / 0x100_0000];
    OutsideTiles(table', q, parts, op.offset, op.offset + op.length, k);
    ByteKept(before, after, table[k / 0x100_0000], Pieces(table', q, parts), k % 0x100_0000, v);
    ByteAtFacts(s', after, p, k, v);
  }

  lemma ByteAtFacts(s: FS, stores: Stores, p: Path, k: nat, v: byte)
    ensures ByteAt(s, stores, p, k, v) <==>
              && p in s.tree && s.tree[p].File? && k / 0x100_0000 < |s.tree[p].table|
              && ByteHeld(stores, s.tree[p].table[k / 0x100_0000], k % 0x100_0000, v)
  {
  }

  /** A byte of a write that reached its nodes. */
  lemma InsideArrives(s: FS, op: Op, p: Path, after: Stores, x: seq<byte>, k: nat)
    requires Sound(s) && op.WriteOp? && Allowed(s, op) && s.open[op.fd] == Some(p)
    requires p in s.tree && s.tree[p].File? && op.offset <= s.tree[p].flen && Aligned(s, op, p)
    requires WriteReply(s, op).Some? && |x| == op.length && Replicated(after, WriteReply(s, op).value, x)
    requires op.offset <= k < op.offset + op.length
    ensures ByteAt(Apply(s, op), after, p, k, x[k - op.offset])
  {
    hide *;
    SoundTree(s);
    var s' := Apply(s, op);
    var parts := AcceptedReply(s, op, p);
    InsideTiles(after, s'.tree[p].table, op.offset / 0x100_0000, parts, op.offset, x, k);
    ByteAtFacts(s', after, p, k, x[k - op.offset]);
  }

  /** One chunk more, at the end of those that have arrived: it arrives, or the MiB there is lost. */
  lemma ProgressGoesOn(s0: FS, start: Stores, s: FS, op: Op, p: Path, before: Stores, after: Stores,
                       x: seq<byte>, c: seq<byte>, done: bool)
    requires Sound(s) && op.WriteOp? && Allowed(s, op) && s.open[op.fd] == Some(p)
    requires p in s.tree && s.tree[p].File? && op.offset <= s.tree[p].flen && Aligned(s, op, p)
    requires WriteReply(s, op).Some? && KeptOutside(before, after, WriteReply(s, op).value)
    requires Progress(s0, start, s, before, p, x) && op.offset == |x| && op.length == |c| <= 0x10_0000
    requires done ==> Replicated(after, WriteReply(s, op).value, c)
    ensures Progress(s0, start, Apply(s, op), after, p, if done then x + c else x)
  {
    SoundTree(s);
    hide Sound, Allowed, Apply, WriteReply, Aligned, Intact, KeptOutside, Replicated, ByteAt;
    var s', y := Apply(s, op), if done then x + c else x;
    forall k | 0 <= k < |y| ensures ByteAt(s', after, p, k, y[k]) {
      if k < |x| {
        OutsideStays(s, op, p, before, after, k, y[k]);
      } else {
        InsideArrives(s, op, p, after, c, k);
      }
    }
    forall was, k | Intact(s0, start, p, was) && |y| + 0x10_0000 <= k < |was| ensures ByteAt(s', after, p, k, was[k]) {
      OutsideStays(s, op, p, before, after, k, was[k]);
    }
  }

  // ----- get: what the bytes delivered are -----

  /** Every chunk that succeeded holds the bytes that the descriptor's offset was at. */
  ghost predicate GotRight(out: seq<byte>, data: seq<byte>, b: seq<bool>) {
    forall k :: 0 <= k < |b| && b[k] ==> GotOne(out, data, b, k)
  }

  ghost predicate GotOne(out: seq<byte>, data: seq<byte>, b: seq<bool>, k: nat)
    requires k < |b|
  {
    BytesAt(Chunk(out, k), data, 0x10_0000 * Successes(b[..k]))
  }

  /** The bytes c stand at position o of data. */
  ghost predicate BytesAt(c: seq<byte>, data: seq<byte>, o: nat) {
    o + |c| <= |data| && c == data[o..o + |c|]
  }

  lemma BytesAtIs(c: seq<byte>, data: seq<byte>, o: nat)
    ensures BytesAt(c, data, o) <==> o + |c| <= |data| && c == data[o..o + |c|]
  {
  }

  lemma GotNone(out: seq<byte>, data: seq<byte>)
    ensures GotRight(out, data, [])
  {
  }

  lemma GotMore(out: seq<byte>, data: seq<byte>, b: seq<bool>, c: seq<byte>, x: bool)
    requires GotRight(out, data, b) && |out| == 0x10_0000 * |b| && |c| <= 0x10_0000
    requires x ==> BytesAt(c, data, 0x10_0000 * Successes(b))
    ensures GotRight(out + c, data, b + [x])
  {
    var out', b' := out + c, b + [x];
    SuccessesMore(b, x);
    ChunkNew(out, c, |b|);
    hide Chunk, Successes, BytesAt;
    forall k | 0 <= k < |b'| && b'[k] ensures GotOne(out', data, b', k) {
      assert b'[..k] == b[..k];
      if k < |b| {
        assert GotOne(out, data, b, k);
        ChunkKept(out, c, |b|, k);
      } else {
        assert b[..k] == b;
      }
    }
  }

  lemma ChunkKept(out: seq<byte>, c: seq<byte>, n: nat, k: nat)
    requires |out| == 0x10_0000 * n && k < n
    ensures Chunk(out + c, k) == Chunk(out, k)
  {
    var lo, hi := 0x10_0000 * k, 0x10_0000 * (k + 1);
    assert hi <= |out|;
    assert (out + c)[lo..hi] == out[lo..hi];
  }

  lemma ChunkNew(out: seq<byte>, c: seq<byte>, n: nat)
    requires |out| == 0x10_0000 * n && |c| <= 0x10_0000
    ensures Chunk(out + c, n) == c
  {
  }

  lemma GotBytes(out: seq<byte>, data: seq<byte>, b: seq<bool>, k: nat)
    requires GotRight(out, data, b) && All(b) && k < |b|
    ensures BytesAt(Chunk(out, k), data, 0x10_0000 * k)
  {
    hide Chunk, BytesAt, Successes;
    assert b[k] && GotOne(out, data, b, k);
    assert forall i :: 0 <= i < k ==> b[..k][i] == b[i];
    SuccessesAll(b[..k]);
  }

  /** If all chunks succeeded the bytes are those of the file. */
  lemma {:induction false} GotAll(out: seq<byte>, data: seq<byte>, b: seq<bool>, n: nat)
    requires GotRight(out, data, b) && All(b) && |out| == |data| && 0x10_0000 * n <= |out| && n <= |b|
    ensures out[..0x10_0000 * n] == data[..0x10_0000 * n]
  {
    hide *;
    if n > 0 {
      GotAll(out, data, b, n - 1);
      GotBytes(out, data, b, n - 1);
      ChunkWhole(out, n - 1);
      BytesAtEnd(Chunk(out, n - 1), data, 0x10_0000 * (n - 1));
    }
  }

  lemma BytesAtEnd(c: seq<byte>, data: seq<byte>, o: nat)
    requires BytesAt(c, data, o)
    ensures o + |c| <= |data| && data[..o] + c == data[..o + |c|]
  {
  }

  lemma GotWhole(out: seq<byte>, data: seq<byte>, b: seq<bool>)
    requires GotRight(out, data, b) && All(b) && |out| == |data| && |b| == UpDiv(|out|, 0x10_0000)
    ensures out == data
  {
    if b != [] {
      hide *;
      var n := |b| - 1;
      ChunkLast(out, n);
      GotAll(out, data, b, n);
      GotBytes(out, data, b, n);
      BytesAtEnd(Chunk(out, n), data, 0x10_0000 * n);
      assert out == data[..|out|] && data[..|data|] == data;
    }
  }
}
