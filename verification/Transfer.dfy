/** put and get: a file goes to the data nodes and comes back in chunks of 1 MiB. */
module Transfer {
  import opened Blocks
  import opened Bytes
  import opened Chunks
  import opened DataNode
  import opened Disk
  import opened Execution
  import opened Extents
  import opened FileData
  import opened FileIO
  import opened Image
  import opened Lookup
  import opened Registry
  import opened Replication
  import opened Room
  import opened Runs
  import opened Sectors
  import opened Tree

  /** The descriptor fd is open on the file at p, and the state is sound. */
  ghost predicate OnFile(s: FS, fd: nat, p: Path) {
    Sound(s) && fd < |s.open| && s.open[fd] == Some(p)
  }

  /** A write through the descriptor op.fd that the control node can count. */
  ghost predicate CanWrite(s: FS, op: Op, p: Path) {
    op.WriteOp? && OnFile(s, op.fd, p) && Writable(s.tree, p, s.num, op.offset, op.length, op.ips)
  }

  lemma CanWriteFacts(s: FS, op: Op, p: Path)
    requires CanWrite(s, op, p)
    ensures op.WriteOp? && Sound(s) && WellFormed(s.tree) && Allowed(s, op) && OnFile(s, op.fd, p)
    ensures s.open[op.fd] == Some(p) && p in s.tree && s.tree[p].File?
  {
  }

  /** What the control node answers to the client: an empty answer is an error like none at all. */
  ghost function Answer(s: FS, op: Op, p: Path): seq<Extent>
    requires CanWrite(s, op, p)
  {
    if WriteReply(s, op).Some? then WriteReply(s, op).value else []
  }

  lemma AnswerFacts(s: FS, op: Op, p: Path)
    requires CanWrite(s, op, p)
    ensures Answer(s, op, p)
         == (CanWriteFacts(s, op, p); if WriteReply(s, op).Some? then WriteReply(s, op).value else [])
  {
  }

  /** What sbp_write returns: the number of bytes sent to each node, or -1. */
  ghost function Sent(exts: seq<Extent>, up: set<u32>, fate: nat -> nat -> Fate): int {
    if exts != [] && AllReached(exts, up, fate) then Total(exts) else -1
  }

  /** sbp_write: the control node hands out the pieces, the data nodes store them; -1 if there is
      nothing to store or some node does not store it.  buf is the client's memory from its bytes on:
      of a write that is not aligned, the pieces may be longer than those. */
  method SbpWrite(dt: Disk, fds: seq<u32>, c: Cluster, op: Op, buf: seq<byte>, fate: nat -> nat -> Fate,
                  ghost s: FS, ghost p: Path)
    returns (ok: bool, ret: int)
    requires At(dt, fds, s) && CanWrite(s, op, p) && c.Valid() && Total(Answer(s, op, p)) <= |buf|
    modifies dt, c.nodes.Values
    ensures c.Valid()
    ensures ok ==> ret == Sent(Answer(s, op, p), c.nodes.Keys, fate)
    ensures ok ==> Wrote1(dt, fds, old(c.Stores()), c.Stores(), op, buf, s, p, ret)
    ensures ok ==> KeptOutside(old(c.Stores()), c.Stores(), Answer(s, op, p))
    ensures ok && ret >= 0 ==> ret <= |buf| && Replicated(c.Stores(), Answer(s, op, p), buf[..ret])
    ensures Fits(old(dt.dtSize), Top(old(dt.fat)) + WriteSectors(op.length)) ==> ok
    ensures ok ==> Takes(old(dt.fat), old(dt.dtSize), dt.fat, dt.dtSize, WriteSectors(op.length))
  {
    hide *;
    CanWriteFacts(s, op, p);
    AnswerFacts(s, op, p);
    NoneSent(c.nodes.Keys, fate);
    ghost var before := c.Stores();
    var answer;
    ok, answer := DoWrite(dt, fds, op.fd, op.offset, op.length, op.ips, op.now, s);
    ret := -1;
    if ok {
      if answer.Some? && answer.value != [] {
        AcceptedFits(s, op, p);
        ret := c.WriteBlocks(answer.value, buf, fate);
        SentIs(answer.value, c.nodes.Keys, fate, ret);
      } else {
        KeptNothing(before, []);
      }
      WroteOne(dt, fds, before, c.Stores(), op, buf, s, p, ret);
    }
  }

  lemma NoneSent(up: set<u32>, fate: nat -> nat -> Fate)
    ensures Sent([], up, fate) == -1
  {
  }

  lemma SentIs(exts: seq<Extent>, up: set<u32>, fate: nat -> nat -> Fate, ret: int)
    requires exts != [] && ret == if AllReached(exts, up, fate) then Total(exts) else -1
    ensures ret == Sent(exts, up, fate)
  {
  }

  /** The outcome of a write: the control node has the file's new blocks and length.  The answer is
      the length asked for exactly if the write is aligned, and then the data nodes have the new bytes
      in their place.  All other files are as they were, whatever the outcome. */
  ghost predicate Wrote1(dt: Disk, fds: seq<u32>, before: Stores, after: Stores, op: Op, buf: seq<byte>,
                         s: FS, p: Path, ret: int)
    reads dt
  {
    && CanWrite(s, op, p) && At(dt, fds, Apply(s, op))
    && (ret >= 0 ==> (ret == op.length <==> Aligned(s, op, p)))
    && (forall data :: ret >= 0 && Aligned(s, op, p) && Intact(s, before, p, data) ==>
          && op.offset <= |data| && op.length <= |buf|
          && Intact(Apply(s, op), after, p, Overlaid(data, op.offset, buf[..op.length])))
    && (forall q, data :: q != p && Intact(s, before, q, data) ==> Intact(Apply(s, op), after, q, data))
  }

  lemma WroteOne(dt: Disk, fds: seq<u32>, before: Stores, after: Stores, op: Op, buf: seq<byte>, s: FS, p: Path,
                 ret: int)
    requires CanWrite(s, op, p) && At(dt, fds, Apply(s, op))
    requires Total(Answer(s, op, p)) <= |buf| && KeptOutside(before, after, Answer(s, op, p))
    requires ret >= 0 ==> Answer(s, op, p) != [] && ret == Total(Answer(s, op, p))
    requires ret >= 0 && Apart(Answer(s, op, p)) ==> Replicated(after, Answer(s, op, p), buf[..ret])
    ensures Wrote1(dt, fds, before, after, op, buf, s, p, ret)
  {
    hide *;
    CanWriteFacts(s, op, p);
    AnswerFacts(s, op, p);
    var s' := Apply(s, op);
    if WriteReply(s, op).Some? {
      AcceptedFits(s, op, p);
      forall data | ret >= 0 && Aligned(s, op, p) && Intact(s, before, p, data)
        ensures op.offset <= |data| && Intact(s', after, p, Overlaid(data, op.offset, buf[..op.length]))
      {
        IntactFacts(s, before, p, data);
        WriteIntact(s, op, p, before, after, data, buf[..op.length]);
      }
      forall q, data | q != p && Intact(s, before, q, data) ensures Intact(s', after, q, data) {
        OthersIntact(s, op, p, before, after, q, data);
      }
    } else {
      RefusedKeeps(s, op, p);
      NothingWritten(s, before, after);
    }
    WroteIs(dt, fds, before, after, op, buf, s, p, ret);
  }

  lemma AcceptedFits(s: FS, op: Op, p: Path)
    requires CanWrite(s, op, p) && WriteReply(s, op).Some?
    ensures op.offset <= s.tree[p].flen && Apart(Answer(s, op, p))
    ensures Total(Answer(s, op, p)) == op.length <==> Aligned(s, op, p)
  {
    hide Sound, Allowed, Writable;
    CanWriteFacts(s, op, p);
    ReplyFits(s, op, p);
  }

  lemma RefusedKeeps(s: FS, op: Op, p: Path)
    requires CanWrite(s, op, p) && WriteReply(s, op).None?
    ensures Apply(s, op) == s
  {
    hide Sound, Writable;
  }

  lemma WroteIs(dt: Disk, fds: seq<u32>, before: Stores, after: Stores, op: Op, buf: seq<byte>, s: FS, p: Path,
                ret: int)
    requires CanWrite(s, op, p) && At(dt, fds, Apply(s, op))
    requires ret >= 0 ==> ret <= |buf| && (ret == op.length <==> Aligned(s, op, p))
    requires forall data :: ret >= 0 && Aligned(s, op, p) && Intact(s, before, p, data) ==>
               op.offset <= |data| && Intact(Apply(s, op), after, p, Overlaid(data, op.offset, buf[..op.length]))
    requires forall q, data :: q != p && Intact(s, before, q, data) ==> Intact(Apply(s, op), after, q, data)
    ensures Wrote1(dt, fds, before, after, op, buf, s, p, ret)
  {
    hide At, Apply, Allowed, Intact, Aligned, Overlaid, OnFile, Writable;
  }

  /** A refused write leaves all files as they are. */
  lemma NothingWritten(s: FS, before: Stores, after: Stores)
    requires KeptOutside(before, after, [])
    ensures forall q, data :: Intact(s, before, q, data) ==> Intact(s, after, q, data)
  {
    forall q, data | Intact(s, before, q, data) ensures Intact(s, after, q, data) {
      OtherHeld(before, after, s.tree[q].table, [], data);
    }
  }

  // ----- one chunk -----

  /** A chunk that put writes: within one block, not beyond the end of the file. */
  ghost predicate ChunkFits(s: FS, op: Op, p: Path) {
    && op.WriteOp? && OnFile(s, op.fd, p) && p in s.tree && s.tree[p].File? && op.offset <= s.tree[p].flen
    && 0 < op.length && op.offset % 0x100_0000 + op.length <= 0x100_0000
    && |op.ips| > 0 && op.offset + op.length < 0x1_0000_0000_0000_0000 && s.num + 3 < 0x1_0000_0000_0000_0000
  }

  lemma OneBlockCount(offset: nat, length: nat)
    requires 0 < length && offset % 0x100_0000 + length <= 0x100_0000
    ensures BlockCount(offset, length) == 1 && Countable(offset, length) && length / 0x100_0000 <= 1
  {
    var q, r := offset / 0x100_0000, offset % 0x100_0000;
    assert offset + length == 0x100_0000 * q + (r + length);
  }

  /** A chunk is one piece, and so it is aligned: exactly its bytes are stored. */
  lemma ChunkAligned(s: FS, op: Op, p: Path)
    requires ChunkFits(s, op, p)
    ensures CanWrite(s, op, p) && Aligned(s, op, p)
    ensures Answer(s, op, p) != [] && Total(Answer(s, op, p)) == op.length
  {
    OneBlockCount(op.offset, op.length);
    SoundTable(s, p);
    ReplyFits(s, op, p);
    AddedWithin(s.tree[p].flen, op.offset, op.length);
    hide Sound, BlockCount;
  }

  /** What is left of a file system state by the write of a chunk. */
  lemma ChunkDone(s: FS, op: Op, p: Path)
    requires ChunkFits(s, op, p) && CanWrite(s, op, p)
    ensures var s' := Apply(s, op);
            && OnFile(s', op.fd, p) && s'.num <= s.num + 1 && p in s'.tree && s'.tree[p].File?
            && s'.tree[p].flen
               == if s.tree[p].flen < op.offset + op.length then op.offset + op.length else s.tree[p].flen
  {
    var parts := AcceptedReply(s, op, p);
    ApplySound(s, op);
    OneBlockCount(op.offset, op.length);
    hide Apply, Allowed, WriteReply, Sound, BlockCount, Added, Tiles, Aligned, Writable;
  }

  // ----- put -----

  /** Where put stands after i chunks, having begun with the state s0 and the nodes as in start: offset
      is the descriptor's, all says that every write so far has succeeded. */
  ghost predicate Sending(s0: FS, start: Stores, s: FS, stores: Stores, fd: nat, p: Path, data: seq<byte>,
                          ips: seq<u32>, i: nat, offset: nat, all: bool)
  {
    && OnFile(s, fd, p) && p in s.tree && s.tree[p].File? && |ips| > 0
    && offset <= s.tree[p].flen && offset % 0x10_0000 == 0
    && offset <= 0x10_0000 * i <= |data| < 0x1_0000_0000_0000_0000
    && s.num <= s0.num + i && s0.num + |data| / 0x10_0000 + 4 < 0x1_0000_0000_0000_0000
    && (all ==> offset == 0x10_0000 * i)
    && (all ==> SentAll(s0, start, s, stores, p, data[..offset]))
  }

  /** put asks for: a descriptor of a file, a list of nodes, and room for the block numbers. */
  ghost predicate CanPut(s: FS, fd: nat, p: Path, data: seq<byte>, ips: seq<u32>) {
    && OnFile(s, fd, p) && p in s.tree && s.tree[p].File? && |ips| > 0 && |data| < 0x1_0000_0000_0000_0000
    && s.num + |data| / 0x10_0000 + 4 < 0x1_0000_0000_0000_0000
  }

  /** What a put achieves: data lies over what the file was.  put does not truncate. */
  ghost predicate SentAll(s0: FS, start: Stores, s: FS, stores: Stores, p: Path, data: seq<byte>) {
    forall was :: Intact(s0, start, p, was) ==> Intact(s, stores, p, Overlaid(was, 0, data))
  }

  lemma SendingBegins(s: FS, stores: Stores, fd: nat, p: Path, data: seq<byte>, ips: seq<u32>)
    requires CanPut(s, fd, p, data, ips)
    ensures Sending(s, stores, s, stores, fd, p, data, ips, 0, 0, true)
  {
    forall was | Intact(s, stores, p, was) ensures Intact(s, stores, p, Overlaid(was, 0, data[..0])) {
      assert Overlaid(was, 0, data[..0]) == was;
    }
  }

  /** The next chunk starts at a multiple of 1 MiB and so stays within a block. */
  lemma SendingFits(s0: FS, start: Stores, s: FS, stores: Stores, op: Op, p: Path, data: seq<byte>, i: nat, all: bool)
    requires op.WriteOp? && Sending(s0, start, s, stores, op.fd, p, data, op.ips, i, op.offset, all)
    requires 0 < op.length <= 0x10_0000 && 0x10_0000 * i + op.length <= |data|
    ensures ChunkFits(s, op, p)
  {
    MegaWithin(op.offset, op.length);
    MegaCount(|data|, i);
  }

  lemma SendingOffset(s0: FS, start: Stores, s: FS, stores: Stores, fd: nat, p: Path, data: seq<byte>, ips: seq<u32>,
                      i: nat, offset: nat, all: bool)
    requires Sending(s0, start, s, stores, fd, p, data, ips, i, offset, all)
    ensures offset < 0x1_0000_0000_0000_0000
  {
  }

  lemma MegaWithin(offset: nat, length: nat)
    requires offset % 0x10_0000 == 0 && length <= 0x10_0000
    ensures offset % 0x100_0000 + length <= 0x100_0000
  {
  }

  lemma MegaCount(n: nat, i: nat)
    requires 0x10_0000 * i <= n
    ensures i <= n / 0x10_0000
  {
  }

  /** Bytes put after bytes: together they lie over what was there. */
  lemma OverlaidMore(was: seq<byte>, data: seq<byte>, n: nat, x: seq<byte>)
    requires n + |x| <= |data| && x == data[n..n + |x|]
    ensures n <= |Overlaid(was, 0, data[..n])|
    ensures Overlaid(Overlaid(was, 0, data[..n]), n, x) == Overlaid(was, 0, data[..n + |x|])
  {
    var before := Overlaid(was, 0, data[..n]);
    assert before[..n] == data[..n];
    assert data[..n] + x == data[..n + |x|];
    if n + |x| < |was| {
      assert before[n + |x|..] == was[n + |x|..];
    }
  }

  /** A chunk more that all nodes have. */
  lemma SentMore(s0: FS, start: Stores, s: FS, before: Stores, s': FS, after: Stores, p: Path, data: seq<byte>,
                 n: nat, x: seq<byte>)
    requires n + |x| <= |data| && x == data[n..n + |x|] && SentAll(s0, start, s, before, p, data[..n])
    requires forall d :: Intact(s, before, p, d) && n <= |d| ==> Intact(s', after, p, Overlaid(d, n, x))
    ensures SentAll(s0, start, s', after, p, data[..n + |x|])
  {
    hide Intact, Overlaid;
    forall was | Intact(s0, start, p, was) ensures Intact(s', after, p, Overlaid(was, 0, data[..n + |x|])) {
      OverlaidMore(was, data, n, x);
    }
  }

  /** What an aligned write does to the file. */
  lemma WroteFile(dt: Disk, fds: seq<u32>, before: Stores, after: Stores, op: Op, x: seq<byte>, s: FS, p: Path,
                  ret: int)
    requires Wrote1(dt, fds, before, after, op, x, s, p, ret)
    ensures CanWrite(s, op, p) && At(dt, fds, Apply(s, op))
    ensures ret >= 0 && Aligned(s, op, p) && |x| == op.length ==>
              forall d :: Intact(s, before, p, d) && op.offset <= |d| ==>
                Intact(Apply(s, op), after, p, Overlaid(d, op.offset, x))
  {
    hide At, Apply, Allowed, Intact, Aligned, Overlaid, OnFile, Writable;
    if |x| == op.length {
      assert x[..op.length] == x;
    }
  }

  lemma SendingFacts(s0: FS, start: Stores, s: FS, stores: Stores, fd: nat, p: Path, data: seq<byte>, ips: seq<u32>,
                     i: nat, offset: nat, all: bool)
    requires Sending(s0, start, s, stores, fd, p, data, ips, i, offset, all)
    ensures offset <= |data| && (all ==> offset == 0x10_0000 * i && SentAll(s0, start, s, stores, p, data[..offset]))
  {
  }

  lemma SendingNext(s0: FS, start: Stores, s: FS, stores: Stores, s': FS, stores': Stores, fd: nat, p: Path,
                    data: seq<byte>, ips: seq<u32>, i: nat, offset: nat, all: bool, ret: int)
    requires Sending(s0, start, s, stores, fd, p, data, ips, i, offset, all)
    requires (ret == -1 || ret == 0x10_0000) && 0x10_0000 * (i + 1) <= |data|
    requires OnFile(s', fd, p) && p in s'.tree && s'.tree[p].File? && s'.num <= s.num + 1
    requires offset + 0x10_0000 <= s'.tree[p].flen
    requires all && ret >= 0 ==> SentAll(s0, start, s', stores', p, data[..0x10_0000 * (i + 1)])
    ensures Sending(s0, start, s', stores', fd, p, data, ips, i + 1, if ret >= 0 then offset + ret else offset,
                    all && ret >= 0)
  {
    hide OnFile, SentAll;
  }

  /** One chunk more, written or not; the last one may be shorter. */
  lemma SendingGoesOn(s0: FS, start: Stores, s: FS, before: Stores, after: Stores, dt: Disk, fds: seq<u32>, op: Op,
                      p: Path, data: seq<byte>, i: nat, all: bool, x: seq<byte>, ret: int)
    requires op.WriteOp? && Sending(s0, start, s, before, op.fd, p, data, op.ips, i, op.offset, all)
    requires ChunkFits(s, op, p) && |x| == op.length && 0x10_0000 * i + |x| <= |data|
    requires x == data[0x10_0000 * i..0x10_0000 * i + |x|]
    requires Wrote1(dt, fds, before, after, op, x, s, p, ret) && (ret == -1 || ret == |x|)
    ensures CanWrite(s, op, p) && At(dt, fds, Apply(s, op)) && OnFile(Apply(s, op), op.fd, p)
    ensures all && ret >= 0 ==> SentAll(s0, start, Apply(s, op), after, p, data[..0x10_0000 * i + |x|])
    ensures |x| == 0x10_0000 ==>
              Sending(s0, start, Apply(s, op), after, op.fd, p, data, op.ips, i + 1,
                      if ret >= 0 then op.offset + ret else op.offset, all && ret >= 0)
  {
    hide *;
    WroteFile(dt, fds, before, after, op, x, s, p, ret);
    CanWriteFacts(s, op, p);
    ChunkAligned(s, op, p);
    ChunkDone(s, op, p);
    SendingFacts(s0, start, s, before, op.fd, p, data, op.ips, i, op.offset, all);
    var s' := Apply(s, op);
    if all && ret >= 0 {
      SentMore(s0, start, s, before, s', after, p, data, op.offset, x);
    }
    if |x| == 0x10_0000 {
      SendingNext(s0, start, s, before, s', after, op.fd, p, data, op.ips, i, op.offset, all, ret);
    }
  }

  lemma SendingDone(s0: FS, start: Stores, s: FS, stores: Stores, fd: nat, p: Path, data: seq<byte>, ips: seq<u32>,
                    i: nat, offset: nat, all: bool)
    requires Sending(s0, start, s, stores, fd, p, data, ips, i, offset, all) && 0x10_0000 * i == |data|
    ensures all ==> SentAll(s0, start, s, stores, p, data)
    ensures OnFile(s, fd, p)
  {
    assert data[..|data|] == data;
  }

  /** Whatever is asked of the data nodes succeeds, and the file is on nodes that exist. */
  ghost predicate Smooth(s: FS, p: Path, ips: seq<u32>, up: set<u32>, fate: nat -> nat -> nat -> Fate) {
    && p in s.tree && s.tree[p].File? && TableOn(s.tree[p].table, up) && AllIn(ips, up)
    && forall i, j, k :: fate(i)(j)(k).Done?
  }

  lemma SmoothWrite(s: FS, op: Op, p: Path, up: set<u32>, fate: nat -> nat -> nat -> Fate)
    requires ChunkFits(s, op, p) && CanWrite(s, op, p)
    ensures Smooth(s, p, op.ips, up, fate) ==> Smooth(Apply(s, op), p, op.ips, up, fate)
  {
    if Smooth(s, p, op.ips, up, fate) {
      WriteOnNodes(s, op, p, up);
      hide Apply, Allowed, WriteReply, TableOn, Sound, CanWrite;
    }
  }

  /** All nodes of the block do what they are asked for the k-th chunk. */
  ghost function Reaching(up: set<u32>, fate: nat -> nat -> nat -> Fate): (nat, Desc) -> bool {
    (k: nat, d: Desc) => PieceReached(Extents.Piece(d, 0, 0), up, fate(k)(0))
  }

  /** Where nothing fails, all chunks are written. */
  lemma SmoothAll(s: FS, p: Path, ips: seq<u32>, up: set<u32>, fate: nat -> nat -> nat -> Fate, b: seq<bool>)
    requires Smooth(s, p, ips, up, fate) && Outcomes(s.tree[p].table, Reaching(up, fate), b)
    ensures All(b)
  {
    var table := s.tree[p].table;
    forall k | 0 <= k < |b| ensures b[k] {
      var d := table[Successes(b[..k]) / 16];
      NodesReached(d, up, fate(k)(0));
      assert b[k] <==> Reaching(up, fate)(k, d);
    }
  }

  lemma NodesReached(d: Desc, up: set<u32>, fate: nat -> Fate)
    requires Nodes(d) <= up && forall j :: fate(j).Done?
    ensures PieceReached(Extents.Piece(d, 0, 0), up, fate)
  {
    var e := Extents.Piece(d, 0, 0);
    forall j | 0 <= j < 3 && Slot(e, j) != 0 ensures Reached(e, j, up, fate(j)) {
      assert Slot(e, j) in Nodes(d);
    }
  }

  /** Where put stands after some chunks: which of them have been written, and what that has made of
      the file. */
  ghost predicate Landing(s0: FS, start: Stores, s: FS, stores: Stores, p: Path, data: seq<byte>, up: set<u32>,
                          fate: nat -> nat -> nat -> Fate, b: seq<bool>)
  {
    && p in s.tree && s.tree[p].File? && Outcomes(s.tree[p].table, Reaching(up, fate), b)
    && Progress(s0, start, s, stores, p, Landed(data, b))
  }

  lemma LandingBegins(s: FS, stores: Stores, fd: nat, p: Path, data: seq<byte>, ips: seq<u32>, up: set<u32>,
                      fate: nat -> nat -> nat -> Fate)
    requires CanPut(s, fd, p, data, ips)
    ensures Landing(s, stores, s, stores, p, data, up, fate, []) && All([]) && Successes([]) == 0
  {
    ProgressBegins(s, stores, p);
    LandedNone(data);
    hide Progress;
  }

  /** A chunk is one piece, in the block at the descriptor's offset. */
  lemma ChunkPiece(s: FS, op: Op, p: Path, up: set<u32>, fate: nat -> nat -> nat -> Fate, k: nat)
    requires ChunkFits(s, op, p) && CanWrite(s, op, p)
    ensures var t, q := Apply(s, op).tree, op.offset / 0x100_0000;
            && p in t && t[p].File? && |s.tree[p].table| <= |t[p].table|
            && t[p].table[..|s.tree[p].table|] == s.tree[p].table && q < |t[p].table|
            && (Sent(Answer(s, op, p), up, fate(k)) >= 0 <==> Reaching(up, fate)(k, t[p].table[q]))
    ensures WriteReply(s, op).Some? && Answer(s, op, p) == WriteReply(s, op).value
  {
    var parts := AcceptedReply(s, op, p);
    OneBlockCount(op.offset, op.length);
    var table, q := Apply(s, op).tree[p].table, op.offset / 0x100_0000;
    hide Apply, Allowed, WriteReply, Sound, BlockCount, Added, Tiles, Aligned, Writable, DistinctNums;
    var e, f := Extents.Piece(table[q], parts[0].0, parts[0].1), Extents.Piece(table[q], 0, 0);
    assert Answer(s, op, p) == [e];
    assert AllReached([e], up, fate(k)) <==> PieceReached([e][0], up, fate(k)(0));
    SameReached(e, f, up, fate(k)(0));
  }

  lemma SameReached(e: Extent, f: Extent, up: set<u32>, fate: nat -> Fate)
    requires forall j :: 0 <= j < 3 ==> Slot(e, j) == Slot(f, j)
    ensures PieceReached(e, up, fate) <==> PieceReached(f, up, fate)
  {
  }

  /** One chunk more, whatever becomes of it. */
  lemma LandingGoesOn(s0: FS, start: Stores, s: FS, before: Stores, after: Stores, op: Op, p: Path, data: seq<byte>,
                      up: set<u32>, fate: nat -> nat -> nat -> Fate, b: seq<bool>, x: seq<byte>, ret: int)
    requires ChunkFits(s, op, p) && CanWrite(s, op, p) && Landing(s0, start, s, before, p, data, up, fate, b)
    requires 0x10_0000 * |b| <= |data| && op.offset == 0x10_0000 * Successes(b)
    requires x == Chunk(data, |b|) && |x| == op.length <= 0x10_0000
    requires ret == Sent(Answer(s, op, p), up, fate(|b|)) && KeptOutside(before, after, Answer(s, op, p))
    requires ret >= 0 ==> ret <= |x| && Replicated(after, Answer(s, op, p), x[..ret])
    ensures Landing(s0, start, Apply(s, op), after, p, data, up, fate, b + [ret >= 0])
    ensures Successes(b + [ret >= 0]) == Successes(b) + (if ret >= 0 then 1 else 0)
    ensures All(b + [ret >= 0]) <==> All(b) && ret >= 0
  {
    hide *;
    CanWriteFacts(s, op, p);
    ChunkAligned(s, op, p);
    ChunkSent(s, op, p, up, fate(|b|), ret);
    ChunkPiece(s, op, p, up, fate, |b|);
    ChunkFitsFacts(s, op, p);
    LandingFacts(s0, start, s, before, p, data, up, fate, b);
    LandedSize(data, b);
    LandedMore(data, b, ret >= 0);
    SuccessesMore(b, ret >= 0);
    MegaBlock(op.offset, Successes(b));
    assert x[..|x|] == x;
    var s' := Apply(s, op);
    ProgressGoesOn(s0, start, s, op, p, before, after, Landed(data, b), x, ret >= 0);
    OutcomesMore(s.tree[p].table, s'.tree[p].table, Reaching(up, fate), b, ret >= 0);
    assert Landed(data, b) + [] == Landed(data, b);
    LandingIs(s0, start, s', after, p, data, up, fate, b + [ret >= 0]);
  }

  lemma ChunkFitsFacts(s: FS, op: Op, p: Path)
    requires ChunkFits(s, op, p)
    ensures op.WriteOp? && Sound(s) && p in s.tree && s.tree[p].File? && op.offset <= s.tree[p].flen
  {
  }

  lemma LandingFacts(s0: FS, start: Stores, s: FS, stores: Stores, p: Path, data: seq<byte>, up: set<u32>,
                     fate: nat -> nat -> nat -> Fate, b: seq<bool>)
    requires Landing(s0, start, s, stores, p, data, up, fate, b)
    ensures p in s.tree && s.tree[p].File? && Outcomes(s.tree[p].table, Reaching(up, fate), b)
    ensures Progress(s0, start, s, stores, p, Landed(data, b))
  {
  }

  lemma LandingIs(s0: FS, start: Stores, s: FS, stores: Stores, p: Path, data: seq<byte>, up: set<u32>,
                  fate: nat -> nat -> nat -> Fate, b: seq<bool>)
    requires p in s.tree && s.tree[p].File? && Outcomes(s.tree[p].table, Reaching(up, fate), b)
    requires Progress(s0, start, s, stores, p, Landed(data, b))
    ensures Landing(s0, start, s, stores, p, data, up, fate, b)
  {
  }

  lemma MegaBlock(offset: nat, n: nat)
    requires offset == 0x10_0000 * n
    ensures offset / 0x100_0000 == n / 16
  {
  }

  /** The answer to a chunk is all or nothing. */
  lemma ChunkSent(s: FS, op: Op, p: Path, up: set<u32>, fate: nat -> nat -> Fate, ret: int)
    requires ChunkFits(s, op, p) && CanWrite(s, op, p) && ret == Sent(Answer(s, op, p), up, fate)
    ensures ret == -1 || ret == op.length
  {
    ChunkAligned(s, op, p);
  }

  lemma ChunkIs(data: seq<byte>, i: nat)
    ensures 0x10_0000 * (i + 1) <= |data| ==> Chunk(data, i) == data[0x10_0000 * i..0x10_0000 * i + 0x10_0000]
    ensures 0x10_0000 * i <= |data| < 0x10_0000 * (i + 1) ==> Chunk(data, i) == data[0x10_0000 * i..]
  {
  }

  /** put: sends the bytes of a local file in chunks of 1 MiB and then what is left.  It goes on when
      a chunk is not written, with the descriptor's offset where it was: the next chunk takes its
      place.  landed says of each chunk whether it has been written. */
  method Put(dt: Disk, fds: seq<u32>, c: Cluster, fd: nat, data: seq<byte>, ips: seq<u32>,
             fate: nat -> nat -> nat -> Fate, now: u64, ghost s0: FS, ghost p: Path)
    returns (ok: bool, ghost landed: seq<bool>, ghost s: FS)
    requires At(dt, fds, s0) && CanPut(s0, fd, p, data, ips) && c.Valid()
    modifies dt, c.nodes.Values
    ensures c.Valid()
    ensures ok ==> At(dt, fds, s) && OnFile(s, fd, p)
    ensures ok ==> |landed| == UpDiv(|data|, 0x10_0000)
    ensures ok ==> Landing(s0, old(c.Stores()), s, c.Stores(), p, data, c.nodes.Keys, fate, landed)
    ensures ok && All(landed) ==> SentAll(s0, old(c.Stores()), s, c.Stores(), p, data)
    ensures ok && Smooth(s0, p, ips, c.nodes.Keys, fate) ==> All(landed) && Smooth(s, p, ips, c.nodes.Keys, fate)
    ensures Fits(old(dt.dtSize), Top(old(dt.fat)) + UpDiv(|data|, 0x10_0000)) ==> ok
    ensures ok ==> Takes(old(dt.fat), old(dt.dtSize), dt.fat, dt.dtSize, UpDiv(|data|, 0x10_0000))
  {
    hide *;
    ghost var start, up := c.Stores(), c.nodes.Keys;
    ghost var f0, size0, chunks := dt.fat, dt.dtSize, UpDiv(|data|, 0x10_0000);
    AtSized(dt, fds, s0);
    TakesSelf(f0, size0, 0);
    MegaLeft(|data|);
    SendingBegins(s0, start, fd, p, data, ips);
    LandingBegins(s0, start, fd, p, data, ips, up, fate);
    s, landed := s0, [];
    var offset, pos := 0, 0;
    var i: nat := 0;
    ghost var smooth := Smooth(s0, p, ips, up, fate);
    while i < |data| / 0x10_0000
      invariant 0 <= i <= |data| / 0x10_0000 && 0 <= pos == 0x10_0000 * i && 0 <= offset
      invariant c.Valid() && At(dt, fds, s)
      invariant |landed| == i && offset == 0x10_0000 * Successes(landed)
      invariant Sending(s0, start, s, c.Stores(), fd, p, data, ips, i, offset, All(landed))
      invariant Landing(s0, start, s, c.Stores(), p, data, up, fate, landed)
      invariant smooth ==> Smooth(s, p, ips, up, fate)
      invariant Takes(f0, size0, dt.fat, dt.dtSize, i)
    {
      MegaRoom(|data|, i);
      ghost var f, size := dt.fat, dt.dtSize;
      ChunkRoom(f0, size0, f, size, i, chunks, 0x10_0000);
      ChunkIs(data, i);
      var r := data[pos..pos + 0x10_0000];
      pos := pos + 0x10_0000;
      SendingOffset(s0, start, s, c.Stores(), fd, p, data, ips, i, offset, All(landed));
      var op := WriteOp(fd, offset, |r|, ips, now);
      SendingFits(s0, start, s, c.Stores(), op, p, data, i, All(landed));
      ChunkAligned(s, op, p);
      SmoothWrite(s, op, p, up, fate);
      ghost var before := c.Stores();
      var ret;
      ok, ret := SbpWrite(dt, fds, c, op, r, fate(i), s, p);
      if !ok {
        return;
      }
      ChunkSent(s, op, p, up, fate(i), ret);
      SendingGoesOn(s0, start, s, before, c.Stores(), dt, fds, op, p, data, i, All(landed), r, ret);
      LandingGoesOn(s0, start, s, before, c.Stores(), op, p, data, up, fate, landed, r, ret);
      CanWriteFacts(s, op, p);
      TakesBoth(f0, size0, f, size, dt.fat, dt.dtSize, i, 1);
      s, landed := Apply(s, op), landed + [ret >= 0];
      offset := if ret >= 0 then offset + ret else offset;
      i := i + 1;
    }
    MegaLeft(|data|);
    ok := true;
    if |data| % 0x10_0000 != 0 {
      ChunkIs(data, i);
      ghost var f, size := dt.fat, dt.dtSize;
      ChunkRoom(f0, size0, f, size, i, chunks, |data| % 0x10_0000);
      var r := data[pos..];
      SendingOffset(s0, start, s, c.Stores(), fd, p, data, ips, i, offset, All(landed));
      var op := WriteOp(fd, offset, |r|, ips, now);
      SendingFits(s0, start, s, c.Stores(), op, p, data, i, All(landed));
      ChunkAligned(s, op, p);
      SmoothWrite(s, op, p, up, fate);
      ghost var before := c.Stores();
      var ret;
      ok, ret := SbpWrite(dt, fds, c, op, r, fate(i), s, p);
      if ok {
        ChunkSent(s, op, p, up, fate(i), ret);
        SendingGoesOn(s0, start, s, before, c.Stores(), dt, fds, op, p, data, i, All(landed), r, ret);
        LandingGoesOn(s0, start, s, before, c.Stores(), op, p, data, up, fate, landed, r, ret);
        assert data[..|data|] == data;
        CanWriteFacts(s, op, p);
        TakesBoth(f0, size0, f, size, dt.fat, dt.dtSize, i, 1);
        s, landed := Apply(s, op), landed + [ret >= 0];
      }
    } else {
      SendingDone(s0, start, s, c.Stores(), fd, p, data, ips, i, offset, All(landed));
    }
    if ok {
      LandingFacts(s0, start, s, c.Stores(), p, data, up, fate, landed);
      if smooth {
        SmoothAll(s, p, ips, up, fate, landed);
      }
    }
  }

  /** A chunk takes one sector, and there is room for it if there is for all. */
  lemma ChunkRoom(f0: seq<u32>, size0: nat, f: seq<u32>, size: nat, i: nat, chunks: nat, length: nat)
    requires Sized(size0) && Takes(f0, size0, f, size, i) && i < chunks && length <= 0x10_0000
    ensures WriteSectors(length) == 1
    ensures Fits(size0, Top(f0) + chunks) ==> Fits(size, Top(f) + 1)
  {
    hide Takes, Fits, Top;
    Shorter(length);
    if Fits(size0, Top(f0) + chunks) {
      RoomLess(size0, Top(f0) + i + 1, Top(f0) + chunks);
      TakesRoom(f0, size0, f, size, i, 1);
    }
  }

  lemma Shorter(length: nat)
    requires length <= 0x10_0000
    ensures length / 0x100_0000 == 0
  {
  }

  lemma MegaRoom(n: nat, i: nat)
    requires i < n / 0x10_0000
    ensures 0x10_0000 * i + 0x10_0000 <= n
  {
  }

  lemma MegaLeft(n: nat)
    ensures 0x10_0000 * (n / 0x10_0000) <= n && n - 0x10_0000 * (n / 0x10_0000) == n % 0x10_0000 < 0x10_0000
    ensures UpDiv(n, 0x10_0000) == n / 0x10_0000 + (if n % 0x10_0000 != 0 then 1 else 0)
  {
  }

  // ----- sbp_read -----

  /** A file, open under the descriptor. */
  ghost predicate CanGet(s: FS, fd: nat, p: Path) {
    OnFile(s, fd, p) && p in s.tree && s.tree[p].File?
  }

  /** The control node knows of a node that has the block and answers. */
  ghost predicate Findable(blockmap: map<u64, set<User>>, ipmap: map<User, u32>, stores: Stores, e: Extent,
                           answers: nat -> bool)
  {
    Listed(blockmap, ipmap, e.num)
    && exists j :: 0 <= j < 3 && Knows(blockmap, ipmap, e.num, Slot(e, j)) && Served(e, j, stores, answers(j))
  }

  ghost predicate AllFindable(blockmap: map<u64, set<User>>, ipmap: map<User, u32>, stores: Stores, exts: seq<Extent>,
                              answers: nat -> nat -> bool)
  {
    forall i :: 0 <= i < |exts| ==> Findable(blockmap, ipmap, stores, exts[i], answers(i))
  }

  lemma FindableIs(blockmap: map<u64, set<User>>, ipmap: map<User, u32>, stores: Stores, e: Extent, f: Extent,
                   answers: nat -> bool)
    requires Listed(blockmap, ipmap, e.num) && Filtered(blockmap, ipmap, e, f)
    ensures AnyServed(f, stores, answers) <==> Findable(blockmap, ipmap, stores, e, answers)
  {
    forall j | 0 <= j < 3
      ensures Served(f, j, stores, answers(j))
         <==> Knows(blockmap, ipmap, e.num, Slot(e, j)) && Served(e, j, stores, answers(j))
    {
    }
  }

  /** Pieces after filtering: as many bytes, the same ones, and served if and only if findable. */
  lemma FilteredAll(blockmap: map<u64, set<User>>, ipmap: map<User, u32>, stores: Stores, exts: seq<Extent>,
                    outs: seq<Extent>, data: seq<byte>, answers: nat -> nat -> bool)
    requires |outs| == |exts| && forall i :: 0 <= i < |exts| ==> Listed(blockmap, ipmap, exts[i].num)
    requires forall i :: 0 <= i < |exts| ==> Filtered(blockmap, ipmap, exts[i], outs[i])
    ensures Total(outs) == Total(exts)
    ensures Replicated(stores, exts, data) ==> Replicated(stores, outs, data)
    ensures AllServed(outs, stores, answers) <==> AllFindable(blockmap, ipmap, stores, exts, answers)
  {
    hide Findable, AnyServed, Listed, Filtered, Replicated;
    FilteredTotal(blockmap, ipmap, exts, outs);
    if Replicated(stores, exts, data) {
      FilteredReplicated(blockmap, ipmap, stores, exts, outs, data);
    }
    forall i | 0 <= i < |exts|
      ensures AnyServed(outs[i], stores, answers(i)) <==> Findable(blockmap, ipmap, stores, exts[i], answers(i))
    {
      FindableIs(blockmap, ipmap, stores, exts[i], outs[i], answers(i));
    }
  }

  lemma NotFindable(blockmap: map<u64, set<User>>, ipmap: map<User, u32>, stores: Stores, exts: seq<Extent>,
                    answers: nat -> nat -> bool)
    requires !(forall i :: 0 <= i < |exts| ==> Listed(blockmap, ipmap, exts[i].num))
    ensures !AllFindable(blockmap, ipmap, stores, exts, answers)
  {
    var i :| 0 <= i < |exts| && !Listed(blockmap, ipmap, exts[i].num);
    assert !Findable(blockmap, ipmap, stores, exts[i], answers(i));
  }

  lemma GetReady(dt: Disk, fds: seq<u32>, s: FS, fd: nat, p: Path)
    requires At(dt, fds, s) && CanGet(s, fd, p)
    ensures Ready(dt) && fd < |fds| && p in dt.tree && dt.tree[p].File? && fds[fd] == HeadAt(dt.chains, p)
    ensures dt.tree == s.tree && |dt.tree[p].table| == UpDiv(dt.tree[p].flen, 0x100_0000)
  {
    hide Ready;
    SoundTable(s, p);
  }

  /** How much of the range the file has. */
  ghost function Reach(s: FS, p: Path, offset: nat, length: nat): nat
    requires p in s.tree && s.tree[p].File?
  {
    if offset <= s.tree[p].flen then Min(length, s.tree[p].flen - offset) else 0
  }

  /** The pieces of the file that a read is about; there are none beyond its end. */
  ghost function PiecesAt(s: FS, fd: nat, p: Path, offset: nat, length: nat): seq<Extent>
    requires CanGet(s, fd, p)
  {
    SoundTable(s, p);
    match ReadAnswer(s.tree[p], offset, length)
    case None => []
    case Some(exts) => exts
  }

  lemma PiecesAnswered(s: FS, fd: nat, p: Path, offset: nat, length: nat, ret: int, blocks: seq<Extent>)
    requires CanGet(s, fd, p) && |s.tree[p].table| == UpDiv(s.tree[p].flen, 0x100_0000)
    requires Answered(s.tree[p], offset, length, ret, blocks)
    ensures if ret <= 0 then PiecesAt(s, fd, p, offset, length) == []
            else ret <= |blocks| && blocks[..ret] == PiecesAt(s, fd, p, offset, length) != []
  {
    hide ReadAnswer;
  }

  lemma PiecesParts(s: FS, fd: nat, p: Path, offset: nat, length: nat)
    requires CanGet(s, fd, p) && PiecesAt(s, fd, p, offset, length) != []
    ensures var f, n := s.tree[p], Reach(s, p, offset, length);
            var count := BlockCount(offset, n);
            && offset + n <= f.flen && offset / 0x100_0000 + count <= |f.table|
            && (count == 1 ==> n < 0x1_0000_0000)
            && PiecesAt(s, fd, p, offset, length) == Pieces(f.table, offset / 0x100_0000, ReadParts(offset, n, count))
  {
    SoundTable(s, p);
    hide Sound, BlockCount, ReadParts, DistinctNums;
    ReadFits(s.tree[p].flen, offset, Reach(s, p, offset, length));
  }

  /** The pieces have as many bytes as the file has of the range exactly if they tile it, and then
      these are the bytes they carry. */
  lemma PiecesRight(s: FS, fd: nat, p: Path, offset: nat, length: nat, stores: Stores, data: seq<byte>)
    requires CanGet(s, fd, p) && PiecesAt(s, fd, p, offset, length) != []
    ensures var exts, n := PiecesAt(s, fd, p, offset, length), Reach(s, p, offset, length);
            && offset <= s.tree[p].flen && (Total(exts) == n <==> ReadAligned(offset, BlockCount(offset, n)))
            && (ReadAligned(offset, BlockCount(offset, n)) && Intact(s, stores, p, data) ==>
                  offset + n <= |data| && Replicated(stores, exts, data[offset..offset + n]))
  {
    hide *;
    CanGetFacts(s, fd, p);
    PiecesParts(s, fd, p, offset, length);
    var f, n := s.tree[p], Reach(s, p, offset, length);
    ReadTotal(f.table, offset, n);
    ReadTiles(offset, n);
    if ReadAligned(offset, BlockCount(offset, n)) && Intact(s, stores, p, data) {
      IntactFacts(s, stores, p, data);
      var parts := ReadParts(offset, n, BlockCount(offset, n));
      RangeReplicated(stores, f.table, offset / 0x100_0000, parts, data, offset, offset + n);
    }
  }

  /** What sbp_read returns: the number of bytes in all the pieces, or -1. */
  ghost function Received(blockmap: map<u64, set<User>>, ipmap: map<User, u32>, stores: Stores, exts: seq<Extent>,
                          answers: nat -> nat -> bool): int
  {
    if exts != [] && AllFindable(blockmap, ipmap, stores, exts, answers) then Total(exts) else -1
  }

  /** sbp_read: the control node answers the pieces with the nodes it knows, and for each piece one of
      these gives the bytes.  The answer is the number of bytes that the file has of the range exactly
      if the pieces tile it, and then the bytes are the file's. */
  method SbpRead(dt: Disk, fds: seq<u32>, c: Cluster, reg: Registry, fd: nat, offset: u64, length: u64,
                 buf: array<byte>, answers: nat -> nat -> bool, ghost s: FS, ghost p: Path, ghost data: seq<byte>)
    returns (ret: int)
    requires At(dt, fds, s) && CanGet(s, fd, p) && c.Valid() && Total(PiecesAt(s, fd, p, offset, length)) <= buf.Length
    modifies buf
    ensures ret == Received(reg.blockmap, reg.ipmap, c.Stores(), PiecesAt(s, fd, p, offset, length), answers)
    ensures ret >= 0 ==> ReadRight(s, p, offset, length, c.Stores(), data, ret, buf[..])
  {
    hide *;
    GetReady(dt, fds, s, fd, p);
    ghost var all := PiecesAt(s, fd, p, offset, length);
    var blocks := new Extent[length / 0x100_0000 + 2](_ => NO_EXTENT);
    var count := CRead(dt, fds[fd], offset, length, blocks, p);
    PiecesAnswered(s, fd, p, offset, length, count, blocks[..]);
    NoneReceived(reg.blockmap, reg.ipmap, c.Stores(), all, answers);
    if count <= 0 {
      return -1;
    }
    PiecesRight(s, fd, p, offset, length, c.Stores(), data);
    var exts := blocks[..][..count];
    var known := reg.FlitRead(exts);
    if known.None? {
      NotFindable(reg.blockmap, reg.ipmap, c.Stores(), exts, answers);
      return -1;
    }
    ghost var bytes := Expected(s, p, offset, length, c.Stores(), data);
    FilteredAll(reg.blockmap, reg.ipmap, c.Stores(), exts, known.value, bytes, answers);
    ret := c.ReadBlocks(known.value, buf, answers, bytes);
    if ret >= 0 {
      assert buf[..][..ret] == buf[..ret];
      ReadRightIs(s, fd, p, offset, length, c.Stores(), data, ret, buf[..]);
    }
  }

  /** The outcome of a read that succeeded. */
  ghost predicate ReadRight(s: FS, p: Path, offset: nat, length: nat, stores: Stores, data: seq<byte>, ret: int,
                            buf: seq<byte>)
    requires p in s.tree && s.tree[p].File?
  {
    var n := Reach(s, p, offset, length);
    && (ret == n <==> ReadAligned(offset, BlockCount(offset, n)))
    && (ret == n && Intact(s, stores, p, data) ==>
          offset + n <= |data| && n <= |buf| && buf[..n] == data[offset..offset + n])
  }

  lemma NoneReceived(blockmap: map<u64, set<User>>, ipmap: map<User, u32>, stores: Stores, exts: seq<Extent>,
                     answers: nat -> nat -> bool)
    ensures exts == [] || !AllFindable(blockmap, ipmap, stores, exts, answers) ==>
              Received(blockmap, ipmap, stores, exts, answers) == -1
    ensures exts != [] && AllFindable(blockmap, ipmap, stores, exts, answers) ==>
              Received(blockmap, ipmap, stores, exts, answers) == Total(exts)
  {
  }

  /** What the buffer must be filled with, if data is the file. */
  ghost function Expected(s: FS, p: Path, offset: nat, length: nat, stores: Stores, data: seq<byte>): seq<byte>
    requires p in s.tree && s.tree[p].File?
  {
    var n := Reach(s, p, offset, length);
    if Intact(s, stores, p, data) && offset + n <= |data| then data[offset..offset + n] else []
  }

  lemma ReadRightIs(s: FS, fd: nat, p: Path, offset: nat, length: nat, stores: Stores, data: seq<byte>, ret: int,
                    buf: seq<byte>)
    requires CanGet(s, fd, p) && PiecesAt(s, fd, p, offset, length) != []
    requires ret == Total(PiecesAt(s, fd, p, offset, length)) <= |buf|
    requires Replicated(stores, PiecesAt(s, fd, p, offset, length), Expected(s, p, offset, length, stores, data)) ==>
               buf[..ret] == Expected(s, p, offset, length, stores, data)
    ensures ReadRight(s, p, offset, length, stores, data, ret, buf)
  {
    hide *;
    CanGetFacts(s, fd, p);
    PiecesRight(s, fd, p, offset, length, stores, data);
    var n := Reach(s, p, offset, length);
    ExpectedIs(s, p, offset, length, stores, data, n);
    ReadRightFrom(s, p, offset, length, stores, data, ret, buf, n);
  }

  lemma ExpectedIs(s: FS, p: Path, offset: nat, length: nat, stores: Stores, data: seq<byte>, n: nat)
    requires p in s.tree && s.tree[p].File? && n == Reach(s, p, offset, length)
    ensures Intact(s, stores, p, data) && offset + n <= |data| ==>
              Expected(s, p, offset, length, stores, data) == data[offset..offset + n]
  {
    hide Intact;
  }

  lemma ReadRightFrom(s: FS, p: Path, offset: nat, length: nat, stores: Stores, data: seq<byte>, ret: int,
                      buf: seq<byte>, n: nat)
    requires p in s.tree && s.tree[p].File? && n == Reach(s, p, offset, length)
    requires ret == n <==> ReadAligned(offset, BlockCount(offset, n))
    requires ret == n && Intact(s, stores, p, data) ==>
               offset + n <= |data| && n <= |buf| && buf[..n] == data[offset..offset + n]
    ensures ReadRight(s, p, offset, length, stores, data, ret, buf)
  {
    hide Intact, ReadAligned, BlockCount;
  }

  // ----- get -----

  /** A chunk that get reads: within one block and the file. */
  ghost predicate PartOf(s: FS, p: Path, offset: nat, length: nat) {
    && p in s.tree && s.tree[p].File? && 0 < length && offset % 0x100_0000 + length <= 0x100_0000
    && offset + length <= s.tree[p].flen
  }

  /** A chunk is one piece with exactly its bytes. */
  lemma PartPiece(s: FS, fd: nat, p: Path, offset: nat, length: nat)
    requires CanGet(s, fd, p) && PartOf(s, p, offset, length)
    ensures offset / 0x100_0000 < |s.tree[p].table|
    ensures PiecesAt(s, fd, p, offset, length)
         == [Extents.Piece(s.tree[p].table[offset / 0x100_0000], offset % 0x100_0000, length)]
    ensures Total(PiecesAt(s, fd, p, offset, length)) == length
    ensures Reach(s, p, offset, length) == length && ReadAligned(offset, BlockCount(offset, length))
  {
    OneBlockCount(offset, length);
    SoundTable(s, p);
    ReadFits(s.tree[p].flen, offset, length);
    ReadTotal(s.tree[p].table, offset, length);
  }

  /** The bytes of a chunk that has been read. */
  lemma PartRead(s: FS, fd: nat, p: Path, offset: nat, length: nat, stores: Stores, data: seq<byte>, ret: int,
                 buf: seq<byte>, blockmap: map<u64, set<User>>, ipmap: map<User, u32>, answers: nat -> nat -> bool)
    requires CanGet(s, fd, p) && PartOf(s, p, offset, length) && |buf| == length
    requires ret == Received(blockmap, ipmap, stores, PiecesAt(s, fd, p, offset, length), answers)
    requires ret >= 0 ==> ReadRight(s, p, offset, length, stores, data, ret, buf)
    ensures ret == -1 || ret == length
    ensures ret >= 0 && Intact(s, stores, p, data) ==> offset + length <= |data| && buf == data[offset..offset + length]
  {
    PartPiece(s, fd, p, offset, length);
    hide PiecesAt, Reach, Total, ReadAligned, BlockCount, AllFindable, Intact, OnFile;
    assert buf[..length] == buf;
  }

  /** Every part of the file can be found and read. */
  ghost predicate Clear(s: FS, p: Path, blockmap: map<u64, set<User>>, ipmap: map<User, u32>, stores: Stores,
                        answers: nat -> nat -> nat -> bool)
  {
    && p in s.tree && s.tree[p].File?
    && forall q, i {:trigger s.tree[p].table[q], answers(i)} :: 0 <= q < |s.tree[p].table| && 0 <= i ==>
         Findable(blockmap, ipmap, stores, Extents.Piece(s.tree[p].table[q], 0, 0), answers(i)(0))
  }

  /** The control node and the nodes serve the block for the k-th chunk. */
  ghost function Finding(blockmap: map<u64, set<User>>, ipmap: map<User, u32>, stores: Stores,
                         answers: nat -> nat -> nat -> bool): (nat, Desc) -> bool
  {
    (k: nat, d: Desc) => Findable(blockmap, ipmap, stores, Extents.Piece(d, 0, 0), answers(k)(0))
  }

  lemma SameFindable(blockmap: map<u64, set<User>>, ipmap: map<User, u32>, stores: Stores, e: Extent, f: Extent,
                     answers: nat -> bool)
    requires e.num == f.num && forall j :: 0 <= j < 3 ==> Slot(e, j) == Slot(f, j)
    ensures Findable(blockmap, ipmap, stores, e, answers) <==> Findable(blockmap, ipmap, stores, f, answers)
  {
    forall j | 0 <= j < 3 ensures Served(e, j, stores, answers(j)) <==> Served(f, j, stores, answers(j)) {
    }
  }

  /** A chunk is read just if its block is served. */
  lemma PartFound(s: FS, fd: nat, p: Path, blockmap: map<u64, set<User>>, ipmap: map<User, u32>, stores: Stores,
                  answers: nat -> nat -> nat -> bool, i: nat, offset: nat, length: nat)
    requires CanGet(s, fd, p) && PartOf(s, p, offset, length)
    ensures offset / 0x100_0000 < |s.tree[p].table|
    ensures Received(blockmap, ipmap, stores, PiecesAt(s, fd, p, offset, length), answers(i)) >= 0
       <==> Finding(blockmap, ipmap, stores, answers)(i, s.tree[p].table[offset / 0x100_0000])
  {
    PartPiece(s, fd, p, offset, length);
    var d := s.tree[p].table[offset / 0x100_0000];
    var e, f := Extents.Piece(d, 0, 0), Extents.Piece(d, offset % 0x100_0000, length);
    SameFindable(blockmap, ipmap, stores, e, f, answers(i)(0));
    assert AllFindable(blockmap, ipmap, stores, [f], answers(i)) <==>
             Findable(blockmap, ipmap, stores, [f][0], answers(i)(0));
  }

  /** Where everything can be found, all chunks are read. */
  lemma ClearAll(s: FS, p: Path, blockmap: map<u64, set<User>>, ipmap: map<User, u32>, stores: Stores,
                 answers: nat -> nat -> nat -> bool, b: seq<bool>)
    requires Clear(s, p, blockmap, ipmap, stores, answers)
    requires Outcomes(s.tree[p].table, Finding(blockmap, ipmap, stores, answers), b)
    ensures All(b)
  {
    var table := s.tree[p].table;
    hide Findable;
    forall k | 0 <= k < |b| ensures b[k] {
      var q := Successes(b[..k]) / 16;
      assert b[k] <==> Finding(blockmap, ipmap, stores, answers)(k, table[q]);
      assert Findable(blockmap, ipmap, stores, Extents.Piece(table[q], 0, 0), answers(k)(0));
    }
  }

  /** The length that stat answers. */
  method SizeOf(dt: Disk, fds: seq<u32>, fd: nat, ghost s: FS, ghost p: Path) returns (size: u64)
    requires At(dt, fds, s) && CanGet(s, fd, p)
    ensures p in s.tree && s.tree[p].File? && size == s.tree[p].flen
  {
    hide *;
    GetReady(dt, fds, s, fd, p);
    FileContent(dt, p);
    CanGetFacts(s, fd, p);
    var meta := MetaOf(dt, fds[fd], p);
    return meta.flen;
  }

  lemma CanGetFacts(s: FS, fd: nat, p: Path)
    requires CanGet(s, fd, p)
    ensures p in s.tree && s.tree[p].File?
  {
  }

  lemma PartIs(s: FS, fd: nat, p: Path, offset: nat, length: nat)
    requires CanGet(s, fd, p) && 0 < length <= 0x10_0000 && offset % 0x10_0000 == 0
    requires offset + length <= s.tree[p].flen
    ensures PartOf(s, p, offset, length)
  {
    MegaWithin(offset, length);
  }

  lemma IntactSize(s: FS, stores: Stores, p: Path, data: seq<byte>)
    requires Intact(s, stores, p, data)
    ensures p in s.tree && s.tree[p].File? && s.tree[p].flen == |data|
  {
  }

  /** get: asks for the length of the file and reads it in chunks of 1 MiB and then what is left.  A
      read that fails is not noticed: what was in the buffer is taken for its bytes, and the
      descriptor's offset stays, so that the next chunk gets the bytes this one should have had.
      got says of each chunk whether it has been read. */
  method Get(dt: Disk, fds: seq<u32>, c: Cluster, reg: Registry, fd: nat, answers: nat -> nat -> nat -> bool,
             ghost s: FS, ghost p: Path, ghost data: seq<byte>)
    returns (out: seq<byte>, ghost got: seq<bool>)
    requires At(dt, fds, s) && CanGet(s, fd, p) && c.Valid()
    ensures p in s.tree && s.tree[p].File? && |out| == s.tree[p].flen && |got| == UpDiv(|out|, 0x10_0000)
    ensures Outcomes(s.tree[p].table, Finding(reg.blockmap, reg.ipmap, c.Stores(), answers), got)
    ensures Intact(s, c.Stores(), p, data) ==> GotRight(out, data, got) && (All(got) ==> out == data)
    ensures Clear(s, p, reg.blockmap, reg.ipmap, c.Stores(), answers) ==> All(got)
  {
    hide *;
    var length := SizeOf(dt, fds, fd, s, p);
    ghost var good, finding := Intact(s, c.Stores(), p, data), Finding(reg.blockmap, reg.ipmap, c.Stores(), answers);
    ghost var table := s.tree[p].table;
    if good {
      IntactSize(s, c.Stores(), p, data);
    }
    out, got := [], [];
    OutcomesNone(table, finding);
    GotNone(out, data);
    LandedNone(out);
    var offset: nat := 0;
    var i: nat := 0;
    while i < length / 0x10_0000
      invariant 0 <= i <= length / 0x10_0000 && |out| == 0x10_0000 * i <= length
      invariant |got| == i && offset == 0x10_0000 * Successes(got)
      invariant Outcomes(table, finding, got) && (good ==> GotRight(out, data, got))
    {
      MegaRoom(length, i);
      SuccessesBound(got);
      var buf, ret := ReadChunk(dt, fds, c, reg, fd, offset, 0x10_0000, answers, i, s, p, data);
      ChunkRead(table, finding, out, data, got, buf, ret, offset, good);
      out, got := out + buf, got + [ret >= 0];
      offset := if ret >= 0 then offset + ret else offset;
      i := i + 1;
    }
    MegaLeft(length);
    if length % 0x10_0000 != 0 {
      SuccessesBound(got);
      var buf, ret := ReadChunk(dt, fds, c, reg, fd, offset, length % 0x10_0000, answers, i, s, p, data);
      ChunkRead(table, finding, out, data, got, buf, ret, offset, good);
      out, got := out + buf, got + [ret >= 0];
    }
    if good && All(got) {
      GotWhole(out, data, got);
    }
    if Clear(s, p, reg.blockmap, reg.ipmap, c.Stores(), answers) {
      ClearAll(s, p, reg.blockmap, reg.ipmap, c.Stores(), answers, got);
    }
  }

  lemma SuccessesBound(b: seq<bool>)
    ensures Successes(b) <= |b| && (0x10_0000 * Successes(b)) % 0x10_0000 == 0
  {
    SuccessesAll(b);
    hide Successes;
  }

  /** One chunk more has been asked for. */
  lemma ChunkRead(table: seq<Desc>, finding: (nat, Desc) -> bool, out: seq<byte>, data: seq<byte>, got: seq<bool>,
                  buf: seq<byte>, ret: int, offset: nat, good: bool)
    requires Outcomes(table, finding, got) && (good ==> GotRight(out, data, got))
    requires offset == 0x10_0000 * Successes(got) && offset / 0x100_0000 < |table|
    requires ret >= 0 <==> finding(|got|, table[offset / 0x100_0000])
    requires |out| == 0x10_0000 * |got| && |buf| <= 0x10_0000
    requires good && ret >= 0 ==> offset + |buf| <= |data| && buf == data[offset..offset + |buf|]
    ensures Outcomes(table, finding, got + [ret >= 0]) && (good ==> GotRight(out + buf, data, got + [ret >= 0]))
    ensures Successes(got + [ret >= 0]) == Successes(got) + (if ret >= 0 then 1 else 0)
  {
    hide *;
    MegaBlock(offset, Successes(got));
    SuccessesMore(got, ret >= 0);
    BytesAtIs(buf, data, offset);
    assert table[..|table|] == table;
    OutcomesMore(table, table, finding, got, ret >= 0);
    if good {
      GotMore(out, data, got, buf, ret >= 0);
    }
  }

  /** What read of the Python module returns: a buffer of the length asked for, in any case. */
  method ReadChunk(dt: Disk, fds: seq<u32>, c: Cluster, reg: Registry, fd: nat, offset: u64, length: u64,
                   answers: nat -> nat -> nat -> bool, i: nat, ghost s: FS, ghost p: Path, ghost data: seq<byte>)
    returns (out: seq<byte>, ret: int)
    requires At(dt, fds, s) && CanGet(s, fd, p) && c.Valid()
    requires 0 < length <= 0x10_0000 && offset % 0x10_0000 == 0
    requires p in s.tree && s.tree[p].File? && offset + length <= s.tree[p].flen
    ensures |out| == length && (ret == -1 || ret == length) && offset / 0x100_0000 < |s.tree[p].table|
    ensures ret >= 0 && Intact(s, c.Stores(), p, data) ==>
              offset + length <= |data| && out == data[offset..offset + length]
    ensures ret >= 0 <==>
              Finding(reg.blockmap, reg.ipmap, c.Stores(), answers)(i, s.tree[p].table[offset / 0x100_0000])
  {
    hide *;
    PartIs(s, fd, p, offset, length);
    PartPiece(s, fd, p, offset, length);
    PartFound(s, fd, p, reg.blockmap, reg.ipmap, c.Stores(), answers, i, offset, length);
    var buf := new byte[length];
    ret := SbpRead(dt, fds, c, reg, fd, offset, length, buf, answers(i), s, p, data);
    out := buf[..];
    PartRead(s, fd, p, offset, length, c.Stores(), data, ret, out, reg.blockmap, reg.ipmap, answers(i));
  }

  // ----- there and back -----

  /** Whoever has reported a block is still connected. */
  ghost predicate AllConnected(blockmap: map<u64, set<User>>, ipmap: map<User, u32>) {
    forall n :: n in blockmap ==> Listed(blockmap, ipmap, n)
  }

  /** Each node has a name of its own. */
  ghost predicate Named(names: map<u32, User>, up: set<u32>) {
    && (forall ip :: ip in up ==> ip in names)
    && (forall a, b :: a in up && b in up && names[a] == names[b] ==> a == b)
  }

  /** The control node knows all that the node at ip has. */
  ghost predicate Reported(blockmap: map<u64, set<User>>, ipmap: map<User, u32>, name: User, ip: u32, s: Store) {
    name in ipmap && ipmap[name] == ip && forall n :: n in s ==> n in blockmap && name in blockmap[n]
  }

  /** The effect of one report. */
  ghost predicate Added1(bm: map<u64, set<User>>, im: map<User, u32>, bm': map<u64, set<User>>, im': map<User, u32>,
                         l: seq<u64>, user: User, ip: u32) {
    && im' == im[user := ip]
    && (forall n :: n in bm' <==> n in bm || n in l)
    && (forall n :: n in bm' ==> bm'[n] == (if n in bm then bm[n] else {}) + (if n in l then {user} else {}))
  }

  lemma ReportKeeps(bm: map<u64, set<User>>, im: map<User, u32>, bm': map<u64, set<User>>, im': map<User, u32>,
                    l: seq<u64>, user: User, ip: u32)
    requires AllConnected(bm, im) && Added1(bm, im, bm', im', l, user, ip)
    ensures AllConnected(bm', im')
    ensures forall name, a, s :: name != user && Reported(bm, im, name, a, s) ==> Reported(bm', im', name, a, s)
    ensures forall s: Store :: (forall n :: n in s <==> n in l) ==> Reported(bm', im', user, ip, s)
  {
  }

  /** Every node of the cluster reports its blocks. */
  method ReportAll(c: Cluster, reg: Registry, names: map<u32, User>)
    requires c.Valid() && Named(names, c.nodes.Keys) && AllConnected(reg.blockmap, reg.ipmap)
    modifies reg
    ensures AllConnected(reg.blockmap, reg.ipmap)
    ensures forall ip :: ip in c.nodes ==> Reported(reg.blockmap, reg.ipmap, names[ip], ip, c.nodes[ip].files)
  {
    hide Reported, AllConnected;
    var left := c.nodes.Keys;
    while left != {}
      invariant left <= c.nodes.Keys && AllConnected(reg.blockmap, reg.ipmap)
      invariant forall ip :: ip in c.nodes.Keys - left ==>
        Reported(reg.blockmap, reg.ipmap, names[ip], ip, c.nodes[ip].files)
      decreases |left|
    {
      var ip :| ip in left;
      ghost var bm, im, l := reg.blockmap, reg.ipmap, c.nodes[ip].list;
      reg.AddBlockInfo(c.nodes[ip].list, names[ip], ip);
      ReportKeeps(bm, im, reg.blockmap, reg.ipmap, l, names[ip], ip);
      left := left - {ip};
    }
  }

  /** A file whose blocks are all on reporting nodes that answer can be read. */
  lemma ReportedClear(s: FS, p: Path, blockmap: map<u64, set<User>>, ipmap: map<User, u32>, stores: Stores,
                      answers: nat -> nat -> nat -> bool, names: map<u32, User>, data: seq<byte>)
    requires Intact(s, stores, p, data) && TableOn(s.tree[p].table, stores.Keys) && 0 !in stores
    requires AllConnected(blockmap, ipmap) && Named(names, stores.Keys)
    requires forall ip :: ip in stores ==> Reported(blockmap, ipmap, names[ip], ip, stores[ip])
    requires forall i, j, k :: answers(i)(j)(k)
    ensures Clear(s, p, blockmap, ipmap, stores, answers)
  {
    var table := s.tree[p].table;
    forall q, i {:trigger table[q], answers(i)} | 0 <= q < |table| && 0 <= i
      ensures Findable(blockmap, ipmap, stores, Extents.Piece(table[q], 0, 0), answers(i)(0))
    {
      BlockThere(stores, table, data, q);
      ReportedFindable(blockmap, ipmap, stores, names, Extents.Piece(table[q], 0, 0), answers(i)(0));
    }
  }

  lemma BlockThere(stores: Stores, table: seq<Desc>, data: seq<byte>, q: nat)
    requires FileHeld(stores, table, data) && q < |table| && TableOn(table, stores.Keys) && 0 !in stores
    ensures table[q].ip0 != 0 && table[q].ip0 in stores && table[q].num in stores[table[q].ip0]
  {
    var k := 0x100_0000 * q;
    assert ByteHeld(stores, table[k / 0x100_0000], k % 0x100_0000, data[k]);
    assert table[q].ip0 in Nodes(table[q]);
  }

  lemma ReportedFindable(blockmap: map<u64, set<User>>, ipmap: map<User, u32>, stores: Stores, names: map<u32, User>,
                         e: Extent, answers: nat -> bool)
    requires e.ip0 != 0 && e.ip0 in stores && e.num in stores[e.ip0] && e.ip0 in names && answers(0)
    requires AllConnected(blockmap, ipmap) && Reported(blockmap, ipmap, names[e.ip0], e.ip0, stores[e.ip0])
    ensures Findable(blockmap, ipmap, stores, e, answers)
  {
    assert names[e.ip0] in blockmap[e.num];
    assert Slot(e, 0) == e.ip0;
    assert Knows(blockmap, ipmap, e.num, Slot(e, 0)) && Served(e, 0, stores, answers(0));
  }

  /** The end of a put is the beginning of a get. */
  lemma ThereToBack(s0: FS, start: Stores, s: FS, stores: Stores, fd: nat, p: Path, was: seq<byte>, data: seq<byte>,
                    ips: seq<u32>, fate: nat -> nat -> nat -> Fate)
    requires Intact(s0, start, p, was) && SentAll(s0, start, s, stores, p, data)
    requires OnFile(s, fd, p) && Smooth(s, p, ips, stores.Keys, fate)
    ensures CanGet(s, fd, p) && Intact(s, stores, p, Overlaid(was, 0, data)) && TableOn(s.tree[p].table, stores.Keys)
  {
    hide Sound, TableOn, FileHeld, Overlaid;
  }

  /** End to end: any bytes put over a file, with all data nodes at work, and got back once the nodes
      have reported their blocks, come back the same, followed by what the file had beyond them. */
  method PutOverThenGet(dt: Disk, fds: seq<u32>, c: Cluster, reg: Registry, fd: nat, data: seq<byte>, ips: seq<u32>,
                        fate: nat -> nat -> nat -> Fate, answers: nat -> nat -> nat -> bool, names: map<u32, User>,
                        now: u64, ghost s0: FS, ghost p: Path, ghost was: seq<byte>)
    returns (ok: bool, out: seq<byte>)
    requires At(dt, fds, s0) && CanPut(s0, fd, p, data, ips) && Intact(s0, c.Stores(), p, was)
    requires c.Valid() && 0 !in c.nodes && Smooth(s0, p, ips, c.nodes.Keys, fate)
    requires Named(names, c.nodes.Keys) && AllConnected(reg.blockmap, reg.ipmap)
    requires forall i, j, k :: answers(i)(j)(k)
    modifies dt, c.nodes.Values, reg
    ensures ok ==> out == Overlaid(was, 0, data)
    ensures Fits(old(dt.dtSize), Top(old(dt.fat)) + UpDiv(|data|, 0x10_0000)) ==> ok
  {
    hide *;
    ghost var start := c.Stores();
    ghost var landed, s;
    ok, landed, s := Put(dt, fds, c, fd, data, ips, fate, now, s0, p);
    out := [];
    if ok {
      c.StoresOfAll();
      ThereToBack(s0, start, s, c.Stores(), fd, p, was, data, ips, fate);
      ReportAll(c, reg, names);
      c.StoresAre();
      ghost var whole := Overlaid(was, 0, data);
      ReportedClear(s, p, reg.blockmap, reg.ipmap, c.Stores(), answers, names, whole);
      ghost var got;
      out, got := Get(dt, fds, c, reg, fd, answers, s, p, whole);
    }
  }

  /** A file without bytes is on whatever nodes there are. */
  lemma EmptyIntact(s: FS, fd: nat, p: Path, stores: Stores, data: seq<byte>)
    requires OnFile(s, fd, p) && p in s.tree && s.tree[p].File? && s.tree[p].flen == 0
    ensures Intact(s, stores, p, []) && Overlaid([], 0, data) == data
  {
    SoundTable(s, p);
    EmptyHeld(stores);
  }

  lemma CanPutFacts(s: FS, fd: nat, p: Path, data: seq<byte>, ips: seq<u32>)
    requires CanPut(s, fd, p, data, ips)
    ensures OnFile(s, fd, p) && p in s.tree && s.tree[p].File?
  {
  }

  /** In particular, a new file comes back as it was put. */
  method PutThenGet(dt: Disk, fds: seq<u32>, c: Cluster, reg: Registry, fd: nat, data: seq<byte>, ips: seq<u32>,
                    fate: nat -> nat -> nat -> Fate, answers: nat -> nat -> nat -> bool, names: map<u32, User>,
                    now: u64, ghost s0: FS, ghost p: Path)
    returns (ok: bool, out: seq<byte>)
    requires At(dt, fds, s0) && CanPut(s0, fd, p, data, ips) && s0.tree[p].flen == 0
    requires c.Valid() && 0 !in c.nodes && Smooth(s0, p, ips, c.nodes.Keys, fate)
    requires Named(names, c.nodes.Keys) && AllConnected(reg.blockmap, reg.ipmap)
    requires forall i, j, k :: answers(i)(j)(k)
    modifies dt, c.nodes.Values, reg
    ensures ok ==> out == data
    ensures Fits(old(dt.dtSize), Top(old(dt.fat)) + UpDiv(|data|, 0x10_0000)) ==> ok
  {
    hide *;
    CanPutFacts(s0, fd, p, data, ips);
    EmptyIntact(s0, fd, p, c.Stores(), data);
    ok, out := PutOverThenGet(dt, fds, c, reg, fd, data, ips, fate, answers, names, now, s0, p, []);
  }
}
