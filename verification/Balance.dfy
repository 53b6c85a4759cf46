/** The share of each data node in all the blocks that a run allocates. */
module Balance {
  import opened Blocks
  import opened Bytes
  import opened FileIO
  import opened Runs
  import opened Tree

  /** The blocks that an operation allocates, in order. */
  ghost function Issued(s: FS, op: Op): seq<Desc>
    requires WellFormed(s.tree) && Allowed(s, op)
  {
    if op.WriteOp? && op.offset <= s.tree[s.open[op.fd].value].flen then
      var file := s.open[op.fd].value;
      WritableFits(s.tree, file, s.num, op.offset, op.length, op.ips);
      NewDescs(Added(s.tree[file].flen, op.offset, op.length), s.num, s.ctr, op.ips)
    else []
  }

  ghost function IssuedAll(s: FS, ops: seq<Op>): seq<Desc>
    requires Sound(s) && AllowedRun(s, ops)
    decreases |ops|
  {
    if ops == [] then []
    else
      ApplySound(s, ops[0]);
      Issued(s, ops[0]) + IssuedAll(Apply(s, ops[0]), ops[1..])
  }

  /** The control node had the same nodes to choose from all the time. */
  ghost predicate SameNodes(ops: seq<Op>, ips: seq<u32>) {
    forall i :: 0 <= i < |ops| && ops[i].WriteOp? ==> ops[i].ips == ips
  }

  lemma {:induction false} NewDescsJoin(n: nat, m: nat, num: nat, ctr: nat, ips: seq<u32>)
    requires |ips| > 0 && num + n + m <= 0x1_0000_0000_0000_0000
    ensures NewDescs(n + m, num, ctr, ips)
         == NewDescs(n, num, ctr, ips) + NewDescs(m, num + n, IndexAfter(n, ctr, ips), ips)
    ensures IndexAfter(n + m, ctr, ips) == IndexAfter(m, IndexAfter(n, ctr, ips), ips)
    decreases n
  {
    hide NextDesc, NextIndex;
    if n > 0 {
      NewDescsJoin(n - 1, m, num + 1, NextIndex(ctr, ips), ips);
      assert NewDescs(n + m, num, ctr, ips)
          == [NextDesc(num, ctr, ips)] + NewDescs(n - 1 + m, num + 1, NextIndex(ctr, ips), ips);
    }
  }

  /** One operation goes on where the counters stand. */
  lemma IssuedNext(s: FS, op: Op, ips: seq<u32>)
    requires Sound(s) && Allowed(s, op) && |ips| > 0 && (op.WriteOp? ==> op.ips == ips)
    requires s.num <= 0x1_0000_0000_0000_0000
    ensures var n := |Issued(s, op)|;
            && Apply(s, op).num == s.num + n <= 0x1_0000_0000_0000_0000
            && Apply(s, op).ctr == IndexAfter(n, s.ctr, ips) && Issued(s, op) == NewDescs(n, s.num, s.ctr, ips)
  {
    if op.WriteOp? && op.offset <= s.tree[s.open[op.fd].value].flen {
      WritableFits(s.tree, s.open[op.fd].value, s.num, op.offset, op.length, op.ips);
    }
    hide NextDesc, NextIndex;
  }

  /** All the blocks of a run are those of one uninterrupted round robin, whichever files they were
      allocated for. */
  lemma {:induction false} IssuedRun(s: FS, ops: seq<Op>, ips: seq<u32>)
    requires Sound(s) && AllowedRun(s, ops) && |ips| > 0 && SameNodes(ops, ips)
    requires s.num <= 0x1_0000_0000_0000_0000
    ensures var n := |IssuedAll(s, ops)|;
            && ApplyAll(s, ops).num == s.num + n <= 0x1_0000_0000_0000_0000
            && ApplyAll(s, ops).ctr == IndexAfter(n, s.ctr, ips)
            && IssuedAll(s, ops) == NewDescs(n, s.num, s.ctr, ips)
    decreases |ops|
  {
    hide Apply, Allowed, BlocksOk, OpenOk, Issued, NewDescs, IndexAfter;
    if ops != [] {
      ApplySound(s, ops[0]);
      IssuedNext(s, ops[0], ips);
      IssuedRun(Apply(s, ops[0]), ops[1..], ips);
      NewDescsJoin(|Issued(s, ops[0])|, |IssuedAll(Apply(s, ops[0]), ops[1..])|, s.num, s.ctr, ips);
    } else {
      NoneIssued(s.num, s.ctr, ips);
    }
  }

  lemma NoneIssued(num: nat, ctr: nat, ips: seq<u32>)
    requires |ips| > 0 && num <= 0x1_0000_0000_0000_0000
    ensures NewDescs(0, num, ctr, ips) == [] && IndexAfter(0, ctr, ips) == ctr
  {
  }

  /** Over any run in which the nodes stay the same, no node is given more than one replica more
      than another. */
  lemma RunBalanced(s: FS, ops: seq<Op>, ips: seq<u32>, a: nat, b: nat)
    requires Sound(s) && AllowedRun(s, ops) && SameNodes(ops, ips) && s.num <= 0x1_0000_0000_0000_0000
    requires Proper(ips) && a < |ips| && b < |ips|
    ensures Load(IssuedAll(s, ops), ips[a]) <= Load(IssuedAll(s, ops), ips[b]) + 1
  {
    IssuedRun(s, ops, ips);
    LoadBalanced(|IssuedAll(s, ops)|, s.num, s.ctr, ips, a, b);
  }

  /** The i-th block of the file at p is d. */
  ghost predicate Has(t: Tree, p: Path, i: nat, d: Desc) {
    p in t && t[p].File? && i < |t[p].table| && t[p].table[i] == d
  }

  lemma BlockFrom(s: FS, op: Op, p: Path, i: nat, d: Desc)
    requires Sound(s) && Allowed(s, op) && Has(Apply(s, op).tree, p, i, d)
    ensures Has(s.tree, p, i, d) || (s.num <= d.num < s.num + |Issued(s, op)| && d == Issued(s, op)[d.num - s.num])
  {
    if op.WriteOp? {
      var file := s.open[op.fd].value;
      if op.offset <= s.tree[file].flen {
        WritableFits(s.tree, file, s.num, op.offset, op.length, op.ips);
        if p == file && i >= |s.tree[p].table| {
          assert d == Issued(s, op)[i - |s.tree[p].table|];
        }
      }
    } else {
      OthersNoNewBlocks(s, op);
    }
  }

  lemma IssuedCount(s: FS, op: Op)
    requires Sound(s) && Allowed(s, op)
    ensures Apply(s, op).num == s.num + |Issued(s, op)|
  {
  }

  /** The blocks of the files after a run are blocks they had before, or blocks that the run has
      allocated, each found under its number. */
  lemma {:induction false} BlocksFrom(s: FS, ops: seq<Op>, p: Path, i: nat, d: Desc)
    requires Sound(s) && AllowedRun(s, ops) && Has(ApplyAll(s, ops).tree, p, i, d)
    ensures Has(s.tree, p, i, d)
            || (s.num <= d.num < s.num + |IssuedAll(s, ops)| && d == IssuedAll(s, ops)[d.num - s.num])
    decreases |ops|
  {
    hide Apply, Allowed, BlocksOk, OpenOk, Issued, Has;
    if ops != [] {
      ApplySound(s, ops[0]);
      IssuedCount(s, ops[0]);
      BlocksFrom(Apply(s, ops[0]), ops[1..], p, i, d);
      if Has(Apply(s, ops[0]).tree, p, i, d) {
        BlockFrom(s, ops[0], p, i, d);
      }
    }
  }
}
