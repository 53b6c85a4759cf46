/** Whole runs of the control node's file system, from a fresh format on. */
module Runs {
  import opened Blocks
  import opened Bytes
  import opened FileIO
  import opened Format
  import opened Ops
  import opened Sectors
  import opened Tree

  /** What users can observe of the file system: the tree, the number of blocks ever issued, the
      round-robin counter, and for each descriptor handed out the file it is open on, if that file
      has not been removed since. */
  datatype FS = FS(tree: Tree, num: nat, ctr: nat, open: seq<Option<Path>>)

  datatype Op =
    | MkdirOp(path: seq<byte>, uid: u32, now: u64)
    | OpenOp(path: seq<byte>, mode: byte, uid: u32, now: u64)
    | WriteOp(fd: nat, offset: u64, length: u64, ips: seq<u32>, now: u64)
    | RemoveOp(path: seq<byte>, uid: u32, now: u64)
    | RmdirOp(path: seq<byte>, uid: u32, now: u64)
    | ChmodOp(path: seq<byte>, mode: byte, uid: u32)
    | ChownOp(path: seq<byte>, newuid: u32, uid: u32)

  // ----- block numbers -----

  /** The i-th block of the file at p has number n. */
  ghost predicate Uses(t: Tree, p: Path, i: nat, n: nat) {
    p in t && t[p].File? && i < |t[p].table| && t[p].table[i].num == n
  }

  /** Every file has exactly the blocks its length needs, and no block number is used twice or has
      not been issued yet. */
  ghost predicate BlocksOk(t: Tree, num: nat) {
    && (forall p {:trigger t[p]} :: p in t && t[p].File? ==> |t[p].table| == UpDiv(t[p].flen, 0x100_0000))
    && (forall p, i: nat, n: nat {:trigger Uses(t, p, i, n)} :: Uses(t, p, i, n) ==> n < num)
    && (forall p, i: nat, q, j: nat, n: nat :: Uses(t, p, i, n) && Uses(t, q, j, n) ==> p == q && i == j)
  }

  /** Descriptors that are still alive are open on files of the tree. */
  ghost predicate OpenOk(t: Tree, open: seq<Option<Path>>) {
    forall i :: 0 <= i < |open| && open[i].Some? ==> open[i].value in t && t[open[i].value].File?
  }

  ghost predicate Sound(s: FS) {
    WellFormed(s.tree) && BlocksOk(s.tree, s.num) && OpenOk(s.tree, s.open)
  }

  /** The descriptors once the file at q has been removed. */
  ghost function Closed(open: seq<Option<Path>>, q: Path): seq<Option<Path>> {
    seq(|open|, i requires 0 <= i < |open| => if open[i] == Some(q) then None else open[i])
  }

  // ----- one operation -----

  predicate PathOk(path: seq<byte>) {
    NulFree(path) && |path| < 0x7FFF_FFFF
  }

  /** What the model asks of a caller: strings that a C program can hold, writes through descriptors
      whose file has not been removed, and no directory removed from itself. */
  ghost predicate Allowed(s: FS, op: Op)
    requires WellFormed(s.tree)
  {
    match op
    case MkdirOp(path, _, _) => PathOk(path)
    case OpenOp(path, _, _, _) => PathOk(path)
    case WriteOp(fd, offset, length, ips, _) =>
      fd < |s.open| && s.open[fd].Some? && Writable(s.tree, s.open[fd].value, s.num, offset, length, ips)
    case RemoveOp(path, _, _) => PathOk(path)
    case RmdirOp(path, uid, _) => PathOk(path) && !RemovesItself(s.tree, path, uid)
    case ChmodOp(path, _, _) => PathOk(path)
    case ChownOp(path, _, _) => PathOk(path)
  }

  ghost function Apply(s: FS, op: Op): FS
    requires WellFormed(s.tree) && Allowed(s, op)
  {
    match op
    case MkdirOp(path, uid, _) => s.(tree := Mkdir(s.tree, path, uid).tree)
    case OpenOp(path, mode, uid, _) =>
      var e := Open(s.tree, path, mode, uid);
      s.(tree := e.tree, open := if e.code == 0 then s.open + [Some(e.at)] else s.open)
    case WriteOp(fd, offset, length, ips, _) =>
      var file := s.open[fd].value;
      if s.tree[file].flen < offset then s
      else
        WritableFits(s.tree, file, s.num, offset, length, ips);
        var added := Added(s.tree[file].flen, offset, length);
        FS(s.tree[file := WrittenFile(s.tree[file], offset, length, s.num, s.ctr, ips)],
           s.num + added, IndexAfter(added, s.ctr, ips), s.open)
    case RemoveOp(path, uid, _) =>
      var e := Remove(s.tree, path, uid);
      s.(tree := e.tree, open := if e.code == 0 then Closed(s.open, e.at) else s.open)
    case RmdirOp(path, uid, _) => s.(tree := Rmdir(s.tree, path, uid).tree)
    case ChmodOp(path, mode, uid) => s.(tree := Chmod(s.tree, path, mode, uid).tree)
    case ChownOp(path, newuid, uid) => s.(tree := Chown(s.tree, path, newuid, uid).tree)
  }

  // ----- every operation keeps the state sound -----

  /** A descriptor lives exactly as long as its file is in the tree, and one is added, open on the file
      answered for, exactly when an open succeeds. */
  lemma DescriptorsExact(s: FS, op: Op)
    requires Sound(s) && Allowed(s, op)
    ensures var s' := Apply(s, op);
            var begun := op.OpenOp? && Open(s.tree, op.path, op.mode, op.uid).code == 0;
            && |s'.open| == |s.open| + (if begun then 1 else 0)
            && (begun ==> s'.open[|s.open|] == Some(Open(s.tree, op.path, op.mode, op.uid).at))
            && (forall i :: 0 <= i < |s.open| ==>
                  s'.open[i] == if s.open[i].Some? && s.open[i].value in s'.tree then s.open[i] else None)
  {
    match op
    case MkdirOp(path, uid, _) => MkdirAddsOne(s.tree, path, uid);
    case OpenOp(path, mode, uid, _) => OpenAddsOne(s.tree, path, mode, uid);
    case WriteOp(_, _, _, _, _) =>
    case RemoveOp(path, uid, _) => RemoveRemovesOne(s.tree, path, uid);
    case RmdirOp(path, uid, _) => RmdirRemovesOne(s.tree, path, uid);
    case ChmodOp(path, mode, uid) => MetaKeepsShape(s.tree, path, mode, 0, uid);
    case ChownOp(path, newuid, uid) => MetaKeepsShape(s.tree, path, 0, newuid, uid);
  }

  /** A change that uses no block anew and leaves every file's length and blocks alone. */
  ghost predicate NoNewBlocks(t: Tree, t': Tree) {
    forall p {:trigger t'[p]} :: p in t' && t'[p].File? ==>
      if p in t && t[p].File? then t'[p].flen == t[p].flen && t'[p].table == t[p].table
      else t'[p].flen == 0 && t'[p].table == []
  }

  lemma NoNewBlocksOk(t: Tree, t': Tree, num: nat)
    requires BlocksOk(t, num) && NoNewBlocks(t, t')
    ensures BlocksOk(t', num)
    ensures forall p, i: nat, n: nat {:trigger Uses(t', p, i, n)} :: Uses(t', p, i, n) ==> Uses(t, p, i, n)
  {
    forall p, i: nat, n: nat | Uses(t', p, i, n) ensures Uses(t, p, i, n) {
    }
  }

  /** f is the file with blocks appended whose numbers start at num. */
  ghost predicate Appends(f0: Obj, f: Obj, num: nat) {
    && f0.File? && f.File? && |f0.table| <= |f.table| && f.table[..|f0.table|] == f0.table
    && (forall j :: |f0.table| <= j < |f.table| ==> f.table[j].num == num + (j - |f0.table|))
  }

  lemma NewNumber(t: Tree, file: Path, f: Obj, num: nat, q: Path, j: nat, n: nat)
    requires file in t && Appends(t[file], f, num) && Uses(t[file := f], q, j, n)
    ensures Uses(t, q, j, n) || (q == file && j >= |t[file].table| && n == num + (j - |t[file].table|))
  {
    if q == file && j < |t[file].table| {
      assert f.table[..|t[file].table|][j] == f.table[j];
    }
  }

  lemma AppendBlocksOk(t: Tree, file: Path, f: Obj, num: nat)
    requires BlocksOk(t, num) && file in t && Appends(t[file], f, num)
    requires |f.table| == UpDiv(f.flen, 0x100_0000)
    ensures BlocksOk(t[file := f], num + |f.table| - |t[file].table|)
  {
    var t', num' := t[file := f], num + |f.table| - |t[file].table|;
    forall p, i: nat, n: nat | Uses(t', p, i, n) ensures n < num' {
      NewNumber(t, file, f, num, p, i, n);
    }
    forall p, i: nat, q, j: nat, n: nat | Uses(t', p, i, n) && Uses(t', q, j, n) ensures p == q && i == j {
      NewNumber(t, file, f, num, p, i, n);
      NewNumber(t, file, f, num, q, j, n);
    }
  }

  lemma WriteAppends(s: FS, file: Path, offset: nat, length: nat, ips: seq<u32>)
    requires Writable(s.tree, file, s.num, offset, length, ips) && offset <= s.tree[file].flen
    requires s.num + Added(s.tree[file].flen, offset, length) < 0x1_0000_0000_0000_0000
    ensures var f := WrittenFile(s.tree[file], offset, length, s.num, s.ctr, ips);
            && Appends(s.tree[file], f, s.num)
            && |f.table| == |s.tree[file].table| + Added(s.tree[file].flen, offset, length)
            && |f.table| == UpDiv(f.flen, 0x100_0000)
  {
    LongerSize(s.tree[file].table, Added(s.tree[file].flen, offset, length), s.num, s.ctr, ips);
  }

  /** mkdir, open, remove, rmdir, chmod and chown touch no block. */
  lemma OthersNoNewBlocks(s: FS, op: Op)
    requires WellFormed(s.tree) && Allowed(s, op) && !op.WriteOp?
    ensures WellFormed(Apply(s, op).tree) && NoNewBlocks(s.tree, Apply(s, op).tree)
  {
    match op
    case MkdirOp(path, uid, _) => MkdirAddsOne(s.tree, path, uid);
    case OpenOp(path, mode, uid, _) => OpenAddsOne(s.tree, path, mode, uid);
    case RemoveOp(path, uid, _) => RemoveRemovesOne(s.tree, path, uid);
    case RmdirOp(path, uid, _) => RmdirRemovesOne(s.tree, path, uid);
    case ChmodOp(path, mode, uid) =>
      MetaKeepsShape(s.tree, path, mode, 0, uid);
      MetaNoNewBlocks(s.tree, path, mode, 0, uid);
    case ChownOp(path, newuid, uid) =>
      MetaKeepsShape(s.tree, path, 0, newuid, uid);
      MetaNoNewBlocks(s.tree, path, 0, newuid, uid);
  }

  lemma MetaNoNewBlocks(t: Tree, path: seq<byte>, mode: byte, newuid: u32, uid: u32)
    requires WellFormed(t)
    ensures NoNewBlocks(t, Chmod(t, path, mode, uid).tree) && NoNewBlocks(t, Chown(t, path, newuid, uid).tree)
  {
  }

  /** Descriptors stay good as long as files stay files. */
  lemma OpenKept(t: Tree, t': Tree, open: seq<Option<Path>>)
    requires OpenOk(t, open)
    requires forall p {:trigger t[p]} :: p in t && t[p].File? ==> p in t' && t'[p].File?
    ensures OpenOk(t', open)
  {
  }

  lemma ClosedOk(t: Tree, t': Tree, open: seq<Option<Path>>, q: Path)
    requires OpenOk(t, open)
    requires forall p {:trigger t[p]} :: p in t && t[p].File? && p != q ==> p in t' && t'[p].File?
    ensures OpenOk(t', Closed(open, q))
  {
  }

  lemma AddsKeepFiles(t: Tree, t': Tree, q: Path)
    requires t' == t || AddsOne(t, t', q)
    ensures forall p {:trigger t[p]} :: p in t && t[p].File? ==> p in t' && t'[p].File?
  {
  }

  lemma RemovesKeepFiles(t: Tree, t': Tree, q: Path)
    requires t' == t || RemovesOne(t, t', q)
    ensures forall p {:trigger t[p]} :: p in t && t[p].File? && p != q ==> p in t' && t'[p].File?
  {
  }

  lemma OthersOpenOk(s: FS, op: Op)
    requires Sound(s) && Allowed(s, op) && !op.WriteOp?
    ensures OpenOk(Apply(s, op).tree, Apply(s, op).open)
  {
    match op
    case MkdirOp(path, uid, _) =>
      MkdirAddsOne(s.tree, path, uid);
      AddsKeepFiles(s.tree, Mkdir(s.tree, path, uid).tree, Mkdir(s.tree, path, uid).at);
      OpenKept(s.tree, Mkdir(s.tree, path, uid).tree, s.open);
    case OpenOp(path, mode, uid, _) =>
      OpenAddsOne(s.tree, path, mode, uid);
      AddsKeepFiles(s.tree, Open(s.tree, path, mode, uid).tree, Open(s.tree, path, mode, uid).at);
      OpenKept(s.tree, Open(s.tree, path, mode, uid).tree, s.open);
    case RemoveOp(path, uid, _) =>
      RemoveRemovesOne(s.tree, path, uid);
      RemovesKeepFiles(s.tree, Remove(s.tree, path, uid).tree, Remove(s.tree, path, uid).at);
      ClosedOk(s.tree, Remove(s.tree, path, uid).tree, s.open, Remove(s.tree, path, uid).at);
    case RmdirOp(path, uid, _) =>
      RmdirRemovesOne(s.tree, path, uid);
      RemovesKeepFiles(s.tree, Rmdir(s.tree, path, uid).tree, Rmdir(s.tree, path, uid).at);
      OpenKept(s.tree, Rmdir(s.tree, path, uid).tree, s.open);
    case ChmodOp(path, mode, uid) => MetaKeepsFiles(s.tree, path, mode, 0, uid);
    case ChownOp(path, newuid, uid) => MetaKeepsFiles(s.tree, path, 0, newuid, uid);
  }

  lemma MetaKeepsFiles(t: Tree, path: seq<byte>, mode: byte, newuid: u32, uid: u32)
    requires WellFormed(t)
    ensures forall p {:trigger t[p]} :: p in t && t[p].File? ==>
              && p in Chmod(t, path, mode, uid).tree && Chmod(t, path, mode, uid).tree[p].File?
              && p in Chown(t, path, newuid, uid).tree && Chown(t, path, newuid, uid).tree[p].File?
  {
  }

  /** Every operation keeps the tree a tree, every file's table as long as its length needs, all
      block numbers different and issued, and live descriptors open on files. */
  lemma ApplySound(s: FS, op: Op)
    requires Sound(s) && Allowed(s, op)
    ensures Sound(Apply(s, op)) && s.num <= Apply(s, op).num
  {
    if op.WriteOp? {
      var file := s.open[op.fd].value;
      if op.offset <= s.tree[file].flen {
        WritableFits(s.tree, file, s.num, op.offset, op.length, op.ips);
        WriteAppends(s, file, op.offset, op.length, op.ips);
        var f := WrittenFile(s.tree[file], op.offset, op.length, s.num, s.ctr, op.ips);
        SetObjWellFormed(s.tree, file, f);
        AppendBlocksOk(s.tree, file, f, s.num);
        OpenKept(s.tree, s.tree[file := f], s.open);
      }
    } else {
      OthersNoNewBlocks(s, op);
      NoNewBlocksOk(s.tree, Apply(s, op).tree, s.num);
      OthersOpenOk(s, op);
    }
  }

  ghost predicate InUse(t: Tree, n: nat) {
    exists p, i: nat :: Uses(t, p, i, n)
  }

  /** A block number in use after an operation was in use before, or had not been issued. */
  lemma ApplyIssues(s: FS, op: Op, n: nat)
    requires Sound(s) && Allowed(s, op) && InUse(Apply(s, op).tree, n)
    ensures InUse(s.tree, n) || n >= s.num
  {
    var p, i: nat :| Uses(Apply(s, op).tree, p, i, n);
    if op.WriteOp? {
      var file := s.open[op.fd].value;
      if op.offset <= s.tree[file].flen {
        WritableFits(s.tree, file, s.num, op.offset, op.length, op.ips);
        WriteAppends(s, file, op.offset, op.length, op.ips);
        var f := WrittenFile(s.tree[file], op.offset, op.length, s.num, s.ctr, op.ips);
        NewNumber(s.tree, file, f, s.num, p, i, n);
      }
    } else {
      OthersNoNewBlocks(s, op);
      NoNewBlocksOk(s.tree, Apply(s, op).tree, s.num);
    }
  }

  // ----- runs -----

  ghost predicate AllowedRun(s: FS, ops: seq<Op>)
    requires Sound(s)
    decreases |ops|
  {
    ops != [] ==> Allowed(s, ops[0]) && (ApplySound(s, ops[0]); AllowedRun(Apply(s, ops[0]), ops[1..]))
  }

  ghost function ApplyAll(s: FS, ops: seq<Op>): FS
    requires Sound(s) && AllowedRun(s, ops)
    decreases |ops|
  {
    if ops == [] then s
    else
      ApplySound(s, ops[0]);
      ApplyAll(Apply(s, ops[0]), ops[1..])
  }

  const START := FS(FRESH, 0, 0, [])

  lemma StartSound()
    ensures Sound(START)
  {
    FreshWellFormed();
  }

  /** After any run the state is sound: a well-formed tree, tables that match the lengths, block
      numbers all different and below the count of issued ones. */
  lemma {:induction false} RunSound(s: FS, ops: seq<Op>)
    requires Sound(s) && AllowedRun(s, ops)
    ensures Sound(ApplyAll(s, ops)) && s.num <= ApplyAll(s, ops).num
    decreases |ops|
  {
    if ops != [] {
      ApplySound(s, ops[0]);
      RunSound(Apply(s, ops[0]), ops[1..]);
    }
  }

  /** A block number that has been issued and is no longer in use is never in use again. */
  lemma {:induction false} NeverReused(s: FS, ops: seq<Op>, n: nat)
    requires Sound(s) && AllowedRun(s, ops) && n < s.num && !InUse(s.tree, n)
    ensures !InUse(ApplyAll(s, ops).tree, n)
    decreases |ops|
  {
    if ops != [] {
      ApplySound(s, ops[0]);
      if InUse(Apply(s, ops[0]).tree, n) {
        ApplyIssues(s, ops[0], n);
      }
      NeverReused(Apply(s, ops[0]), ops[1..], n);
    }
  }
}
