/** The control node's code, run operation after operation, stays with the runs of the specification. */
module Execution {
  import opened Attrs
  import opened Blocks
  import opened Bytes
  import opened Cfs
  import opened Delete
  import opened Disk
  import opened Extents
  import opened FileIO
  import opened Format
  import opened Image
  import opened Lookup
  import opened Ops
  import opened Paths
  import opened Room
  import opened Runs
  import opened Tree

  // ----- the code does what the runs say -----

  /** The descriptor table: the first sectors of the opened files, as the control node keeps them. */
  ghost predicate FdsOk(chains: Chains, open: seq<Option<Path>>, fds: seq<u32>) {
    |fds| == |open| && forall i :: 0 <= i < |open| && open[i].Some? ==> fds[i] == HeadAt(chains, open[i].value)
  }

  /** The disk and the descriptor table are in state s. */
  ghost predicate At(dt: Disk, fds: seq<u32>, s: FS)
    reads dt
  {
    && Ready(dt) && dt.tree == s.tree && dt.maxBlockNum == s.num && dt.ipIndex == s.ctr
    && FdsOk(dt.chains, s.open, fds)
  }

  /** The path as the wrappers pass it: a fresh C string. */
  method ToCString(s: seq<byte>) returns (path: array<byte>)
    requires PathOk(s)
    ensures fresh(path) && path.Length < 0x8000_0000 && CString(path[..], 0, s)
  {
    path := new byte[|s| + 1];
    forall i | 0 <= i <= |s| {
      path[i] := if i < |s| then s[i] else 0;
    }
    assert path[..][0..|s|] == s;
  }

  lemma AtFacts(dt: Disk, fds: seq<u32>, s: FS)
    requires At(dt, fds, s)
    ensures Ready(dt) && dt.tree == s.tree && dt.maxBlockNum == s.num && dt.ipIndex == s.ctr
    ensures |fds| == |s.open| && FdsOk(dt.chains, s.open, fds)
  {
  }

  /** Descriptors survive an operation that keeps their files. */
  lemma AtNext(dt: Disk, fds: seq<u32>, s: FS, c0: Chains, e: Effect, s': FS)
    requires FdsOk(c0, s.open, fds) && OpenOk(s.tree, s.open) && OpenOk(s'.tree, s'.open)
    requires Performed(dt, s.tree, c0, e) && e.tree == s'.tree
    requires dt.maxBlockNum == s'.num && dt.ipIndex == s'.ctr
    requires |s'.open| == |s.open| && forall i :: 0 <= i < |s.open| ==> s'.open[i] == s.open[i] || s'.open[i].None?
    ensures At(dt, fds, s')
  {
    hide Ready;
  }

  lemma AtOpened(dt: Disk, fds: seq<u32>, s: FS, c0: Chains, e: Effect, s': FS, fb: u32)
    requires FdsOk(c0, s.open, fds) && OpenOk(s.tree, s.open) && OpenOk(s'.tree, s'.open)
    requires Performed(dt, s.tree, c0, e) && e.tree == s'.tree
    requires dt.maxBlockNum == s'.num && dt.ipIndex == s'.ctr
    requires s'.open == s.open + [Some(e.at)] && fb == HeadAt(dt.chains, e.at)
    ensures At(dt, fds + [fb], s')
  {
    hide Ready;
    forall i | 0 <= i < |s.open| && s.open[i].Some? ensures fds[i] == HeadAt(dt.chains, s.open[i].value) {
      assert s'.open[i] == s.open[i];
    }
  }

  /** The effect on the tree of the operations that change nothing else. */
  ghost predicate TreeEffect(st: FS, op: Op, e: Effect)
    requires WellFormed(st.tree) && Allowed(st, op)
  {
    match op
    case MkdirOp(path, uid, _) => e == Mkdir(st.tree, path, uid)
    case RmdirOp(path, uid, _) => e == Rmdir(st.tree, path, uid)
    case ChmodOp(path, mode, uid) => e == Chmod(st.tree, path, mode, uid)
    case ChownOp(path, newuid, uid) => e == Chown(st.tree, path, newuid, uid)
    case RemoveOp(path, uid, _) => e == Remove(st.tree, path, uid)
    case _ => false
  }

  lemma EffectApplied(st: FS, op: Op, e: Effect)
    requires Sound(st) && Allowed(st, op) && TreeEffect(st, op, e)
    ensures var st' := Apply(st, op);
            && e.tree == st'.tree && st'.num == st.num && st'.ctr == st.ctr && |st'.open| == |st.open|
            && (forall i :: 0 <= i < |st.open| ==> st'.open[i] == st.open[i] || st'.open[i].None?)
  {
    hide Mkdir, Rmdir, Chmod, Chown, Remove;
  }

  lemma SoundOpen(st: FS)
    requires Sound(st)
    ensures WellFormed(st.tree) && OpenOk(st.tree, st.open)
  {
  }

  lemma OnTree(dt: Disk, fds: seq<u32>, st: FS, c0: Chains, op: Op, e: Effect)
    requires Sound(st) && Allowed(st, op) && FdsOk(c0, st.open, fds)
    requires Performed(dt, st.tree, c0, e) && dt.maxBlockNum == st.num && dt.ipIndex == st.ctr
    requires TreeEffect(st, op, e)
    ensures At(dt, fds, Apply(st, op))
  {
    hide *;
    SoundOpen(st);
    ApplySound(st, op);
    SoundOpen(Apply(st, op));
    EffectApplied(st, op, e);
    AtNext(dt, fds, st, c0, e, Apply(st, op));
  }

  /** What each operation on a path asks for, and what it does to the tree. */
  lemma AllowedPath(st: FS, op: Op)
    requires Sound(st) && Allowed(st, op) && !op.WriteOp?
    ensures WellFormed(st.tree) && PathOk(op.path) && NulFree(op.path) && |op.path| < 0x7FFF_FFFF
    ensures op.RmdirOp? ==> !RemovesItself(st.tree, op.path, op.uid)
    ensures op.MkdirOp? ==> TreeEffect(st, op, Mkdir(st.tree, op.path, op.uid))
    ensures op.RmdirOp? ==> TreeEffect(st, op, Rmdir(st.tree, op.path, op.uid))
    ensures op.RemoveOp? ==> TreeEffect(st, op, Remove(st.tree, op.path, op.uid))
    ensures op.ChmodOp? ==> TreeEffect(st, op, Chmod(st.tree, op.path, op.mode, op.uid))
    ensures op.ChownOp? ==> TreeEffect(st, op, Chown(st.tree, op.path, op.newuid, op.uid))
  {
  }

  method DoMkdir(dt: Disk, fds: seq<u32>, s: seq<byte>, uid: u32, now: u64, ghost st: FS) returns (ok: bool)
    requires At(dt, fds, st) && Sound(st) && Allowed(st, MkdirOp(s, uid, now))
    modifies dt
    ensures ok ==> At(dt, fds, Apply(st, MkdirOp(s, uid, now)))
    ensures Fits(old(dt.dtSize), Top(old(dt.fat)) + EntrySectors(|s|)) ==> ok
    ensures ok ==> Takes(old(dt.fat), old(dt.dtSize), dt.fat, dt.dtSize, EntrySectors(|s|))
  {
    hide *;
    AtFacts(dt, fds, st);
    AllowedPath(st, MkdirOp(s, uid, now));
    ghost var c0 := dt.chains;
    var path := ToCString(s);
    var ret;
    ok, ret := CMkdir(dt, path, uid, now, s);
    if ok {
      OnTree(dt, fds, st, c0, MkdirOp(s, uid, now), Mkdir(st.tree, s, uid));
    }
  }

  method DoRmdir(dt: Disk, fds: seq<u32>, s: seq<byte>, uid: u32, now: u64, ghost st: FS)
    requires At(dt, fds, st) && Sound(st) && Allowed(st, RmdirOp(s, uid, now))
    modifies dt
    ensures At(dt, fds, Apply(st, RmdirOp(s, uid, now)))
    ensures dt.dtSize == old(dt.dtSize) && Top(dt.fat) <= Top(old(dt.fat))
  {
    hide *;
    AtFacts(dt, fds, st);
    AllowedPath(st, RmdirOp(s, uid, now));
    ghost var c0 := dt.chains;
    var path := ToCString(s);
    var ret := CRmdir(dt, path, uid, now, s);
    OnTree(dt, fds, st, c0, RmdirOp(s, uid, now), Rmdir(st.tree, s, uid));
  }

  method DoRemove(dt: Disk, fds: seq<u32>, s: seq<byte>, uid: u32, now: u64, ghost st: FS)
    requires At(dt, fds, st) && Sound(st) && Allowed(st, RemoveOp(s, uid, now))
    modifies dt
    ensures At(dt, fds, Apply(st, RemoveOp(s, uid, now)))
    ensures dt.dtSize == old(dt.dtSize) && Top(dt.fat) <= Top(old(dt.fat))
  {
    hide *;
    AtFacts(dt, fds, st);
    AllowedPath(st, RemoveOp(s, uid, now));
    ghost var c0 := dt.chains;
    var path := ToCString(s);
    var ret := CRemove(dt, path, uid, now, s);
    OnTree(dt, fds, st, c0, RemoveOp(s, uid, now), Remove(st.tree, s, uid));
  }

  method DoChmod(dt: Disk, fds: seq<u32>, s: seq<byte>, mode: byte, uid: u32, ghost st: FS)
    requires At(dt, fds, st) && Sound(st) && Allowed(st, ChmodOp(s, mode, uid))
    modifies dt
    ensures At(dt, fds, Apply(st, ChmodOp(s, mode, uid)))
    ensures dt.fat == old(dt.fat) && dt.dtSize == old(dt.dtSize)
  {
    hide *;
    AtFacts(dt, fds, st);
    AllowedPath(st, ChmodOp(s, mode, uid));
    ghost var c0 := dt.chains;
    var path := ToCString(s);
    var ret := CChmod(dt, path, mode, uid, s);
    OnTree(dt, fds, st, c0, ChmodOp(s, mode, uid), Chmod(st.tree, s, mode, uid));
  }

  method DoChown(dt: Disk, fds: seq<u32>, s: seq<byte>, newuid: u32, uid: u32, ghost st: FS)
    requires At(dt, fds, st) && Sound(st) && Allowed(st, ChownOp(s, newuid, uid))
    modifies dt
    ensures At(dt, fds, Apply(st, ChownOp(s, newuid, uid)))
    ensures dt.fat == old(dt.fat) && dt.dtSize == old(dt.dtSize)
  {
    hide *;
    AtFacts(dt, fds, st);
    AllowedPath(st, ChownOp(s, newuid, uid));
    ghost var c0 := dt.chains;
    var path := ToCString(s);
    var ret := CChown(dt, path, newuid, uid, s);
    OnTree(dt, fds, st, c0, ChownOp(s, newuid, uid), Chown(st.tree, s, newuid, uid));
  }

  lemma OnOpen(dt: Disk, fds: seq<u32>, st: FS, c0: Chains, op: Op)
    requires Sound(st) && op.OpenOp? && Allowed(st, op) && FdsOk(c0, st.open, fds)
    requires Performed(dt, st.tree, c0, Open(st.tree, op.path, op.mode, op.uid))
    requires dt.maxBlockNum == st.num && dt.ipIndex == st.ctr
    ensures var e := Open(st.tree, op.path, op.mode, op.uid);
            At(dt, if e.code == 0 then fds + [HeadAt(dt.chains, e.at)] else fds, Apply(st, op))
    ensures Open(st.tree, op.path, op.mode, op.uid).code <= 0
  {
    ApplySound(st, op);
    OpenCode(st.tree, op.path, op.mode, op.uid);
    hide Performed, Open;
    var e := Open(st.tree, op.path, op.mode, op.uid);
    if e.code == 0 {
      AtOpened(dt, fds, st, c0, e, Apply(st, op), HeadAt(dt.chains, e.at));
    } else {
      AtNext(dt, fds, st, c0, e, Apply(st, op));
    }
  }

  lemma OpenCode(t: Tree, s: seq<byte>, mode: byte, uid: u32)
    requires WellFormed(t)
    ensures Open(t, s, mode, uid).code <= 0
  {
  }

  method DoOpen(dt: Disk, fds: seq<u32>, s: seq<byte>, mode: byte, uid: u32, now: u64, ghost st: FS)
    returns (ok: bool, fds': seq<u32>)
    requires At(dt, fds, st) && Sound(st) && Allowed(st, OpenOp(s, mode, uid, now))
    modifies dt
    ensures ok ==> At(dt, fds', Apply(st, OpenOp(s, mode, uid, now)))
    ensures Fits(old(dt.dtSize), Top(old(dt.fat)) + EntrySectors(|s|)) ==> ok
    ensures ok ==> Takes(old(dt.fat), old(dt.dtSize), dt.fat, dt.dtSize, EntrySectors(|s|))
  {
    hide *;
    AtFacts(dt, fds, st);
    AllowedPath(st, OpenOp(s, mode, uid, now));
    ghost var c0 := dt.chains;
    var path := ToCString(s);
    var ret;
    ok, ret := COpen(dt, path, mode, uid, now, s);
    fds' := fds;
    if ok {
      OnOpen(dt, fds, st, c0, OpenOp(s, mode, uid, now));
      if ret >= 0 {
        fds' := fds + [ret];
      }
    }
  }

  lemma AllowedWrite(dt: Disk, fds: seq<u32>, st: FS, op: Op)
    requires Sound(st) && op.WriteOp? && Allowed(st, op) && FdsOk(dt.chains, st.open, fds)
    ensures op.fd < |st.open| && op.fd < |fds| && st.open[op.fd].Some?
    ensures var p := st.open[op.fd].value;
            && fds[op.fd] == HeadAt(dt.chains, p) && p in st.tree && st.tree[p].File?
            && Writable(st.tree, p, st.num, op.offset, op.length, op.ips)
  {
  }

  /** The pieces a write is answered with; none if it starts beyond the end of the file. */
  ghost function WriteReply(st: FS, op: Op): Option<seq<Extent>>
    requires WellFormed(st.tree) && op.WriteOp? && Allowed(st, op)
  {
    var p := st.open[op.fd].value;
    if st.tree[p].flen < op.offset then None
    else Some(WritePieces(st.tree, p, op.offset, op.length, st.num, st.ctr, op.ips))
  }

  lemma OnWrite(dt: Disk, fds: seq<u32>, st: FS, c0: Chains, op: Op, p: Path, ret: int, blocks: seq<Extent>)
    requires Sound(st) && op.WriteOp? && Allowed(st, op) && FdsOk(c0, st.open, fds)
    requires st.open[op.fd] == Some(p)
    requires WriteAnswered(dt, st.tree, c0, st.num, st.ctr, p, op.offset, op.length, op.ips, ret, blocks)
    ensures At(dt, fds, Apply(st, op))
    ensures ret <= |blocks| && WriteReply(st, op) == if ret >= 0 then Some(blocks[..ret]) else None
  {
    ApplySound(st, op);
    hide Performed, WrittenFile, IndexAfter, WritePieces;
    if st.tree[p].flen < op.offset {
      AtNext(dt, fds, st, c0, Effect(-1, st.tree, p), st);
    } else {
      WritableFits(st.tree, p, st.num, op.offset, op.length, op.ips);
      var f := WrittenFile(st.tree[p], op.offset, op.length, st.num, st.ctr, op.ips);
      AtNext(dt, fds, st, c0, Effect(0, st.tree[p := f], p), Apply(st, op));
    }
  }

  method DoWrite(dt: Disk, fds: seq<u32>, fd: nat, offset: u64, length: u64, ips: seq<u32>, now: u64, ghost st: FS)
    returns (ok: bool, answer: Option<seq<Extent>>)
    requires At(dt, fds, st) && Sound(st) && Allowed(st, WriteOp(fd, offset, length, ips, now))
    modifies dt
    ensures ok ==> At(dt, fds, Apply(st, WriteOp(fd, offset, length, ips, now)))
    ensures ok ==> answer == WriteReply(st, WriteOp(fd, offset, length, ips, now))
    ensures Fits(old(dt.dtSize), Top(old(dt.fat)) + WriteSectors(length)) ==> ok
    ensures ok ==> Takes(old(dt.fat), old(dt.dtSize), dt.fat, dt.dtSize, WriteSectors(length))
  {
    hide *;
    AtFacts(dt, fds, st);
    AllowedWrite(dt, fds, st, WriteOp(fd, offset, length, ips, now));
    ghost var c0, p := dt.chains, st.open[fd].value;
    var blocks := new Extent[length / 0x100_0000 + 2](_ => NO_EXTENT);
    var ret;
    ok, ret := CWrite(dt, fds[fd], offset, length, ips, now, blocks, p);
    if ok {
      OnWrite(dt, fds, st, c0, WriteOp(fd, offset, length, ips, now), p, ret, blocks[..]);
      answer := if ret >= 0 then Some(blocks[..][..ret]) else None;
    } else {
      answer := None;
    }
  }

  /** How many sectors an operation can take. */
  function NewSectors(op: Op): nat {
    match op
    case MkdirOp(path, _, _) => EntrySectors(|path|)
    case OpenOp(path, _, _, _) => EntrySectors(|path|)
    case WriteOp(_, _, length, _, _) => WriteSectors(length)
    case _ => 0
  }

  lemma SectorsOf(op: Op)
    ensures (op.MkdirOp? || op.OpenOp?) ==> NewSectors(op) == EntrySectors(|op.path|)
    ensures op.WriteOp? ==> NewSectors(op) == WriteSectors(op.length)
    ensures !op.MkdirOp? && !op.OpenOp? && !op.WriteOp? ==> NewSectors(op) == 0
  {
  }

  lemma AtSized(dt: Disk, fds: seq<u32>, st: FS)
    requires At(dt, fds, st)
    ensures Sized(dt.dtSize)
  {
    GeometryCap(dt.totSecNum, dt.fatSecNum, dt.fatNum, dt.dtSize);
  }

  lemma TakesSame(f: seq<u32>, size: nat, f': seq<u32>)
    requires Sized(size) && Top(f') <= Top(f)
    ensures Takes(f, size, f', size, 0)
  {
    FitNone(size, 0);
    hide Fits, FitSize, Top;
    assert Fits(size, 0);
  }

  /** How many sectors a run can take. */
  function Needed(ops: seq<Op>): nat {
    if ops == [] then 0 else NewSectors(ops[0]) + Needed(ops[1..])
  }

  lemma NeededNext(ops: seq<Op>, i: nat)
    requires i < |ops|
    ensures Needed(ops[i..]) == NewSectors(ops[i]) + Needed(ops[i + 1..])
  {
    assert ops[i..][1..] == ops[i + 1..];
  }

  /** One operation of a run, by the code that serves it. */
  method Execute(dt: Disk, fds: seq<u32>, op: Op, ghost st: FS) returns (ok: bool, fds': seq<u32>)
    requires At(dt, fds, st) && Sound(st) && Allowed(st, op)
    modifies dt
    ensures ok ==> At(dt, fds', Apply(st, op))
    ensures Fits(old(dt.dtSize), Top(old(dt.fat)) + NewSectors(op)) ==> ok
    ensures ok ==> Takes(old(dt.fat), old(dt.dtSize), dt.fat, dt.dtSize, NewSectors(op))
  {
    hide *;
    fds' := fds;
    ghost var f, size := dt.fat, dt.dtSize;
    AtSized(dt, fds, st);
    SectorsOf(op);
    TakesSelf(f, size, 0);
    match op
    case MkdirOp(path, uid, now) => ok := DoMkdir(dt, fds, path, uid, now, st);
    case OpenOp(path, mode, uid, now) => ok, fds' := DoOpen(dt, fds, path, mode, uid, now, st);
    case WriteOp(fd, offset, length, ips, now) =>
      var answer;
      ok, answer := DoWrite(dt, fds, fd, offset, length, ips, now, st);
    case RemoveOp(path, uid, now) =>
      DoRemove(dt, fds, path, uid, now, st);
      ok := true;
      TakesSame(f, size, dt.fat);
    case RmdirOp(path, uid, now) =>
      DoRmdir(dt, fds, path, uid, now, st);
      ok := true;
      TakesSame(f, size, dt.fat);
    case ChmodOp(path, mode, uid) =>
      DoChmod(dt, fds, path, mode, uid, st);
      ok := true;
    case ChownOp(path, newuid, uid) =>
      DoChown(dt, fds, path, newuid, uid, st);
      ok := true;
  }

  lemma AtStart(dt: Disk)
    requires Ready(dt) && dt.tree == FRESH && dt.maxBlockNum == 0 && dt.ipIndex == 0
    ensures At(dt, [], START) && Sound(START)
  {
    StartSound();
    hide Ready;
  }

  lemma RunStep(st: FS, ops: seq<Op>, i: nat)
    requires i < |ops| && Sound(st) && AllowedRun(st, ops[i..])
    ensures WellFormed(st.tree) && Allowed(st, ops[i]) && Sound(Apply(st, ops[i]))
    ensures AllowedRun(Apply(st, ops[i]), ops[i + 1..])
    ensures ApplyAll(st, ops[i..]) == ApplyAll(Apply(st, ops[i]), ops[i + 1..])
  {
    ApplySound(st, ops[i]);
    assert ops[i..][1..] == ops[i + 1..];
  }

  lemma RunOver(st: FS)
    requires Sound(st)
    ensures AllowedRun(st, []) && ApplyAll(st, []) == st
  {
  }

  /** Room for the rest of a run, in an image that has taken the first k sectors. */
  ghost predicate RoomLeft(fat: seq<u32>, size: nat, k: nat) {
    Top(fat) <= 2 + k && exists x: int :: x <= 2 + k && Fits(INIT_MAX, x) && size == FitSize(INIT_MAX, x)
  }

  lemma RoomBegins(fat: seq<u32>)
    requires Top(fat) <= 2
    ensures RoomLeft(fat, INIT_MAX, 0)
  {
    FitsExact(0);
    hide Fits, FitSize, Top;
    assert Fits(INIT_MAX, 0);
  }

  lemma RoomFor(fat: seq<u32>, size: nat, k: nat, l: nat, m: nat)
    requires RoomLeft(fat, size, k) && 2 + k + l + m <= 4161535
    ensures Fits(size, Top(fat) + l)
  {
    FitsExact(2 + k + l + m);
    hide Fits, FitSize, Top;
    var x: int :| x <= 2 + k && Fits(INIT_MAX, x) && size == FitSize(INIT_MAX, x);
    FitsLess(INIT_MAX, Top(fat) + l, 2 + k + l + m);
    FitAgain(INIT_MAX, x, Top(fat) + l);
  }

  lemma RoomGoesOn(f: seq<u32>, s: nat, f': seq<u32>, s': nat, k: nat, l: nat)
    requires RoomLeft(f, s, k) && Takes(f, s, f', s', l)
    ensures RoomLeft(f', s', k + l)
  {
    hide Fits, FitSize, Top;
    var x: int :| x <= 2 + k && Fits(INIT_MAX, x) && s == FitSize(INIT_MAX, x);
    var y: int :| y <= Top(f) + l && Fits(s, y) && s' == FitSize(s, y);
    FitAgain(INIT_MAX, x, y);
    assert Fits(INIT_MAX, if x < y then y else x);
  }

  lemma RoomEnds(f: seq<u32>, s: nat, k: nat)
    requires RoomLeft(f, s, k)
    ensures k <= 60 ==> s == INIT_MAX
    ensures s <= FitSize(INIT_MAX, 2 + k)
  {
    hide Fits, FitSize, Top;
    var x: int :| x <= 2 + k && Fits(INIT_MAX, x) && s == FitSize(INIT_MAX, x);
    FitsExact(x);
    FitsLess(INIT_MAX, x, 2 + k);
  }

  /** A whole run from a fresh format on: as long as the image can grow, the disk and the
      descriptors are at every step where the specification says.  It can grow to 4161535 data
      sectors, and it does not grow before it must. */
  method Run(ops: seq<Op>, now: u64) returns (ok: bool, dt: Disk, fds: seq<u32>)
    requires Sound(START) && AllowedRun(START, ops)
    ensures ok ==> At(dt, fds, ApplyAll(START, ops))
    ensures Needed(ops) <= 4161533 ==> ok
    ensures ok ==> dt.dtSize <= FitSize(INIT_MAX, 2 + Needed(ops))
    ensures Needed(ops) <= 60 ==> dt.dtSize == INIT_MAX
  {
    hide *;
    dt := OpenDisk(now);
    fds, ok := [], true;
    AtStart(dt);
    RoomBegins(dt.fat);
    ghost var st, k := START, 0;
    var i := 0;
    assert ops[0..] == ops;
    while ok && i < |ops|
      invariant 0 <= i <= |ops| && fresh(dt) && 0 <= k
      invariant ok ==> At(dt, fds, st) && Sound(st) && AllowedRun(st, ops[i..])
      invariant ok ==> ApplyAll(st, ops[i..]) == ApplyAll(START, ops)
      invariant ok ==> RoomLeft(dt.fat, dt.dtSize, k) && k + Needed(ops[i..]) == Needed(ops)
      invariant Needed(ops) <= 4161533 ==> ok
    {
      RunStep(st, ops, i);
      NeededNext(ops, i);
      ghost var f, s := dt.fat, dt.dtSize;
      if Needed(ops) <= 4161533 {
        RoomFor(f, s, k, NewSectors(ops[i]), Needed(ops[i + 1..]));
      }
      ok, fds := Execute(dt, fds, ops[i], st);
      if ok {
        RoomGoesOn(f, s, dt.fat, dt.dtSize, k, NewSectors(ops[i]));
      }
      st, k := Apply(st, ops[i]), k + NewSectors(ops[i]);
      i := i + 1;
    }
    if ok {
      assert ops[i..] == [];
      RunOver(st);
      NeededNone();
      RoomEnds(dt.fat, dt.dtSize, k);
    }
  }

  lemma NeededNone()
    ensures Needed([]) == 0
  {
  }
}
