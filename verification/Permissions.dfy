/** Who may do what: the permission bits by their masks, and what chmod and chown make of them. */
module Permissions {
  import opened Bytes
  import opened Format
  import opened Ops
  import opened Paths
  import opened Runs
  import opened Tree

  // S_IRD is 8, S_IWR 4, S_ORD 2 and S_OWR 1.

  /** One of the bits of the mask that counts for the user is set: own for user 0 and the owner, other
      for anyone else. */
  predicate Granted(uid: u32, obj: Obj, own: bv8, other: bv8) {
    (obj.flags as bv8) & (if uid == 0 || uid == obj.uid then own else other) != 0
  }

  lemma MaskRead(flags: byte)
    ensures Bit8(flags) <==> (flags as bv8) & 8 != 0
  {
  }

  lemma MaskWrite(flags: byte)
    ensures Bit4(flags) <==> (flags as bv8) & 4 != 0
  {
  }

  lemma MaskOtherRead(flags: byte)
    ensures Bit2(flags) <==> (flags as bv8) & 2 != 0
  {
  }

  lemma MaskOtherWrite(flags: byte)
    ensures Bit1(flags) <==> (flags as bv8) & 1 != 0
  {
  }

  lemma MaskBoth(b: bv8)
    ensures b & 12 != 0 <==> b & 8 != 0 || b & 4 != 0
    ensures b & 3 != 0 <==> b & 2 != 0 || b & 1 != 0
  {
  }

  lemma MayExactly(uid: u32, obj: Obj)
    ensures MayRead(uid, obj.uid, obj.flags) <==> Granted(uid, obj, 8, 2)
    ensures MayWrite(uid, obj.uid, obj.flags) <==> Granted(uid, obj, 4, 1)
    ensures Granted(uid, obj, 12, 3) <==> Granted(uid, obj, 8, 2) || Granted(uid, obj, 4, 1)
  {
    MaskRead(obj.flags);
    MaskWrite(obj.flags);
    MaskOtherRead(obj.flags);
    MaskOtherWrite(obj.flags);
    hide Bit8, Bit4, Bit2, Bit1;
    MaskBoth(obj.flags as bv8);
  }

  /** The answers for a missing permission come exactly when the mode bits of the directory say so. */
  lemma DeniedExactly(t: Tree, s: seq<byte>, mode: byte, uid: u32)
    requires WellFormed(t) && Target(t, s).Some?
    ensures Target(t, s).value.0 in t
    ensures var dir := t[Target(t, s).value.0];
            && (Mkdir(t, s, uid).code == 4 <==> dir.Dir? && !Granted(uid, dir, 4, 1))
            && (Remove(t, s, uid).code == 4 <==> dir.Dir? && !Granted(uid, dir, 4, 1))
            && (Rmdir(t, s, uid).code == 4 <==> dir.Dir? && !Granted(uid, dir, 4, 1))
            && (Open(t, s, mode, uid).code == -4 <==> dir.Dir? && !Granted(uid, dir, 12, 3))
  {
    TargetFacts(t, s);
    MayExactly(uid, t[Target(t, s).value.0]);
    hide MayRead, MayWrite, Granted, Target, WellFormed;
  }

  /** What mkdir, remove and rmdir change, they change with the permission to write to its directory;
      opening makes a file for anyone who may write there or read. */
  lemma ChangedWithLeave(t: Tree, s: seq<byte>, mode: byte, uid: u32)
    requires WellFormed(t)
    ensures Mkdir(t, s, uid).tree != t || Remove(t, s, uid).tree != t || Rmdir(t, s, uid).tree != t ==>
              Target(t, s).Some? && Granted(uid, t[Target(t, s).value.0], 4, 1)
    ensures Open(t, s, mode, uid).tree != t ==>
              Target(t, s).Some? && Granted(uid, t[Target(t, s).value.0], 12, 3)
  {
    TargetFacts(t, s);
    if Target(t, s).Some? {
      MayExactly(uid, t[Target(t, s).value.0]);
    }
    hide MayRead, MayWrite, Granted, Target, WellFormed;
  }

  /** A new directory may be read and written by its owner and only read by others; and so it is with
      the root of a fresh disk, which belongs to user 0. */
  lemma NewDirectory(uid: u32, owner: u32)
    ensures var dir := Dir(owner, INITMODE, []);
            && Granted(uid, dir, 8, 2)
            && (Granted(uid, dir, 4, 1) <==> uid == 0 || uid == owner)
    ensures FRESH == map[[] := Dir(0, INITMODE, [])]
  {
    assert (14 as bv8) & 8 != 0 && (14 as bv8) & 2 != 0 && (14 as bv8) & 4 != 0 && (14 as bv8) & 1 == 0;
  }

  ghost predicate StrangersOnly(ops: seq<Op>) {
    forall i :: 0 <= i < |ops| ==> (ops[i].MkdirOp? || ops[i].RemoveOp? || ops[i].RmdirOp?) && ops[i].uid != 0
  }

  lemma FreshTarget(s: seq<byte>)
    ensures WellFormed(FRESH) && (Target(FRESH, s).Some? ==> Target(FRESH, s).value.0 == [])
  {
    FreshWellFormed();
    TargetFacts(FRESH, s);
  }

  lemma StrangerStep(op: Op)
    requires (op.MkdirOp? || op.RemoveOp? || op.RmdirOp?) && op.uid != 0 && Allowed(START, op)
    ensures Apply(START, op) == START
  {
    FreshTarget(op.path);
    NewDirectory(op.uid, 0);
    ChangedWithLeave(FRESH, op.path, 0, op.uid);
    RemoveRemovesOne(FRESH, op.path, op.uid);
    hide Granted, Target, WellFormed, Mkdir, Rmdir, Remove;
  }

  /** No run of mkdir, remove and rmdir by users other than user 0 changes the tree of a fresh disk. */
  lemma {:induction false} StrangersChangeNothing(ops: seq<Op>)
    requires Sound(START) && AllowedRun(START, ops) && StrangersOnly(ops)
    ensures ApplyAll(START, ops) == START
    decreases |ops|
  {
    if ops != [] {
      StrangerStep(ops[0]);
      StrangersChangeNothing(ops[1..]);
    }
  }

  // ----- chmod and chown -----

  lemma HighBits(b: bv8)
    ensures (b & 0xF0) as int == (b as int) - (b as int) % 16
  {
  }

  lemma BackAndThere(b: bv8)
    ensures ((b as int) as bv8) == b
  {
  }

  lemma NextBits(b: bv8)
    requires b < 255
    ensures (b + 1) as int == b as int + 1
  {
  }

  lemma LessBits(b: bv8, c: bv8)
    ensures b as int < c as int ==> b < c
  {
  }

  /** Every byte is the number of some bits. */
  ghost function BitsOf(n: byte): (b: bv8)
    ensures b as int == n
  {
    if n == 0 then 0
    else
      LessBits(BitsOf(n - 1), 255);
      NextBits(BitsOf(n - 1));
      BitsOf(n - 1) + 1
  }

  lemma ThereAndBack(flags: byte)
    ensures (flags as bv8) as int == flags
  {
    BackAndThere(BitsOf(flags));
  }

  /** The permission bits go, and those of the mode come. */
  lemma ModeBits(flags: byte, mode: byte)
    ensures SetMode(flags, mode) as bv8 == ((flags as bv8) & 0xF0) | (mode as bv8)
  {
    HighBits(flags as bv8);
    ThereAndBack(flags);
    BackAndThere((flags as bv8) & 0xF0);
    BackAndThere(((flags as bv8) & 0xF0) | (mode as bv8));
  }

  lemma LowPart(b: bv8)
    ensures (b & 15) as int == (b as int) % 16 && (b & 0xF0) as int == 16 * ((b as int) / 16)
  {
  }

  lemma ModeParts(f: bv8, m: bv8)
    ensures m & 0xF0 == 0 ==> ((f & 0xF0) | m) & 15 == m && ((f & 0xF0) | m) & 0xF0 == f & 0xF0
    ensures ((f & 0xF0) | m) & m == m
  {
  }

  lemma ModeIs(flags: byte, mode: byte)
    requires mode < 16
    ensures SetMode(flags, mode) % 16 == mode && SetMode(flags, mode) / 16 == flags / 16
  {
    var f, m, r := flags as bv8, mode as bv8, SetMode(flags, mode) as bv8;
    ModeBits(flags, mode);
    ThereAndBack(flags);
    ThereAndBack(mode);
    ThereAndBack(SetMode(flags, mode));
    LowPart(f);
    LowPart(m);
    LowPart(r);
    BackAndThere(m & 0xF0);
    assert m & 0xF0 == 0;
    ModeParts(f, m);
    hide SetMode;
  }

  /** The mode is there, with the bits above the permissions kept; if it sets permissions only, they
      are the mode. */
  ghost predicate ModeChanged(f: byte, f': byte, mode: byte) {
    && f' as bv8 == ((f as bv8) & 0xF0) | (mode as bv8)
    && (mode < 16 ==> f' % 16 == mode && f' / 16 == f / 16)
  }

  lemma ModeSet(flags: byte, mode: byte)
    ensures ModeChanged(flags, SetMode(flags, mode), mode)
  {
    ModeBits(flags, mode);
    if mode < 16 {
      ModeIs(flags, mode);
    }
    hide SetMode;
  }

  /** The object at p has other attributes; what it holds is the same, and so is all the rest. */
  ghost predicate SameBut(t: Tree, t': Tree, p: Path) {
    && p in t && t'.Keys == t.Keys && (forall q :: q in t && q != p ==> t'[q] == t[q])
    && match t[p]
       case Dir(_, _, names) => t'[p].Dir? && t'[p].names == names
       case File(_, _, flen, table) => t'[p].File? && t'[p].flen == flen && t'[p].table == table
  }

  lemma AttrsSet(t: Tree, p: Path, uid: u32, flags: byte)
    requires p in t
    ensures SameBut(t, t[p := WithAttrs(t[p], uid, flags)], p)
    ensures WithAttrs(t[p], uid, flags).uid == uid && WithAttrs(t[p], uid, flags).flags == flags
  {
  }

  /** A chmod that answers 0 gives the mode to the file the path leads to, and changes nothing else;
      any other answer leaves the tree alone. */
  lemma ChmodExactly(t: Tree, s: seq<byte>, mode: byte, uid: u32)
    requires WellFormed(t)
    ensures var e := Chmod(t, s, mode, uid);
            && (e.code == 0 <==> exists p :: Resolve(t, LookupComps(s)) == Some(p) && p in t
                                             && (uid == 0 || uid == t[p].uid))
            && (e.code != 0 ==> e.tree == t)
            && (e.code == 0 ==>
                  && Resolve(t, LookupComps(s)) == Some(e.at) && SameBut(t, e.tree, e.at)
                  && e.tree[e.at].uid == t[e.at].uid
                  && ModeChanged(t[e.at].flags, e.tree[e.at].flags, mode))
  {
    var r := Resolve(t, LookupComps(s));
    if r.Some? {
      ModeSet(t[r.value].flags, mode);
      AttrsSet(t, r.value, t[r.value].uid, SetMode(t[r.value].flags, mode));
    }
    hide SetMode, WellFormed, LookupComps, ModeChanged, SameBut, WithAttrs, Resolve;
  }

  /** What a mode grants, once it has been set. */
  lemma ModeGrants(t: Tree, s: seq<byte>, mode: byte, uid: u32, user: u32, own: bv8, other: bv8)
    requires WellFormed(t) && Chmod(t, s, mode, uid).code == 0 && own < 16 && other < 16
    ensures var e := Chmod(t, s, mode, uid);
            && e.at in e.tree
            && (Granted(user, e.tree[e.at], own, other) <==>
                  (mode as bv8) & (if user == 0 || user == e.tree[e.at].uid then own else other) != 0)
  {
    ChmodExactly(t, s, mode, uid);
    var e := Chmod(t, s, mode, uid);
    hide Chmod, WellFormed, Resolve;
    LowMask(t[e.at].flags as bv8, mode as bv8, own);
    LowMask(t[e.at].flags as bv8, mode as bv8, other);
  }

  lemma LowMask(f: bv8, m: bv8, mask: bv8)
    requires mask < 16
    ensures ((f & 0xF0) | m) & mask == m & mask
  {
  }

  /** A chown that answers 0 leaves the file with the new owner and all else as it was: user 0 may
      give any file away, an owner only to himself; any other answer leaves the tree alone. */
  lemma ChownExactly(t: Tree, s: seq<byte>, newuid: u32, uid: u32)
    requires WellFormed(t)
    ensures var e := Chown(t, s, newuid, uid);
            && (e.code == 0 <==> exists p :: Resolve(t, LookupComps(s)) == Some(p) && p in t
                                             && (uid == 0 || (uid == t[p].uid && newuid == t[p].uid)))
            && (e.code != 0 ==> e.tree == t)
            && (e.code == 0 ==>
                  && Resolve(t, LookupComps(s)) == Some(e.at) && SameBut(t, e.tree, e.at)
                  && e.tree[e.at].uid == newuid && e.tree[e.at].flags == t[e.at].flags)
  {
    hide WellFormed, LookupComps;
  }
}
