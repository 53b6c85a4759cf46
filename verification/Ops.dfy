/** What the operations of the control node answer, and what they do to the tree. */
module Ops {
  import opened Bytes
  import opened Paths
  import opened Tree

  const INITMODE: byte := 14

  predicate Bit8(flags: byte) { flags / 8 % 2 == 1 }
  predicate Bit4(flags: byte) { flags / 4 % 2 == 1 }
  predicate Bit2(flags: byte) { flags / 2 % 2 == 1 }
  predicate Bit1(flags: byte) { flags % 2 == 1 }

  /** permission_check for reading: user 0 counts as the owner. */
  predicate MayRead(uid: u32, owner: u32, flags: byte) {
    if uid == 0 || uid == owner then Bit8(flags) else Bit2(flags)
  }

  /** permission_check for writing. */
  predicate MayWrite(uid: u32, owner: u32, flags: byte) {
    if uid == 0 || uid == owner then Bit4(flags) else Bit1(flags)
  }

  predicate Owns(uid: u32, owner: u32) {
    uid == 0 || uid == owner
  }

  /** flags with its permission bits replaced by mode: flags &= ~S_ALL; flags |= mode. */
  function SetMode(flags: byte, mode: byte): byte {
    ((((flags - flags % 16) as bv8) | (mode as bv8)) as int)
  }

  /** The answer of an operation, the tree after it, and the path it is about. */
  datatype Effect = Effect(code: int, tree: Tree, at: Path)

  /** The directory and the name a path string points at. */
  ghost function Target(t: Tree, s: seq<byte>): Option<(Path, Name)>
    requires WellFormed(t)
  {
    match CutLast(s)
    case None => None
    case Some(cut) =>
      match Resolve(t, LookupComps(cut.0))
      case None => None
      case Some(d) => Some((d, cut.1))
  }

  lemma TargetFacts(t: Tree, s: seq<byte>)
    requires WellFormed(t)
    ensures Target(t, s).Some? ==> Target(t, s).value.0 in t && SLASH !in Target(t, s).value.1
  {
    CutLastName(s);
  }

  ghost function IndexOf(names: seq<Name>, n: Name): (k: nat)
    requires n in names
    ensures k < |names| && names[k] == n
  {
    if names[0] == n then 0 else 1 + IndexOf(names[1..], n)
  }

  ghost function Mkdir(t: Tree, s: seq<byte>, uid: u32): Effect
    requires WellFormed(t)
  {
    TargetFacts(t, s);
    match Target(t, s)
    case None => Effect(1, t, [])
    case Some((d, name)) =>
      if t[d].File? then Effect(2, t, [])
      else if !MayWrite(uid, t[d].uid, t[d].flags) then Effect(4, t, [])
      else if Step(t, d, name).Some? then Effect(3, t, [])
      else Effect(0, AddChild(t, d, name, Dir(uid, INITMODE, [])), d + [name])
  }

  /** Opening creates the file when it is missing: the test on the creation flag is an "or" with
      the flag and always holds, as are the tests on the access flags. */
  ghost function Open(t: Tree, s: seq<byte>, mode: byte, uid: u32): Effect
    requires WellFormed(t)
  {
    TargetFacts(t, s);
    match Target(t, s)
    case None => Effect(-1, t, [])
    case Some((d, name)) =>
      if t[d].File? then Effect(-1, t, [])
      else if !MayWrite(uid, t[d].uid, t[d].flags) && !MayRead(uid, t[d].uid, t[d].flags) then Effect(-4, t, [])
      else
        match Step(t, d, name)
        case None => Effect(0, AddChild(t, d, name, File(uid, mode, 0, [])), d + [name])
        case Some(q) => if t[q].Dir? then Effect(-2, t, []) else Effect(0, t, q)
  }

  ghost function Remove(t: Tree, s: seq<byte>, uid: u32): Effect
    requires WellFormed(t)
  {
    TargetFacts(t, s);
    match Target(t, s)
    case None => Effect(1, t, [])
    case Some((d, name)) =>
      if t[d].File? then Effect(1, t, [])
      else if !MayWrite(uid, t[d].uid, t[d].flags) then Effect(4, t, [])
      else
        match Step(t, d, name)
        case None => Effect(1, t, [])
        case Some(q) =>
          if t[q].Dir? then Effect(2, t, [])
          else if name in t[d].names then Effect(0, RemoveChild(t, d, IndexOf(t[d].names, name)), q)
          else Effect(0, t, q)
  }

  /** The directory to remove is the empty directory it would be removed from. */
  ghost predicate RemovesItself(t: Tree, s: seq<byte>, uid: u32)
    requires WellFormed(t)
  {
    TargetFacts(t, s);
    match Target(t, s)
    case None => false
    case Some((d, name)) =>
      t[d].Dir? && MayWrite(uid, t[d].uid, t[d].flags) && t[d].names == [] && Step(t, d, name) == Some(d)
  }

  ghost function Rmdir(t: Tree, s: seq<byte>, uid: u32): Effect
    requires WellFormed(t)
  {
    TargetFacts(t, s);
    match Target(t, s)
    case None => Effect(1, t, [])
    case Some((d, name)) =>
      if t[d].File? then Effect(1, t, [])
      else if !MayWrite(uid, t[d].uid, t[d].flags) then Effect(4, t, [])
      else
        match Step(t, d, name)
        case None => Effect(1, t, [])
        case Some(q) =>
          if t[q].File? then Effect(2, t, [])
          else if t[q].names != [] then Effect(3, t, [])
          else if name in t[d].names then Effect(0, RemoveChild(t, d, IndexOf(t[d].names, name)), q)
          else Effect(0, t, q)
  }

  /** The object with other owner and flags. */
  function WithAttrs(obj: Obj, uid: u32, flags: byte): Obj {
    match obj
    case Dir(_, _, names) => Dir(uid, flags, names)
    case File(_, _, flen, table) => File(uid, flags, flen, table)
  }

  ghost function Chmod(t: Tree, s: seq<byte>, mode: byte, uid: u32): Effect
    requires WellFormed(t)
  {
    match Resolve(t, LookupComps(s))
    case None => Effect(1, t, [])
    case Some(p) =>
      if !Owns(uid, t[p].uid) then Effect(4, t, [])
      else Effect(0, t[p := WithAttrs(t[p], t[p].uid, SetMode(t[p].flags, mode))], p)
  }

  ghost function Chown(t: Tree, s: seq<byte>, newuid: u32, uid: u32): Effect
    requires WellFormed(t)
  {
    match Resolve(t, LookupComps(s))
    case None => Effect(1, t, [])
    case Some(p) =>
      if !Owns(uid, t[p].uid) then Effect(4, t, [])
      else if t[p].uid == newuid then Effect(0, t, p)
      else if uid != 0 then Effect(4, t, [])
      else Effect(0, t[p := WithAttrs(t[p], newuid, t[p].flags)], p)
  }

  // ----- every operation keeps a tree a tree -----

  /** A name that is found nowhere in a directory is a proper name for a new entry. */
  lemma FreshName(t: Tree, d: Path, name: Name)
    requires WellFormed(t) && d in t && t[d].Dir? && Step(t, d, name).None?
    requires SLASH !in name && NulFree(name)
    ensures ValidName(name) && name !in t[d].names
  {
  }

  lemma StepName(t: Tree, d: Path, name: Name)
    requires WellFormed(t) && d in t && t[d].Dir? && Step(t, d, name).Some?
    ensures name !in t[d].names ==> t[Step(t, d, name).value].Dir?
    ensures name in t[d].names ==> Step(t, d, name).value == d + [name]
    ensures name !in t[d].names && t[Step(t, d, name).value].names == [] ==> Step(t, d, name).value == d
  {
    if name in t[d].names {
      ChildInTree(t, d, name);
    } else if d != [] {
      ParentInTree(t, d);
    }
  }

  /** mkdir adds exactly one path, an empty directory, or changes nothing. */
  lemma MkdirAddsOne(t: Tree, s: seq<byte>, uid: u32)
    requires WellFormed(t) && NulFree(s)
    ensures var e := Mkdir(t, s, uid);
            && WellFormed(e.tree)
            && (e.code != 0 ==> e.tree == t)
            && (e.code == 0 ==> AddsOne(t, e.tree, e.at) && e.tree[e.at] == Dir(uid, INITMODE, []))
  {
    TargetFacts(t, s);
    var e := Mkdir(t, s, uid);
    if e.code == 0 {
      var (d, name) := Target(t, s).value;
      CutNulFree(s);
      FreshName(t, d, name);
      AddsOneChild(t, d, name, Dir(uid, INITMODE, []));
    }
  }

  /** t' is t with one path more; the directory above it lists it, and nothing else has changed. */
  ghost predicate AddsOne(t: Tree, t': Tree, q: Path) {
    && q != [] && q !in t && t'.Keys == t.Keys + {q}
    && Up(q) in t && t[Up(q)].Dir? && t'[Up(q)] == t[Up(q)].(names := t[Up(q)].names + [q[|q| - 1]])
    && (forall p :: p in t && p != Up(q) ==> t'[p] == t[p])
  }

  lemma AddsOneChild(t: Tree, d: Path, name: Name, obj: Obj)
    requires WellFormed(t) && d in t && t[d].Dir? && ValidName(name) && name !in t[d].names
    requires obj.Dir? ==> obj.names == []
    ensures WellFormed(AddChild(t, d, name, obj)) && AddsOne(t, AddChild(t, d, name, obj), d + [name])
    ensures AddChild(t, d, name, obj)[d + [name]] == obj
  {
    AddChildWellFormed(t, d, name, obj);
    ChildPath(d, name);
  }

  /** t' is t with one path less; the directory above it no longer lists it, and nothing else has changed. */
  ghost predicate RemovesOne(t: Tree, t': Tree, q: Path) {
    && q != [] && q in t && t'.Keys == t.Keys - {q}
    && Up(q) in t' && t[Up(q)].Dir? && t'[Up(q)].Dir?
    && t'[Up(q)].uid == t[Up(q)].uid && t'[Up(q)].flags == t[Up(q)].flags
    && (forall n :: n in t'[Up(q)].names <==> n in t[Up(q)].names && n != q[|q| - 1])
    && (forall p :: p in t' && p != Up(q) ==> t'[p] == t[p])
  }

  lemma RemovesOneChild(t: Tree, d: Path, k: nat)
    requires WellFormed(t) && d in t && t[d].Dir? && k < |t[d].names|
    requires d + [t[d].names[k]] in t
    requires var c := t[d + [t[d].names[k]]]; c.Dir? ==> c.names == []
    ensures WellFormed(RemoveChild(t, d, k)) && RemovesOne(t, RemoveChild(t, d, k), d + [t[d].names[k]])
  {
    RemoveChildWellFormed(t, d, k);
    ChildPath(d, t[d].names[k]);
    ChildInTree(t, d, t[d].names[k]);
    RestOfNames(t[d].names, k);
  }

  lemma CutNulFree(s: seq<byte>)
    requires NulFree(s)
    ensures CutLast(s).Some? ==> NulFree(CutLast(s).value.1)
  {
  }

  /** Opening adds exactly one path, an empty file, or changes nothing; either way it then answers
      for a file of the tree. */
  lemma OpenAddsOne(t: Tree, s: seq<byte>, mode: byte, uid: u32)
    requires WellFormed(t) && NulFree(s)
    ensures var e := Open(t, s, mode, uid);
            && WellFormed(e.tree)
            && (e.tree == t || (AddsOne(t, e.tree, e.at) && e.tree[e.at] == File(uid, mode, 0, [])))
            && (e.code == 0 ==> e.at in e.tree && e.tree[e.at].File?)
            && (e.code != 0 ==> e.tree == t)
  {
    TargetFacts(t, s);
    var e := Open(t, s, mode, uid);
    if e.code == 0 {
      var (d, name) := Target(t, s).value;
      if Step(t, d, name).None? {
        CutNulFree(s);
        FreshName(t, d, name);
        AddsOneChild(t, d, name, File(uid, mode, 0, []));
      }
    }
  }

  /** remove takes away exactly one path, that of a file, or changes nothing. */
  lemma RemoveRemovesOne(t: Tree, s: seq<byte>, uid: u32)
    requires WellFormed(t)
    ensures var e := Remove(t, s, uid);
            && WellFormed(e.tree)
            && (e.code != 0 ==> e.tree == t)
            && (e.code == 0 ==> RemovesOne(t, e.tree, e.at) && t[e.at].File?)
  {
    TargetFacts(t, s);
    var e := Remove(t, s, uid);
    if e.code == 0 {
      var (d, name) := Target(t, s).value;
      StepName(t, d, name);
      RemovesOneChild(t, d, IndexOf(t[d].names, name));
    }
  }

  /** rmdir takes away exactly one path, that of an empty directory, or changes nothing.  When it
      succeeds it takes one away if and only if no directory is removed from itself. */
  lemma RmdirRemovesOne(t: Tree, s: seq<byte>, uid: u32)
    requires WellFormed(t)
    ensures var e := Rmdir(t, s, uid);
            && WellFormed(e.tree)
            && (e.code != 0 || RemovesItself(t, s, uid) ==> e.tree == t)
            && (e.code == 0 ==> e.at in t && t[e.at].Dir? && t[e.at].names == [])
            && (e.code == 0 ==> (RemovesOne(t, e.tree, e.at) <==> !RemovesItself(t, s, uid)))
            && (RemovesItself(t, s, uid) ==> e.code == 0)
  {
    TargetFacts(t, s);
    var e := Rmdir(t, s, uid);
    if e.code == 0 {
      var (d, name) := Target(t, s).value;
      StepName(t, d, name);
      if name in t[d].names {
        ChildPath(d, name);
        RemovesOneChild(t, d, IndexOf(t[d].names, name));
      }
    }
  }

  /** chmod and chown change the object at one path, keeping its kind and what it holds. */
  lemma MetaKeepsShape(t: Tree, s: seq<byte>, mode: byte, newuid: u32, uid: u32)
    requires WellFormed(t)
    ensures forall e :: e == Chmod(t, s, mode, uid) || e == Chown(t, s, newuid, uid) ==>
              && WellFormed(e.tree) && e.tree.Keys == t.Keys
              && (forall p :: p in t && p != e.at ==> e.tree[p] == t[p])
              && (e.code != 0 ==> e.tree == t)
  {
    var r := Resolve(t, LookupComps(s));
    if r.Some? {
      SetObjWellFormed(t, r.value, WithAttrs(t[r.value], t[r.value].uid, SetMode(t[r.value].flags, mode)));
      SetObjWellFormed(t, r.value, WithAttrs(t[r.value], newuid, t[r.value].flags));
    }
  }

  // ----- cutting off the last component and looking it up -----

  /** For a path that starts with a slash, looking up the directory part and then the name in it is
      following all the components, unless the path is an empty component followed by one more. */
  lemma CutIsFold(t: Tree, s: seq<byte>)
    requires WellFormed(t) && Trim(s) != [] && Trim(s)[0] == SLASH
    requires var comps := Split(Trim(s)[1..]); !(|comps| == 2 && comps[0] == [])
    ensures Walk(t, [], Split(Trim(s)[1..]))
         == if Target(t, s).None? then None else StepFrom(t, Some(Target(t, s).value.0), Target(t, s).value.1)
  {
    hide *;
    var comps := Split(Trim(s)[1..]);
    CutParts(s);
    var (dir, name) := CutLast(s).value;
    TargetOf(t, s, dir, name);
    RootDir(t);
    if |comps| == 1 {
      WalkSingle(t, [], comps);
      ResolveNothing(t);
      FromSome(t, [], name);
    } else {
      WalkLast(t, [], comps);
      ResolveIs(t, comps[..|comps| - 1]);
      FromNone(t, name);
    }
  }

  lemma CutParts(s: seq<byte>)
    requires Trim(s) != [] && Trim(s)[0] == SLASH
    ensures var comps := Split(Trim(s)[1..]);
            && comps != [] && CutLast(s).Some?
            && var (dir, name) := CutLast(s).value;
               && name == comps[|comps| - 1] && (|comps| == 1 ==> LookupComps(dir) == [])
               && (LookupComps(dir) == comps[..|comps| - 1] <==> !(|comps| == 2 && comps[0] == []))
  {
    var r := Trim(s)[1..];
    assert [SLASH] + r == Trim(s);
    CutAgrees(r);
    hide Split, LookupComps, LastSlash;
    var comps := Split(r);
    if |comps| == 1 {
      assert comps[..0] == [];
    }
  }

  lemma TargetOf(t: Tree, s: seq<byte>, dir: seq<byte>, name: Name)
    requires WellFormed(t) && CutLast(s) == Some((dir, name))
    ensures Target(t, s) == match Resolve(t, LookupComps(dir)) case None => None case Some(d) => Some((d, name))
  {
  }

  lemma FromSome(t: Tree, p: Path, n: Name)
    requires WellFormed(t) && p in t && t[p].Dir?
    ensures StepFrom(t, Some(p), n) == Step(t, p, n)
  {
  }

  lemma FromNone(t: Tree, n: Name)
    requires WellFormed(t)
    ensures StepFrom(t, None, n) == None
  {
  }

  lemma RootDir(t: Tree)
    requires WellFormed(t)
    ensures [] in t && t[[]].Dir?
  {
  }

  lemma WalkSingle(t: Tree, p: Path, comps: seq<Name>)
    requires WellFormed(t) && p in t && t[p].Dir? && |comps| == 1
    ensures Walk(t, p, comps) == Step(t, p, comps[0])
  {
  }

  lemma ResolveNothing(t: Tree)
    requires WellFormed(t)
    ensures Resolve(t, []) == Some([])
  {
  }

  lemma ResolveIs(t: Tree, comps: seq<Name>)
    requires WellFormed(t) && comps != []
    ensures [] in t && t[[]].Dir? && Resolve(t, comps) == Walk(t, [], comps)
  {
  }

  /** For "//x" the two differ: the cut takes x from the root, the components x from the entry
      with the empty name. */
  lemma DoubleSlash(t: Tree, x: Name)
    requires WellFormed(t) && SLASH !in x && x != []
    ensures var s := [SLASH, SLASH] + x;
            && Trim(s) == s && Split(s[1..]) == [[], x] && Target(t, s) == Some(([], x))
            && [] in t && t[[]].Dir? && Walk(t, [], Split(s[1..])) == StepFrom(t, Step(t, [], []), x)
  {
    hide *;
    var s := [SLASH, SLASH] + x;
    DoubleParts(x);
    TargetOf(t, s, [SLASH], x);
    RootDir(t);
    ResolveNothing(t);
    WalkLast(t, [], [[], x]);
    assert [[], x][..1] == [[]];
    WalkSingle(t, [], [[]]);
  }

  lemma DoubleParts(x: Name)
    requires SLASH !in x && x != []
    ensures var s := [SLASH, SLASH] + x;
            && s != [] && Trim(s) == s && Split(s[1..]) == [[], x] && CutLast(s) == Some(([SLASH], x))
    ensures LookupComps([SLASH]) == []
  {
    var s := [SLASH, SLASH] + x;
    assert s[1..] == [SLASH] + x && s[|s| - 1] == x[|x| - 1];
    assert s[1..][..0] == [] && s[1..][1..] == x;
    SplitFirst(s[1..], 0);
    SplitNone(x);
    LastOfTwo(s);
    assert s[..1] == [SLASH] && s[2..] == x;
    hide Split;
  }

  lemma LastOfTwo(s: seq<byte>)
    requires |s| > 2 && s[1] == SLASH && forall i :: 2 <= i < |s| ==> s[i] != SLASH
    ensures LastSlash(s, |s|) == 1
  {
  }

  // ----- exactly which lookups a change affects -----

  /** From a path that is still there a component leads where it led, unless that was the path
      removed, and nowhere then. */
  lemma StepAfterLoss(t: Tree, t': Tree, q: Path, p: Path, n: Name)
    requires WellFormed(t) && WellFormed(t') && RemovesOne(t, t', q) && (t[q].Dir? ==> t[q].names == [])
    requires p in t' && t'[p].Dir?
    ensures p in t && t[p].Dir?
    ensures Step(t', p, n) == if Step(t, p, n) == Some(q) then None else Step(t, p, n)
  {
    LossFacts(t, t', q);
    hide *;
    LossAt(t, t', q, p);
    NotAboveLeaf(t, q, p);
    StepIs(t, p, n);
    StepIs(t', p, n);
  }

  lemma LossFacts(t: Tree, t': Tree, q: Path)
    requires RemovesOne(t, t', q)
    ensures q in t && q != []
  {
  }

  lemma StepIs(t: Tree, p: Path, n: Name)
    requires WellFormed(t) && p in t && t[p].Dir?
    ensures Step(t, p, n) ==
              if n == DOT then Some(p)
              else if n == DOTDOT then Some(Up(p))
              else if n in t[p].names then Some(p + [n])
              else None
  {
    if p != [] {
      ParentInTree(t, p);
    }
  }

  /** What a directory that is still there lists. */
  lemma LossAt(t: Tree, t': Tree, q: Path, p: Path)
    requires RemovesOne(t, t', q) && p in t' && t'[p].Dir?
    ensures p in t && t[p].Dir? && p != q
    ensures forall n :: n in t'[p].names <==> n in t[p].names && p + [n] != q
  {
    Rejoin(q);
    forall n ensures p + [n] == q <==> p == Up(q) && n == q[|q| - 1] {
      ChildPath(p, n);
    }
  }

  lemma NotAboveLeaf(t: Tree, q: Path, p: Path)
    requires WellFormed(t) && p in t && q in t && (t[q].Dir? ==> t[q].names == []) && p != q && q != []
    ensures Up(p) != q
  {
    if p != [] {
      ParentInTree(t, p);
    }
  }

  lemma {:induction false} WalkAfterLoss(t: Tree, t': Tree, q: Path, p: Path, comps: seq<Name>)
    requires WellFormed(t) && WellFormed(t') && RemovesOne(t, t', q) && (t[q].Dir? ==> t[q].names == [])
    requires p in t' && t'[p].Dir? && comps != []
    ensures p in t && t[p].Dir?
    ensures Walk(t', p, comps) == if q in Visited(t, p, comps) then None else Walk(t, p, comps)
    decreases |comps|
  {
    StepAfterLoss(t, t', q, p, comps[0]);
    KindsAfterLoss(t, t', q);
    var s := Step(t, p, comps[0]);
    hide WellFormed, Step, RemovesOne;
    if s.Some? && s.value != q && t[s.value].Dir? && |comps| > 1 {
      WalkAfterLoss(t, t', q, s.value, comps[1..]);
    }
    VisitedFirst(t, p, comps);
  }

  lemma KindsAfterLoss(t: Tree, t': Tree, q: Path)
    requires RemovesOne(t, t', q)
    ensures forall p :: p in t && p != q ==> p in t' && (t'[p].Dir? <==> t[p].Dir?)
  {
  }

  lemma VisitedFirst(t: Tree, p: Path, comps: seq<Name>)
    requires WellFormed(t) && p in t && t[p].Dir? && comps != []
    ensures var s := Step(t, p, comps[0]);
            forall q :: q in Visited(t, p, comps) <==>
              s.Some? && (q == s.value || (t[s.value].Dir? && q in Visited(t, s.value, comps[1..])))
  {
    hide WellFormed, Step;
  }

  /** A removal ends exactly the lookups that meet the path removed, and leaves the answers of all
      others as they are, whatever components they have. */
  lemma ResolveAfterLoss(t: Tree, t': Tree, q: Path, comps: seq<Name>)
    requires WellFormed(t) && WellFormed(t') && RemovesOne(t, t', q) && (t[q].Dir? ==> t[q].names == [])
    ensures [] in t && t[[]].Dir?
    ensures Resolve(t', comps) == if q in Visited(t, [], comps) then None else Resolve(t, comps)
  {
    RootDir(t');
    RootDir(t);
    if comps != [] {
      WalkAfterLoss(t, t', q, [], comps);
    }
  }

  /** Taking away what has been added restores the tree. */
  lemma AddedIsLost(t: Tree, t': Tree, q: Path)
    requires WellFormed(t) && AddsOne(t, t', q)
    ensures RemovesOne(t', t, q)
  {
    if q[|q| - 1] in t[Up(q)].names {
      ChildInTree(t, Up(q), q[|q| - 1]);
      Rejoin(q);
    }
  }

  /** And an addition begins exactly those lookups. */
  lemma ResolveAfterGain(t: Tree, t': Tree, q: Path, comps: seq<Name>)
    requires WellFormed(t) && WellFormed(t') && AddsOne(t, t', q) && (t'[q].Dir? ==> t'[q].names == [])
    ensures [] in t' && t'[[]].Dir?
    ensures Resolve(t, comps) == if q in Visited(t', [], comps) then None else Resolve(t', comps)
  {
    AddedIsLost(t, t', q);
    ResolveAfterLoss(t', t, q, comps);
  }
}
