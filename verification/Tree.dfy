/** The directory tree as its users see it: what stands at each path. */
module Tree {
  import opened Bytes

  type Name = seq<byte>
  type Path = seq<Name>

  datatype Option<+T> = None | Some(value: T)

  const DOT: Name := [46]
  const DOTDOT: Name := [46, 46]
  const SLASH: byte := 47

  /** A block descriptor: the block's number and the data nodes that hold it (0 for none). */
  datatype Desc = Desc(num: u64, ip0: u32, ip1: u32, ip2: u32)

  datatype Obj =
    | Dir(uid: u32, flags: byte, names: seq<Name>)
    | File(uid: u32, flags: byte, flen: u64, table: seq<Desc>)

  type Tree = map<Path, Obj>

  predicate NulFree(name: Name) {
    forall j :: 0 <= j < |name| ==> name[j] != 0
  }

  predicate ValidName(name: Name) {
    NulFree(name) && SLASH !in name && name != DOT && name != DOTDOT
  }

  predicate Distinct(names: seq<Name>) {
    forall i, j :: 0 <= i < j < |names| ==> names[i] != names[j]
  }

  /** The directory that holds p; the root is its own parent. */
  function Up(p: Path): Path {
    if p == [] then [] else p[..|p| - 1]
  }

  /** p stands in a directory that lists it. */
  ghost predicate UpOk(t: Tree, p: Path) {
    p != [] ==> Up(p) in t && t[Up(p)].Dir? && p[|p| - 1] in t[Up(p)].names
  }

  /** What the directory p lists, once each and under a proper name, stands below p. */
  ghost predicate ChildrenOk(t: Tree, p: Path)
    requires p in t
  {
    t[p].Dir? ==>
      Distinct(t[p].names) && forall n {:trigger p + [n] in t} :: n in t[p].names ==> p + [n] in t && ValidName(n)
  }

  /** A tree of directories and files rooted at the empty path. */
  ghost predicate WellFormed(t: Tree) {
    && [] in t && t[[]].Dir?
    && (forall p {:trigger UpOk(t, p)} :: p in t ==> UpOk(t, p))
    && (forall p {:trigger ChildrenOk(t, p)} :: p in t ==> ChildrenOk(t, p))
  }

  // ----- changes -----

  function AddChild(t: Tree, d: Path, name: Name, obj: Obj): Tree
    requires d in t && t[d].Dir?
  {
    t[d := t[d].(names := t[d].names + [name])][d + [name] := obj]
  }

  function RemoveChild(t: Tree, d: Path, k: nat): Tree
    requires d in t && t[d].Dir? && k < |t[d].names|
  {
    var names := t[d].names;
    (t - {d + [names[k]]})[d := t[d].(names := names[..k] + names[k + 1..])]
  }

  /** obj may stand where old stood: same kind, same children. */
  predicate SameShape(prior: Obj, obj: Obj) {
    if prior.Dir? then obj.Dir? && obj.names == prior.names else obj.File?
  }

  lemma ChildPath(p: Path, n: Name)
    ensures Up(p + [n]) == p && (p + [n])[|p|] == n && p + [n] != p && p + [n] != []
  {
  }

  lemma ChildInjective(p: Path, n: Name, q: Path, m: Name)
    ensures p + [n] == q + [m] ==> p == q && n == m
  {
    ChildPath(p, n);
    ChildPath(q, m);
  }

  lemma Rejoin(p: Path)
    requires p != []
    ensures Up(p) + [p[|p| - 1]] == p
  {
  }

  lemma ParentInTree(t: Tree, p: Path)
    requires WellFormed(t) && p in t && p != []
    ensures Up(p) in t && t[Up(p)].Dir? && p[|p| - 1] in t[Up(p)].names
  {
    assert UpOk(t, p);
  }

  lemma ChildInTree(t: Tree, p: Path, n: Name)
    requires WellFormed(t) && p in t && t[p].Dir? && n in t[p].names
    ensures p + [n] in t && ValidName(n) && Distinct(t[p].names)
  {
    assert ChildrenOk(t, p);
  }

  lemma NoChild(t: Tree, d: Path, name: Name)
    requires WellFormed(t) && d in t && t[d].Dir? && name !in t[d].names
    ensures d + [name] !in t
  {
    ChildPath(d, name);
    if d + [name] in t {
      ParentInTree(t, d + [name]);
    }
  }

  lemma AddChildWellFormed(t: Tree, d: Path, name: Name, obj: Obj)
    requires WellFormed(t) && d in t && t[d].Dir?
    requires ValidName(name) && name !in t[d].names
    requires obj.Dir? ==> obj.names == []
    ensures d + [name] !in t
    ensures WellFormed(AddChild(t, d, name, obj))
    ensures AddChild(t, d, name, obj).Keys == t.Keys + {d + [name]}
  {
    var t' := AddChild(t, d, name, obj);
    ChildPath(d, name);
    NoChild(t, d, name);
    forall p | p in t' ensures UpOk(t', p) {
      AddChildUp(t, d, name, obj, p);
    }
    forall p | p in t' ensures ChildrenOk(t', p) {
      AddChildBelow(t, d, name, obj, p);
    }
  }

  lemma AddChildUp(t: Tree, d: Path, name: Name, obj: Obj, p: Path)
    requires WellFormed(t) && d in t && t[d].Dir? && d + [name] !in t && p in AddChild(t, d, name, obj)
    ensures UpOk(AddChild(t, d, name, obj), p)
  {
    var q := d + [name];
    ChildPath(d, name);
    if p == q {
      assert (t[d].names + [name])[|t[d].names|] == name;
    } else if p != [] {
      ParentInTree(t, p);
    }
  }

  lemma AddChildBelow(t: Tree, d: Path, name: Name, obj: Obj, p: Path)
    requires WellFormed(t) && d in t && t[d].Dir? && d + [name] !in t && p in AddChild(t, d, name, obj)
    requires ValidName(name) && name !in t[d].names && (obj.Dir? ==> obj.names == [])
    ensures ChildrenOk(AddChild(t, d, name, obj), p)
  {
    var t' := AddChild(t, d, name, obj);
    if p != d + [name] {
      ChildrenFacts(t, p);
      hide WellFormed;
      if t'[p].Dir? {
        forall n | n in t'[p].names ensures p + [n] in t' && ValidName(n) {
          assert p == d || n in t[p].names;
          if n in t[p].names {
            assert p + [n] in t;
          }
        }
      }
    }
  }

  lemma ChildrenFacts(t: Tree, p: Path)
    requires WellFormed(t) && p in t
    ensures ChildrenOk(t, p)
  {
  }

  lemma RemoveChildWellFormed(t: Tree, d: Path, k: nat)
    requires WellFormed(t) && d in t && t[d].Dir? && k < |t[d].names|
    requires d + [t[d].names[k]] in t
    requires var c := t[d + [t[d].names[k]]]; c.Dir? ==> c.names == []
    ensures WellFormed(RemoveChild(t, d, k))
    ensures RemoveChild(t, d, k).Keys == t.Keys - {d + [t[d].names[k]]}
  {
    var names := t[d].names;
    var name := names[k];
    var q := d + [name];
    var t' := RemoveChild(t, d, k);
    ChildPath(d, name);
    ChildInTree(t, d, name);
    RestOfNames(names, k);
    forall p | p in t' ensures UpOk(t', p) {
      if p != [] {
        ParentInTree(t, p);
        Rejoin(p);
        assert p[|p| - 1] in t[Up(p)].names && t[Up(p)].names != [];
      }
    }
    forall p | p in t' ensures ChildrenOk(t', p) {
      assert ChildrenOk(t, p);
      if t'[p].Dir? {
        forall n | n in t'[p].names ensures p + [n] in t' && ValidName(n) {
          assert n in t[p].names && p + [n] in t;
          ChildInjective(p, n, d, name);
        }
      }
    }
  }

  lemma RestOfNames(names: seq<Name>, k: nat)
    requires Distinct(names) && k < |names|
    ensures var rest := names[..k] + names[k + 1..];
            && Distinct(rest)
            && (forall n :: n in rest <==> n in names && n != names[k])
  {
    var rest := names[..k] + names[k + 1..];
    forall n | n in names && n != names[k] ensures n in rest {
      var i :| 0 <= i < |names| && names[i] == n;
      assert rest[if i < k then i else i - 1] == n;
    }
  }

  lemma SetObjWellFormed(t: Tree, p: Path, obj: Obj)
    requires WellFormed(t) && p in t && SameShape(t[p], obj)
    ensures WellFormed(t[p := obj]) && t[p := obj].Keys == t.Keys
  {
    var t' := t[p := obj];
    forall q | q in t' ensures UpOk(t', q) {
      assert UpOk(t, q);
    }
    forall q | q in t' ensures ChildrenOk(t', q) {
      SetObjBelow(t, p, obj, q);
    }
  }

  lemma SetObjBelow(t: Tree, p: Path, obj: Obj, q: Path)
    requires WellFormed(t) && p in t && SameShape(t[p], obj) && q in t
    ensures ChildrenOk(t[p := obj], q)
  {
    ChildrenFacts(t, q);
    hide WellFormed;
    if t[q].Dir? {
      forall n | n in t[q].names ensures q + [n] in t[p := obj] && ValidName(n) {
        assert q + [n] in t;
      }
    }
  }

  // ----- looking up paths -----

  /** Where the component n leads from directory p. */
  ghost function Step(t: Tree, p: Path, n: Name): (r: Option<Path>)
    requires WellFormed(t) && p in t && t[p].Dir?
    ensures r.Some? ==> r.value in t
  {
    if p != [] then ParentInTree(t, p); StepTo(t, p, n) else StepTo(t, p, n)
  }

  ghost function StepTo(t: Tree, p: Path, n: Name): (r: Option<Path>)
    requires WellFormed(t) && p in t && t[p].Dir? && Up(p) in t
    ensures r.Some? ==> r.value in t
  {
    if n == DOT then Some(p)
    else if n == DOTDOT then Some(Up(p))
    else if n in t[p].names then ChildInTree(t, p, n); Some(p + [n])
    else None
  }

  /** Where the components lead from directory p, all but the last one being directories. */
  ghost function Walk(t: Tree, p: Path, comps: seq<Name>): (r: Option<Path>)
    requires WellFormed(t) && p in t && t[p].Dir? && comps != []
    ensures r.Some? ==> r.value in t
    decreases |comps|
  {
    match Step(t, p, comps[0])
    case None => None
    case Some(q) =>
      if |comps| == 1 then Some(q)
      else if t[q].Dir? then Walk(t, q, comps[1..])
      else None
  }

  ghost function Resolve(t: Tree, comps: seq<Name>): (r: Option<Path>)
    requires WellFormed(t)
    ensures r.Some? ==> r.value in t
  {
    if comps == [] then Some([]) else Walk(t, [], comps)
  }

  // ----- what a change does to other lookups -----

  lemma {:induction false} WalkAfterAdd(t: Tree, d: Path, name: Name, obj: Obj, p: Path, comps: seq<Name>)
    requires WellFormed(t) && d in t && t[d].Dir? && p in t && t[p].Dir? && comps != []
    requires ValidName(name) && name !in t[d].names && (obj.Dir? ==> obj.names == [])
    requires WellFormed(AddChild(t, d, name, obj)) && d + [name] !in t
    requires Walk(t, p, comps).Some?
    ensures Walk(AddChild(t, d, name, obj), p, comps) == Walk(t, p, comps)
    decreases |comps|
  {
    var t' := AddChild(t, d, name, obj);
    var q := Step(t, p, comps[0]).value;
    assert Step(t', p, comps[0]) == Some(q);
    if |comps| > 1 {
      assert t[q].Dir? && t'[q].Dir?;
      WalkAfterAdd(t, d, name, obj, q, comps[1..]);
    }
  }

  /** Adding one entry adds one path, and every path that led somewhere still leads there. */
  lemma ResolveAfterAdd(t: Tree, d: Path, name: Name, obj: Obj, comps: seq<Name>)
    requires WellFormed(t) && d in t && t[d].Dir?
    requires ValidName(name) && name !in t[d].names && (obj.Dir? ==> obj.names == [])
    ensures WellFormed(AddChild(t, d, name, obj))
    ensures Resolve(t, comps).Some? ==> Resolve(AddChild(t, d, name, obj), comps) == Resolve(t, comps)
    ensures Resolve(t, comps).None? && Resolve(AddChild(t, d, name, obj), comps).Some? ==> name in comps
  {
    AddChildWellFormed(t, d, name, obj);
    if comps != [] {
      if Walk(t, [], comps).Some? {
        WalkAfterAdd(t, d, name, obj, [], comps);
      } else if name !in comps {
        WalkWithoutName(t, d, name, obj, [], comps);
      }
    }
  }

  lemma {:induction false} WalkWithoutName(t: Tree, d: Path, name: Name, obj: Obj, p: Path, comps: seq<Name>)
    requires WellFormed(t) && d in t && t[d].Dir? && p in t && t[p].Dir? && comps != []
    requires WellFormed(AddChild(t, d, name, obj)) && d + [name] !in t && name !in comps
    ensures Walk(AddChild(t, d, name, obj), p, comps) == Walk(t, p, comps)
    decreases |comps|
  {
    var t' := AddChild(t, d, name, obj);
    assert comps[0] in comps;
    assert Step(t', p, comps[0]) == Step(t, p, comps[0]);
    var s := Step(t, p, comps[0]);
    if s.Some? && |comps| > 1 && t[s.value].Dir? {
      assert forall n :: n in comps[1..] ==> n in comps;
      WalkWithoutName(t, d, name, obj, s.value, comps[1..]);
    }
  }

  /** Every path of the tree, spelled out, leads to itself. */
  lemma {:induction false} WalkCanonical(t: Tree, p: Path, rest: Path)
    requires WellFormed(t) && p in t && t[p].Dir? && rest != [] && p + rest in t
    ensures Walk(t, p, rest) == Some(p + rest)
    decreases |rest|
  {
    var q := p + [rest[0]];
    PrefixInTree(t, p, rest, 1);
    assert p + rest[..1] == q;
    ChildPath(p, rest[0]);
    ParentInTree(t, q);
    ChildInTree(t, p, rest[0]);
    if |rest| > 1 {
      PrefixInTree(t, p, rest, 2);
      assert Up(p + rest[..2]) == q;
      ParentInTree(t, p + rest[..2]);
      assert p + rest == q + rest[1..];
      WalkCanonical(t, q, rest[1..]);
    } else {
      assert p + rest == q;
    }
  }

  lemma {:induction false} PrefixInTree(t: Tree, p: Path, rest: Path, k: nat)
    requires WellFormed(t) && p + rest in t && k <= |rest|
    ensures p + rest[..k] in t
    decreases |rest| - k
  {
    if k < |rest| {
      PrefixInTree(t, p, rest, k + 1);
      ParentInTree(t, p + rest[..k + 1]);
      assert Up(p + rest[..k + 1]) == p + rest[..k];
    } else {
      assert rest[..k] == rest;
    }
  }

  lemma ResolveCanonical(t: Tree, p: Path)
    requires WellFormed(t) && p in t
    ensures Resolve(t, p) == Some(p)
  {
    if p != [] {
      assert [] + p == p;
      WalkCanonical(t, [], p);
    }
  }

  lemma {:induction false} WalkNames(t: Tree, p: Path, comps: seq<Name>)
    requires WellFormed(t) && p in t && t[p].Dir? && comps != []
    requires forall i :: 0 <= i < |comps| ==> ValidName(comps[i])
    requires Walk(t, p, comps).Some?
    ensures Walk(t, p, comps) == Some(p + comps)
    decreases |comps|
  {
    if |comps| > 1 {
      assert p + comps == (p + [comps[0]]) + comps[1..];
      WalkNames(t, p + [comps[0]], comps[1..]);
    } else {
      assert comps == [comps[0]];
    }
  }

  /** Proper names lead to the path they spell if it is in the tree, and nowhere otherwise. */
  lemma ResolveExact(t: Tree, p: Path)
    requires WellFormed(t) && forall i :: 0 <= i < |p| ==> ValidName(p[i])
    ensures Resolve(t, p) == if p in t then Some(p) else None
  {
    if p in t {
      ResolveCanonical(t, p);
    } else {
      assert [] + p == p;
      if p != [] && Walk(t, [], p).Some? {
        WalkNames(t, [], p);
      }
    }
  }

  lemma {:induction false} WalkAfterRemove(t: Tree, d: Path, k: nat, p: Path, comps: seq<Name>)
    requires WellFormed(t) && d in t && t[d].Dir? && k < |t[d].names|
    requires WellFormed(RemoveChild(t, d, k)) && d + [t[d].names[k]] in t && Distinct(t[d].names)
    requires p in RemoveChild(t, d, k) && RemoveChild(t, d, k)[p].Dir? && comps != []
    ensures p in t && t[p].Dir?
    ensures Walk(RemoveChild(t, d, k), p, comps).Some? ==> Walk(t, p, comps) == Walk(RemoveChild(t, d, k), p, comps)
    decreases |comps|
  {
    var t' := RemoveChild(t, d, k);
    RestOfNames(t[d].names, k);
    var s := Step(t', p, comps[0]);
    if s.Some? {
      assert Step(t, p, comps[0]) == s;
      if |comps| > 1 && t'[s.value].Dir? {
        WalkAfterRemove(t, d, k, s.value, comps[1..]);
      }
    }
  }

  /** Removing one entry removes one path; what a path still leads to is what it led to before. */
  lemma ResolveAfterRemove(t: Tree, d: Path, k: nat, comps: seq<Name>)
    requires WellFormed(t) && d in t && t[d].Dir? && k < |t[d].names| && d + [t[d].names[k]] in t
    requires var c := t[d + [t[d].names[k]]]; c.Dir? ==> c.names == []
    ensures WellFormed(RemoveChild(t, d, k))
    ensures Resolve(RemoveChild(t, d, k), comps).Some? ==> Resolve(t, comps) == Resolve(RemoveChild(t, d, k), comps)
    ensures Resolve(t, comps).Some? && Resolve(RemoveChild(t, d, k), comps).None? ==> t[d].names[k] in comps
  {
    ChildInTree(t, d, t[d].names[k]);
    RemoveChildWellFormed(t, d, k);
    if comps != [] {
      WalkAfterRemove(t, d, k, [], comps);
      if t[d].names[k] !in comps {
        WalkAvoiding(t, d, k, [], comps);
      }
    }
  }

  lemma {:induction false} WalkAvoiding(t: Tree, d: Path, k: nat, p: Path, comps: seq<Name>)
    requires WellFormed(t) && d in t && t[d].Dir? && k < |t[d].names|
    requires WellFormed(RemoveChild(t, d, k)) && d + [t[d].names[k]] in t && Distinct(t[d].names)
    requires p in RemoveChild(t, d, k) && RemoveChild(t, d, k)[p].Dir? && comps != []
    requires t[d].names[k] !in comps
    ensures p in t && t[p].Dir?
    ensures Walk(RemoveChild(t, d, k), p, comps) == Walk(t, p, comps)
    decreases |comps|
  {
    var t' := RemoveChild(t, d, k);
    var name := t[d].names[k];
    RestOfNames(t[d].names, k);
    assert comps[0] in comps;
    var s := Step(t, p, comps[0]);
    assert Step(t', p, comps[0]) == s;
    if s.Some? && |comps| > 1 && t[s.value].Dir? {
      ChildInjective(p, comps[0], d, name);
      assert s.value in t';
      assert forall n :: n in comps[1..] ==> n in comps;
      WalkAvoiding(t, d, k, s.value, comps[1..]);
    }
  }

  /** Following components is following all but the last, and from the directory there the last. */
  lemma {:induction false} WalkLast(t: Tree, p: Path, comps: seq<Name>)
    requires WellFormed(t) && p in t && t[p].Dir? && |comps| >= 2
    ensures Walk(t, p, comps) == StepFrom(t, Walk(t, p, comps[..|comps| - 1]), comps[|comps| - 1])
    decreases |comps|
  {
    hide WellFormed, Step;
    var front, q := comps[..|comps| - 1], Step(t, p, comps[0]);
    if q.Some? && t[q.value].Dir? {
      if |comps| > 2 {
        WalkLast(t, q.value, comps[1..]);
        assert front[1..] == comps[1..][..|comps| - 2];
      } else {
        assert comps[1..] == [comps[1]];
      }
    }
  }

  /** The component n from where a path leads, if that is a directory. */
  ghost function StepFrom(t: Tree, r: Option<Path>, n: Name): (q: Option<Path>)
    requires WellFormed(t) && (r.Some? ==> r.value in t)
    ensures q.Some? ==> q.value in t
  {
    if r.Some? && t[r.value].Dir? then Step(t, r.value, n) else None
  }

  // ----- exactly which lookups a removal ends -----

  /** The paths met by following components from p, as far as they lead. */
  ghost function Visited(t: Tree, p: Path, comps: seq<Name>): seq<Path>
    requires WellFormed(t) && p in t && t[p].Dir?
    decreases |comps|
  {
    if comps == [] then []
    else
      match Step(t, p, comps[0])
      case None => []
      case Some(q) => [q] + if t[q].Dir? then Visited(t, q, comps[1..]) else []
  }
}
