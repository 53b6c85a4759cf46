/** What the operations do for paths that are spelled out: a slash before each name. */
module Spelling {
  import opened Bytes
  import opened Ops
  import opened Paths
  import opened Permissions
  import opened Tree

  function Spell(p: Path): seq<byte> {
    if p == [] then [] else Spell(p[..|p| - 1]) + [SLASH] + p[|p| - 1]
  }

  /** A path other than the root, of proper names. */
  predicate Spelled(p: Path) {
    p != [] && forall i :: 0 <= i < |p| ==> ValidName(p[i]) && p[i] != []
  }

  lemma UpSpelled(p: Path)
    requires Spelled(p)
    ensures Up(p) == p[..|p| - 1] && p == Up(p) + [p[|p| - 1]] && (Up(p) != [] ==> Spelled(Up(p)))
  {
  }

  lemma {:induction false} SpellFacts(p: Path)
    requires Spelled(p)
    ensures |Spell(p)| >= 2 && Spell(p)[0] == SLASH && Split(Spell(p)[1..]) == p && NulFree(Spell(p))
  {
    hide Split;
    var n, s := p[|p| - 1], Spell(p);
    if |p| == 1 {
      assert Spell([]) == [] && s == [SLASH] + n && s[1..] == n;
      SplitNone(n);
    } else {
      UpSpelled(p);
      SpellFacts(Up(p));
      var r := Spell(Up(p))[1..];
      assert s[1..] == r + [SLASH] + n;
      SplitAtLast(s[1..], |r|);
      assert s[1..][..|r|] == r && s[1..][|r| + 1..] == n;
    }
  }

  lemma CutName(dir: seq<byte>, n: Name)
    requires n != [] && SLASH !in n
    ensures CutLast(dir + [SLASH] + n) == CutLast(dir + [SLASH] + n + [SLASH]) == Some((dir, n))
  {
    var s := dir + [SLASH] + n;
    assert Trim(s + [SLASH]) == s;
    assert s[|s| - 1] == n[|n| - 1] && s[|dir|] == SLASH;
    assert s[..|dir|] == dir && s[|dir| + 1..] == n;
    forall j | |dir| < j < |s| ensures s[j] != SLASH {
      assert s[j] == n[j - |dir| - 1];
    }
  }

  lemma SpellComps(p: Path)
    requires p != [] ==> Spelled(p)
    ensures LookupComps(Spell(p)) == p && (p != [] ==> |Spell(p)| > 0 && LookupComps(Spell(p)[1..]) == p)
  {
    if p == [] {
      assert Spell([]) == [];
    } else {
      SpellFacts(p);
      hide Split, Spell;
      var r := Spell(p)[1..];
      if r[0] == SLASH {
        SplitFirst(r, 0);
        assert false;
      }
    }
    hide Split, Spell, Spelled;
  }

  /** A spelled path leads to itself if it is in the tree, and nowhere otherwise. */
  lemma SpelledLookup(t: Tree, p: Path)
    requires WellFormed(t) && Spelled(p)
    ensures Resolve(t, LookupComps(Spell(p))) == if p in t then Some(p) else None
    ensures Target(t, Spell(p)) == if Up(p) in t then Some((Up(p), p[|p| - 1])) else None
  {
    var dir, n := Spell(Up(p)), p[|p| - 1];
    UpSpelled(p);
    CutName(dir, n);
    assert Spell(p) == dir + [SLASH] + n;
    SpellComps(p);
    SpellComps(Up(p));
    ResolveExact(t, p);
    ResolveExact(t, Up(p));
    hide *;
    TargetOf(t, Spell(p), dir, n);
  }

  lemma SpelledStep(t: Tree, p: Path)
    requires WellFormed(t) && Spelled(p) && Up(p) in t && t[Up(p)].Dir?
    ensures Step(t, Up(p), p[|p| - 1]) == if p in t then Some(p) else None
  {
    var d, n := Up(p), p[|p| - 1];
    UpSpelled(p);
    StepIs(t, d, n);
    if n in t[d].names {
      ChildInTree(t, d, n);
    } else if p in t {
      ParentInTree(t, p);
    }
  }

  /** What the operations look at, for a spelled path. */
  lemma SpelledFacts(t: Tree, p: Path)
    requires WellFormed(t) && Spelled(p)
    ensures NulFree(Spell(p)) && p != [] && Up(p) + [p[|p| - 1]] == p
    ensures Target(t, Spell(p)) == if Up(p) in t then Some((Up(p), p[|p| - 1])) else None
    ensures p in t ==> Up(p) in t && t[Up(p)].Dir?
    ensures Up(p) in t && t[Up(p)].Dir? ==> Step(t, Up(p), p[|p| - 1]) == if p in t then Some(p) else None
  {
    SpelledLookup(t, p);
    SpellFacts(p);
    Rejoin(p);
    if p in t {
      ParentInTree(t, p);
    }
    if Up(p) in t && t[Up(p)].Dir? {
      SpelledStep(t, p);
    }
  }

  /** "." is the directory itself, ".." the one it stands in; the root stands in itself. */
  lemma Dots(t: Tree, p: Path)
    requires WellFormed(t) && p in t && t[p].Dir?
    ensures Step(t, p, [46]) == Some(p)
    ensures Step(t, p, [46, 46]) == Some(if p == [] then [] else p[..|p| - 1])
  {
  }

  /** mkdir: every answer, and the directory that is new. */
  lemma MkdirSpelled(t: Tree, p: Path, uid: u32)
    requires WellFormed(t) && Spelled(p)
    ensures var d, e := Up(p), Mkdir(t, Spell(p), uid);
            && e.code == (if d !in t then 1 else if t[d].File? then 2 else if !Granted(uid, t[d], 4, 1) then 4
                          else if p in t then 3 else 0)
            && (e.code != 0 ==> e.tree == t)
            && (e.code == 0 ==> e.at == p && AddsOne(t, e.tree, p) && e.tree[p] == Dir(uid, 14, []))
  {
    SpelledFacts(t, p);
    if Up(p) in t {
      MayExactly(uid, t[Up(p)]);
    }
    MkdirAddsOne(t, Spell(p), uid);
    hide Target, WellFormed, Granted, MayWrite, MayRead, Step, Spell, Spelled, AddsOne, RemovesOne, Owns;
  }

  /** open: likewise; a missing file is made, by anyone who may read the directory or write to it. */
  lemma OpenSpelled(t: Tree, p: Path, mode: byte, uid: u32)
    requires WellFormed(t) && Spelled(p)
    ensures var d, e := Up(p), Open(t, Spell(p), mode, uid);
            && e.code == (if d !in t || t[d].File? then -1 else if !Granted(uid, t[d], 12, 3) then -4
                          else if p in t && t[p].Dir? then -2 else 0)
            && (e.code != 0 || p in t ==> e.tree == t)
            && (e.code == 0 ==> e.at == p)
            && (e.code == 0 && p !in t ==> AddsOne(t, e.tree, p) && e.tree[p] == File(uid, mode, 0, []))
  {
    SpelledFacts(t, p);
    if Up(p) in t {
      MayExactly(uid, t[Up(p)]);
    }
    OpenAddsOne(t, Spell(p), mode, uid);
    hide Target, WellFormed, Granted, MayWrite, MayRead, Step, Spell, Spelled, AddsOne, RemovesOne, Owns;
  }

  /** remove: likewise. */
  lemma RemoveSpelled(t: Tree, p: Path, uid: u32)
    requires WellFormed(t) && Spelled(p)
    ensures var d, e := Up(p), Remove(t, Spell(p), uid);
            && e.code == (if d !in t || t[d].File? then 1 else if !Granted(uid, t[d], 4, 1) then 4
                          else if p !in t then 1 else if t[p].Dir? then 2 else 0)
            && (e.code != 0 ==> e.tree == t)
            && (e.code == 0 ==> e.at == p && RemovesOne(t, e.tree, p))
  {
    SpelledFacts(t, p);
    if Up(p) in t {
      MayExactly(uid, t[Up(p)]);
    }
    RemoveRemovesOne(t, Spell(p), uid);
    hide Target, WellFormed, Granted, MayWrite, MayRead, Step, Spell, Spelled, AddsOne, RemovesOne, Owns;
  }

  /** rmdir: likewise; a path of proper names is never removed from itself. */
  lemma RmdirSpelled(t: Tree, p: Path, uid: u32)
    requires WellFormed(t) && Spelled(p)
    ensures var d, e := Up(p), Rmdir(t, Spell(p), uid);
            && e.code == (if d !in t || t[d].File? then 1 else if !Granted(uid, t[d], 4, 1) then 4
                          else if p !in t then 1 else if t[p].File? then 2 else if t[p].names != [] then 3 else 0)
            && (e.code != 0 ==> e.tree == t)
            && (e.code == 0 ==> e.at == p && RemovesOne(t, e.tree, p))
            && !RemovesItself(t, Spell(p), uid)
  {
    SpelledFacts(t, p);
    if Up(p) in t {
      MayExactly(uid, t[Up(p)]);
    }
    RmdirRemovesOne(t, Spell(p), uid);
    hide Target, WellFormed, Granted, MayWrite, MayRead, Step, Spell, Spelled, AddsOne, RemovesOne, Owns;
  }

  /** chmod and chown. */
  lemma AttrsSpelled(t: Tree, p: Path, mode: byte, newuid: u32, uid: u32)
    requires WellFormed(t) && Spelled(p)
    ensures Chmod(t, Spell(p), mode, uid).code
         == if p !in t then 1 else if uid != 0 && uid != t[p].uid then 4 else 0
    ensures Chown(t, Spell(p), newuid, uid).code
         == if p !in t then 1 else if uid != 0 && (uid != t[p].uid || newuid != t[p].uid) then 4 else 0
    ensures p in t ==> (Chmod(t, Spell(p), mode, uid).code == 0 ==> Chmod(t, Spell(p), mode, uid).at == p)
                       && (Chown(t, Spell(p), newuid, uid).code == 0 ==> Chown(t, Spell(p), newuid, uid).at == p)
  {
    SpelledLookup(t, p);
    hide Target, WellFormed, LookupComps, Spell, SetMode;
  }
}
