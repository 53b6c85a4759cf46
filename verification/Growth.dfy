/** Adding an entry to a directory and removing one, on the representation. */
module Growth {
  import opened Bytes
  import opened Changes
  import opened Directory
  import opened Disk
  import opened Fat
  import opened Image
  import opened Sectors
  import opened Tree

  // ----- adding -----

  /** The new file has its chain, but its directory does not list it yet. */
  ghost predicate Prepared(data: seq<Sector>, chains: Chains, t: Tree, t': Tree, q: Path) {
    && chains.Keys == t.Keys + {q}
    && RootEntry(data, chains)
    && AllStand(data, chains, t, t.Keys)
    && Stands(data, chains, t', q)
  }

  lemma AllocAll(fat: seq<u32>, n: nat, data: seq<Sector>, data': seq<Sector>, chains: Chains, chains': Chains,
                 t: Tree, q: Path)
    requires WellFormed(t) && AllStand(data, chains, t, t.Keys) && q !in t
    requires Wrote(fat, n, data, data', chains, chains', q)
    ensures AllStand(data', chains', t, t.Keys)
  {
    hide Wrote, Stands, WellFormed;
    forall p | p in t ensures Stands(data', chains', t, p) {
      OneStands(data, chains, t, t.Keys, p);
      AllocStands(fat, n, data, data', chains, chains', t, q, p);
    }
  }

  lemma AllocPrepares(fat: seq<u32>, n: nat, data: seq<Sector>, data': seq<Sector>, chains: Chains, chains': Chains,
                      t: Tree, t': Tree, q: Path)
    requires Represents(data, chains, t) && q !in t && q in t' && q != []
    requires Wrote(fat, n, data, data', chains, chains', q)
    requires ObjBytes(Content(data', chains'[q]), t', chains', q, t'[q], |chains'[q]|)
    ensures Prepared(data', chains', t, t', q)
  {
    hide AllStand, WellFormed, ObjBytes, RootEntry, Partitioned, Untouched, Covered;
    RepresentsFacts(data, chains, t);
    WroteRoot(fat, n, data, data', chains, chains', q);
    AllocAll(fat, n, data, data', chains, chains', t, q);
  }

  lemma AddEnts(t: Tree, chains: Chains, chains': Chains, d: Path, name: Name, obj: Obj)
    requires WellFormed(t) && d in t && t[d].Dir? && d + [name] !in t
    requires Elsewhere(chains, chains', d + [name])
    ensures EntsAt(AddChild(t, d, name, obj), chains', d, t[d].names + [name])
         == EntsAt(t, chains, d, t[d].names)
            + [DirEnt(name, HeadAt(chains', d + [name]), if obj.Dir? then S_DIR else S_FIL)]
  {
    var t', q, names := AddChild(t, d, name, obj), d + [name], t[d].names;
    ChildPath(d, name);
    AllocEnts(chains, chains', t, q, d);
    forall i | 0 <= i < |names|
      ensures ChildEnts(t', chains', d, names + [name])[i] == ChildEnts(t, chains, d, names)[i]
    {
      assert names[i] in names;
      ChildInTree(t, d, names[i]);
    }
  }

  lemma AddOther(fat: seq<u32>, n: nat, data: seq<Sector>, data': seq<Sector>, chains: Chains, chains': Chains,
                 t: Tree, d: Path, name: Name, obj: Obj, p: Path)
    requires WellFormed(t) && d in t && t[d].Dir? && d + [name] !in t && p in t && p != d
    requires Stands(data, chains, t, p)
    requires Wrote(fat, n, data, data', chains, chains', d) && HeadAt(chains', d) == HeadAt(chains, d)
    ensures Stands(data', chains', AddChild(t, d, name, obj), p)
  {
    hide Wrote, Stands, HeadAt;
    var t' := AddChild(t, d, name, obj);
    ChildPath(d, name);
    if t[p].Dir? {
      forall x | x in t[p].names ensures p + [x] in t && p + [x] in t' { ChildInTree(t, p, x); }
    }
    RewriteStands(fat, n, data, data', chains, chains', t, t', d, p);
  }

  lemma AddNew(fat: seq<u32>, n: nat, data: seq<Sector>, data': seq<Sector>, chains: Chains, chains': Chains,
               t': Tree, d: Path, name: Name)
    requires Stands(data, chains, t', d + [name]) && (t'[d + [name]].Dir? ==> t'[d + [name]].names == [])
    requires Wrote(fat, n, data, data', chains, chains', d) && HeadAt(chains', d) == HeadAt(chains, d)
    ensures Stands(data', chains', t', d + [name])
  {
    var q := d + [name];
    ChildPath(d, name);
    WroteOutside(fat, n, data, data', chains, chains', d, t', q);
    StandsKept(data, chains, t', data', chains', t', q);
  }

  lemma AddAllOthers(fat: seq<u32>, n: nat, data: seq<Sector>, data': seq<Sector>, chains: Chains, chains': Chains,
                     t: Tree, d: Path, name: Name, obj: Obj)
    requires WellFormed(t) && d in t && t[d].Dir? && d + [name] !in t && AllStand(data, chains, t, t.Keys)
    requires Wrote(fat, n, data, data', chains, chains', d) && HeadAt(chains', d) == HeadAt(chains, d)
    ensures AllStand(data', chains', AddChild(t, d, name, obj), t.Keys - {d})
  {
    hide Wrote, Stands, HeadAt, WellFormed, AddChild;
    forall p | p in t.Keys - {d} ensures Stands(data', chains', AddChild(t, d, name, obj), p) {
      OneStands(data, chains, t, t.Keys, p);
      AddOther(fat, n, data, data', chains, chains', t, d, name, obj, p);
    }
  }

  lemma AddChildFacts(t: Tree, d: Path, name: Name, obj: Obj)
    requires d in t && t[d].Dir? && d + [name] !in t
    ensures var t' := AddChild(t, d, name, obj);
            && d in t' && d + [name] in t' && t'[d + [name]] == obj && SameShape(t'[d], t'[d])
            && t'.Keys == t.Keys - {d} + {d} + {d + [name]} && t'[d := t'[d]] == t'
  {
    ChildPath(d, name);
  }

  /** Once the directory's new bytes are written, the image holds the tree with the new entry. */
  lemma AddRepresents(fat: seq<u32>, n: nat, data: seq<Sector>, data': seq<Sector>, chains: Chains, chains': Chains,
                      t: Tree, d: Path, name: Name, obj: Obj)
    requires WellFormed(t) && d in t && t[d].Dir? && ValidName(name) && name !in t[d].names
    requires obj.Dir? ==> obj.names == []
    requires Prepared(data, chains, t, AddChild(t, d, name, obj), d + [name])
    requires Wrote(fat, n, data, data', chains, chains', d) && HeadAt(chains', d) == HeadAt(chains, d)
    requires ObjBytes(Content(data', chains'[d]), AddChild(t, d, name, obj), chains, d,
                      AddChild(t, d, name, obj)[d], |chains'[d]|)
    ensures Represents(data', chains', AddChild(t, d, name, obj))
  {
    hide *;
    var t', q := AddChild(t, d, name, obj), d + [name];
    PreparedFacts(data, chains, t, t', q);
    AddChildWellFormed(t, d, name, obj);
    AddChildFacts(t, d, name, obj);
    WroteRoot(fat, n, data, data', chains, chains', d);
    RewrittenStands(fat, n, data, data', chains, chains', t', d, t'[d]);
    AddNew(fat, n, data, data', chains, chains', t', d, name);
    AddAllOthers(fat, n, data, data', chains, chains', t, d, name, obj);
    AllButOne(data', chains', t', t.Keys - {d}, d);
    AllButOne(data', chains', t', t.Keys - {d} + {d}, q);
    RepresentsIntro(data', chains', t');
  }

  lemma PreparedFacts(data: seq<Sector>, chains: Chains, t: Tree, t': Tree, q: Path)
    requires Prepared(data, chains, t, t', q)
    ensures chains.Keys == t.Keys + {q} && RootEntry(data, chains)
    ensures AllStand(data, chains, t, t.Keys) && Stands(data, chains, t', q)
  {
  }

  // ----- removing -----

  lemma DropEnts(chains: Chains, t: Tree, q: Path, p: Path)
    requires WellFormed(t) && q in t && q != [] && p in t && p != q && p != Up(q) && t[p].Dir?
    requires t[q].Dir? ==> t[q].names == []
    ensures SameEnts(t, chains, t, chains - {q}, p, t[p].names)
  {
    if p != [] {
      ParentInTree(t, p);
      assert Up(p) != q;
    }
    forall x | x in t[p].names ensures p + [x] != q {
      ChildPath(p, x);
    }
  }

  lemma DropStands(data: seq<Sector>, chains: Chains, t: Tree, q: Path, p: Path)
    requires WellFormed(t) && q in t && q != [] && p in t && p != q && p != Up(q)
    requires t[q].Dir? ==> t[q].names == []
    requires Stands(data, chains, t, p)
    ensures Stands(data, chains - {q}, t, p)
  {
    if t[p].Dir? {
      DropEnts(chains, t, q, p);
    }
    StandsKept(data, chains, t, data, chains - {q}, t, p);
  }

  lemma RemoveOther(fat: seq<u32>, n: nat, data: seq<Sector>, data': seq<Sector>, chains: Chains, chains': Chains,
                    t: Tree, d: Path, k: nat, p: Path)
    requires WellFormed(t) && d in t && t[d].Dir? && k < |t[d].names|
    requires p in t && p != d && p != d + [t[d].names[k]]
    requires Stands(data, chains, t, p)
    requires Wrote(fat, n, data, data', chains, chains', d) && HeadAt(chains', d) == HeadAt(chains, d)
    ensures Stands(data', chains', RemoveChild(t, d, k), p)
  {
    hide Wrote, Stands, HeadAt;
    var t', name := RemoveChild(t, d, k), t[d].names[k];
    ChildPath(d, name);
    if t[p].Dir? {
      forall x | x in t[p].names ensures p + [x] in t && p + [x] in t' {
        ChildInTree(t, p, x);
        ChildInjective(p, x, d, name);
      }
    }
    RewriteStands(fat, n, data, data', chains, chains', t, t', d, p);
  }

  lemma ChildEntKept(t: Tree, chains: Chains, d: Path, k: nat, j: nat)
    requires WellFormed(t) && d in t && t[d].Dir? && k < |t[d].names| && j < |t[d].names| && j != k
    ensures var q, c := d + [t[d].names[k]], d + [t[d].names[j]];
            && c != q && HeadAt(chains - {q}, c) == HeadAt(chains, c)
            && KindAt(RemoveChild(t, d, k), c) == KindAt(t, c)
  {
    ChildInTree(t, d, t[d].names[k]);
    ChildInjective(d, t[d].names[j], d, t[d].names[k]);
    ChildInTree(t, d, t[d].names[j]);
    ChildPath(d, t[d].names[j]);
  }

  lemma RemoveEnts(t: Tree, chains: Chains, d: Path, k: nat)
    requires WellFormed(t) && d in t && t[d].Dir? && k < |t[d].names|
    ensures var names := t[d].names;
            EntsAt(RemoveChild(t, d, k), chains - {d + [names[k]]}, d, names[..k] + names[k + 1..])
            == EntsAt(t, chains, d, names)[..k + 2] + EntsAt(t, chains, d, names)[k + 3..]
  {
    var names := t[d].names;
    var q, t', rest := d + [names[k]], RemoveChild(t, d, k), names[..k] + names[k + 1..];
    ChildPath(d, names[k]);
    assert Up(d) != q;
    forall i | 0 <= i < |rest|
      ensures ChildEnts(t', chains - {q}, d, rest)[i] == ChildEnts(t, chains, d, names)[if i < k then i else i + 1]
    {
      var j := if i < k then i else i + 1;
      assert rest[i] == names[j];
      ChildEntKept(t, chains, d, k, j);
    }
    var was, now := ChildEnts(t, chains, d, names), ChildEnts(t', chains - {q}, d, rest);
    hide RemoveChild, HeadAt, KindAt, WellFormed, ChildEnts;
    assert EntsAt(t', chains - {q}, d, rest)[..2] == EntsAt(t, chains, d, names)[..2];
    WithoutOne(EntsAt(t, chains, d, names)[..2], was, now, k);
  }

  /** Taking out the k-th of the elements after two others. */
  lemma WithoutOne<T>(two: seq<T>, s: seq<T>, r: seq<T>, k: nat)
    requires |two| == 2 && k < |s| && |r| == |s| - 1
    requires forall i :: 0 <= i < |r| ==> r[i] == s[if i < k then i else i + 1]
    ensures two + r == (two + s)[..k + 2] + (two + s)[k + 3..]
  {
  }

  lemma RemoveAllOthers(fat: seq<u32>, n: nat, data: seq<Sector>, data': seq<Sector>, chains: Chains, chains': Chains,
                        t: Tree, d: Path, k: nat, q: Path)
    requires WellFormed(t) && d in t && t[d].Dir? && k < |t[d].names| && q == d + [t[d].names[k]]
    requires q in t && (t[q].Dir? ==> t[q].names == []) && AllStand(data, chains, t, t.Keys)
    requires Wrote(fat, n, data, data', chains - {q}, chains', d) && HeadAt(chains', d) == HeadAt(chains - {q}, d)
    ensures AllStand(data', chains', RemoveChild(t, d, k), t.Keys - {q} - {d})
  {
    ChildPath(d, t[d].names[k]);
    hide Wrote, Stands, HeadAt, WellFormed, RemoveChild;
    forall p | p in t.Keys - {q} - {d} ensures Stands(data', chains', RemoveChild(t, d, k), p) {
      OneStands(data, chains, t, t.Keys, p);
      DropStands(data, chains, t, q, p);
      RemoveOther(fat, n, data, data', chains - {q}, chains', t, d, k, p);
    }
  }

  lemma RemoveChildFacts(t: Tree, d: Path, k: nat)
    requires d in t && t[d].Dir? && k < |t[d].names|
    ensures var t' := RemoveChild(t, d, k);
            && d in t' && SameShape(t'[d], t'[d])
            && t'.Keys == t.Keys - {d + [t[d].names[k]]} - {d} + {d} && t'[d := t'[d]] == t'
  {
    ChildPath(d, t[d].names[k]);
  }

  lemma DropHead(chains: Chains, q: Path, d: Path)
    requires d != q
    ensures HeadAt(chains - {q}, d) == HeadAt(chains, d)
  {
  }

  lemma DropRoot(data: seq<Sector>, chains: Chains, q: Path)
    requires RootEntry(data, chains) && q != []
    ensures RootEntry(data, chains - {q})
  {
  }

  /** Once the directory's new bytes are written, the image holds the tree without the entry. */
  lemma RemoveRepresents(fat: seq<u32>, n: nat, data: seq<Sector>, data': seq<Sector>, chains: Chains, chains': Chains,
                         t: Tree, d: Path, k: nat, q: Path)
    requires Represents(data, chains, t) && d in t && t[d].Dir? && k < |t[d].names| && q == d + [t[d].names[k]]
    requires q in t && (t[q].Dir? ==> t[q].names == [])
    requires Wrote(fat, n, data, data', chains - {q}, chains', d) && HeadAt(chains', d) == HeadAt(chains, d)
    requires ObjBytes(Content(data', chains'[d]), RemoveChild(t, d, k), chains - {q}, d,
                      RemoveChild(t, d, k)[d], |chains'[d]|)
    ensures Represents(data', chains', RemoveChild(t, d, k))
  {
    hide *;
    var t' := RemoveChild(t, d, k);
    RepresentsFacts(data, chains, t);
    ChildPath(d, t[d].names[k]);
    DropHead(chains, q, d);
    RemoveChildFacts(t, d, k);
    RemoveChildWellFormed(t, d, k);
    DropRoot(data, chains, q);
    WroteRoot(fat, n, data, data', chains - {q}, chains', d);
    RewrittenStands(fat, n, data, data', chains - {q}, chains', t', d, t'[d]);
    RemoveAllOthers(fat, n, data, data', chains, chains', t, d, k, q);
    AllButOne(data', chains', t', t.Keys - {q} - {d}, d);
    assert (chains - {q}).Keys == t.Keys - {q};
    RepresentsIntro(data', chains', t');
  }
}
