/** Reading files of the image and following paths in it. */
module Lookup {
  import opened Bytes
  import opened Changes
  import opened Codec
  import opened Directory
  import opened Disk
  import opened Fat
  import opened Image
  import opened Paths
  import opened Sectors
  import opened Tree

  /** The image is consistent and holds the tree of dt. */
  ghost predicate Ready(dt: Disk)
    reads dt
  {
    dt.Valid() && Represents(dt.data, dt.chains, dt.tree)
  }

  /** What is known about the chain of a path of the tree. */
  ghost predicate Head(data: seq<Sector>, chains: Chains, t: Tree, p: Path) {
    && p in t && p in chains && 1 <= |chains[p]| <= 0x80_0000 && Covered(data, chains[p])
    && chains[p][0] < |data| && chains[p][0] == HeadAt(chains, p)
    && ObjBytes(Content(data, chains[p]), t, chains, p, t[p], |chains[p]|)
    && DecodeMeta(data[chains[p][0]]) == DecodeMeta(Content(data, chains[p]))
  }

  lemma HeadHolds(fat: seq<u32>, n: nat, data: seq<Sector>, chains: Chains, t: Tree, p: Path)
    requires Partitioned(fat, n, chains) && n <= 0x80_0000 && Represents(data, chains, t) && p in t
    requires |data| == n
    ensures Head(data, chains, t, p)
  {
    hide Partitioned, Represents, ObjBytes;
    RepresentsFacts(data, chains, t);
    OneStands(data, chains, t, t.Keys, p);
    ChainSize(fat, n, chains, p);
    ChainBelow(fat, n, chains, p, chains[p][0]);
    HeadMeta(data, chains[p]);
  }

  lemma HeadMeta(data: seq<Sector>, c: seq<nat>)
    requires Covered(data, c) && |c| > 0
    ensures |Content(data, c)| >= 64 && DecodeMeta(data[c[0]]) == DecodeMeta(Content(data, c))
  {
    ContentFirst(data, c);
    SliceOfSlice(Content(data, c), 0, 512, 0, 64);
    DecodeMetaSame(data[c[0]], Content(data, c));
  }

  lemma HeadOf(dt: Disk, p: Path)
    requires Ready(dt) && p in dt.tree
    ensures Head(dt.data, dt.chains, dt.tree, p)
  {
    hide Partitioned, Represents;
    GeometryFits(dt.totSecNum, dt.fatSecNum, dt.fatNum, dt.dtSize);
    HeadHolds(dt.fat, dt.fatNum, dt.data, dt.chains, dt.tree, p);
  }

  /** The meta data of the file that starts at fb. */
  method MetaOf(dt: Disk, fb: u32, ghost p: Path) returns (meta: Meta)
    requires Ready(dt) && p in dt.tree && fb == HeadAt(dt.chains, p)
    ensures p in dt.chains && Covered(dt.data, dt.chains[p]) && 1 <= |dt.chains[p]| <= 0x80_0000
    ensures fb == dt.chains[p][0] && fb < |dt.data|
    ensures meta == DecodeMeta(Content(dt.data, dt.chains[p])) && meta.blocks == |dt.chains[p]|
    ensures meta.uid == dt.tree[p].uid && meta.flags == dt.tree[p].flags
  {
    HeadOf(dt, p);
    hide DecodeMeta;
    meta := DecodeMeta(dt.data[fb]);
  }

  lemma ContentSize(data: seq<Sector>, c: seq<nat>)
    requires Covered(data, c)
    ensures |Content(data, c)| == 512 * |c|
  {
  }

  lemma ReadyValid(dt: Disk)
    requires Ready(dt)
    ensures dt.Valid()
  {
  }

  /** Allocates a buffer and reads the file that starts at fb into it. */
  method ReadAll(dt: Disk, fb: u32, ghost p: Path) returns (pdata: array<byte>, meta: Meta)
    requires Ready(dt) && p in dt.tree && fb == HeadAt(dt.chains, p)
    ensures fresh(pdata) && p in dt.chains && Covered(dt.data, dt.chains[p]) && 1 <= |dt.chains[p]| <= 0x80_0000
    ensures pdata[..] == Content(dt.data, dt.chains[p]) && fb == dt.chains[p][0]
    ensures meta == DecodeMeta(pdata[..]) && meta.blocks == |dt.chains[p]|
    ensures meta.uid == dt.tree[p].uid && meta.flags == dt.tree[p].flags
  {
    hide *;
    ReadyValid(dt);
    meta := MetaOf(dt, fb, p);
    pdata := new byte[512 * meta.blocks];
    dt.DoReadFile(fb, pdata, p);
    assert pdata[..] == pdata[..512 * meta.blocks];
  }

  lemma DirContent(dt: Disk, p: Path)
    requires Ready(dt) && p in dt.tree && dt.tree[p].Dir?
    ensures WellFormed(dt.tree) && p in dt.chains && Covered(dt.data, dt.chains[p])
    ensures DirBytes(Content(dt.data, dt.chains[p]), EntsAt(dt.tree, dt.chains, p, dt.tree[p].names))
  {
    HeadOf(dt, p);
  }

  /** Where the entry with index k of directory p leads. */
  ghost function EntPath(p: Path, names: seq<Name>, k: nat): Path
    requires k < 2 + |names|
  {
    if k == 0 then p else if k == 1 then Up(p) else p + [names[k - 2]]
  }

  /** The answer of find_entry_by_name in directory p, as a step of the abstract lookup. */
  ghost predicate FoundAs(t: Tree, chains: Chains, p: Path, name: Name, found: bool, k: nat, e: Entry) {
    && WellFormed(t) && p in t && t[p].Dir?
    && (found <==> Step(t, p, name).Some?)
    && (found ==>
          var q := Step(t, p, name).value;
          && k < 2 + |t[p].names| && q == EntPath(p, t[p].names, k)
          && e.fb == HeadAt(chains, q) && e.kind == KindAt(t, q)
          && (name in t[p].names ==> k >= 2 && t[p].names[k - 2] == name))
  }

  lemma FoundIsStep(t: Tree, chains: Chains, p: Path, name: Name, k: nat, e: Entry)
    requires WellFormed(t) && p in t && t[p].Dir? && k < 2 + |t[p].names|
    requires var ent := EntsAt(t, chains, p, t[p].names)[k];
             ent.name == name && e.fb == ent.fb && e.kind == ent.kind
    ensures FoundAs(t, chains, p, name, true, k, e)
  {
    if p != [] { ParentInTree(t, p); }
    if k >= 2 || name in t[p].names {
      ChildInTree(t, p, name);
    }
  }

  lemma NotFoundIsNoStep(t: Tree, chains: Chains, p: Path, name: Name, k: nat, e: Entry)
    requires WellFormed(t) && p in t && t[p].Dir?
    requires forall i :: 0 <= i < 2 + |t[p].names| ==> EntsAt(t, chains, p, t[p].names)[i].name != name
    ensures FoundAs(t, chains, p, name, false, k, e)
  {
    var ents := EntsAt(t, chains, p, t[p].names);
    assert ents[0].name == DOT && ents[1].name == DOTDOT;
    forall i | 0 <= i < |t[p].names| ensures t[p].names[i] != name {
      assert ents[i + 2].name == t[p].names[i];
    }
  }

  /** Looks name up in the directory with the bytes pdata: its index, sector and kind. */
  method FindIn(dt: Disk, pdata: seq<byte>, name: Name, ghost p: Path) returns (found: bool, k: nat, e: Entry)
    requires Ready(dt) && p in dt.tree && dt.tree[p].Dir? && NulFree(name)
    requires p in dt.chains && Covered(dt.data, dt.chains[p]) && pdata == Content(dt.data, dt.chains[p])
    ensures FoundAs(dt.tree, dt.chains, p, name, found, k, e)
    ensures found ==> 64 + 16 * k + 16 <= |pdata|
  {
    hide *;
    ghost var ents := EntsAt(dt.tree, dt.chains, p, dt.tree[p].names);
    DirContent(dt, p);
    found, k := FindEntryByName(pdata, name, ents);
    if found {
      ListedAt(pdata, ents, k);
      e := EntryAt(pdata, k);
      FoundIsStep(dt.tree, dt.chains, p, name, k, e);
    } else {
      e := Entry(0, 0, 0, [0, 0, 0]);
      NotFoundIsNoStep(dt.tree, dt.chains, p, name, k, e);
    }
  }

  // ----- c_find_entry and c_lookup -----

  lemma WalkOne(t: Tree, p: Path, s: seq<byte>)
    requires WellFormed(t) && p in t && t[p].Dir?
    requires FirstSlash(s, 0) == |s|
    ensures Split(s) == [s] && Walk(t, p, Split(s)) == Step(t, p, s)
  {
  }

  lemma WalkMore(t: Tree, p: Path, s: seq<byte>)
    requires WellFormed(t) && p in t && t[p].Dir?
    requires FirstSlash(s, 0) < |s|
    ensures var k := FirstSlash(s, 0);
            var q := Step(t, p, s[..k]);
            Walk(t, p, Split(s)) == if q.Some? && t[q.value].Dir? then Walk(t, q.value, Split(s[k + 1..])) else None
  {
    hide Split, FirstSlash, WellFormed, Step;
    var k := FirstSlash(s, 0);
    SplitFirst(s, k);
    WalkUnfold(t, p, s[..k], Split(s[k + 1..]));
  }

  lemma WalkUnfold(t: Tree, p: Path, n: Name, rest: seq<Name>)
    requires WellFormed(t) && p in t && t[p].Dir? && rest != []
    ensures var q := Step(t, p, n);
            Walk(t, p, [n] + rest) == if q.Some? && t[q.value].Dir? then Walk(t, q.value, rest) else None
  {
    hide WellFormed, Step;
    assert ([n] + rest)[1..] == rest;
  }

  /** The answer of a lookup that by the tree should lead to r. */
  ghost predicate Leads(t: Tree, chains: Chains, r: Option<Path>, ret: int, e: Entry) {
    match r
    case None => ret == 1
    case Some(q) => ret == 0 && e.fb == HeadAt(chains, q) && e.kind == KindAt(t, q)
  }

  lemma LastComponent(t: Tree, chains: Chains, p: Path, s: seq<byte>, found: bool, k: nat, e: Entry)
    requires FoundAs(t, chains, p, s, found, k, e) && FirstSlash(s, 0) == |s|
    ensures Leads(t, chains, Walk(t, p, Split(s)), if found then 0 else 1, e)
  {
    WalkOne(t, p, s);
  }

  lemma InnerComponent(t: Tree, chains: Chains, p: Path, s: seq<byte>, found: bool, k: nat, e: Entry)
    requires FirstSlash(s, 0) < |s| && FoundAs(t, chains, p, s[..FirstSlash(s, 0)], found, k, e)
    ensures found ==> Step(t, p, s[..FirstSlash(s, 0)]).Some?
    ensures if found && e.kind == S_DIR then
              var q := Step(t, p, s[..FirstSlash(s, 0)]).value;
              && t[q].Dir? && e.fb == HeadAt(chains, q)
              && Walk(t, p, Split(s)) == Walk(t, q, Split(s[FirstSlash(s, 0) + 1..]))
            else Walk(t, p, Split(s)).None?
  {
    WalkMore(t, p, s);
  }

  /** Follows the path at position at of the buffer from directory p, cutting it into components. */
  method CFindEntry(dt: Disk, base: u32, path: array<byte>, at: nat, ghost s: seq<byte>, ghost p: Path)
    returns (ret: int, e: Entry)
    requires Ready(dt) && p in dt.tree && dt.tree[p].Dir? && base == HeadAt(dt.chains, p)
    requires WellFormed(dt.tree) && CString(path[..], at, s)
    modifies path
    ensures Leads(dt.tree, dt.chains, Walk(dt.tree, p, Split(s)), ret, e)
    decreases |s|
  {
    hide *;
    ghost var f := FirstSlash(s, 0);
    var buf, meta := ReadAll(dt, base, p);
    var rest := CutFirst(path, at, s);
    ghost var comp := if f < |s| then s[..f] else s;
    var name := StringAt(path, at, comp);
    CStringNulFree(path[..], at, comp);
    var found, k;
    found, k, e := FindIn(dt, buf[..], name, p);
    if rest == -1 {
      LastComponent(dt.tree, dt.chains, p, s, found, k, e);
      return if found then 0 else 1, e;
    }
    InnerComponent(dt.tree, dt.chains, p, s, found, k, e);
    if found && e.kind == S_DIR {
      ret, e := CFindEntry(dt, e.fb, path, rest, s[f + 1..], Step(dt.tree, p, comp).value);
      return;
    }
    LeadsNowhere(dt.tree, dt.chains, e);
    return 1, e;
  }

  lemma LeadsNowhere(t: Tree, chains: Chains, e: Entry)
    ensures Leads(t, chains, None, 1, e)
  {
  }

  lemma RootHead(dt: Disk)
    requires Ready(dt)
    ensures WellFormed(dt.tree) && [] in dt.tree && dt.tree[[]].Dir? && |dt.data| > 0
    ensures Leads(dt.tree, dt.chains, Some([]), 0, DecodeEntry(dt.data[0]))
  {
  }

  lemma LookupEmpty(t: Tree, s: seq<byte>)
    requires WellFormed(t) && (s == [] || s == [SLASH])
    ensures Resolve(t, LookupComps(s)) == Some([])
  {
  }

  lemma LookupFrom(t: Tree, s: seq<byte>, r: seq<byte>)
    requires WellFormed(t) && r != [] && r == (if |s| > 0 && s[0] == SLASH then s[1..] else s)
    ensures Resolve(t, LookupComps(s)) == Walk(t, [], Split(r))
  {
  }

  lemma CStringTail(buf: seq<byte>, at: nat, s: seq<byte>)
    requires CString(buf, at, s) && |s| > 0
    ensures CString(buf, at + 1, s[1..])
  {
    assert buf[at + 1..at + 1 + |s[1..]|] == buf[at..at + |s|][1..];
    NulFreeSuffix(s, 1);
  }

  /** c_lookup: follows a path string from the root. */
  method CLookup(dt: Disk, path: array<byte>, ghost s: seq<byte>) returns (ret: int, e: Entry)
    requires Ready(dt) && CString(path[..], 0, s)
    modifies path
    ensures WellFormed(dt.tree) && Leads(dt.tree, dt.chains, Resolve(dt.tree, LookupComps(s)), ret, e)
  {
    RootHead(dt);
    CStringByte(path[..], 0, s, 0);
    hide *;
    var at := 0;
    ghost var r := s;
    if path[0] == SLASH {
      CStringTail(path[..], 0, s);
      at := 1;
      r := s[1..];
    }
    CStringByte(path[..], at, r, 0);
    if path[at] == 0 {
      LookupEmpty(dt.tree, s);
      return 0, DecodeEntry(dt.data[0]);
    }
    LookupFrom(dt.tree, s, r);
    var root := DecodeEntry(dt.data[0]);
    ret, e := CFindEntry(dt, root.fb, path, at, r, []);
  }
}
