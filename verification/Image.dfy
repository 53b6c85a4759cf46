/** When a data area, with its chains, holds a given tree. */
module Image {
  import opened Bytes
  import opened Codec
  import opened Directory
  import opened Disk
  import opened Fat
  import opened Sectors
  import opened Tree

  type Chains = map<Path, seq<nat>>

  /** The first sector of the file at p. */
  ghost function HeadAt(chains: Chains, p: Path): u32 {
    if p in chains && |chains[p]| > 0 && chains[p][0] < 0x1_0000_0000 then chains[p][0] else 0
  }

  ghost function KindAt(t: Tree, p: Path): byte {
    if p in t && t[p].Dir? then S_DIR else S_FIL
  }

  /** The entries of directory p for its children called names. */
  ghost function ChildEnts(t: Tree, chains: Chains, p: Path, names: seq<Name>): (r: seq<DirEnt>)
    ensures |r| == |names|
  {
    seq(|names|, i requires 0 <= i < |names| =>
      DirEnt(names[i], HeadAt(chains, p + [names[i]]), KindAt(t, p + [names[i]])))
  }

  /** All entries of directory p: itself, its parent, its children in order of creation. */
  ghost function EntsAt(t: Tree, chains: Chains, p: Path, names: seq<Name>): (r: seq<DirEnt>)
    ensures |r| == 2 + |names|
  {
    [DirEnt(DOT, HeadAt(chains, p), S_DIR), DirEnt(DOTDOT, HeadAt(chains, Up(p)), S_DIR)]
    + ChildEnts(t, chains, p, names)
  }

  /** The i-th block descriptor in a file's table. */
  function DescAt(b: seq<byte>, i: nat): Desc
    requires 64 + 32 * i + 32 <= |b|
  {
    var k := DecodeBlock(b[64 + 32 * i..64 + 32 * i + 32]);
    Desc(k.num, k.ip0, k.ip1, k.ip2)
  }

  /** b is the byte form of a regular file: meta data and a table of block descriptors. */
  ghost predicate FileBytes(b: seq<byte>, flen: u64, table: seq<Desc>) {
    && 64 <= |b|
    && DecodeMeta(b).flen == flen
    && DecodeMeta(b).strbase == 32 * |table|
    && 64 + 32 * |table| <= |b|
    && (forall i :: 0 <= i < |table| ==> DescAt(b, i) == table[i])
  }

  ghost predicate BodyBytes(b: seq<byte>, t: Tree, chains: Chains, p: Path, obj: Obj) {
    match obj
    case Dir(_, _, names) => DirBytes(b, EntsAt(t, chains, p, names))
    case File(_, _, flen, table) => FileBytes(b, flen, table)
  }

  /** b is what the chain of p must hold, given that the chain has blocks sectors. */
  ghost predicate ObjBytes(b: seq<byte>, t: Tree, chains: Chains, p: Path, obj: Obj, blocks: nat) {
    && 64 <= |b|
    && DecodeMeta(b).uid == obj.uid && DecodeMeta(b).flags == obj.flags && DecodeMeta(b).blocks == blocks
    && BodyBytes(b, t, chains, p, obj)
  }

  /** The chain of p holds what the tree says stands at p. */
  ghost predicate Stands(data: seq<Sector>, chains: Chains, t: Tree, p: Path) {
    && p in t && p in chains
    && Covered(data, chains[p])
    && ObjBytes(Content(data, chains[p]), t, chains, p, t[p], |chains[p]|)
  }

  /** Sector 0 holds the entry of the root directory. */
  ghost predicate RootEntry(data: seq<Sector>, chains: Chains) {
    |data| > 0 && DecodeEntry(data[0]).fb == HeadAt(chains, []) && DecodeEntry(data[0]).kind == S_DIR
  }

  /** The image holds the tree t. */
  ghost predicate Represents(data: seq<Sector>, chains: Chains, t: Tree) {
    && WellFormed(t) && chains.Keys == t.Keys
    && RootEntry(data, chains)
    && (forall p {:trigger Stands(data, chains, t, p)} :: p in t ==> Stands(data, chains, t, p))
  }

  // ----- what does not change -----

  /** The entries of p name the same heads and kinds in both states. */
  ghost predicate SameEnts(t: Tree, chains: Chains, t': Tree, chains': Chains, p: Path, names: seq<Name>) {
    && HeadAt(chains', p) == HeadAt(chains, p)
    && HeadAt(chains', Up(p)) == HeadAt(chains, Up(p))
    && (forall n {:trigger p + [n]} :: n in names ==>
          HeadAt(chains', p + [n]) == HeadAt(chains, p + [n]) && KindAt(t', p + [n]) == KindAt(t, p + [n]))
  }

  lemma EntsSame(t: Tree, chains: Chains, t': Tree, chains': Chains, p: Path, names: seq<Name>)
    requires SameEnts(t, chains, t', chains', p, names)
    ensures EntsAt(t', chains', p, names) == EntsAt(t, chains, p, names)
  {
    forall i | 0 <= i < |names|
      ensures ChildEnts(t', chains', p, names)[i] == ChildEnts(t, chains, p, names)[i]
    {
      assert names[i] in names;
    }
  }

  ghost predicate SameSectors(data: seq<Sector>, data': seq<Sector>, c: seq<nat>) {
    forall i :: 0 <= i < |c| ==> c[i] < |data| && c[i] < |data'| && data'[c[i]] == data[c[i]]
  }

  /** A file whose sectors and entries are the same stands in the new state too. */
  lemma StandsKept(data: seq<Sector>, chains: Chains, t: Tree, data': seq<Sector>, chains': Chains, t': Tree, p: Path)
    requires Stands(data, chains, t, p)
    requires p in t' && p in chains' && t'[p] == t[p] && chains'[p] == chains[p]
    requires SameSectors(data, data', chains[p])
    requires t[p].Dir? ==> SameEnts(t, chains, t', chains', p, t[p].names)
    ensures Stands(data', chains', t', p)
  {
    ContentSame(data, data', chains[p]);
    if t[p].Dir? {
      EntsSame(t, chains, t', chains', p, t[p].names);
    }
  }

  /** Sectors outside a written chain keep what they hold. */
  lemma OutsideKept(fat: seq<u32>, n: nat, before: seq<Sector>, after: seq<Sector>, chains: Chains, p: Path, q: Path)
    requires Partitioned(fat, n, chains) && p in chains && q in chains && p != q
    requires Untouched(before, after, chains[q])
    requires Covered(before, chains[p])
    ensures SameSectors(before, after, chains[p])
  {
    forall i | 0 <= i < |chains[p]| ensures chains[p][i] !in chains[q] {
      assert chains[p][i] in chains[p];
    }
  }

  /** Sector 0 is in no chain, so it keeps the root entry. */
  lemma RootKept(fat: seq<u32>, n: nat, before: seq<Sector>, after: seq<Sector>, chains: Chains, q: Path)
    requires Partitioned(fat, n, chains) && q in chains && Untouched(before, after, chains[q]) && |before| > 0
    ensures |after| > 0 && after[0] == before[0]
  {
    if 0 in chains[q] {
      ChainBelow(fat, n, chains, q, 0);
    }
  }
}
