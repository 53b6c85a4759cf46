/** A directory's bytes: file_meta_t, then 16-byte entries, then the pool of NUL-terminated names. */
module Directory {
  import opened Bytes
  import opened Codec
  import opened Tree

  const S_DIR: byte := 1
  const S_FIL: byte := 2

  datatype DirEnt = DirEnt(name: Name, fb: u32, kind: byte)


  /** strcmp with the C string starting at position at answers "equal". */
  predicate StrAt(s: seq<byte>, at: nat, name: Name) {
    at + |name| < |s| && s[at..at + |name|] == name && s[at + |name|] == 0
  }

  /** The k-th entry of the table that starts right after the meta data. */
  function EntryAt(b: seq<byte>, k: nat): Entry
    requires 64 + 16 * k + 16 <= |b|
  {
    DecodeEntry(b[64 + 16 * k..64 + 16 * k + 16])
  }

  /** The sizes recorded in the meta data describe n entries and a pool, nothing else. */
  ghost predicate Framed(b: seq<byte>, n: nat) {
    && 64 <= |b| < 0x2_0000_0000
    && var m := DecodeMeta(b);
       m.strbase == 16 * n && m.flen == 64 + m.strbase + m.strlen && m.flen <= |b|
  }

  ghost function Raw(b: seq<byte>, n: nat): (r: seq<Entry>)
    requires Framed(b, n)
    ensures |r| == n
  {
    seq(n, i requires 0 <= i < n => EntryAt(b, i))
  }

  ghost function Pool(b: seq<byte>, n: nat): (r: seq<byte>)
    requires Framed(b, n)
  {
    b[64 + 16 * n..DecodeMeta(b).flen]
  }

  /** The raw entries and the pool spell out ents, whose names are all different. */
  ghost predicate Listed(raw: seq<Entry>, pool: seq<byte>, ents: seq<DirEnt>) {
    && |raw| == |ents|
    && (forall i :: 0 <= i < |ents| ==>
          raw[i].fb == ents[i].fb && raw[i].kind == ents[i].kind
          && StrAt(pool, raw[i].name, ents[i].name) && NulFree(ents[i].name))
    && (forall i, j :: 0 <= i < j < |ents| ==> ents[i].name != ents[j].name)
  }

  /** b is the byte form of a directory with the entries ents, in that order. */
  ghost predicate DirBytes(b: seq<byte>, ents: seq<DirEnt>) {
    Framed(b, |ents|) && Listed(Raw(b, |ents|), Pool(b, |ents|), ents)
  }

  // ----- strings in the pool -----

  lemma StrAtByte(s: seq<byte>, at: nat, a: Name, j: nat)
    requires StrAt(s, at, a) && j <= |a|
    ensures s[at + j] == if j < |a| then a[j] else 0
  {
    if j < |a| {
      assert s[at + j] == s[at..at + |a|][j];
    }
  }

  lemma StrAtUnique(s: seq<byte>, at: nat, a: Name, b: Name)
    requires StrAt(s, at, a) && StrAt(s, at, b) && NulFree(a) && NulFree(b)
    ensures a == b
  {
    StrAtByte(s, at, a, Min(|a|, |b|));
    StrAtByte(s, at, b, Min(|a|, |b|));
  }

  lemma StrAtShift(s: seq<byte>, lo: nat, hi: nat, at: nat, name: Name)
    requires lo <= hi <= |s| && StrAt(s[lo..hi], at, name)
    ensures StrAt(s, lo + at, name)
  {
    SliceOfSlice(s, lo, hi, at, at + |name|);
  }

  lemma StrAtExtend(s: seq<byte>, t: seq<byte>, at: nat, name: Name)
    requires StrAt(s, at, name)
    ensures StrAt(s + t, at, name)
  {
    assert (s + t)[at..at + |name|] == s[at..at + |name|];
  }

  // ----- find_entry_by_name -----

  /** strcmp of name and the name of the k-th entry. */
  method NameIs(pdata: seq<byte>, strbase: nat, name: Name, ghost ents: seq<DirEnt>, k: nat) returns (same: bool)
    requires DirBytes(pdata, ents) && NulFree(name) && k < |ents| && strbase == 16 * |ents|
    ensures same <==> ents[k].name == name
  {
    hide *;
    DirBytesSize(pdata, ents);
    ComparesName(pdata, ents, name, k);
    var p := EntryAt(pdata, k);
    same := StrAt(pdata, 64 + strbase + p.name, name);
  }

  /** The index of the entry called name, if there is one. */
  method FindEntryByName(pdata: seq<byte>, name: Name, ghost ents: seq<DirEnt>) returns (found: bool, k: nat)
    requires DirBytes(pdata, ents) && NulFree(name)
    ensures found ==> k < |ents| && ents[k].name == name
    ensures !found ==> forall i :: 0 <= i < |ents| ==> ents[i].name != name
  {
    DirBytesSize(pdata, ents);
    hide *;
    var meta := DecodeMeta(pdata);
    k := 0;
    while 16 * k != meta.strbase
      invariant 16 * k <= meta.strbase
      invariant forall i :: 0 <= i < k ==> ents[i].name != name
      decreases meta.strbase - 16 * k
    {
      var same := NameIs(pdata, meta.strbase, name, ents, k);
      if same {
        return true, k;
      }
      k := k + 1;
    }
    return false, 0;
  }

  lemma DirBytesSize(b: seq<byte>, ents: seq<DirEnt>)
    requires DirBytes(b, ents)
    ensures |b| >= 64 && DecodeMeta(b).strbase == 16 * |ents|
  {
  }

  /** strcmp on the k-th name tells whether the k-th entry is the one looked for. */
  lemma ComparesName(b: seq<byte>, ents: seq<DirEnt>, name: Name, k: nat)
    requires DirBytes(b, ents) && NulFree(name) && k < |ents|
    ensures 64 + 16 * k + 16 <= |b|
    ensures StrAt(b, 64 + DecodeMeta(b).strbase + EntryAt(b, k).name, name) <==> ents[k].name == name
  {
    ListedAt(b, ents, k);
    var at := 64 + DecodeMeta(b).strbase + EntryAt(b, k).name;
    if StrAt(b, at, name) {
      StrAtUnique(b, at, name, ents[k].name);
    }
  }

  lemma ListedAt(b: seq<byte>, ents: seq<DirEnt>, k: nat)
    requires DirBytes(b, ents) && k < |ents|
    ensures 64 + 16 * k + 16 <= |b|
    ensures EntryAt(b, k).fb == ents[k].fb && EntryAt(b, k).kind == ents[k].kind
    ensures StrAt(b, 64 + 16 * |ents| + EntryAt(b, k).name, ents[k].name) && NulFree(ents[k].name)
  {
    assert Raw(b, |ents|)[k] == EntryAt(b, k);
    StrAtShift(b, 64 + 16 * |ents|, DecodeMeta(b).flen, EntryAt(b, k).name, ents[k].name);
  }

  // ----- the bytes up to flen are all that counts -----

  lemma DecodeMetaSame(b: seq<byte>, c: seq<byte>)
    requires |b| >= 64 && |c| >= 64 && b[..64] == c[..64]
    ensures DecodeMeta(b) == DecodeMeta(c)
  {
    DecodeMetaPrefix(b[..64], b[64..]);
    DecodeMetaPrefix(c[..64], c[64..]);
    assert b[..64] + b[64..] == b && c[..64] + c[64..] == c;
  }

  lemma DirBytesPrefix(b: seq<byte>, c: seq<byte>, ents: seq<DirEnt>)
    requires DirBytes(b, ents)
    requires var n := DecodeMeta(b).flen; n <= |c| < 0x2_0000_0000 && c[..n] == b[..n]
    ensures DirBytes(c, ents)
  {
    var n := DecodeMeta(b).flen;
    assert b[..64] == b[..n][..64] && c[..64] == c[..n][..64];
    DecodeMetaSame(b, c);
    forall i | 0 <= i < |ents| ensures Raw(c, |ents|)[i] == Raw(b, |ents|)[i] {
      assert b[64 + 16 * i..64 + 16 * i + 16] == b[..n][64 + 16 * i..64 + 16 * i + 16];
      assert c[64 + 16 * i..64 + 16 * i + 16] == c[..n][64 + 16 * i..64 + 16 * i + 16];
    }
    assert Raw(c, |ents|) == Raw(b, |ents|);
    assert Pool(c, |ents|) == c[..n][64 + 16 * |ents|..] == b[..n][64 + 16 * |ents|..] == Pool(b, |ents|);
  }

  /** Other meta data of the same sizes in front leave the listing as it is. */
  lemma SameSizesDir(b: seq<byte>, ents: seq<DirEnt>, m: Meta)
    requires DirBytes(b, ents)
    requires m.strbase == DecodeMeta(b).strbase && m.strlen == DecodeMeta(b).strlen && m.flen == DecodeMeta(b).flen
    ensures DirBytes(EncodeMeta(m) + b[64..], ents)
  {
    hide DecodeMeta, EncodeMeta, DecodeEntry, Listed;
    var r := EncodeMeta(m) + b[64..];
    MetaRoundTrip(m, b[64..]);
    TakeDrop(EncodeMeta(m), b[64..]);
    assert r[64..|r|] == b[64..|b|];
    forall i | 0 <= i < |ents| ensures Raw(r, |ents|)[i] == Raw(b, |ents|)[i] {
      SliceOfSlice(r, 64, |r|, 16 * i, 16 * i + 16);
      SliceOfSlice(b, 64, |b|, 16 * i, 16 * i + 16);
    }
    assert Raw(r, |ents|) == Raw(b, |ents|);
    SliceOfSlice(r, 64, |r|, 16 * |ents|, m.flen - 64);
    SliceOfSlice(b, 64, |b|, 16 * |ents|, m.flen - 64);
    assert Pool(r, |ents|) == Pool(b, |ents|);
  }

  // ----- adding an entry -----

  /** The meta data after an entry called name has been appended; mkdir also counts it. */
  function GrownMeta(m: Meta, name: Name, kind: byte): (r: Meta)
    requires m.flen < 0x2_0000_0000 && m.strbase <= m.flen && m.strlen <= m.flen && |name| < 0x8000_0000
  {
    var newsize := m.flen + 16 + |name| + 1;
    m.(count := if kind == S_DIR then (m.count + 1) % 0x1_0000_0000 else m.count,
       strbase := m.strbase + 16, strlen := m.strlen + |name| + 1,
       flen := newsize, blocks := (newsize + 511) / 512)
  }

  /** The new buffer: old entries, the new one, the old pool, the new name. */
  function Inserted(b: seq<byte>, name: Name, e: Entry): (r: seq<byte>)
    requires 64 <= |b| < 0x2_0000_0000 && |name| < 0x8000_0000
    requires var m := DecodeMeta(b); 64 + m.strbase + m.strlen == m.flen <= |b|
  {
    var m := DecodeMeta(b);
    EncodeMeta(GrownMeta(m, name, e.kind)) + b[64..64 + m.strbase] + EncodeEntry(e)
    + (b[64 + m.strbase..m.flen] + (name + [0]))
  }

  lemma EntryOfSlice(b: seq<byte>, lo: nat, hi: nat, k: nat, i: nat)
    requires 64 <= lo <= hi <= |b| && lo == 64 + 16 * k && 16 * i + 16 <= hi - lo
    ensures EntryAt(b, k + i) == DecodeEntry(b[lo..hi][16 * i..16 * i + 16])
  {
    SliceOfSlice(b, lo, hi, 16 * i, 16 * i + 16);
  }

  lemma InsertedParts(b: seq<byte>, n: nat, name: Name, e: Entry)
    requires Framed(b, n) && |name| < 0x8000_0000 && |b| + |name| + 17 < 0x2_0000_0000
    ensures var r := Inserted(b, name, e);
            && Framed(r, n + 1) && DecodeMeta(r) == GrownMeta(DecodeMeta(b), name, e.kind)
            && |r| == DecodeMeta(r).flen
            && Raw(r, n + 1) == Raw(b, n) + [e]
            && Pool(r, n + 1) == Pool(b, n) + (name + [0])
  {
    hide DecodeMeta, EncodeMeta, DecodeEntry, EncodeEntry;
    var r := Inserted(b, name, e);
    var m := DecodeMeta(b);
    var m' := GrownMeta(m, name, e.kind);
    var entries, pool := b[64..64 + 16 * n], b[64 + 16 * n..m.flen] + (name + [0]);
    Parts(EncodeMeta(m'), entries, EncodeEntry(e), pool);
    MetaRoundTrip(m', entries + EncodeEntry(e) + pool);
    assert r == EncodeMeta(m') + (entries + EncodeEntry(e) + pool);
    forall i | 0 <= i < n + 1 ensures EntryAt(r, i) == (Raw(b, n) + [e])[i] {
      if i < n {
        EntryOfSlice(r, 64, 64 + 16 * n, 0, i);
        EntryOfSlice(b, 64, 64 + 16 * n, 0, i);
      } else {
        EntryRoundTrip(e);
      }
    }
  }

  lemma ListedAppend(raw: seq<Entry>, pool: seq<byte>, ents: seq<DirEnt>, name: Name, e: Entry)
    requires Listed(raw, pool, ents) && NulFree(name) && e.name == |pool|
    requires forall i :: 0 <= i < |ents| ==> ents[i].name != name
    ensures Listed(raw + [e], pool + (name + [0]), ents + [DirEnt(name, e.fb, e.kind)])
  {
    hide StrAt;
    StrAtEnd(pool, name);
    forall i | 0 <= i < |ents| ensures StrAt(pool + (name + [0]), raw[i].name, ents[i].name) {
      StrAtExtend(pool, name + [0], raw[i].name, ents[i].name);
    }
  }

  /** After the insertion the directory lists one more entry, last, and all the old ones. */
  lemma InsertedLists(b: seq<byte>, ents: seq<DirEnt>, name: Name, e: Entry)
    requires DirBytes(b, ents) && |name| < 0x8000_0000 && |b| + |name| + 17 < 0x2_0000_0000
    requires NulFree(name) && forall i :: 0 <= i < |ents| ==> ents[i].name != name
    requires e.name == DecodeMeta(b).strlen
    ensures DirBytes(Inserted(b, name, e), ents + [DirEnt(name, e.fb, e.kind)])
    ensures DecodeMeta(Inserted(b, name, e)) == GrownMeta(DecodeMeta(b), name, e.kind)
    ensures |Inserted(b, name, e)| == DecodeMeta(Inserted(b, name, e)).flen
  {
    PoolSize(b, |ents|);
    InsertedParts(b, |ents|, name, e);
    ListedAppend(Raw(b, |ents|), Pool(b, |ents|), ents, name, e);
  }

  lemma PoolSize(b: seq<byte>, n: nat)
    requires Framed(b, n)
    ensures |Pool(b, n)| == DecodeMeta(b).strlen
  {
  }

  lemma StrAtEnd(s: seq<byte>, name: Name)
    ensures StrAt(s + (name + [0]), |s|, name)
  {
    assert (s + (name + [0]))[|s|..|s| + |name|] == name;
  }

  // ----- removing an entry -----

  function ShrunkMeta(m: Meta, now: u64): Meta
    requires m.strbase >= 16 && m.flen >= 16
  {
    m.(strbase := m.strbase - 16, wTime := now, flen := m.flen - 16)
  }

  /** The buffer after the k-th entry has been cut out and what follows it moved down, with the 16
      bytes x behind the live ones coming along. */
  ghost function Removed(b: seq<byte>, n: nat, k: nat, x: seq<byte>, now: u64): (r: seq<byte>)
    requires Framed(b, n) && k < n && |x| == 16
    ensures |r| == |b|
  {
    var m := DecodeMeta(b);
    EncodeMeta(ShrunkMeta(m, now)) + b[64..64 + 16 * k] + b[64 + 16 * k + 16..m.flen] + (x + b[m.flen..])
  }

  /** The 16 bytes behind the live ones, when beyond is what the memory holds after the buffer. */
  ghost function Behind(b: seq<byte>, beyond: seq<byte>): (x: seq<byte>)
    requires |b| >= 64 && DecodeMeta(b).flen <= |b| && |beyond| == 16
    ensures |x| == 16
  {
    var m := DecodeMeta(b);
    (b + beyond)[m.flen..m.flen + 16]
  }

  /** size bytes of memory from lo on, where the buffer b is followed by other bytes. */
  function Fetch(b: seq<byte>, beyond: seq<byte>, lo: nat, size: nat): seq<byte>
    requires lo + size <= |b| + |beyond|
  {
    (b + beyond)[lo..lo + size]
  }

  /** memcpy of what is behind the entry over it, through a temporary buffer.  It copies 16 bytes
      more than the directory has, where the buffer is full from the memory beyond it. */
  method DoRemoveEntry(pdata: array<byte>, k: nat, beyond: seq<byte>, now: u64, ghost n: nat)
    requires Framed(pdata[..], n) && k < n && |beyond| == 16
    modifies pdata
    ensures pdata[..] == Removed(old(pdata[..]), n, k, Behind(old(pdata[..]), beyond), now)
  {
    var b := pdata[..];
    RemovedBySplices(b, n, k, beyond, now);
    hide *;
    var meta := DecodeMeta(b);
    var entry := 64 + 16 * k;
    Memcpy(pdata, entry, Fetch(b, beyond, entry + 16, meta.flen - entry));
    Memcpy(pdata, 0, EncodeMeta(ShrunkMeta(meta, now)));
  }

  lemma RemovedBySplices(b: seq<byte>, n: nat, k: nat, beyond: seq<byte>, now: u64)
    requires Framed(b, n) && k < n && |beyond| == 16
    ensures var m := DecodeMeta(b);
            var entry := 64 + 16 * k;
            && |b| >= 64 && 16 <= m.strbase && entry + 16 <= m.flen <= |b|
            && var tmp := Fetch(b, beyond, entry + 16, m.flen - entry);
               |tmp| == m.flen - entry && |EncodeMeta(ShrunkMeta(m, now))| == 64 && |Splice(b, entry, tmp)| == |b|
               && Splice(Splice(b, entry, tmp), 0, EncodeMeta(ShrunkMeta(m, now)))
               == Removed(b, n, k, Behind(b, beyond), now)
  {
    hide DecodeMeta, EncodeMeta;
    var m := DecodeMeta(b);
    var entry := 64 + 16 * k;
    var tmp := Fetch(b, beyond, entry + 16, m.flen - entry);
    assert tmp == b[entry + 16..m.flen] + Behind(b, beyond);
    var s := Splice(b, entry, tmp);
    assert s[64..] == b[64..entry] + b[entry + 16..m.flen] + (Behind(b, beyond) + b[m.flen..]);
  }

  lemma RemovedParts(b: seq<byte>, n: nat, k: nat, x: seq<byte>, now: u64)
    requires Framed(b, n) && k < n && |x| == 16
    ensures var r := Removed(b, n, k, x, now);
            && Framed(r, n - 1) && DecodeMeta(r) == ShrunkMeta(DecodeMeta(b), now)
            && Raw(r, n - 1) == Raw(b, n)[..k] + Raw(b, n)[k + 1..]
            && Pool(r, n - 1) == Pool(b, n)
  {
    hide DecodeMeta, EncodeMeta, DecodeEntry, EncodeEntry;
    var r := Removed(b, n, k, x, now);
    var m := DecodeMeta(b);
    var front, back, rest := b[64..64 + 16 * k], b[64 + 16 * k + 16..m.flen], x + b[m.flen..];
    Parts(EncodeMeta(ShrunkMeta(m, now)), front, back, rest);
    MetaRoundTrip(ShrunkMeta(m, now), front + back + rest);
    assert r == EncodeMeta(ShrunkMeta(m, now)) + (front + back + rest);
    hide Removed;
    EntriesWithout(b, r, n, k);
  }

  /** r is b without the 16 bytes of the k-th entry, as far as entries and pool go. */
  ghost predicate Without(b: seq<byte>, r: seq<byte>, n: nat, k: nat) {
    && k < n && Framed(b, n) && Framed(r, n - 1) && DecodeMeta(r).flen == DecodeMeta(b).flen - 16
    && r[64..64 + 16 * k] == b[64..64 + 16 * k]
    && r[64 + 16 * k..DecodeMeta(r).flen] == b[64 + 16 * k + 16..DecodeMeta(b).flen]
  }

  lemma WithoutFacts(b: seq<byte>, r: seq<byte>, n: nat, k: nat)
    requires Without(b, r, n, k)
    ensures k < n && 64 <= |b| && var flen := DecodeMeta(b).flen;
            && 64 + 16 * n <= flen <= |b| && flen - 16 <= |r|
            && r[64..64 + 16 * k] == b[64..64 + 16 * k]
            && r[64 + 16 * k..flen - 16] == b[64 + 16 * k + 16..flen]
  {
    hide DecodeMeta;
  }

  lemma SameEntry(a: seq<byte>, lo: nat, b: seq<byte>, lo': nat, size: nat, k: nat, k': nat, i: nat)
    requires lo + size <= |a| && lo' + size <= |b| && a[lo..lo + size] == b[lo'..lo' + size]
    requires lo == 64 + 16 * k && lo' == 64 + 16 * k' && 16 * i + 16 <= size
    ensures EntryAt(a, k + i) == EntryAt(b, k' + i)
  {
    hide DecodeEntry;
    EntryOfSlice(a, lo, lo + size, k, i);
    EntryOfSlice(b, lo', lo' + size, k', i);
  }

  lemma EntryMoved(b: seq<byte>, r: seq<byte>, n: nat, k: nat, i: nat)
    requires Without(b, r, n, k) && i < n - 1
    ensures EntryAt(r, i) == EntryAt(b, if i < k then i else i + 1)
  {
    var flen := DecodeMeta(b).flen;
    WithoutFacts(b, r, n, k);
    hide *;
    if i < k {
      SameEntry(r, 64, b, 64, 16 * k, 0, 0, i);
    } else {
      SameEntry(r, 64 + 16 * k, b, 64 + 16 * k + 16, flen - 16 - 64 - 16 * k, k, k + 1, i - k);
    }
  }

  lemma PoolMoved(b: seq<byte>, r: seq<byte>, n: nat, k: nat)
    requires Without(b, r, n, k)
    ensures Pool(r, n - 1) == Pool(b, n)
  {
    var flen := DecodeMeta(b).flen;
    hide DecodeMeta;
    SliceOfSlice(r, 64 + 16 * k, flen - 16, 16 * (n - 1 - k), flen - 64 - 16 * k - 16);
    SliceOfSlice(b, 64 + 16 * k + 16, flen, 16 * (n - 1 - k), flen - 64 - 16 * k - 16);
  }

  lemma EntriesWithout(b: seq<byte>, r: seq<byte>, n: nat, k: nat)
    requires Without(b, r, n, k)
    ensures Raw(r, n - 1) == Raw(b, n)[..k] + Raw(b, n)[k + 1..]
    ensures Pool(r, n - 1) == Pool(b, n)
  {
    PoolMoved(b, r, n, k);
    hide EntryAt, Pool;
    forall i | 0 <= i < n - 1 ensures EntryAt(r, i) == (Raw(b, n)[..k] + Raw(b, n)[k + 1..])[i] {
      EntryMoved(b, r, n, k, i);
    }
  }

  lemma ListedWithout(raw: seq<Entry>, pool: seq<byte>, ents: seq<DirEnt>, k: nat)
    requires Listed(raw, pool, ents) && k < |ents|
    ensures Listed(raw[..k] + raw[k + 1..], pool, ents[..k] + ents[k + 1..])
  {
    hide StrAt, NulFree;
    var raw', ents' := raw[..k] + raw[k + 1..], ents[..k] + ents[k + 1..];
    forall i | 0 <= i < |ents'|
      ensures raw'[i] == raw[if i < k then i else i + 1] && ents'[i] == ents[if i < k then i else i + 1]
    {
    }
  }

  /** After the removal the directory lists the other entries, in the same order: all their
      names still resolve, although the pool has moved and keeps the dead name. */
  lemma RemovedLists(b: seq<byte>, ents: seq<DirEnt>, k: nat, x: seq<byte>, now: u64)
    requires DirBytes(b, ents) && k < |ents| && |x| == 16
    ensures DirBytes(Removed(b, |ents|, k, x, now), ents[..k] + ents[k + 1..])
    ensures DecodeMeta(Removed(b, |ents|, k, x, now)) == ShrunkMeta(DecodeMeta(b), now)
  {
    hide Framed, Raw, Pool, Removed, Listed, DecodeMeta;
    RemovedParts(b, |ents|, k, x, now);
    ListedWithout(Raw(b, |ents|), Pool(b, |ents|), ents, k);
  }

  // ----- building the buffer of a larger directory -----

  lemma InsertedBySplices(s0: seq<byte>, b: seq<byte>, n: nat, name: Name, e: Entry)
    requires Framed(b, n) && |name| < 0x8000_0000
    requires |s0| == DecodeMeta(b).flen + 16 + |name| + 1
    ensures var m := DecodeMeta(b);
            var o := 64 + m.strbase;
            && |b| >= 64 && o <= m.flen <= |b| && m.flen == o + m.strlen && m.flen < 0x2_0000_0000
            && var s1 := Splice(s0, 0, b[..o]);
               var s2 := Splice(s1, o, EncodeEntry(e));
               var s3 := Splice(s2, o + 16, b[o..m.flen]);
               var s4 := Splice(s3, m.flen + 16, name + [0]);
               Splice(s4, 0, EncodeMeta(GrownMeta(m, name, e.kind))) == Inserted(b, name, e)
  {
    hide DecodeMeta, EncodeMeta, EncodeEntry, Splice;
    var m := DecodeMeta(b);
    var o := 64 + m.strbase;
    var s1 := Splice(s0, 0, b[..o]);
    SpliceFront(s0, 0, b[..o]);
    var s2 := Splice(s1, o, EncodeEntry(e));
    SpliceFront(s1, o, EncodeEntry(e));
    var s3 := Splice(s2, o + 16, b[o..m.flen]);
    SpliceFront(s2, o + 16, b[o..m.flen]);
    var s4 := Splice(s3, m.flen + 16, name + [0]);
    SpliceFront(s3, m.flen + 16, name + [0]);
    SpliceHead(s4, EncodeMeta(GrownMeta(m, name, e.kind)));
    assert s4[..|s0|] == s4;
    InsertedTail(b, n, name, e, s4);
  }

  lemma SpliceFront(s: seq<byte>, at: nat, x: seq<byte>)
    requires at + |x| <= |s|
    ensures Splice(s, at, x)[..at + |x|] == s[..at] + x
  {
  }

  lemma SpliceHead(s: seq<byte>, x: seq<byte>)
    requires |x| <= |s|
    ensures Splice(s, 0, x) == x + s[|x|..]
  {
  }

  lemma InsertedTail(b: seq<byte>, n: nat, name: Name, e: Entry, s4: seq<byte>)
    requires Framed(b, n) && |name| < 0x8000_0000
    requires var m := DecodeMeta(b);
             var o := 64 + m.strbase;
             s4 == b[..o] + EncodeEntry(e) + b[o..m.flen] + (name + [0])
    ensures Inserted(b, name, e) == EncodeMeta(GrownMeta(DecodeMeta(b), name, e.kind)) + s4[64..]
  {
    hide DecodeMeta, EncodeMeta, EncodeEntry;
    var m := DecodeMeta(b);
    var o := 64 + m.strbase;
    assert s4[64..] == b[64..o] + EncodeEntry(e) + b[o..m.flen] + (name + [0]);
  }

  /** The buffer c_mkdir and c_open build for the parent directory: the old contents with one
      entry and one name more. */
  method AppendEntry(pdata: seq<byte>, name: Name, e: Entry, ghost n: nat) returns (buf: array<byte>)
    requires Framed(pdata, n) && |name| < 0x8000_0000
    ensures fresh(buf) && buf[..] == Inserted(pdata, name, e)
  {
    var meta := DecodeMeta(pdata);
    buf := new byte[meta.flen + 16 + |name| + 1];
    InsertedBySplices(buf[..], pdata, n, name, e);
    hide *;
    var entries := 64 + meta.strbase;
    Memcpy(buf, 0, pdata[..entries]);
    Memcpy(buf, entries, EncodeEntry(e));
    Memcpy(buf, entries + 16, pdata[entries..meta.flen]);
    Memcpy(buf, meta.flen + 16, name + [0]);
    Memcpy(buf, 0, EncodeMeta(GrownMeta(meta, name, e.kind)));
  }
}
