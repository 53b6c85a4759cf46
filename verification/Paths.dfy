/** Path strings: cutting them in place, and the list of components that this amounts to. */
module Paths {
  import opened Bytes
  import opened Directory
  import opened Tree

  /** The position of the first slash at or after i, or the length if there is none. */
  function FirstSlash(s: seq<byte>, i: nat): (k: nat)
    requires i <= |s|
    ensures i <= k <= |s| && (k < |s| ==> s[k] == SLASH)
    ensures forall j :: i <= j < k ==> s[j] != SLASH
    decreases |s| - i
  {
    if i == |s| || s[i] == SLASH then i else FirstSlash(s, i + 1)
  }

  /** The position of the last slash before n, or -1. */
  function LastSlash(s: seq<byte>, n: nat): (k: int)
    requires n <= |s|
    ensures -1 <= k < n && (k >= 0 ==> s[k] == SLASH)
    ensures forall j :: k < j < n ==> s[j] != SLASH
  {
    if n == 0 then -1 else if s[n - 1] == SLASH then n - 1 else LastSlash(s, n - 1)
  }

  /** The components between the slashes of s. */
  function Split(s: seq<byte>): (r: seq<Name>)
    ensures r != []
    decreases |s|
  {
    var k := FirstSlash(s, 0);
    if k == |s| then [s] else [s[..k]] + Split(s[k + 1..])
  }

  /** s without one trailing slash. */
  function Trim(s: seq<byte>): seq<byte> {
    if |s| > 0 && s[|s| - 1] == SLASH then s[..|s| - 1] else s
  }

  /** The directory part and the last component of a path, if it has a slash to cut at. */
  function CutLast(s: seq<byte>): Option<(seq<byte>, Name)> {
    var t := Trim(s);
    var k := LastSlash(t, |t|);
    if k < 0 then None else Some((t[..k], t[k + 1..]))
  }

  /** The components c_lookup follows from the root. */
  function LookupComps(s: seq<byte>): seq<Name> {
    var r := if |s| > 0 && s[0] == SLASH then s[1..] else s;
    if r == [] then [] else Split(r)
  }

  lemma CutLastName(s: seq<byte>)
    ensures CutLast(s).Some? ==> SLASH !in CutLast(s).value.1
  {
  }

  // ----- the in-place cut agrees with the list of components -----

  lemma FirstSlashIs(s: seq<byte>, k: nat)
    requires k <= |s| && (k < |s| ==> s[k] == SLASH) && forall j :: 0 <= j < k ==> s[j] != SLASH
    ensures FirstSlash(s, 0) == k
  {
  }

  lemma SplitNone(s: seq<byte>)
    requires forall j :: 0 <= j < |s| ==> s[j] != SLASH
    ensures Split(s) == [s]
  {
    FirstSlashIs(s, |s|);
  }

  lemma SplitFirst(s: seq<byte>, k: nat)
    requires k < |s| && s[k] == SLASH && forall j :: 0 <= j < k ==> s[j] != SLASH
    ensures Split(s) == [s[..k]] + Split(s[k + 1..])
  {
    FirstSlashIs(s, k);
  }

  lemma {:induction false} SplitAtLast(s: seq<byte>, k: nat)
    requires k < |s| && s[k] == SLASH && forall j :: k < j < |s| ==> s[j] != SLASH
    ensures Split(s) == Split(s[..k]) + [s[k + 1..]]
    decreases |s|
  {
    hide Split;
    var f := FirstSlash(s, 0);
    SplitFirst(s, f);
    if f < k {
      var rest := s[f + 1..];
      SplitAtLast(rest, k - f - 1);
      assert rest[..k - f - 1] == s[..k][f + 1..];
      assert rest[k - f..] == s[k + 1..];
      SplitFirst(s[..k], f);
      assert s[..k][..f] == s[..f];
    } else {
      SplitNone(s[..k]);
      SplitNone(s[k + 1..]);
    }
  }

  /** dir and name are the path whose components are comps, cut before its last component, unless
      that path is an empty component followed by one more. */
  ghost predicate CutOf(dir: seq<byte>, name: Name, comps: seq<Name>)
    requires comps != []
  {
    && name == comps[|comps| - 1]
    && (LookupComps(dir) == comps[..|comps| - 1] <==> !(|comps| == 2 && comps[0] == []))
  }

  lemma CutOnly(r: seq<byte>)
    requires forall j :: 0 <= j < |r| ==> r[j] != SLASH
    ensures CutOf([], r, Split(r))
  {
    SplitNone(r);
  }

  lemma CutInside(r: seq<byte>, k: nat)
    requires k < |r| && r[k] == SLASH && forall j :: k < j < |r| ==> r[j] != SLASH
    ensures CutOf([SLASH] + r[..k], r[k + 1..], Split(r))
  {
    SplitAtLast(r, k);
    assert ([SLASH] + r[..k])[1..] == r[..k];
    assert Split(r)[..|Split(r)| - 1] == Split(r[..k]);
  }

  /** For a path that starts with a slash, cutting off the last component in place and looking up
      what remains follows exactly the components of the path but the last, unless the path is
      an empty component followed by one more. */
  lemma CutAgrees(r: seq<byte>)
    ensures var t := [SLASH] + r;
            var k := LastSlash(t, |t|);
            k >= 0 && CutOf(t[..k], t[k + 1..], Split(r))
  {
    hide Split, CutOf;
    var t := [SLASH] + r;
    var k := LastSlash(t, |t|);
    assert t[0] == SLASH;
    forall j | k <= j < |r| ensures r[j] != SLASH {
      assert r[j] == t[j + 1];
    }
    if k == 0 {
      CutOnly(r);
      assert t[..0] == [] && t[1..] == r;
    } else {
      assert r[k - 1] == t[k];
      CutInside(r, k - 1);
      assert t[..k] == [SLASH] + r[..k - 1] && t[k + 1..] == r[k..];
    }
  }

  // ----- C strings in a buffer -----

  /** buf holds the C string s at position at. */
  ghost predicate CString(buf: seq<byte>, at: nat, s: seq<byte>) {
    StrAt(buf, at, s) && NulFree(s)
  }

  lemma CStringNulFree(buf: seq<byte>, at: nat, s: seq<byte>)
    requires CString(buf, at, s)
    ensures NulFree(s)
  {
  }

  /** strlen, and the characters it counts. */
  method StringAt(buf: array<byte>, at: nat, ghost s: seq<byte>) returns (r: seq<byte>)
    requires CString(buf[..], at, s)
    ensures r == s
  {
    var n := 0;
    while buf[at + n] != 0
      invariant n <= |s|
      decreases |s| - n
    {
      StrAtByte(buf[..], at, s, n);
      n := n + 1;
    }
    StrAtByte(buf[..], at, s, n);
    r := buf[at..at + n];
    assert buf[..][at..at + n] == buf[at..at + n];
  }

  lemma CutString(buf: seq<byte>, at: nat, s: seq<byte>, k: nat)
    requires CString(buf, at, s) && k < |s|
    ensures at + k < |buf|
    ensures CString(buf[at + k := 0], at, s[..k])
    ensures CString(buf[at + k := 0], at + k + 1, s[k + 1..])
  {
    var cut := buf[at + k := 0];
    assert cut[at..at + k] == buf[at..at + |s|][..k];
    assert cut[at + k + 1..at + k + 1 + |s[k + 1..]|] == buf[at..at + |s|][k + 1..];
    NulFreeSuffix(s, k + 1);
  }

  lemma NulFreeSuffix(s: seq<byte>, k: nat)
    requires NulFree(s) && k <= |s|
    ensures NulFree(s[k..])
  {
  }

  lemma CStringByte(buf: seq<byte>, at: nat, s: seq<byte>, j: nat)
    requires CString(buf, at, s) && j <= |s|
    ensures at + j < |buf| && buf[at + j] == (if j < |s| then s[j] else 0)
    ensures j < |s| ==> s[j] != 0
  {
    StrAtByte(buf, at, s, j);
  }

  /** The scanning loop of c_find_entry: cuts the string at its first slash.  Returns where the
      rest begins, or -1 if there was nothing to cut. */
  method CutFirst(path: array<byte>, at: nat, ghost s: seq<byte>) returns (rest: int)
    requires CString(path[..], at, s)
    modifies path
    ensures var k := FirstSlash(s, 0);
            if k < |s| then
              rest == at + k + 1 && CString(path[..], at, s[..k]) && CString(path[..], rest, s[k + 1..])
            else
              rest == -1 && CString(path[..], at, s)
  {
    var cp := at;
    CStringByte(path[..], at, s, 0);
    while path[cp] != 0
      invariant at <= cp <= at + |s| && cp < path.Length
      invariant path[..] == old(path[..])
      invariant forall j :: 0 <= j < cp - at ==> s[j] != SLASH
      decreases at + |s| - cp
    {
      CStringByte(path[..], at, s, cp - at);
      if path[cp] == SLASH {
        FirstSlashIs(s, cp - at);
        CutString(path[..], at, s, cp - at);
        ghost var before := path[..];
        path[cp] := 0;
        assert path[..] == before[cp := 0];
        return cp + 1;
      }
      cp := cp + 1;
      CStringByte(path[..], at, s, cp - at);
    }
    CStringByte(path[..], at, s, cp - at);
    FirstSlashIs(s, |s|);
    return -1;
  }

  lemma ScanStart(s: seq<byte>)
    ensures |s| == 0 ==> Trim(s) == s
    ensures LastSlash(s, 0) == -1
  {
  }

  /** One step of the scan for the last slash, where a slash at the very end does not count. */
  lemma ScanStep(s: seq<byte>, i: nat)
    requires i < |s|
    ensures i + 1 < |s| ==> LastSlash(s, i + 1) == if s[i] == SLASH then i else LastSlash(s, i)
    ensures i + 1 == |s| ==> LastSlash(Trim(s), |Trim(s)|) == LastSlash(s, i)
    ensures i + 1 == |s| ==> Trim(s) == if s[i] == SLASH then s[..i] else s
  {
    if i + 1 == |s| && s[i] == SLASH {
      LastSlashSame(s, Trim(s), i);
    }
  }

  lemma LastSlashSame(s: seq<byte>, t: seq<byte>, n: nat)
    requires n <= |s| && n <= |t| && s[..n] == t[..n]
    ensures LastSlash(s, n) == LastSlash(t, n)
  {
    if n > 0 {
      assert s[n - 1] == s[..n][n - 1] == t[..n][n - 1] == t[n - 1];
      assert s[..n - 1] == s[..n][..n - 1] == t[..n][..n - 1] == t[..n - 1];
    }
  }

  method PutNul(path: array<byte>, at: nat)
    requires at < path.Length
    modifies path
    ensures path[..] == old(path[..])[at := 0]
  {
    path[at] := 0;
  }

  /** get_filename_from_path: cuts off a trailing slash and then the last component.  Returns
      where that component begins, or -1 if there is no slash to cut at. */
  method GetFilenameFromPath(path: array<byte>, ghost s: seq<byte>) returns (name: int)
    requires CString(path[..], 0, s)
    modifies path
    ensures match CutLast(s)
            case None => name == -1
            case Some(cut) => name >= 0 && CString(path[..], 0, cut.0) && CString(path[..], name, cut.1)
  {
    var last;
    ghost var t := Trim(s);
    last := CutTrailing(path, s);
    if last == -1 {
      return -1;
    }
    CutString(path[..], 0, t, last);
    PutNul(path, last);
    return last + 1;
  }

  /** The loop of get_filename_from_path. */
  method CutTrailing(path: array<byte>, ghost s: seq<byte>) returns (last: int)
    requires CString(path[..], 0, s)
    modifies path
    ensures CString(path[..], 0, Trim(s)) && last == LastSlash(Trim(s), |Trim(s)|)
  {
    ScanStart(s);
    var str := StringAt(path, 0, s);
    hide *;
    var len := |str|;
    last := -1;
    var i := 0;
    while i < len
      invariant 0 <= i <= len
      invariant CString(path[..], 0, if i == len then Trim(s) else s)
      invariant last == if i == len then LastSlash(Trim(s), |Trim(s)|) else LastSlash(s, i)
    {
      CStringByte(path[..], 0, s, i);
      ScanStep(s, i);
      if path[i] == SLASH {
        if i != len - 1 {
          last := i;
        } else {
          CutString(path[..], 0, s, i);
          PutNul(path, i);
        }
      }
      i := i + 1;
    }
  }
}
