/** Message heads: how the C library prints and parses them, and how the Python side does. */
module Header {
  import opened Bytes
  import opened Tree

  datatype Entry = Entry(name: seq<byte>, value: seq<byte>)
  datatype Head = Head(title: seq<byte>, entries: seq<Entry>)

  const CRLF: seq<byte> := [13, 10]
  const FLAG: seq<byte> := [13, 10, 13, 10]
  const COLON: seq<byte> := [58, 32]

  // ----- concatenations -----

  lemma Assoc<T>(a: seq<T>, b: seq<T>, c: seq<T>)
    ensures a + b + c == a + (b + c)
  {
  }

  /** An unbroken line between line ends, and what follows. */
  lemma Regroup<T>(x: seq<T>, l: seq<T>, e: seq<T>, b: seq<T>)
    ensures x + (l + x + e) + x + b == x + l + x + (e + x + b)
    ensures x + (l + x + e) + x == x + l + (x + e + x)
  {
    var p := x + l + x;
    Assoc(x, l + x, e);
    Assoc(x, l, x);
    Assoc(p, e, x);
    Assoc(p, e + x, b);
    Assoc(x + l, x + e, x);
    Assoc(x + l, x, e);
  }

  // ----- searching -----

  /** pat stands at position j of s. */
  predicate Match(s: seq<byte>, pat: seq<byte>, j: nat) {
    j + |pat| <= |s| && s[j..j + |pat|] == pat
  }

  /** strstr, and find in Python: the first position of pat in s, or -1. */
  function Find(s: seq<byte>, pat: seq<byte>): (r: int)
    ensures -1 <= r && (r >= 0 ==> Match(s, pat, r))
    ensures forall j :: 0 <= j && (r < 0 || j < r) ==> !Match(s, pat, j)
  {
    FindFrom(s, pat, 0)
  }

  function FindFrom(s: seq<byte>, pat: seq<byte>, i: nat): (r: int)
    ensures -1 <= r && (r >= 0 ==> i <= r && Match(s, pat, r))
    ensures forall j :: i <= j && (r < 0 || j < r) ==> !Match(s, pat, j)
    decreases |s| - i
  {
    if i + |pat| > |s| then -1 else if s[i..i + |pat|] == pat then i else FindFrom(s, pat, i + 1)
  }

  /** The first match is the only answer. */
  lemma FindIs(s: seq<byte>, pat: seq<byte>, r: nat)
    requires Match(s, pat, r) && forall j :: 0 <= j < r ==> !Match(s, pat, j)
    ensures Find(s, pat) == r
  {
  }

  lemma FindFacts(s: seq<byte>, pat: seq<byte>)
    ensures -1 <= Find(s, pat) && (Find(s, pat) >= 0 ==> Match(s, pat, Find(s, pat)))
    ensures forall j: nat :: Find(s, pat) < 0 || j < Find(s, pat) ==> !Match(s, pat, j)
  {
    hide FindFrom;
  }

  lemma MatchTail(s: seq<byte>, pat: seq<byte>, n: nat, j: nat)
    requires n <= |s|
    ensures Match(s[n..], pat, j) <==> Match(s, pat, n + j)
  {
    if n + j + |pat| <= |s| {
      SliceOfSlice(s, n, |s|, j, j + |pat|);
      assert s[n..|s|] == s[n..];
    }
  }

  /** A search may begin where nothing matches before. */
  lemma FindSkip(s: seq<byte>, pat: seq<byte>, n: nat)
    requires n <= |s| && forall j :: 0 <= j < n ==> !Match(s, pat, j)
    ensures Find(s, pat) == if Find(s[n..], pat) < 0 then -1 else n + Find(s[n..], pat)
  {
    var f, r := Find(s, pat), Find(s[n..], pat);
    hide *;
    FindFacts(s, pat);
    FindFacts(s[n..], pat);
    if r >= 0 {
      MatchTail(s, pat, n, r);
    }
    if f >= 0 {
      assert f >= n;
      MatchTail(s, pat, n, f - n);
    }
  }

  predicate CrLfAt(s: seq<byte>, j: nat) {
    j + 2 <= |s| && s[j] == 13 && s[j + 1] == 10
  }

  lemma MatchCrLf(s: seq<byte>, j: nat)
    ensures Match(s, CRLF, j) <==> CrLfAt(s, j)
    ensures Match(s, FLAG, j) <==> CrLfAt(s, j) && CrLfAt(s, j + 2)
    ensures Match(s, COLON, j) <==> j + 2 <= |s| && s[j] == 58 && s[j + 1] == 32
  {
    if j + 2 <= |s| {
      assert s[j..j + 2] == [s[j], s[j + 1]];
    }
    if j + 4 <= |s| {
      assert s[j..j + 4] == [s[j], s[j + 1], s[j + 2], s[j + 3]];
    }
  }

  // ----- printing -----

  function Line(e: Entry): seq<byte> {
    e.name + COLON + e.value
  }

  function EncodeEntries(es: seq<Entry>): seq<byte> {
    if es == [] then [] else Line(es[0]) + CRLF + EncodeEntries(es[1..])
  }

  /** The bytes of a head. */
  function Encode(h: Head): seq<byte> {
    h.title + CRLF + EncodeEntries(h.entries) + CRLF
  }

  lemma {:induction false} EncodeMore(es: seq<Entry>, e: Entry)
    ensures EncodeEntries(es + [e]) == EncodeEntries(es) + Line(e) + CRLF
  {
    EncodeFirst(es);
    EncodeFirst(es + [e]);
    if es == [] {
      EncodeFirst([]);
      hide *;
      assert es + [e] == [e] && [e][1..] == [];
      assert [] + Line(e) + CRLF == Line(e) + CRLF + [];
    } else {
      EncodeMore(es[1..], e);
      hide *;
      assert (es + [e])[1..] == es[1..] + [e] && (es + [e])[0] == es[0];
      var l, r := Line(es[0]) + CRLF, EncodeEntries(es[1..]);
      Assoc(l, r + Line(e), CRLF);
      Assoc(l, r, Line(e));
    }
  }

  lemma {:induction false} EncodePrefix(es: seq<Entry>, i: nat)
    requires i < |es|
    ensures EncodeEntries(es[..i + 1]) == EncodeEntries(es[..i]) + Line(es[i]) + CRLF
    ensures |EncodeEntries(es[..i + 1])| <= |EncodeEntries(es)|
    decreases |es| - i
  {
    assert es[..i + 1] == es[..i] + [es[i]];
    EncodeMore(es[..i], es[i]);
    if i + 1 < |es| {
      EncodePrefix(es, i + 1);
    } else {
      assert es[..i + 1] == es;
    }
  }

  /** dst holds x at its beginning. */
  ghost predicate Filled(dst: seq<byte>, x: seq<byte>) {
    |x| <= |dst| && dst[..|x|] == x
  }

  /** strcpy and the store of two characters after it: the terminating zero is overwritten. */
  method Append(dst: array<byte>, at: nat, x: seq<byte>, two: seq<byte>, ghost done: seq<byte>)
    requires |two| == 2 && at == |done| && at + |x| + 2 <= dst.Length && Filled(dst[..], done)
    modifies dst
    ensures Filled(dst[..], done + x + two)
  {
    Memcpy(dst, at, x + [0]);
    dst[at + |x|] := two[0];
    dst[at + |x| + 1] := two[1];
    assert dst[..][..at] == done;
    assert dst[..][at..at + |x|] == x;
    assert dst[..][..at + |x| + 2] == done + x + two;
  }

  /** make_head: counts the length first, and then fills exactly that many bytes. */
  method MakeHead(h: Head) returns (data: Option<array<byte>>)
    ensures data.None? <==> |h.entries| > 32
    ensures data.Some? ==> fresh(data.value) && data.value[..] == Encode(h)
  {
    if |h.entries| > 32 {
      return None;
    }
    var total := CountHead(h);
    EncodeLength(h);
    hide *;
    var buf := new byte[total];
    Append(buf, 0, h.title, CRLF, []);
    FillBegins(h);
    var cp := |h.title| + 2;
    var i: nat := 0;
    while i < |h.entries|
      invariant 0 <= i <= |h.entries| && cp == |Printed(h, i)| && Filled(buf[..], Printed(h, i))
    {
      var e := h.entries[i];
      FillGoesOn(h, i);
      Append(buf, cp, e.name, COLON, Printed(h, i));
      cp := cp + |e.name| + 2;
      Append(buf, cp, e.value, CRLF, Printed(h, i) + e.name + COLON);
      cp := cp + |e.value| + 2;
      i := i + 1;
    }
    FillEnds(h);
    Append(buf, cp, [], CRLF, Printed(h, |h.entries|));
    FilledUp(buf[..], Encode(h));
    return Some(buf);
  }

  /** The length of the head as make_head counts it. */
  method CountHead(h: Head) returns (total: nat)
    ensures total == |h.title| + 2 + |EncodeEntries(h.entries)| + 2
  {
    total := |h.title| + 2;
    var i := 0;
    while i < |h.entries|
      invariant 0 <= i <= |h.entries| && total == |h.title| + 2 + |EncodeEntries(h.entries[..i])|
    {
      EncodePrefix(h.entries, i);
      total := total + |h.entries[i].name| + |h.entries[i].value| + 4;
      i := i + 1;
    }
    assert h.entries[..i] == h.entries;
    total := total + 2;
  }

  lemma EncodeLength(h: Head)
    ensures |Encode(h)| == |h.title| + 2 + |EncodeEntries(h.entries)| + 2
    ensures |CRLF| == 2 && |COLON| == 2 && Filled([], [])
  {
  }

  /** What has been printed after i entries. */
  ghost function Printed(h: Head, i: nat): seq<byte>
    requires i <= |h.entries|
  {
    h.title + CRLF + EncodeEntries(h.entries[..i])
  }

  lemma FillBegins(h: Head)
    ensures Printed(h, 0) == [] + h.title + CRLF && |Printed(h, 0)| == |h.title| + 2
  {
    assert h.entries[..0] == [];
  }

  lemma FillGoesOn(h: Head, i: nat)
    requires i < |h.entries|
    ensures var e := h.entries[i];
            && Printed(h, i + 1) == Printed(h, i) + e.name + COLON + e.value + CRLF
            && |Printed(h, i + 1)| == |Printed(h, i)| + |e.name| + 2 + |e.value| + 2 <= |Encode(h)| - 2
            && |Printed(h, i) + e.name + COLON| == |Printed(h, i)| + |e.name| + 2
  {
    EncodePrefix(h.entries, i);
  }

  lemma FillEnds(h: Head)
    ensures Encode(h) == Printed(h, |h.entries|) + [] + CRLF && |Encode(h)| == |Printed(h, |h.entries|)| + 2
  {
    assert h.entries[..|h.entries|] == h.entries;
  }

  lemma FilledUp(dst: seq<byte>, x: seq<byte>)
    requires Filled(dst, x) && |dst| == |x|
    ensures dst == x
  {
  }

  // ----- parsing in C -----

  function DecodeEntries(s: seq<byte>): Option<seq<Entry>>
    decreases |s|
  {
    var k := Find(s, CRLF);
    if k < 0 then None
    else if k == 0 then Some([])
    else
      var c := Find(s[..k], COLON);
      if c < 0 then None
      else
        match DecodeEntries(s[k + 2..])
        case None => None
        case Some(rest) => Some([Entry(s[..c], s[c + 2..k])] + rest)
  }

  /** decode_head on the string s: the head, and the number of bytes it takes. */
  function Decode(s: seq<byte>): Option<(Head, nat)> {
    var k := Find(s, FLAG);
    if k < 0 then None
    else
      HasLine(s[..k + 4]);
      var t := Find(s[..k + 4], CRLF);
      match DecodeEntries(s[t + 2..k + 4])
      case None => None
      case Some(es) => Some((Head(s[..t], es), k + 4))
  }

  lemma HasLine(s: seq<byte>)
    requires |s| >= 4 && Match(s, FLAG, |s| - 4)
    ensures 0 <= Find(s, CRLF) <= |s| - 4
  {
    MatchCrLf(s, |s| - 4);
  }

  /** No entry can be mistaken: lines are not broken inside, and names do not hold the separator. */
  predicate Plain(h: Head) {
    && Find(h.title, CRLF) < 0
    && forall i :: 0 <= i < |h.entries| ==> PlainEntry(h.entries[i])
  }

  predicate PlainEntry(e: Entry) {
    Find(e.name, CRLF) < 0 && Find(e.value, CRLF) < 0 && Find(e.name, COLON) < 0
  }

  lemma NoCrLf(s: seq<byte>)
    ensures Find(s, CRLF) < 0 <==> forall j: nat :: !CrLfAt(s, j)
  {
    forall j: nat ensures Match(s, CRLF, j) <==> CrLfAt(s, j) { MatchCrLf(s, j); }
  }

  /** Up to the end of an unbroken line there is no line end. */
  lemma LineEnd(x: seq<byte>, rest: seq<byte>)
    requires Find(x, CRLF) < 0
    ensures Find(x + CRLF + rest, CRLF) == |x|
    ensures forall j: nat :: j < |x| ==> !CrLfAt(x + CRLF + rest, j)
  {
    var s := x + CRLF + rest;
    NoCrLf(x);
    forall j: nat | j < |x| ensures !CrLfAt(s, j) {
      assert !CrLfAt(x, j);
    }
    forall j: nat | j <= |x| ensures Match(s, CRLF, j) <==> CrLfAt(s, j) { MatchCrLf(s, j); }
    FindIs(s, CRLF, |x|);
  }

  lemma PlainLine(e: Entry)
    requires PlainEntry(e)
    ensures Find(Line(e), CRLF) < 0 && Find(Line(e), COLON) == |e.name|
  {
    var s := Line(e);
    NoCrLf(e.name);
    NoCrLf(e.value);
    forall j: nat ensures !CrLfAt(s, j) {
      if j < |e.name| {
        assert !CrLfAt(e.name, j);
      } else if j >= |e.name| + 2 {
        assert !CrLfAt(e.value, j - |e.name| - 2);
      }
    }
    NoCrLf(s);
    forall j | 0 <= j < |e.name| ensures !Match(s, COLON, j) {
      MatchCrLf(s, j);
      MatchCrLf(e.name, j);
    }
    MatchCrLf(s, |e.name|);
    FindIs(s, COLON, |e.name|);
  }

  lemma DecodeOne(e: Entry, rest: seq<byte>, es: seq<Entry>)
    requires PlainEntry(e) && DecodeEntries(rest) == Some(es)
    ensures DecodeEntries(Line(e) + CRLF + rest) == Some([e] + es)
  {
    var line := Line(e);
    var s := line + CRLF + rest;
    PlainLine(e);
    LineEnd(line, rest);
    assert s[..|line|] == line && s[|line| + 2..] == rest;
    assert s[..|e.name|] == e.name && s[|e.name| + 2..|line|] == e.value;
    hide Find, Line, PlainEntry;
  }

  lemma DecodeNone()
    ensures DecodeEntries(CRLF) == Some([])
  {
    assert CRLF == [] + CRLF + [];
    NoCrLf([]);
    LineEnd([], []);
  }

  lemma {:induction false} DecodeEncoded(es: seq<Entry>)
    requires forall i :: 0 <= i < |es| ==> PlainEntry(es[i])
    ensures DecodeEntries(EncodeEntries(es) + CRLF) == Some(es)
    decreases |es|
  {
    hide DecodeEntries, PlainEntry, Line;
    if es == [] {
      DecodeNone();
      assert EncodeEntries(es) + CRLF == CRLF;
    } else {
      var rest := EncodeEntries(es[1..]) + CRLF;
      DecodeEncoded(es[1..]);
      DecodeOne(es[0], rest, es[1..]);
      assert EncodeEntries(es) + CRLF == Line(es[0]) + CRLF + rest;
      assert [es[0]] + es[1..] == es;
    }
  }

  /** Between a line end and a line that is not empty there is no double line end. */
  lemma FlagLater(line: seq<byte>, tail: seq<byte>)
    requires Find(line, CRLF) < 0 && |line| >= 2
    ensures Find(CRLF + line + CRLF + tail, FLAG)
         == if Find(CRLF + tail, FLAG) < 0 then -1 else 2 + |line| + Find(CRLF + tail, FLAG)
  {
    var s := CRLF + line + CRLF + tail;
    assert s[2..] == line + CRLF + tail && s[2 + |line|..] == CRLF + tail;
    LineEnd(line, tail);
    forall j | 0 <= j < 2 + |line| ensures !Match(s, FLAG, j) {
      MatchCrLf(s, j);
      if j >= 2 {
        assert !CrLfAt(s[2..], j - 2);
      } else if j == 0 {
        assert !CrLfAt(s[2..], 0);
      }
    }
    FindSkip(s, FLAG, 2 + |line|);
  }

  lemma FlagFirst(body: seq<byte>)
    ensures Find(CRLF + CRLF + body, FLAG) == 0
  {
    MatchCrLf(CRLF + CRLF + body, 0);
    FindIs(CRLF + CRLF + body, FLAG, 0);
  }

  /** After a line end, the first double line end is the one that closes the entries. */
  lemma {:induction false} FlagAtEnd(es: seq<Entry>, body: seq<byte>)
    requires forall i :: 0 <= i < |es| ==> PlainEntry(es[i])
    ensures Find(CRLF + EncodeEntries(es) + CRLF + body, FLAG) == |EncodeEntries(es)|
    decreases |es|
  {
    FlagShapes(es, body);
    hide *;
    if es == [] {
      FlagFirst(body);
    } else {
      var tail := EncodeEntries(es[1..]) + CRLF + body;
      PlainLine(es[0]);
      FlagLater(Line(es[0]), tail);
      FlagAtEnd(es[1..], body);
    }
  }

  lemma FlagShapes(es: seq<Entry>, body: seq<byte>)
    ensures es == [] ==> CRLF + EncodeEntries(es) + CRLF + body == CRLF + CRLF + body && |EncodeEntries(es)| == 0
    ensures es != [] ==>
              var tail := EncodeEntries(es[1..]) + CRLF + body;
              && CRLF + tail == CRLF + EncodeEntries(es[1..]) + CRLF + body
              && CRLF + EncodeEntries(es) + CRLF + body == CRLF + Line(es[0]) + CRLF + tail
              && |EncodeEntries(es)| == |Line(es[0])| + 2 + |EncodeEntries(es[1..])|
              && |Line(es[0])| >= 2
  {
    EncodeFirst(es);
    hide *;
    if es == [] {
      assert CRLF + [] == CRLF;
    } else {
      var e := EncodeEntries(es[1..]);
      Regroup(CRLF, Line(es[0]), e, body);
      Assoc(CRLF, e + CRLF, body);
      Assoc(CRLF, e, CRLF);
    }
  }

  lemma EncodeFirst(es: seq<Entry>)
    ensures es == [] ==> EncodeEntries(es) == []
    ensures es != [] ==>
              && EncodeEntries(es) == Line(es[0]) + CRLF + EncodeEntries(es[1..])
              && |EncodeEntries(es)| == |Line(es[0])| + 2 + |EncodeEntries(es[1..])| && |Line(es[0])| >= 2
  {
  }

  lemma FlagOfEncoded(h: Head, body: seq<byte>)
    requires Plain(h)
    ensures Find(Encode(h) + body, FLAG) == |Encode(h)| - 4
    ensures Find(Encode(h), CRLF) == |h.title|
  {
    var rest := CRLF + EncodeEntries(h.entries) + CRLF + body;
    FlagAtEnd(h.entries, body);
    EncodeLength(h);
    TitleSkipped(h, body, rest);
    hide *;
    assert Encode(h) + [] == Encode(h);
    TitleLine(h, []);
  }

  lemma TitleLine(h: Head, body: seq<byte>)
    requires Find(h.title, CRLF) < 0
    ensures Find(Encode(h) + body, CRLF) == |h.title|
    ensures forall j: nat :: j < |h.title| ==> !Match(Encode(h) + body, FLAG, j)
  {
    var s, tail := Encode(h) + body, EncodeEntries(h.entries) + CRLF + body;
    assert s == h.title + CRLF + tail;
    LineEnd(h.title, tail);
    forall j: nat | j < |h.title| ensures !Match(s, FLAG, j) {
      MatchCrLf(s, j);
    }
  }

  lemma TitleSkipped(h: Head, body: seq<byte>, rest: seq<byte>)
    requires Find(h.title, CRLF) < 0 && rest == CRLF + EncodeEntries(h.entries) + CRLF + body
    requires Find(rest, FLAG) >= 0
    ensures Find(Encode(h) + body, FLAG) == |h.title| + Find(rest, FLAG)
  {
    var s := Encode(h) + body;
    assert s == h.title + rest && s[|h.title|..] == rest;
    hide *;
    TitleLine(h, body);
    FindSkip(s, FLAG, |h.title|);
  }

  lemma {:induction false} DecodedPlain(s: seq<byte>)
    requires DecodeEntries(s).Some?
    ensures forall i :: 0 <= i < |DecodeEntries(s).value| ==> PlainEntry(DecodeEntries(s).value[i])
    decreases |s|
  {
    var k := Find(s, CRLF);
    if k > 0 {
      var c := Find(s[..k], COLON);
      DecodedPlain(s[k + 2..]);
      BeforeFirst(s, CRLF, k, 0, c);
      BeforeFirst(s, CRLF, k, c + 2, k);
      BeforeFirst(s[..k], COLON, c, 0, c);
      assert s[0..c] == s[..c] == s[..k][0..c];
    }
  }

  /** Nothing matches within what lies before the first match. */
  lemma BeforeFirst(s: seq<byte>, pat: seq<byte>, k: nat, lo: nat, hi: nat)
    requires Find(s, pat) == k && lo <= hi <= k && |pat| > 0
    ensures Find(s[lo..hi], pat) < 0
  {
    var r := Find(s[lo..hi], pat);
    if r >= 0 {
      SliceOfSlice(s, lo, hi, r, r + |pat|);
      assert Match(s, pat, lo + r);
    }
  }

  lemma PlainReturns(h: Head, body: seq<byte>)
    requires Plain(h)
    ensures Decode(Encode(h) + body) == Some((h, |Encode(h)|))
  {
    hide *;
    FlagOfEncoded(h, body);
    EncodeLength(h);
    EncodeParts(h, body);
    PlainEntries(h);
    DecodeEncoded(h.entries);
    DecodeIs(Encode(h) + body, |Encode(h)| - 4, |h.title|, h.entries);
  }

  lemma PlainEntries(h: Head)
    requires Plain(h)
    ensures forall i :: 0 <= i < |h.entries| ==> PlainEntry(h.entries[i])
  {
  }

  lemma DecodeIs(s: seq<byte>, k: nat, t: nat, es: seq<Entry>)
    requires Find(s, FLAG) == k && k + 4 <= |s| && Find(s[..k + 4], CRLF) == t <= k
    requires DecodeEntries(s[t + 2..k + 4]) == Some(es)
    ensures Decode(s) == Some((Head(s[..t], es), k + 4))
  {
    hide Find, DecodeEntries;
  }

  lemma EncodeParts(h: Head, body: seq<byte>)
    ensures var s := Encode(h) + body; var n := |Encode(h)|;
            s[..n] == Encode(h) && s[..|h.title|] == h.title && s[|h.title| + 2..n] == EncodeEntries(h.entries) + CRLF
  {
  }

  lemma ReturnedPlain(s: seq<byte>)
    requires Decode(s).Some?
    ensures Plain(Decode(s).value.0)
  {
    var k := Find(s, FLAG);
    HasLine(s[..k + 4]);
    var t := Find(s[..k + 4], CRLF);
    DecodedPlain(s[t + 2..k + 4]);
    BeforeFirst(s[..k + 4], CRLF, t, 0, t);
    assert s[..k + 4][0..t] == s[..t];
  }

  /** Printing and parsing: whatever follows the head, the same title and entries come back, and the
      number of bytes that were printed, exactly if the head is plain. */
  lemma HeadRoundTrip(h: Head, body: seq<byte>)
    ensures Decode(Encode(h) + body) == Some((h, |Encode(h)|)) <==> Plain(h)
  {
    hide *;
    if Plain(h) {
      PlainReturns(h, body);
    } else if Decode(Encode(h) + body).Some? {
      ReturnedPlain(Encode(h) + body);
    }
  }
}
