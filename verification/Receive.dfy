/** Receiving one message from a socket: the head says how much is still to come. */
module Receive {
  import opened Bytes
  import opened Header
  import opened HeaderParsers
  import opened Numbers
  import opened Paths
  import opened Tree

  // BUF_SIZE, 4096, appears as a literal.

  const CONTENT_LEN: seq<byte> := [67, 111, 110, 116, 101, 110, 116, 45, 76, 101, 110, 103, 116, 104]

  /** The end of a connection: the bytes that have not been read yet.  A call returns at least one of
      them, how many is not known. */
  class Socket {
    var rest: seq<byte>

    constructor (bytes: seq<byte>)
      ensures rest == bytes
    {
      rest := bytes;
    }

    method Recv(max: nat) returns (chunk: seq<byte>)
      modifies this
      ensures old(rest) == chunk + rest && |chunk| <= max
      ensures chunk == [] <==> max == 0 || old(rest) == []
    {
      if max == 0 || rest == [] {
        return [];
      }
      var n: nat :| 1 <= n <= max && n <= |rest|;
      chunk := rest[..n];
      rest := rest[n..];
    }
  }

  /** The C string at the beginning of a buffer. */
  function CStr(b: seq<byte>): (s: seq<byte>)
    ensures |s| <= |b| && s == b[..|s|] && NulFree(s) && (|s| < |b| ==> b[|s|] == 0)
  {
    if b == [] || b[0] == 0 then [] else [b[0]] + CStr(b[1..])
  }

  lemma CStrAt(b: seq<byte>, k: nat)
    requires k < |CStr(b)|
    ensures k < |b| && CStr(b)[k] == b[k]
  {
    assert b[..|CStr(b)|][k] == b[k];
  }

  lemma CStrIs(b: seq<byte>)
    requires b != [] && b[|b| - 1] == 0
    ensures CString(b, 0, CStr(b))
  {
    assert b[0..|CStr(b)|] == CStr(b);
  }

  lemma {:induction false} CStrShort(b: seq<byte>, k: nat)
    requires k < |b| && b[k] == 0
    ensures |CStr(b)| <= k
  {
    if k > 0 && b[0] != 0 {
      CStrShort(b[1..], k - 1);
    }
  }

  lemma {:induction false} CStrLong(b: seq<byte>, n: nat)
    requires n <= |b| && forall j :: 0 <= j < n ==> b[j] != 0
    ensures |CStr(b)| >= n
  {
    if n > 0 {
      CStrLong(b[1..], n - 1);
    }
  }

  /** The string that is left behind its first k bytes. */
  lemma {:induction false} CStrDrop(b: seq<byte>, k: nat)
    requires k <= |CStr(b)|
    ensures k <= |b| && CStr(b)[k..] == CStr(b[k..])
  {
    if k > 0 {
      CStrDrop(b[1..], k - 1);
      assert b[1..][k - 1..] == b[k..];
      assert CStr(b)[k..] == CStr(b[1..])[k - 1..];
    } else {
      assert b[0..] == b;
    }
  }

  lemma {:induction false} CStrZero(b: seq<byte>)
    ensures CStr(b + [0]) == CStr(b)
  {
    if b != [] && b[0] != 0 {
      assert (b + [0])[1..] == b[1..] + [0];
      CStrZero(b[1..]);
    }
  }

  // ----- get_missing_len -----

  /** Where the length field of the string is, if it has one: its first and last position. */
  function LengthField(s: seq<byte>): Option<(nat, nat)> {
    var p := Find(s, CONTENT_LEN);
    if p < 0 then None
    else
      var q := Find(s[p..], CRLF);
      if q < 0 then None else Some((p + 16, p + q))
  }

  /** The length field fits the 64 bytes it is copied to. */
  predicate FieldFits(s: seq<byte>) {
    Find(s, FLAG) >= 0 && LengthField(s).Some? ==>
      var (lo, hi) := LengthField(s).value; lo <= hi <= |s| && hi - lo < 64
  }

  /** The number of bytes to come after received; negative while the head is not complete. */
  function MissingLen(s: seq<byte>, received: nat): int
    requires FieldFits(s)
  {
    var k := Find(s, FLAG);
    if k < 0 then -1
    else
      match LengthField(s)
      case None => -1
      case Some((lo, hi)) => Signed64(Atoll(s[lo..hi]) + (k + 4) - received)
  }

  lemma FieldParts(s: seq<byte>)
    ensures var p := Find(s, CONTENT_LEN);
            && (p < 0 ==> LengthField(s) == None)
            && (p >= 0 ==>
                  && p + 14 <= |s|
                  && var q := Find(s[p..], CRLF);
                     LengthField(s) == if q < 0 then None else Some((p + 16, p + q)))
    ensures NulFree(CONTENT_LEN) && |CONTENT_LEN| == 14
  {
    hide FindFrom;
  }

  lemma MissingIs(s: seq<byte>, received: nat)
    requires FieldFits(s)
    ensures Find(s, FLAG) < 0 || LengthField(s).None? ==> MissingLen(s, received) == -1
    ensures Find(s, FLAG) >= 0 && LengthField(s).Some? ==>
              var (lo, hi) := LengthField(s).value;
              && lo <= hi <= |s| && hi - lo < 64
              && MissingLen(s, received) == Signed64(Atoll(s[lo..hi]) + (Find(s, FLAG) + 4) - received)
  {
    hide Find, LengthField;
  }

  /** get_missing_len on the C string in the buffer. */
  method GetMissingLen(buf: array<byte>, received: nat, ghost s: seq<byte>) returns (r: int)
    requires CString(buf[..], 0, s) && FieldFits(s)
    ensures r == MissingLen(s, received)
  {
    hide *;
    PatternsNulFree();
    FieldParts(s);
    MissingIs(s, received);
    var headerEnd := StrStr(buf, 0, FLAG, s);
    if headerEnd < 0 {
      return -1;
    }
    var start := StrStr(buf, 0, CONTENT_LEN, s);
    if start < 0 {
      return -1;
    }
    CStringDrop(buf[..], 0, s, start);
    var end := StrStr(buf, start, CRLF, s[start..]);
    if end < 0 {
      return -1;
    }
    CStringByte(buf[..], 0, s, end);
    CStringSlice(buf[..], s, start + 16, end);
    var field, contentLen := buf[..][start + 16..end], new byte[64];
    ghost var unset := contentLen[..];
    Memcpy(contentLen, 0, field);
    FieldCopied(buf[..], s, start + 16, end, unset);
    PutNul(contentLen, |field|);
    field := StringAt(contentLen, 0, field);
    return Signed64(Atoll(field) + (headerEnd + 4) - received);
  }

  /** The copy of a field, once it has been ended by a zero. */
  lemma FieldCopied(buf: seq<byte>, s: seq<byte>, lo: nat, hi: nat, copy: seq<byte>)
    requires CString(buf, 0, s) && lo <= hi <= |s| && buf[lo..hi] == s[lo..hi] && hi - lo < |copy|
    ensures CString(Splice(copy, 0, s[lo..hi])[hi - lo := 0], 0, s[lo..hi])
  {
    assert NulFree(s[lo..hi]);
    assert Splice(copy, 0, s[lo..hi])[hi - lo := 0][0..hi - lo] == s[lo..hi];
  }

  lemma CStringSlice(buf: seq<byte>, s: seq<byte>, lo: nat, hi: nat)
    requires CString(buf, 0, s) && lo <= hi <= |s|
    ensures hi <= |buf| && buf[lo..hi] == s[lo..hi]
  {
    assert buf[0..|s|][lo..hi] == buf[lo..hi];
  }

  // ----- messages -----

  predicate NoCr(s: seq<byte>) {
    forall j :: 0 <= j < |s| ==> s[j] != 13
  }

  /** No field of the head holds a CR, and no name the separator. */
  predicate Clean(h: Head) {
    NoCr(h.title) && forall i :: 0 <= i < |h.entries| ==> CleanEntry(h.entries[i])
  }

  predicate CleanEntry(e: Entry) {
    NoCr(e.name) && NoCr(e.value) && Find(e.name, COLON) < 0
  }

  /** The length field of the head announces n bytes. */
  ghost predicate Announces(h: Head, n: nat) {
    && LengthField(Encode(h)).Some?
    && var (lo, hi) := LengthField(Encode(h)).value;
       lo <= hi <= |Encode(h)| && hi - lo < 64 && Atoll(Encode(h)[lo..hi]) == n
  }

  /** A head and then as many bytes as its length field says; the head fits the buffer, and the whole
      has a length that the code can count. */
  ghost predicate Message(h: Head, body: seq<byte>) {
    && Clean(h) && NulFree(Encode(h)) && |Encode(h)| <= 4096
    && Announces(h, |body|) && |Encode(h)| + |body| < 0x8000_0000_0000_0000
  }

  /** The one entry of a data node's reply. */
  function LengthEntry(value: seq<byte>): Entry {
    Entry(CONTENT_LEN, value)
  }

  lemma LengthEntryLine(value: seq<byte>)
    requires AllDigits(value)
    ensures CleanEntry(LengthEntry(value)) && NulFree(Line(LengthEntry(value)))
    ensures |Line(LengthEntry(value))| == 16 + |value|
    ensures Line(LengthEntry(value))[..14] == CONTENT_LEN && Line(LengthEntry(value))[16..] == value
  {
    hide Find;
    NoSeparator();
    assert forall j :: 0 <= j < |value| ==> Digit(value[j]).Some?;
  }

  lemma NoSeparator()
    ensures Find(CONTENT_LEN, COLON) < 0
  {
    forall j: nat ensures !Match(CONTENT_LEN, COLON, j) { MatchCrLf(CONTENT_LEN, j); }
  }

  /** The field is looked for in vain in the title and the line end after it. */
  lemma NotInTitle(title: seq<byte>, rest: seq<byte>, j: nat)
    requires Find(title, CONTENT_LEN) < 0 && j < |title| + 2
    ensures !Match(title + CRLF + rest, CONTENT_LEN, j)
  {
    var s := title + CRLF + rest;
    assert s[|title|] == 13 && s[|title| + 1] == 10;
    assert forall i :: 0 <= i < 14 ==> CONTENT_LEN[i] != 13 && CONTENT_LEN[i] != 10;
    if j + 14 <= |title| {
      assert s[j..j + 14] == title[j..j + 14];
      assert !Match(title, CONTENT_LEN, j);
    } else if j + 14 <= |s| {
      var i := if j <= |title| then |title| - j else 0;
      assert s[j..j + 14][i] == s[j + i];
    }
  }

  /** A title that does not speak of the length, digits as the only entry, and as many bytes as these
      say, are a message. */
  lemma DigitsMessage(title: seq<byte>, value: seq<byte>, body: seq<byte>)
    requires NoCr(title) && NulFree(title) && Find(title, CONTENT_LEN) < 0 && |title| <= 4000
    requires AllDigits(value) && |value| < 64 && Atoll(value) == |body| <= 0x7FFF_FFFF_FFFF_0000
    ensures Message(Head(title, [LengthEntry(value)]), body)
  {
    hide *;
    var line := Line(LengthEntry(value));
    LengthEntryLine(value);
    CleanLine(LengthEntry(value));
    ReplyBytes(title, value);
    NoCrNoLineEnd(line);
    FieldFound(title, line);
    ReplyParts(title, value, body);
  }

  /** What data nodes reply is a message: the length of the body, printed in decimal, as the only
      entry, and the body. */
  lemma ReplyIsMessage(title: seq<byte>, body: seq<byte>)
    requires NoCr(title) && NulFree(title) && Find(title, CONTENT_LEN) < 0 && |title| <= 4000
    requires |body| <= 0x7FFF_FFFF_FFFF_0000
    ensures Message(Head(title, [LengthEntry(Decimal(|body|))]), body)
  {
    AtollDecimal(|body|);
    hide *;
    DecimalShort(|body|);
    DecimalDigits(|body|);
    DigitsMessage(title, Decimal(|body|), body);
  }

  /** The first match is in the line after the title, and the field ends with that line. */
  lemma FieldFound(title: seq<byte>, line: seq<byte>)
    requires Find(title, CONTENT_LEN) < 0 && Find(line, CRLF) < 0
    requires |line| >= 16 && line[..14] == CONTENT_LEN
    ensures LengthField(title + CRLF + (line + CRLF + CRLF)) == Some((|title| + 18, |title| + 2 + |line|))
  {
    hide *;
    var rest := line + CRLF + CRLF;
    var s, p := title + CRLF + rest, |title| + 2;
    FieldParts(s);
    MatchAfter(title, line);
    forall j | 0 <= j < p ensures !Match(s, CONTENT_LEN, j) { NotInTitle(title, rest, j); }
    FindIs(s, CONTENT_LEN, p);
    LineEnd(line, CRLF);
  }

  lemma MatchAfter(title: seq<byte>, line: seq<byte>)
    requires |line| >= 16 && line[..14] == CONTENT_LEN
    ensures var s := title + CRLF + (line + CRLF + CRLF);
            Match(s, CONTENT_LEN, |title| + 2) && |s| >= |title| + 2 && s[|title| + 2..] == line + CRLF + CRLF
  {
    var rest := line + CRLF + CRLF;
    var s, p := title + CRLF + rest, |title| + 2;
    assert s[p..] == rest;
    assert s[p..p + 14] == rest[..14] == line[..14];
  }

  lemma ReplyParts(title: seq<byte>, value: seq<byte>, body: seq<byte>)
    requires NoCr(title) && NulFree(title) && |title| <= 4000 && |value| < 64
    requires Atoll(value) == |body| <= 0x7FFF_FFFF_FFFF_0000
    requires var line := Line(LengthEntry(value));
             && |line| == 16 + |value| && NulFree(line) && CleanEntry(LengthEntry(value)) && line[16..] == value
             && Encode(Head(title, [LengthEntry(value)])) == title + CRLF + (line + CRLF + CRLF)
    requires LengthField(title + CRLF + (Line(LengthEntry(value)) + CRLF + CRLF))
          == Some((|title| + 18, |title| + 18 + |value|))
    ensures Message(Head(title, [LengthEntry(value)]), body)
  {
    hide Encode, Line, CleanEntry, LengthField, Atoll;
    var line := Line(LengthEntry(value));
    var s := title + CRLF + (line + CRLF + CRLF);
    assert s[|title| + 18..|title| + 18 + |value|] == line[16..];
  }

  lemma ReplyBytes(title: seq<byte>, value: seq<byte>)
    ensures Encode(Head(title, [LengthEntry(value)])) == title + CRLF + (Line(LengthEntry(value)) + CRLF + CRLF)
  {
    var l := Line(LengthEntry(value));
    EncodeFirst([LengthEntry(value)]);
    EncodeFirst([]);
    HeadWhole(title, [LengthEntry(value)]);
    hide *;
    assert [LengthEntry(value)][1..] == [];
    assert l + CRLF + [] == l + CRLF;
    Assoc(title + CRLF, l + CRLF, CRLF);
  }

  lemma HeadWhole(title: seq<byte>, es: seq<Entry>)
    ensures Encode(Head(title, es)) == title + CRLF + EncodeEntries(es) + CRLF && |CRLF| == 2
    ensures |Encode(Head(title, es))| == |title| + |EncodeEntries(es)| + 4
  {
  }

  lemma CleanIsPlain(h: Head)
    requires Clean(h)
    ensures Plain(h)
  {
    NoCrNoLineEnd(h.title);
    forall i | 0 <= i < |h.entries| ensures PlainEntry(h.entries[i]) {
      assert CleanEntry(h.entries[i]);
      NoCrNoLineEnd(h.entries[i].name);
      NoCrNoLineEnd(h.entries[i].value);
    }
  }

  lemma NoCrNoLineEnd(s: seq<byte>)
    requires NoCr(s)
    ensures Find(s, CRLF) < 0
  {
    NoCrLf(s);
  }

  /** Two searches that find their first match within a common prefix find the same. */
  lemma FindInPrefix(s: seq<byte>, t: seq<byte>, pat: seq<byte>)
    requires |s| <= |t| && t[..|s|] == s && Find(s, pat) >= 0
    ensures Find(t, pat) == Find(s, pat)
  {
    var r := Find(s, pat);
    hide *;
    FindFacts(s, pat);
    MatchSize(s, pat, r);
    forall j | 0 <= j <= r ensures Match(t, pat, j) <==> Match(s, pat, j) {
      MatchInPrefix(s, t, pat, j);
    }
    FindIs(t, pat, r);
  }

  lemma MatchSize(s: seq<byte>, pat: seq<byte>, j: nat)
    ensures Match(s, pat, j) ==> j + |pat| <= |s|
  {
  }

  lemma MatchInPrefix(s: seq<byte>, t: seq<byte>, pat: seq<byte>, j: nat)
    requires |s| <= |t| && t[..|s|] == s && j + |pat| <= |s|
    ensures Match(t, pat, j) <==> Match(s, pat, j)
  {
    SliceOfSlice(t, 0, |s|, j, j + |pat|);
    assert t[0..|s|] == s;
  }

  lemma FieldInPrefix(s: seq<byte>, t: seq<byte>)
    requires |s| <= |t| && t[..|s|] == s && LengthField(s).Some?
    ensures LengthField(t) == LengthField(s)
  {
    var p := Find(s, CONTENT_LEN);
    FindInPrefix(s, t, CONTENT_LEN);
    TailPrefix(s, t, p);
    FindInPrefix(s[p..], t[p..], CRLF);
  }

  lemma TailPrefix(s: seq<byte>, t: seq<byte>, p: nat)
    requires p <= |s| <= |t| && t[..|s|] == s
    ensures t[p..][..|s[p..]|] == s[p..]
  {
    assert t[p..][..|s| - p] == t[..|s|][p..];
  }

  /** With the whole head in the buffer the missing bytes are known, whatever follows it. */
  lemma WholeHead(h: Head, n: nat, c: seq<byte>, received: nat)
    requires Plain(h) && Announces(h, n) && |Encode(h)| <= |c| && c[..|Encode(h)|] == Encode(h)
    requires received <= n + |Encode(h)| < 0x8000_0000_0000_0000
    ensures FieldFits(c) && MissingLen(c, received) == n + |Encode(h)| - received
  {
    hide *;
    AnnouncedField(h, n);
    FlagOfEncoded(h, []);
    assert Encode(h) + [] == Encode(h);
    FindInPrefix(Encode(h), c, FLAG);
    FieldInPrefix(Encode(h), c);
    var (lo, hi) := LengthField(c).value;
    SliceOfSlice(c, 0, |Encode(h)|, lo, hi);
    assert c[0..|Encode(h)|] == c[..|Encode(h)|];
    FieldFitsIntro(c);
    MissingIs(c, received);
    SignedIs(n + |Encode(h)| - received);
  }

  lemma AnnouncedField(h: Head, n: nat)
    requires Announces(h, n)
    ensures LengthField(Encode(h)).Some? && |Encode(h)| >= 4
    ensures var (lo, hi) := LengthField(Encode(h)).value;
            lo <= hi <= |Encode(h)| && hi - lo < 64 && Atoll(Encode(h)[lo..hi]) == n
  {
  }

  lemma MessageParts(h: Head, body: seq<byte>)
    requires Message(h, body)
    ensures Clean(h) && NulFree(Encode(h)) && 4 <= |Encode(h)| <= 4096 && Announces(h, |body|)
    ensures |Encode(h)| + |body| < 0x8000_0000_0000_0000
  {
    hide LengthField, Atoll;
  }

  lemma FieldFitsIntro(c: seq<byte>)
    requires LengthField(c).Some?
    requires var (lo, hi) := LengthField(c).value; lo <= hi <= |c| && hi - lo < 64
    ensures FieldFits(c)
  {
    hide LengthField, Find;
  }

  /** Between a line end and the next one a clean line has no CR. */
  lemma CrStep(line: seq<byte>, rest: seq<byte>, i: nat)
    requires NoCr(line) && |line| >= 2 && CrLfAt(CRLF + line + rest, i)
    requires i + 3 <= |CRLF + line + rest| && (CRLF + line + rest)[i + 2] == 13
    ensures i >= 2 + |line|
    ensures var k := i - 2 - |line|; k + 3 <= |rest| && CrLfAt(rest, k) && rest[k + 2] == 13
  {
    var s := CRLF + line + rest;
    assert forall j :: 2 <= j < 2 + |line| ==> s[j] == line[j - 2];
    assert forall j :: 0 <= j < |rest| ==> s[2 + |line| + j] == rest[j];
  }

  /** In a clean head a CR after a line end belongs to the line end that closes the head. */
  lemma {:induction false} CrAfterLine(es: seq<Entry>, i: nat)
    requires forall k :: 0 <= k < |es| ==> CleanEntry(es[k])
    requires var s := CRLF + EncodeEntries(es) + CRLF; i + 3 <= |s| && CrLfAt(s, i) && s[i + 2] == 13
    ensures i == |EncodeEntries(es)|
    decreases |es|
  {
    EncodeFirst(es);
    if es == [] {
      assert CRLF + EncodeEntries(es) + CRLF == FLAG;
    } else {
      var rest := CRLF + EncodeEntries(es[1..]) + CRLF;
      CrShapes(es);
      CleanLine(es[0]);
      hide *;
      CrStep(Line(es[0]), rest, i);
      CrAfterLine(es[1..], i - 2 - |Line(es[0])|);
    }
  }

  lemma CleanLine(e: Entry)
    requires CleanEntry(e)
    ensures NoCr(Line(e)) && |Line(e)| >= 2
  {
  }

  lemma CrShapes(es: seq<Entry>)
    requires es != []
    ensures CRLF + EncodeEntries(es) + CRLF == CRLF + Line(es[0]) + (CRLF + EncodeEntries(es[1..]) + CRLF)
  {
    EncodeFirst(es);
    hide *;
    Regroup(CRLF, Line(es[0]), EncodeEntries(es[1..]), []);
  }

  lemma CrInHead(h: Head, i: nat)
    requires Clean(h) && i + 3 <= |Encode(h)| && CrLfAt(Encode(h), i) && Encode(h)[i + 2] == 13
    ensures i == |Encode(h)| - 4
  {
    var rest := CRLF + EncodeEntries(h.entries) + CRLF;
    HeadShape(h);
    hide *;
    CleanParts(h);
    CrSkip(h.title, rest, i);
    CrAfterLine(h.entries, i - |h.title|);
  }

  lemma HeadShape(h: Head)
    ensures Encode(h) == h.title + (CRLF + EncodeEntries(h.entries) + CRLF)
    ensures |Encode(h)| == |h.title| + |EncodeEntries(h.entries)| + 4
  {
    Assoc(h.title, CRLF + EncodeEntries(h.entries), CRLF);
    Assoc(h.title, CRLF, EncodeEntries(h.entries));
  }

  lemma CleanParts(h: Head)
    requires Clean(h)
    ensures NoCr(h.title) && forall k :: 0 <= k < |h.entries| ==> CleanEntry(h.entries[k])
  {
  }

  lemma CrSkip(title: seq<byte>, rest: seq<byte>, i: nat)
    requires NoCr(title) && CrLfAt(title + rest, i) && i + 3 <= |title + rest| && (title + rest)[i + 2] == 13
    ensures i >= |title|
    ensures var k := i - |title|; k + 3 <= |rest| && CrLfAt(rest, k) && rest[k + 2] == 13
  {
    var s := title + rest;
    assert forall j :: 0 <= j < |title| ==> s[j] == title[j];
    assert forall j :: 0 <= j < |rest| ==> s[|title| + j] == rest[j];
  }

  /** Every CR of the entries and the line ends around them starts a line end, and one close to the
      end is one of the last two. */
  lemma {:induction false} CrPlaces(es: seq<Entry>, i: nat)
    requires forall k :: 0 <= k < |es| ==> CleanEntry(es[k])
    requires var s := CRLF + EncodeEntries(es) + CRLF; i < |s| && s[i] == 13
    ensures var s := CRLF + EncodeEntries(es) + CRLF;
            CrLfAt(s, i) && (i + 8 <= |s| || i == |s| - 4 || i == |s| - 2)
    decreases |es|
  {
    EncodeFirst(es);
    if es == [] {
      assert CRLF + EncodeEntries(es) + CRLF == FLAG;
    } else {
      var rest := CRLF + EncodeEntries(es[1..]) + CRLF;
      CrShapes(es);
      CleanLine(es[0]);
      RestLength(es[1..]);
      hide *;
      CrPlace(Line(es[0]), rest, i);
      if i > 0 {
        CrPlaces(es[1..], i - 2 - |Line(es[0])|);
      }
    }
  }

  lemma RestLength(es: seq<Entry>)
    ensures |CRLF + EncodeEntries(es) + CRLF| >= 4
  {
  }

  lemma CrPlace(line: seq<byte>, rest: seq<byte>, i: nat)
    requires NoCr(line) && i < |CRLF + line + rest| && (CRLF + line + rest)[i] == 13
    ensures i == 0 ==> CrLfAt(CRLF + line + rest, i)
    ensures i > 0 ==> i >= 2 + |line|
    ensures i > 0 ==> var k := i - 2 - |line|;
                      k < |rest| && rest[k] == 13 && (CrLfAt(rest, k) ==> CrLfAt(CRLF + line + rest, i))
  {
    var s := CRLF + line + rest;
    assert forall j :: 2 <= j < 2 + |line| ==> s[j] == line[j - 2];
    assert forall j :: 0 <= j < |rest| ==> s[2 + |line| + j] == rest[j];
  }

  lemma CrOfHead(h: Head, i: nat)
    requires Clean(h) && i < |Encode(h)| && Encode(h)[i] == 13
    ensures var e := Encode(h); CrLfAt(e, i) && (i + 8 <= |e| || i == |e| - 4 || i == |e| - 2)
  {
    var rest := CRLF + EncodeEntries(h.entries) + CRLF;
    HeadShape(h);
    hide *;
    CleanParts(h);
    AfterTitle(h.title, rest, i);
    CrPlaces(h.entries, i - |h.title|);
  }

  lemma AfterTitle(title: seq<byte>, rest: seq<byte>, i: nat)
    requires NoCr(title) && i < |title + rest| && (title + rest)[i] == 13
    ensures i >= |title| && i - |title| < |rest| && rest[i - |title|] == 13
    ensures CrLfAt(rest, i - |title|) ==> CrLfAt(title + rest, i)
  {
    var s := title + rest;
    assert forall j :: 0 <= j < |title| ==> s[j] == title[j];
    assert forall j :: 0 <= j < |rest| ==> s[|title| + j] == rest[j];
  }

  // ----- what the uncleared buffer may hold -----

  /** After r bytes of some message the buffer may read as if a head ended with the line end at j: it
      goes on with that line end, or with the second half of one before it, or with both. */
  ghost predicate Completes(junk: seq<byte>, r: nat, j: nat) {
    && 0 < r <= j && CrLfAt(junk, j) && NulFree(junk[r..j])
    && (r == j || (r + 1 == j && junk[r] == 10) || (r + 2 <= j && CrLfAt(junk, j - 2)))
    && forall k :: r <= k && k + 2 < j ==> !(CrLfAt(junk, k) && CrLfAt(junk, k + 2))
  }

  /** The length field that follows the line end at j does not fit, or its value, taken for that of the
      head, makes a number of missing bytes. */
  ghost predicate Counts(junk: seq<byte>, r: nat, j: nat)
    requires j + 2 <= |junk|
  {
    var d := CStr(junk[j + 2..]);
    && LengthField(d).Some?
    && var (lo, hi) := LengthField(d).value;
       hi < lo || hi > |d| || hi - lo >= 64 || Signed64(Atoll(d[lo..hi]) + (j + 2) - r) >= 0
  }

  /** A line end at j of the buffer does harm: it stands where a line after the length field can
      begin, or it is the second of two, or the buffer goes on with a length field that counts. */
  ghost predicate Harms(junk: seq<byte>, j: nat) {
    && 2 <= j && CrLfAt(junk, j)
    && (18 <= j <= 4090 || (16 <= j && CrLfAt(junk, j - 2))
        || exists r: nat :: Completes(junk, r, j) && Counts(junk, r, j))
  }

  /** The 4096 bytes of the buffer hold no harmful line end. */
  ghost predicate Harmless(junk: seq<byte>) {
    forall j: nat :: !Harms(junk, j)
  }

  /** What has arrived of a message, in a buffer that held junk before. */
  ghost predicate Arrived(m: seq<byte>, received: nat, junk: seq<byte>, buf: seq<byte>) {
    && |junk| == 4096 && |buf| == 4097 && received <= |m| && received <= 4096
    && buf[..received] == m[..received] && buf[received..4096] == junk[received..] && buf[4096] == 0
  }

  /** The string in a buffer with a part of the head: its first bytes are the head's, the others
      those that were in the buffer. */
  ghost predicate Seen(e: seq<byte>, c: seq<byte>, junk: seq<byte>, received: nat) {
    && received < |e| && |c| <= |junk| == 4096
    && (forall k :: 0 <= k < |c| && k < received ==> c[k] == e[k])
    && (forall k :: received <= k < |c| ==> c[k] == junk[k])
    && (forall k :: received <= k <= |c| ==> c[k..] == CStr(junk[k..]))
  }

  lemma SeenBytes(m: seq<byte>, received: nat, junk: seq<byte>, buf: seq<byte>, k: nat)
    requires Arrived(m, received, junk, buf) && k < 4096
    ensures buf[k] == if k < received then m[k] else junk[k]
  {
    if k < received {
      assert buf[k] == buf[..received][k];
    } else {
      assert buf[k] == buf[received..4096][k - received];
    }
  }

  lemma SeenTail(m: seq<byte>, received: nat, junk: seq<byte>, buf: seq<byte>, k: nat)
    requires Arrived(m, received, junk, buf) && received <= k <= |CStr(buf)| <= 4096
    ensures CStr(buf)[k..] == CStr(junk[k..])
  {
    forall i | k <= i < 4096 ensures buf[i] == junk[i] {
      SeenBytes(m, received, junk, buf, i);
    }
    assert buf[k..] == junk[k..] + [0];
    CStrDrop(buf, k);
    CStrZero(junk[k..]);
  }

  lemma SeenPart(h: Head, body: seq<byte>, received: nat, junk: seq<byte>, buf: seq<byte>)
    requires received < |Encode(h)| && Arrived(Encode(h) + body, received, junk, buf)
    ensures Seen(Encode(h), CStr(buf), junk, received)
  {
    var c := CStr(buf);
    CStrShort(buf, 4096);
    hide CStr, Encode, Arrived;
    forall k | 0 <= k < |c| ensures c[k] == if k < received then Encode(h)[k] else junk[k] {
      CStrAt(buf, k);
      SeenBytes(Encode(h) + body, received, junk, buf, k);
    }
    forall k | received <= k <= |c| ensures c[k..] == CStr(junk[k..]) {
      SeenTail(Encode(h) + body, received, junk, buf, k);
    }
  }

  /** A double line end found at i before the head is complete, and not in its received part: it
      ends in the junk. */
  ghost predicate Stray(e: seq<byte>, c: seq<byte>, junk: seq<byte>, received: nat, i: nat) {
    Seen(e, c, junk, received) && Find(c, FLAG) == i && CrLfAt(c, i) && CrLfAt(c, i + 2) && received <= i + 2
  }

  lemma StrayLineEnd(e: seq<byte>, c: seq<byte>, junk: seq<byte>, received: nat, i: nat)
    requires Stray(e, c, junk, received, i)
    ensures i + 4 <= |c| && CrLfAt(c, i) && CrLfAt(c, i + 2) && Seen(e, c, junk, received) && received < |e|
    ensures CrLfAt(junk, i + 2) && (received <= i ==> CrLfAt(junk, i)) && (i < received ==> e[i] == 13)
    ensures c[i + 4..] == CStr(junk[i + 4..])
  {
    hide Find, CStr;
  }

  /** Late in the buffer it is the end of the head, as far as that has arrived. */
  lemma LateStray(h: Head, c: seq<byte>, junk: seq<byte>, received: nat, i: nat)
    requires Clean(h) && |Encode(h)| <= 4096 && Stray(Encode(h), c, junk, received, i) && 4090 < i + 2
    requires i < received
    ensures |c| >= |Encode(h)| && c[..|Encode(h)|] == Encode(h)
  {
    var e := Encode(h);
    StrayLineEnd(e, c, junk, received, i);
    CrOfHead(h, i);
    EndsInFlag(h);
    hide Encode, Find, CStr, Clean;
    assert i == |e| - 4 || i == |e| - 2;
    assert forall k :: 0 <= k < |e| ==> c[k] == e[k];
    assert c[..|e|] == e;
  }

  lemma EndsInFlag(h: Head)
    ensures var e := Encode(h); |e| >= 4 && CrLfAt(e, |e| - 2) && CrLfAt(e, |e| - 4)
  {
    HeadShape(h);
    if h.entries != [] {
      var n := |h.entries| - 1;
      EncodePrefix(h.entries, n);
      assert h.entries[..n + 1] == h.entries;
    }
  }

  /** It is the first double line end, in the junk too. */
  lemma StrayFirst(e: seq<byte>, c: seq<byte>, junk: seq<byte>, received: nat, i: nat, k: nat)
    requires Stray(e, c, junk, received, i) && received <= k < i
    ensures !(CrLfAt(junk, k) && CrLfAt(junk, k + 2))
  {
    StrayLineEnd(e, c, junk, received, i);
    StrayIs(e, c, junk, received, i);
    SeenJunk(e, c, junk, received);
    FindFacts(c, FLAG);
    MatchCrLf(c, k);
    hide Stray, Seen, Find, CStr, Match;
    assert !Match(c, FLAG, k);
  }

  lemma SeenJunk(e: seq<byte>, c: seq<byte>, junk: seq<byte>, received: nat)
    requires Seen(e, c, junk, received)
    ensures |c| <= |junk| && forall k :: received <= k < |c| ==> c[k] == junk[k]
  {
    hide CStr;
  }

  /** A double line end that the junk completes, as Harms speaks of it. */
  lemma StrayCompletes(e: seq<byte>, c: seq<byte>, junk: seq<byte>, received: nat, i: nat)
    requires Stray(e, c, junk, received, i) && 0 < received && NulFree(c)
    ensures Completes(junk, received, i + 2)
  {
    var j := i + 2;
    StrayLineEnd(e, c, junk, received, i);
    SeenJunk(e, c, junk, received);
    forall k | received <= k && k + 2 < j ensures !(CrLfAt(junk, k) && CrLfAt(junk, k + 2)) {
      StrayFirst(e, c, junk, received, i, k);
    }
    hide Stray, Seen, CStr;
    assert forall k :: received <= k < j ==> c[k] == junk[k];
    assert NulFree(junk[received..j]);
  }

  /** Early in the buffer no length field is found with it, or one whose value leaves the head
      incomplete. */
  lemma EarlyStray(h: Head, body: seq<byte>, c: seq<byte>, junk: seq<byte>, received: nat, i: nat)
    requires Message(h, body) && Stray(Encode(h), c, junk, received, i) && i + 2 < 18
    requires Harmless(junk) && 0 < received && NulFree(c)
    ensures FieldFits(c) && MissingLen(c, received) < 0
  {
    hide *;
    var e, p := Encode(h), Find(c, CONTENT_LEN);
    StrayLineEnd(e, c, junk, received, i);
    StrayIs(e, c, junk, received, i);
    HarmlessAt(junk, i + 2);
    StrayCompletes(e, c, junk, received, i);
    FieldParts(c);
    FindFacts(c, CONTENT_LEN);
    if LengthField(c).None? {
      NoFlag(c, received);
    } else {
      NoOverlap(c, p, i);
      NotBefore(h, body, c, junk, received, i, p);
      FieldInTail(c, i + 4);
      HarmlessField(junk, received, i + 2);
      var (lo, hi) := LengthField(c).value;
      SliceOfSlice(c, i + 4, |c|, lo - (i + 4), hi - (i + 4));
      assert c[i + 4..|c|] == c[i + 4..];
      FieldFitsIntro(c);
      MissingIs(c, received);
    }
  }

  lemma StrayIs(e: seq<byte>, c: seq<byte>, junk: seq<byte>, received: nat, i: nat)
    requires Stray(e, c, junk, received, i)
    ensures Find(c, FLAG) == i && |junk| == 4096
  {
    hide CStr;
  }

  lemma HarmlessAt(junk: seq<byte>, j: nat)
    requires Harmless(junk) && j >= 2 && CrLfAt(junk, j)
    ensures (j < 18 || j > 4090) && (16 <= j ==> !CrLfAt(junk, j - 2))
    ensures j + 2 <= |junk|
  {
    hide Completes, Counts;
    assert !Harms(junk, j);
  }

  lemma HarmlessField(junk: seq<byte>, r: nat, j: nat)
    requires Harmless(junk) && j >= 2 && CrLfAt(junk, j) && Completes(junk, r, j)
    ensures var d := CStr(junk[j + 2..]);
            LengthField(d).Some? ==>
              var (lo, hi) := LengthField(d).value;
              lo <= hi <= |d| && hi - lo < 64 && Signed64(Atoll(d[lo..hi]) + (j + 2) - r) < 0
  {
    hide Completes, LengthField, CStr, Atoll, Signed64;
    assert !Harms(junk, j);
  }

  /** The name of the length field and a double line end do not overlap. */
  lemma NoOverlap(c: seq<byte>, p: nat, i: nat)
    requires Match(c, CONTENT_LEN, p) && CrLfAt(c, i) && CrLfAt(c, i + 2)
    ensures p + 14 <= i || p >= i + 4
  {
    assert forall k :: 0 <= k < 14 ==> c[p..p + 14][k] == c[p + k] && CONTENT_LEN[k] != 13 && CONTENT_LEN[k] != 10;
    assert c[i] == 13 && c[i + 1] == 10 && c[i + 2] == 13 && c[i + 3] == 10;
    assert forall k :: p <= k < p + 14 ==> c[k] == CONTENT_LEN[k - p];
  }

  /** The name of the length field does not stand before such a double line end. */
  lemma NotBefore(h: Head, body: seq<byte>, c: seq<byte>, junk: seq<byte>, received: nat, i: nat, p: nat)
    requires Message(h, body) && Stray(Encode(h), c, junk, received, i) && i + 2 < 18
    requires i >= 14 ==> !CrLfAt(junk, i)
    requires Find(c, CONTENT_LEN) == p
    ensures p + 14 > i
  {
    hide *;
    var e := Encode(h);
    StrayLineEnd(e, c, junk, received, i);
    FindFacts(c, CONTENT_LEN);
    if p + 14 <= i {
      MessageParts(h, body);
      CrOfHead(h, i);
      NameInHead(e, c, junk, received, p);
      FieldTooShort(e, p, i);
      AnnouncedField(h, |body|);
    }
  }

  lemma NameInHead(e: seq<byte>, c: seq<byte>, junk: seq<byte>, received: nat, p: nat)
    requires Seen(e, c, junk, received) && Match(c, CONTENT_LEN, p) && p + 14 <= received
    ensures Match(e, CONTENT_LEN, p)
  {
    assert |CONTENT_LEN| == 14;
    hide CStr;
    assert e[p..p + 14] == c[p..p + 14];
  }

  /** A line end right after the name leaves the field no room. */
  lemma FieldTooShort(e: seq<byte>, p: nat, i: nat)
    requires Match(e, CONTENT_LEN, p) && CrLfAt(e, i) && p + 14 <= i < 16
    ensures LengthField(e).Some? && LengthField(e).value.1 < LengthField(e).value.0
  {
    FieldParts(e);
    var q := Find(e, CONTENT_LEN);
    assert 0 <= q <= p;
    MatchCrLf(e[q..], i - q);
    assert e[q..][i - q] == e[i] && e[q..][i - q + 1] == e[i + 1];
    var k := Find(e[q..], CRLF);
    hide LengthField;
    assert 0 <= k <= i - q;
  }

  /** A field whose name stands in the tail of the string is the field of the tail. */
  lemma FieldInTail(c: seq<byte>, k: nat)
    requires k <= |c| && Find(c, CONTENT_LEN) >= k && LengthField(c).Some?
    ensures LengthField(c[k..]).Some?
    ensures var (lo, hi) := LengthField(c).value; lo >= k && hi >= k && LengthField(c[k..]) == Some((lo - k, hi - k))
  {
    hide *;
    var p := Find(c, CONTENT_LEN);
    FindSkip(c, CONTENT_LEN, k);
    FieldParts(c);
    FieldParts(c[k..]);
    FindFacts(c, CONTENT_LEN);
    FindFacts(c[p..], CRLF);
    assert c[k..][p - k..] == c[p..];
  }

  /** As long as the head is not complete it is not taken for complete, or it is complete but for line
      ends that the buffer happened to hold. */
  lemma PartOfHead(h: Head, body: seq<byte>, received: nat, junk: seq<byte>, buf: seq<byte>)
    requires Message(h, body) && 0 < received < |Encode(h)| && Arrived(Encode(h) + body, received, junk, buf)
    requires Harmless(junk)
    ensures (FieldFits(CStr(buf)) && MissingLen(CStr(buf), received) < 0)
            || (|CStr(buf)| >= |Encode(h)| && CStr(buf)[..|Encode(h)|] == Encode(h))
  {
    hide *;
    var c, e := CStr(buf), Encode(h);
    var i := Find(c, FLAG);
    SeenPart(h, body, received, junk, buf);
    CStrNulFree(buf);
    FindFacts(c, FLAG);
    if i >= 0 {
      MatchCrLf(c, i);
      MessageParts(h, body);
      FlagInJunk(h, c, junk, received, i);
      if i + 2 < received {
        OneByteShort(h, c, junk, received, i);
      } else {
        StrayIntro(e, c, junk, received, i);
        StrayLineEnd(e, c, junk, received, i);
        HarmlessAt(junk, i + 2);
        if i + 2 < 18 {
          EarlyStray(h, body, c, junk, received, i);
        } else {
          LateStray(h, c, junk, received, i);
        }
      }
    } else {
      NoFlag(c, received);
    }
  }

  lemma CStrNulFree(b: seq<byte>)
    ensures NulFree(CStr(b))
  {
  }

  lemma StrayIntro(e: seq<byte>, c: seq<byte>, junk: seq<byte>, received: nat, i: nat)
    requires Seen(e, c, junk, received) && Find(c, FLAG) == i && CrLfAt(c, i) && CrLfAt(c, i + 2) && received <= i + 2
    ensures Stray(e, c, junk, received, i)
  {
  }

  /** The received part of the head holds no double line end. */
  lemma FlagInJunk(h: Head, c: seq<byte>, junk: seq<byte>, received: nat, i: nat)
    requires Clean(h) && Seen(Encode(h), c, junk, received) && CrLfAt(c, i) && CrLfAt(c, i + 2)
    ensures i + 4 > received
  {
    var e := Encode(h);
    hide Encode, CStr, Clean;
    assert i + 4 <= received ==> CrLfAt(e, i) && CrLfAt(e, i + 2);
    MatchCrLf(e, i);
    CleanIsPlain(h);
    FlagOfEncoded(h, []);
    assert e + [] == e;
  }

  lemma OneByteShort(h: Head, c: seq<byte>, junk: seq<byte>, received: nat, i: nat)
    requires Clean(h) && Seen(Encode(h), c, junk, received) && CrLfAt(c, i) && CrLfAt(c, i + 2)
    requires i + 2 < received < i + 4
    ensures |c| >= |Encode(h)| && c[..|Encode(h)|] == Encode(h)
  {
    var e := Encode(h);
    CrInHead(h, i);
    EndsInFlag(h);
    hide Encode, CStr, Clean;
    assert forall k :: 0 <= k < |e| ==> c[k] == e[k];
    assert c[..|e|] == e;
  }

  /** Once the head has arrived it is in the buffer's string. */
  lemma HeadArrived(h: Head, body: seq<byte>, received: nat, junk: seq<byte>, buf: seq<byte>)
    requires Message(h, body) && |Encode(h)| <= received && Arrived(Encode(h) + body, received, junk, buf)
    ensures |CStr(buf)| >= |Encode(h)| && CStr(buf)[..|Encode(h)|] == Encode(h)
  {
    var c, e := CStr(buf), Encode(h);
    assert forall j :: 0 <= j < |e| ==> buf[j] == buf[..received][j] == e[j];
    CStrLong(buf, |e|);
  }

  /** What get_missing_len should make of a buffer with the first bytes of a message: nothing while
      the head is not complete, or exactly the number of bytes to come. */
  ghost predicate Right(h: Head, body: seq<byte>, received: nat, buf: seq<byte>) {
    && FieldFits(CStr(buf))
    && var r := MissingLen(CStr(buf), received);
       if r < 0 then received < |Encode(h)| else r == |Encode(h) + body| - received
  }

  /** With harmless junk in the buffer it is right on every part of every message. */
  lemma MissingOfPart(h: Head, body: seq<byte>, received: nat, junk: seq<byte>, buf: seq<byte>)
    requires Message(h, body) && 0 < received && Arrived(Encode(h) + body, received, junk, buf) && Harmless(junk)
    ensures Right(h, body, received, buf)
  {
    hide *;
    var c := CStr(buf);
    MessageParts(h, body);
    CleanIsPlain(h);
    ArrivedAtMost(Encode(h) + body, received, junk, buf);
    if received < |Encode(h)| {
      PartOfHead(h, body, received, junk, buf);
      if !(FieldFits(c) && MissingLen(c, received) < 0) {
        WholeHead(h, |body|, c, received);
      }
    } else {
      HeadArrived(h, body, received, junk, buf);
      WholeHead(h, |body|, c, received);
    }
    RightIntro(h, body, received, buf);
  }

  lemma RightIntro(h: Head, body: seq<byte>, received: nat, buf: seq<byte>)
    requires FieldFits(CStr(buf))
    requires var r := MissingLen(CStr(buf), received);
             if r < 0 then received < |Encode(h)| else r == |Encode(h) + body| - received
    ensures Right(h, body, received, buf)
  {
  }

  lemma NoFlag(c: seq<byte>, received: nat)
    requires Find(c, FLAG) < 0 || LengthField(c).None?
    ensures FieldFits(c) && MissingLen(c, received) == -1
  {
    hide Find, LengthField;
  }

  lemma ArrivedAtMost(m: seq<byte>, received: nat, junk: seq<byte>, buf: seq<byte>)
    requires Arrived(m, received, junk, buf)
    ensures received <= |m| && received <= 4096 == |buf| - 1 && buf[4096] == 0 && buf[..received] == m[..received]
  {
  }

  lemma MoreArrived(m: seq<byte>, received: nat, junk: seq<byte>, buf: seq<byte>, chunk: seq<byte>, rest: seq<byte>)
    requires Arrived(m, received, junk, buf) && m[received..] == chunk + rest && received + |chunk| <= 4096
    ensures received + |chunk| <= |buf| && Arrived(m, received + |chunk|, junk, Splice(buf, received, chunk))
    ensures m[received + |chunk|..] == rest
  {
    var next := Splice(buf, received, chunk);
    var r := received + |chunk|;
    assert m[r..] == m[received..][|chunk|..];
    assert m[..r] == m[..received] + chunk by { assert chunk == m[received..][..|chunk|]; }
    assert next[..r] == buf[..received] + chunk;
    assert next[r..4096] == buf[r..4096] == buf[received..4096][|chunk|..];
    assert buf[received..4096][|chunk|..] == junk[received..4096][|chunk|..] == junk[r..4096];
  }

  /** What get_missing_len says of a part of the message. */
  method MissingNow(buf: array<byte>, received: nat, ghost h: Head, ghost body: seq<byte>, ghost junk: seq<byte>)
    returns (missing: int)
    requires Message(h, body) && 0 < received && Arrived(Encode(h) + body, received, junk, buf[..]) && Harmless(junk)
    ensures if missing < 0 then received < |Encode(h)| else missing == |Encode(h) + body| - received
  {
    hide *;
    ArrivedAtMost(Encode(h) + body, received, junk, buf[..]);
    CStrIs(buf[..]);
    MissingOfPart(h, body, received, junk, buf[..]);
    RightIs(h, body, received, buf[..]);
    missing := GetMissingLen(buf, received, CStr(buf[..]));
  }

  /** sbp_recv: whatever pieces the message arrives in, exactly its head and the bytes its length
      field announces are returned, with a zero at the end, as long as the buffer, which is not
      cleared, holds no harmful line end. */
  method SbpRecv(sock: Socket, buf: array<byte>, ghost h: Head, ghost body: seq<byte>)
    returns (ok: bool, rec: seq<byte>)
    requires Message(h, body) && sock.rest == Encode(h) + body
    requires buf.Length == 4097 && Harmless(buf[..4096])
    modifies sock, buf
    ensures ok && rec == Encode(h) + body + [0] && sock.rest == []
  {
    ghost var junk, m := buf[..4096], Encode(h) + body;
    buf[4096] := 0;
    var received: nat := 0;
    NothingArrived(m, junk, buf[..]);
    HeadBound(h, body);
    hide *;
    while true
      invariant Arrived(m, received, junk, buf[..]) && sock.rest == m[received..] && received < |Encode(h)| <= |m|
      invariant |Encode(h)| <= 4096
      decreases |m| - received
    {
      var chunk := sock.Recv(4096 - received);
      if chunk == [] {
        return false, [];
      }
      MoreArrived(m, received, junk, buf[..], chunk, sock.rest);
      Memcpy(buf, received, chunk);
      received := received + |chunk|;
      ArrivedAtMost(m, received, junk, buf[..]);
      var missing := MissingNow(buf, received, h, body, junk);
      if missing < 0 {
        if received >= 4096 {
          return false, [];
        }
        continue;
      }
      rec := buf[..received];
      assert buf[..][..received] == rec;
      ok, rec := ReceiveRest(sock, rec, missing, m);
      return;
    }
    return false, [];
  }

  lemma RightIs(h: Head, body: seq<byte>, received: nat, buf: seq<byte>)
    requires Right(h, body, received, buf)
    ensures FieldFits(CStr(buf))
    ensures var r := MissingLen(CStr(buf), received);
            if r < 0 then received < |Encode(h)| else r == |Encode(h) + body| - received
  {
  }

  lemma NothingArrived(m: seq<byte>, junk: seq<byte>, buf: seq<byte>)
    requires |buf| == 4097 && junk == buf[..4096] && buf[4096] == 0
    ensures Arrived(m, 0, junk, buf) && m[0..] == m
  {
  }

  lemma HeadBound(h: Head, body: seq<byte>)
    requires Message(h, body)
    ensures 0 < |Encode(h)| <= 4096 && |Encode(h)| <= |Encode(h) + body|
  {
  }

  /** The inner loop of sbp_recv, for the bytes the head has announced. */
  method ReceiveRest(sock: Socket, first: seq<byte>, missing: nat, ghost m: seq<byte>)
    returns (ok: bool, rec: seq<byte>)
    requires first + sock.rest == m && missing == |sock.rest|
    modifies sock
    ensures ok && rec == m + [0] && sock.rest == []
  {
    rec := first;
    var received2 := 0;
    while missing != 0
      invariant 0 <= received2 <= missing && (missing != 0 ==> received2 < missing)
      invariant rec + sock.rest == m && |sock.rest| == missing - received2
      decreases missing - received2
    {
      ghost var was := sock.rest;
      var chunk := sock.Recv(missing - received2);
      assert rec + was == (rec + chunk) + sock.rest;
      rec := rec + chunk;
      received2 := received2 + |chunk|;
      if received2 >= missing {
        break;
      }
      if chunk == [] {
        return false, [];
      }
    }
    assert sock.rest == [] && rec == m;
    return true, rec + [0];
  }
}
