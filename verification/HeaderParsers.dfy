/** The two parsers of heads: decode_head in C, which cuts a copy of the head in place, and
    parse_head in Python, which fills a dictionary. */
module HeaderParsers {
  import opened Bytes
  import opened Header
  import opened Numbers
  import opened Paths
  import opened Tree

  // ----- decode_head -----

  lemma MatchAt(s: seq<byte>, pat: seq<byte>, j: nat)
    requires j < |pat|
    ensures Match(s, pat, 0) ==> j < |s| && s[j] == pat[j]
  {
    if Match(s, pat, 0) {
      assert s[0..|pat|][j] == s[j];
    }
  }

  /** The comparison of strstr at one position; it stops at the first difference. */
  method StartsWith(buf: array<byte>, at: nat, pat: seq<byte>, ghost s: seq<byte>) returns (r: bool)
    requires CString(buf[..], at, s) && NulFree(pat)
    ensures r <==> Match(s, pat, 0)
  {
    var j := 0;
    while j < |pat|
      invariant 0 <= j <= |pat| && j <= |s| && s[..j] == pat[..j]
    {
      CStringByte(buf[..], at, s, j);
      if buf[at + j] != pat[j] {
        MatchAt(s, pat, j);
        return false;
      }
      j := j + 1;
    }
    assert s[0..|pat|] == s[..j] == pat;
    return true;
  }

  lemma CStringDrop(buf: seq<byte>, at: nat, s: seq<byte>, k: nat)
    requires CString(buf, at, s) && k <= |s|
    ensures CString(buf, at + k, s[k..])
  {
    assert buf[at + k..at + k + |s[k..]|] == buf[at..at + |s|][k..];
    NulFreeSuffix(s, k);
  }

  lemma MatchDrop(s: seq<byte>, pat: seq<byte>, k: nat)
    requires k <= |s|
    ensures Match(s[k..], pat, 0) <==> Match(s, pat, k)
  {
    if k + |pat| <= |s| {
      assert s[k..][0..|pat|] == s[k..k + |pat|];
    }
  }

  /** strstr: the position of the first match in the string at position at of the buffer, or -1. */
  method StrStr(buf: array<byte>, at: nat, pat: seq<byte>, ghost s: seq<byte>) returns (r: int)
    requires CString(buf[..], at, s) && NulFree(pat) && |pat| > 0
    ensures r == if Find(s, pat) < 0 then -1 else at + Find(s, pat)
  {
    hide Find, CString;
    var i := 0;
    CStringByte(buf[..], at, s, 0);
    while buf[at + i] != 0
      invariant 0 <= i <= |s| && at + i < buf.Length && (buf[at + i] == 0 <==> i == |s|)
      invariant forall j :: 0 <= j < i ==> !Match(s, pat, j)
      decreases |s| - i
    {
      CStringDrop(buf[..], at, s, i);
      MatchDrop(s, pat, i);
      var here := StartsWith(buf, at + i, pat, s[i..]);
      if here {
        FindIs(s, pat, i);
        return at + i;
      }
      i := i + 1;
      CStringByte(buf[..], at, s, i);
    }
    NotFound(s, pat, i);
    return -1;
  }

  lemma NotFound(s: seq<byte>, pat: seq<byte>, i: nat)
    requires i == |s| && |pat| > 0 && forall j :: 0 <= j < i ==> !Match(s, pat, j)
    ensures Find(s, pat) == -1
  {
  }

  /** Cutting a string at k and going on two characters later. */
  lemma CutTwo(buf: seq<byte>, at: nat, s: seq<byte>, k: nat)
    requires CString(buf, at, s) && k + 2 <= |s|
    ensures at + k < |buf|
    ensures CString(buf[at + k := 0], at, s[..k]) && CString(buf[at + k := 0], at + k + 2, s[k + 2..])
  {
    CutString(buf, at, s, k);
    CStringDrop(buf[at + k := 0], at + k + 1, s[k + 1..], 1);
    assert s[k + 1..][1..] == s[k + 2..];
  }

  /** A store before a string leaves it alone. */
  lemma CStringKept(buf: seq<byte>, at: nat, s: seq<byte>, i: nat)
    requires CString(buf, at, s) && i < at && i < |buf|
    ensures CString(buf[i := 0], at, s)
  {
    assert buf[i := 0][at..at + |s|] == buf[at..at + |s|];
  }

  lemma CopyIsString(buf: seq<byte>, s: seq<byte>, n: nat, copy: seq<byte>)
    requires CString(buf, 0, s) && n <= |s| && |copy| == n + 1 && copy[..n] == buf[..n] && copy[n] == 0
    ensures CString(copy, 0, s[..n])
  {
    assert copy[0..n] == buf[0..|s|][..n];
  }

  /** One line of the head. */
  lemma DecodeLine(s: seq<byte>)
    ensures var k := Find(s, CRLF);
            && (k < 0 ==> DecodeEntries(s) == None)
            && (k == 0 ==> DecodeEntries(s) == Some([]))
            && (k > 0 ==>
                  k + 2 <= |s|
                  && var c := Find(s[..k], COLON);
                     && (c < 0 ==> DecodeEntries(s) == None)
                     && (c >= 0 ==> c + 2 <= k)
                     && (c >= 0 ==>
                           DecodeEntries(s) == match DecodeEntries(s[k + 2..])
                                               case None => None
                                               case Some(rest) => Some([Entry(s[..c], s[c + 2..k])] + rest)))
  {
    hide FindFrom;
  }

  /** How many elements of the array of entries the parser stores to: one for each line before the
      empty one, up to the first without a separator. */
  function Slots(s: seq<byte>): nat
    decreases |s|
  {
    var k := Find(s, CRLF);
    if k <= 0 then 0
    else if Find(s[..k], COLON) < 0 then 1
    else 1 + Slots(s[k + 2..])
  }

  lemma SlotsLine(s: seq<byte>)
    ensures var k := Find(s, CRLF);
            && (k <= 0 ==> Slots(s) == 0)
            && (k > 0 ==> k + 2 <= |s| && Slots(s) == if Find(s[..k], COLON) < 0 then 1 else 1 + Slots(s[k + 2..]))
  {
    hide FindFrom;
  }

  /** The same for a whole head. */
  function HeadSlots(s: seq<byte>): nat {
    var k := Find(s, FLAG);
    if k < 0 then 0
    else
      HasLine(s[..k + 4]);
      Slots(s[Find(s[..k + 4], CRLF) + 2..k + 4])
  }

  /** A head that is decoded takes as many elements as it has entries: it overruns the array of 32
      if and only if it has more. */
  lemma SlotsExact(s: seq<byte>)
    ensures Decode(s).Some? ==> HeadSlots(s) == |Decode(s).value.0.entries|
  {
    hide *;
    DecodeParts(s);
    SlotsParts(s);
    var k := Find(s, FLAG);
    if k >= 0 {
      SlotsOfEntries(s[Find(s[..k + 4], CRLF) + 2..k + 4]);
    }
  }

  lemma {:induction false} SlotsOfEntries(s: seq<byte>)
    ensures DecodeEntries(s).Some? ==> Slots(s) == |DecodeEntries(s).value|
    decreases |s|
  {
    DecodeLine(s);
    SlotsLine(s);
    var k := Find(s, CRLF);
    if k > 0 {
      SlotsOfEntries(s[k + 2..]);
    }
    hide DecodeEntries, Slots, Find;
  }

  /** What has been decoded, with what is still to come. */
  function Joined(es: seq<Entry>, rest: Option<seq<Entry>>): Option<seq<Entry>> {
    match rest case None => None case Some(more) => Some(es + more)
  }

  lemma JoinedMore(es: seq<Entry>, e: Entry, rest: Option<seq<Entry>>)
    ensures Joined(es, match rest case None => None case Some(more) => Some([e] + more)) == Joined(es + [e], rest)
  {
    match rest
    case None =>
    case Some(more) => assert es + ([e] + more) == es + [e] + more;
  }

  lemma JoinedEnds(es: seq<Entry>)
    ensures Joined(es, None) == None && Joined(es, Some([])) == Some(es) && Joined([], None) == None
    ensures forall rest :: Joined([], rest) == rest
  {
    assert es + [] == es;
    forall rest ensures Joined([], rest) == rest {
      match rest case None => case Some(more) => assert [] + more == more;
    }
  }

  lemma PatternsNulFree()
    ensures NulFree(CRLF) && NulFree(FLAG) && NulFree(COLON) && |CRLF| == 2 && |FLAG| == 4 && |COLON| == 2
  {
  }

  /** The lines of the head after the title: each is cut off, and cut in two at its separator. */
  method DecodeLines(hd: array<byte>, at: nat, ghost s: seq<byte>) returns (r: Option<seq<Entry>>, slots: nat)
    requires CString(hd[..], at, s)
    modifies hd
    ensures r == DecodeEntries(s) && slots == Slots(s)
  {
    hide *;
    PatternsNulFree();
    JoinedEnds([]);
    r, slots := None, 0;
    var prev, es := at, [];
    ghost var rest := s;
    while true
      invariant 0 <= prev && CString(hd[..], prev, rest)
      invariant DecodeEntries(s) == Joined(es, DecodeEntries(rest)) && Slots(s) == |es| + Slots(rest)
      decreases |rest|
    {
      DecodeLine(rest);
      SlotsLine(rest);
      JoinedEnds(es);
      var next := StrStr(hd, prev, CRLF, rest);
      if next < 0 {
        return None, |es|;
      }
      if next == prev {
        return Some(es), |es|;
      }
      ghost var k := next - prev;
      var name := prev;
      CutTwo(hd[..], name, rest, k);
      ghost var b := hd[..];
      hd[next] := 0;
      assert hd[..] == b[next := 0];
      next := next + 2;
      prev := StrStr(hd, name, COLON, rest[..k]);
      if prev < 0 {
        return None, |es| + 1;
      }
      ghost var c := prev - name;
      CutTwo(hd[..], name, rest[..k], c);
      CStringKept(hd[..], next, rest[k + 2..], prev);
      b := hd[..];
      hd[prev] := 0;
      assert hd[..] == b[prev := 0];
      assert rest[..k][..c] == rest[..c] && rest[..k][c + 2..] == rest[c + 2..k];
      var n := StringAt(hd, name, rest[..c]);
      var v := StringAt(hd, prev + 2, rest[c + 2..k]);
      JoinedMore(es, Entry(n, v), DecodeEntries(rest[k + 2..]));
      es := es + [Entry(n, v)];
      rest := rest[k + 2..];
      prev := next;
    }
  }

  lemma DecodeParts(s: seq<byte>)
    ensures var k := Find(s, FLAG);
            && (k < 0 ==> Decode(s) == None)
            && (k >= 0 ==>
                  k + 4 <= |s| && 0 <= Find(s[..k + 4], CRLF) <= k
                  && var t := Find(s[..k + 4], CRLF);
                     Decode(s) == match DecodeEntries(s[t + 2..k + 4])
                                  case None => None
                                  case Some(es) => Some((Head(s[..t], es), k + 4)))
  {
    if Find(s, FLAG) >= 0 {
      HasLine(s[..Find(s, FLAG) + 4]);
    }
    hide FindFrom, DecodeEntries;
  }

  /** decode_head does on the buffer what Decode says of the string in it.  slots is the number of
      elements of its array that it stores to, of which there are 32. */
  method DecodeHead(data: array<byte>, ghost s: seq<byte>) returns (r: Option<(Head, nat)>, slots: nat)
    requires CString(data[..], 0, s)
    ensures r == Decode(s) && slots == HeadSlots(s)
  {
    hide *;
    PatternsNulFree();
    DecodeParts(s);
    SlotsParts(s);
    var end := StrStr(data, 0, FLAG, s);
    if end < 0 {
      return None, 0;
    }
    var len := end + 4;
    CStringByte(data[..], 0, s, len);
    ghost var bytes := data[..];
    var hd := new byte[len + 1];
    forall i | 0 <= i < len {
      hd[i] := data[i];
    }
    hd[len] := 0;
    assert data[..] == bytes && hd[..][..len] == bytes[..len] && hd[..][len] == 0;
    CopyIsString(bytes, s, len, hd[..]);
    var prev := StrStr(hd, 0, CRLF, s[..len]);
    CutTwo(hd[..], 0, s[..len], prev);
    ghost var b := hd[..];
    hd[prev] := 0;
    assert hd[..] == b[0 + prev := 0];
    assert s[..len][..prev] == s[..prev] && s[..len][prev + 2..] == s[prev + 2..len];
    var title := StringAt(hd, 0, s[..prev]);
    var es;
    es, slots := DecodeLines(hd, prev + 2, s[prev + 2..len]);
    match es
    case None => r := None;
    case Some(entries) => r := Some((Head(title, entries), len));
  }

  lemma SlotsParts(s: seq<byte>)
    ensures var k := Find(s, FLAG);
            && (k < 0 ==> HeadSlots(s) == 0)
            && (k >= 0 ==>
                  k + 4 <= |s| && 0 <= Find(s[..k + 4], CRLF) <= k
                  && HeadSlots(s) == Slots(s[Find(s[..k + 4], CRLF) + 2..k + 4]))
  {
    DecodeParts(s);
    hide FindFrom, Slots, DecodeEntries, Decode;
  }

  // ----- get_head_entry_value -----

  /** The value of the first entry with the name. */
  function ValueOf(es: seq<Entry>, name: seq<byte>): Option<seq<byte>> {
    if es == [] then None
    else if es[0].name == name then Some(es[0].value)
    else ValueOf(es[1..], name)
  }

  method GetHeadEntryValue(h: Head, name: seq<byte>) returns (r: Option<seq<byte>>)
    ensures r == ValueOf(h.entries, name)
  {
    var i := 0;
    while i < |h.entries|
      invariant 0 <= i <= |h.entries| && ValueOf(h.entries, name) == ValueOf(h.entries[i..], name)
    {
      if h.entries[i].name == name {
        return Some(h.entries[i].value);
      }
      assert h.entries[i..][1..] == h.entries[i + 1..];
      i := i + 1;
    }
    return None;
  }

  // ----- gen_head and parse_head -----

  type Dict = map<seq<byte>, seq<byte>>

  const PROTOCOL: seq<byte> := [80, 114, 111, 116, 111, 99, 111, 108]
  const RESPONSE: seq<byte> := [82, 101, 115, 112, 111, 110, 115, 101]

  function WordEnd(s: seq<byte>, i: nat): (k: nat)
    requires i <= |s|
    ensures i <= k <= |s|
    decreases |s| - i
  {
    if i == |s| || Blank(s[i]) then i else WordEnd(s, i + 1)
  }

  /** str.split() without arguments. */
  function Words(s: seq<byte>): seq<seq<byte>>
    decreases |s|
  {
    if s == [] then []
    else if Blank(s[0]) then Words(s[1..])
    else [s[..WordEnd(s, 1)]] + Words(s[WordEnd(s, 1)..])
  }

  /** str.split('\r\n'). */
  function SplitLines(s: seq<byte>): seq<seq<byte>>
    decreases |s|
  {
    var k := Find(s, CRLF);
    if k < 0 then [s] else [s[..k]] + SplitLines(s[k + 2..])
  }

  /** One line goes to the dictionary, unless its name is there already; None is an exception. */
  function PutLine(d: Dict, line: seq<byte>): Option<Dict> {
    var c := Find(line, COLON);
    var name := if c < 0 then line else line[..c];
    if name in d then Some(d)
    else if c < 0 then None
    else Some(d[name := line[c + 2..]])
  }

  function PutLines(d: Dict, lines: seq<seq<byte>>): Option<Dict>
    decreases |lines|
  {
    if lines == [] then Some(d)
    else
      match PutLine(d, lines[0])
      case None => None
      case Some(d') => PutLines(d', lines[1..])
  }

  /** What the first line puts into the dictionary. */
  function FirstLine(line: seq<byte>): Option<Dict> {
    var words := Words(line);
    if words == [] then None
    else if |words| >= 2 then Some(map[PROTOCOL := words[0], RESPONSE := words[1]])
    else Some(map[PROTOCOL := words[0]])
  }

  function ParseLines(lines: seq<seq<byte>>): Option<Dict>
    requires lines != []
  {
    match FirstLine(lines[0])
    case None => None
    case Some(d) => PutLines(d, lines[1..])
  }

  lemma SomeLine(s: seq<byte>)
    ensures SplitLines(s) != []
  {
  }

  /** parse_head: None stands for its answer None. */
  method ParseHead(s: seq<byte>) returns (r: Option<Dict>)
    ensures SplitLines(s) != [] && r == ParseLines(SplitLines(s))
  {
    SomeLine(s);
    hide SplitLines, PutLine, Words, Find;
    var lines := SplitLines(s);
    var words := Words(lines[0]);
    if words == [] {
      return None;
    }
    var d: Dict := map[PROTOCOL := words[0]];
    if |words| >= 2 {
      d := d[RESPONSE := words[1]];
      assert d == map[PROTOCOL := words[0], RESPONSE := words[1]];
    }
    var i := 1;
    ghost var all := PutLines(d, lines[1..]);
    while i < |lines|
      invariant 1 <= i <= |lines| && all == PutLines(d, lines[i..])
    {
      assert lines[i..][0] == lines[i] && lines[i..][1..] == lines[i + 1..];
      match PutLine(d, lines[i])
      case None => return None;
      case Some(d') => d := d';
      i := i + 1;
    }
    return Some(d);
  }

  /** gen_head: the dictionary's items in the order the dictionary gives them. */
  method GenHead(first: seq<byte>, items: seq<Entry>) returns (r: seq<byte>)
    ensures r == Encode(Head(first, items))
  {
    r := first + CRLF;
    var i := 0;
    while i < |items|
      invariant 0 <= i <= |items| && r == first + CRLF + EncodeEntries(items[..i])
    {
      EncodePrefix(items, i);
      ghost var was := EncodeEntries(items[..i]);
      assert first + CRLF + was + (Line(items[i]) + CRLF) == first + CRLF + (was + Line(items[i]) + CRLF);
      r := r + (items[i].name + COLON + items[i].value + CRLF);
      i := i + 1;
    }
    assert items[..i] == items;
    r := r + CRLF;
  }

  // ----- both parsers agree -----

  /** The lines are the entries, with the separator between name and value. */
  ghost predicate LinesAre(lines: seq<seq<byte>>, es: seq<Entry>) {
    && |lines| == |es|
    && forall i :: 0 <= i < |es| ==>
         var c := Find(lines[i], COLON);
         c >= 0 && es[i] == Entry(lines[i][..c], lines[i][c + 2..])
  }

  /** The dictionary keeps what it had and takes the first value of every other name. */
  lemma {:induction false} PutAll(d: Dict, lines: seq<seq<byte>>, es: seq<Entry>)
    requires LinesAre(lines, es)
    ensures PutLines(d, lines).Some?
    ensures forall n ::
              (n in PutLines(d, lines).value <==> n in d || ValueOf(es, n).Some?)
              && (n in d ==> PutLines(d, lines).value[n] == d[n])
              && (n !in d && ValueOf(es, n).Some? ==> PutLines(d, lines).value[n] == ValueOf(es, n).value)
    decreases |lines|
  {
    hide Find;
    if lines != [] {
      var d' := PutLine(d, lines[0]).value;
      assert forall i :: 0 <= i < |es[1..]| ==> es[1..][i] == es[i + 1] && lines[1..][i] == lines[i + 1];
      PutAll(d', lines[1..], es[1..]);
    }
  }

  lemma LinesMore(line: seq<byte>, e: Entry, lines: seq<seq<byte>>, es: seq<Entry>)
    requires LinesAre(lines, es) && LinesAre([line], [e])
    ensures LinesAre([line] + lines, [e] + es)
  {
    hide Find;
    assert [line][0] == line && [e][0] == e;
  }

  lemma FlagTail(s: seq<byte>, k: nat)
    requires |s| >= 4 && Find(s, FLAG) == |s| - 4 && Find(s, CRLF) == k
    ensures k <= |s| - 4
    ensures k < |s| - 4 ==> k + 6 <= |s| && Find(s[k + 2..], FLAG) == |s| - (k + 2) - 4 && !CrLfAt(s, k + 2)
    ensures k < |s| - 4 ==> Find(s[..|s| - 4], CRLF) == k
    ensures k == |s| - 4 ==> Find(s[..|s| - 4], CRLF) < 0
  {
    MatchCrLf(s, |s| - 4);
    MatchCrLf(s, k);
    MatchCrLf(s, k + 1);
    CrLfBefore(s, |s| - 4);
    if k < |s| - 4 {
      assert k + 1 != |s| - 4;
      FindSkip(s, FLAG, k + 2) by {
        forall j | 0 <= j < k + 2 ensures !Match(s, FLAG, j) { }
      }
    }
  }

  /** The first line end before position n, where another line end stands. */
  lemma CrLfBefore(s: seq<byte>, n: nat)
    requires n + 2 <= |s| && Match(s, CRLF, n)
    ensures var k := Find(s, CRLF); 0 <= k <= n && k + 1 != n && Find(s[..n], CRLF) == if k < n then k else -1
  {
    var k, x := Find(s, CRLF), s[..n];
    MatchCrLf(s, n);
    MatchCrLf(s, k);
    forall j: nat | j + 2 <= n ensures Match(x, CRLF, j) <==> Match(s, CRLF, j) {
      MatchCrLf(x, j);
      MatchCrLf(s, j);
    }
    if k < n {
      FindIs(x, CRLF, k);
    }
  }

  /** The lines that Python splits are those that C decodes. */
  lemma {:induction false} SameLines(s: seq<byte>)
    requires |s| >= 4 && Find(s, FLAG) == |s| - 4 && Find(s, CRLF) > 0 && DecodeEntries(s).Some?
    ensures LinesAre(SplitLines(s[..|s| - 4]), DecodeEntries(s).value)
    decreases |s|
  {
    hide *;
    var k := Find(s, CRLF);
    FlagTail(s, k);
    DecodeLine(s);
    var rest := s[k + 2..];
    OneLine(s, k);
    if k == |s| - 4 {
      LastLine(s, k);
    } else {
      NotEmptyLine(s, k);
      SameLines(rest);
      MoreLines(s, k);
    }
  }

  /** The entry of the first line. */
  ghost function EntryOf(s: seq<byte>, k: nat): Entry
    requires k <= |s| && 0 <= Find(s[..k], COLON)
  {
    var c := Find(s[..k], COLON);
    Entry(s[..c], s[c + 2..k])
  }

  lemma OneLine(s: seq<byte>, k: nat)
    requires k <= |s|
    ensures Find(s[..k], COLON) >= 0 ==> LinesAre([s[..k]], [EntryOf(s, k)])
  {
    var c := Find(s[..k], COLON);
    if c >= 0 {
      assert s[..k][..c] == s[..c] && s[..k][c + 2..] == s[c + 2..k];
    }
  }

  lemma LastLine(s: seq<byte>, k: nat)
    requires |s| >= 4 && k == |s| - 4 && Find(s, CRLF) == k > 0 && Find(s[..k], CRLF) < 0
    requires Match(s, FLAG, k) && DecodeEntries(s).Some? && LinesAre([s[..k]], [EntryOf(s, k)])
    ensures LinesAre(SplitLines(s[..k]), DecodeEntries(s).value)
  {
    MatchCrLf(s, k);
    assert s[k + 2..] == CRLF;
    DecodeNone();
    DecodeLine(s);
    hide Find, DecodeEntries, LinesAre;
    assert [EntryOf(s, k)] + [] == [EntryOf(s, k)];
  }

  lemma NotEmptyLine(s: seq<byte>, k: nat)
    requires k + 2 <= |s| && !CrLfAt(s, k + 2) && Find(s[k + 2..], FLAG) >= 0
    ensures Find(s[k + 2..], CRLF) > 0
  {
    var rest := s[k + 2..];
    MatchCrLf(rest, 0);
    MatchCrLf(rest, Find(rest, FLAG));
  }

  lemma EntryIs(s: seq<byte>, k: nat)
    requires k <= |s|
    ensures var c := Find(s[..k], COLON); c >= 0 ==> c + 2 <= k && EntryOf(s, k) == Entry(s[..c], s[c + 2..k])
  {
    hide FindFrom;
  }

  lemma SplitMore(x: seq<byte>, t: nat)
    requires Find(x, CRLF) == t
    ensures t + 2 <= |x| && SplitLines(x) == [x[..t]] + SplitLines(x[t + 2..])
  {
    hide FindFrom;
  }

  lemma MoreLines(s: seq<byte>, k: nat)
    requires |s| >= 4 && 0 < k == Find(s, CRLF) && k + 6 <= |s| && Find(s[..|s| - 4], CRLF) == k
    requires DecodeEntries(s).Some? && LinesAre([s[..k]], [EntryOf(s, k)])
    requires var rest := s[k + 2..];
             DecodeEntries(rest).Some? && LinesAre(SplitLines(rest[..|rest| - 4]), DecodeEntries(rest).value)
    ensures LinesAre(SplitLines(s[..|s| - 4]), DecodeEntries(s).value)
  {
    hide *;
    var rest := s[k + 2..];
    DecodeLine(s);
    SplitMore(s[..|s| - 4], k);
    assert s[..|s| - 4][k + 2..] == rest[..|rest| - 4];
    assert s[..|s| - 4][..k] == s[..k];
    EntryIs(s, k);
    LinesMore(s[..k], EntryOf(s, k), SplitLines(rest[..|rest| - 4]), DecodeEntries(rest).value);
  }

  /** Where C finds a head, Python splits the same lines, the title first. */
  lemma HeadLines(s: seq<byte>)
    requires Decode(s).Some?
    ensures var (h, n) := Decode(s).value;
            && 4 <= n <= |s| && SplitLines(s[..n - 4]) != [] && SplitLines(s[..n - 4])[0] == h.title
            && LinesAre(SplitLines(s[..n - 4])[1..], h.entries)
  {
    hide *;
    DecodeParts(s);
    var k := Find(s, FLAG);
    var hd := s[..k + 4];
    var t := Find(hd, CRLF);
    FlagOfPrefix(s, k);
    FlagTail(hd, t);
    assert hd[..|hd| - 4] == s[..k];
    if t == k {
      TitleOnly(s, k);
    } else {
      NotEmptyLine(hd, t);
      assert hd[t + 2..] == s[t + 2..k + 4];
      SameLines(hd[t + 2..]);
      TitleAndMore(s, k, t);
    }
  }

  lemma FlagOfPrefix(s: seq<byte>, k: nat)
    requires Find(s, FLAG) == k && k + 4 <= |s|
    ensures Find(s[..k + 4], FLAG) == k && Match(s, FLAG, k)
  {
    var hd := s[..k + 4];
    forall j | 0 <= j <= k ensures Match(hd, FLAG, j) <==> Match(s, FLAG, j) {
      assert hd[j..j + 4] == s[j..j + 4];
    }
    FindIs(hd, FLAG, k);
  }

  lemma TitleOnly(s: seq<byte>, k: nat)
    requires k + 4 <= |s| && Match(s, FLAG, k) && Find(s[..k], CRLF) < 0
    requires Decode(s).Some? && Decode(s) == match DecodeEntries(s[k + 2..k + 4])
                                             case None => None
                                             case Some(es) => Some((Head(s[..k], es), k + 4))
    ensures var (h, n) := Decode(s).value;
            && n == k + 4 && SplitLines(s[..k]) == [h.title] && LinesAre(SplitLines(s[..k])[1..], h.entries)
  {
    MatchCrLf(s, k);
    assert s[k + 2..k + 4] == CRLF;
    DecodeNone();
    hide Find, DecodeEntries, Decode;
  }

  lemma TitleAndMore(s: seq<byte>, k: nat, t: nat)
    requires t + 2 <= k && k + 4 <= |s| && Find(s[..k], CRLF) == t
    requires Decode(s).Some? && Decode(s) == match DecodeEntries(s[t + 2..k + 4])
                                             case None => None
                                             case Some(es) => Some((Head(s[..t], es), k + 4))
    requires var rest := s[t + 2..k + 4];
             && DecodeEntries(rest).Some? && |rest| >= 4
             && LinesAre(SplitLines(rest[..|rest| - 4]), DecodeEntries(rest).value)
    ensures var (h, n) := Decode(s).value;
            && n == k + 4 && SplitLines(s[..k]) == [h.title] + SplitLines(s[..k])[1..]
            && LinesAre(SplitLines(s[..k])[1..], h.entries)
  {
    hide *;
    var rest := s[t + 2..k + 4];
    SplitMore(s[..k], t);
    assert s[..k][..t] == s[..t] && s[..k][t + 2..] == rest[..|rest| - 4];
  }

  /** On the same bytes both parsers find the same: where C decodes a head, Python raises no
      exception but for a title without a word, and every name but Protocol and Response has in
      its dictionary the value that get_head_entry_value returns. */
  lemma ParsersAgree(s: seq<byte>, name: seq<byte>)
    requires Decode(s).Some?
    ensures var (h, n) := Decode(s).value;
            && 4 <= n <= |s| && SplitLines(s[..n - 4]) != []
            && var d := ParseLines(SplitLines(s[..n - 4]));
               && (d.None? <==> Words(h.title) == [])
               && (d.Some? && name != PROTOCOL && (name != RESPONSE || |Words(h.title)| < 2) ==>
                     (if name in d.value then Some(d.value[name]) else None) == ValueOf(h.entries, name))
  {
    var (h, n) := Decode(s).value;
    HeadLines(s);
    hide Decode, Find, SplitLines, PutLines, Words;
    var lines := SplitLines(s[..n - 4]);
    if FirstLine(lines[0]).Some? {
      PutAll(FirstLine(lines[0]).value, lines[1..], h.entries);
    }
  }

  // ----- the first line in Python -----

  ghost predicate NoBlanks(s: seq<byte>) {
    forall i :: 0 <= i < |s| ==> !Blank(s[i])
  }

  lemma {:induction false} WordEndIs(s: seq<byte>, i: nat)
    requires i <= |s|
    ensures var k := WordEnd(s, i);
            NoBlanks(s[i..k]) && (k < |s| ==> Blank(s[k]))
    decreases |s| - i
  {
    var k := WordEnd(s, i);
    if i < k {
      WordEndIs(s, i + 1);
      assert s[i..k] == [s[i]] + s[i + 1..k];
    }
  }

  /** Words are not empty and have no blank in them. */
  lemma {:induction false} WordsProper(s: seq<byte>)
    ensures forall i :: 0 <= i < |Words(s)| ==> Words(s)[i] != [] && NoBlanks(Words(s)[i])
    decreases |s|
  {
    if s != [] {
      if Blank(s[0]) {
        WordsProper(s[1..]);
      } else {
        var k := WordEnd(s, 1);
        WordEndIs(s, 1);
        WordsProper(s[k..]);
        assert s[..k] == [s[0]] + s[1..k];
      }
    }
  }

  /** A text without blanks is one word. */
  lemma OneWord(s: seq<byte>)
    requires s != [] && NoBlanks(s)
    ensures Words(s) == [s]
  {
    WordEndIs(s, 1);
    assert WordEnd(s, 1) == |s|;
    assert s[..|s|] == s && s[|s|..] == [];
  }

  lemma {:induction false} WordEndPrefix(a: seq<byte>, rest: seq<byte>, i: nat)
    requires i <= |a| && (rest == [] || Blank(rest[0]))
    ensures WordEnd(a + rest, i) == WordEnd(a, i)
    decreases |a| - i
  {
    if i < |a| && !Blank(a[i]) {
      WordEndPrefix(a, rest, i + 1);
    }
  }

  /** A blank separates words: those before it and those after it. */
  lemma {:induction false} WordsApart(a: seq<byte>, x: byte, b: seq<byte>)
    requires Blank(x)
    ensures Words(a + ([x] + b)) == Words(a) + Words(b)
    decreases |a|
  {
    var s := a + ([x] + b);
    if a == [] {
      assert s[1..] == b;
    } else if Blank(a[0]) {
      assert s[1..] == a[1..] + ([x] + b);
      WordsApart(a[1..], x, b);
    } else {
      var k := WordEnd(a, 1);
      WordEndPrefix(a, [x] + b, 1);
      assert s[..k] == a[..k] && s[k..] == a[k..] + ([x] + b);
      WordsApart(a[k..], x, b);
    }
  }

  /** What is in the dictionary stays. */
  lemma {:induction false} PutLinesKeep(d: Dict, lines: seq<seq<byte>>, name: seq<byte>)
    requires name in d && PutLines(d, lines).Some?
    ensures name in PutLines(d, lines).value && PutLines(d, lines).value[name] == d[name]
    decreases |lines|
  {
    if lines != [] {
      PutLinesKeep(PutLine(d, lines[0]).value, lines[1..], name);
    }
  }

  /** Python's Protocol is the first word of the title, whatever lines follow, and Response the second
      one, if there are two. */
  lemma TitleWords(s: seq<byte>)
    requires Decode(s).Some?
    ensures var (h, n) := Decode(s).value;
            && 4 <= n <= |s| && SplitLines(s[..n - 4]) != []
            && var d := ParseLines(SplitLines(s[..n - 4]));
               d.Some? ==>
                 && |Words(h.title)| > 0 && PROTOCOL in d.value && d.value[PROTOCOL] == Words(h.title)[0]
                 && (|Words(h.title)| >= 2 ==> RESPONSE in d.value && d.value[RESPONSE] == Words(h.title)[1])
  {
    var (h, n) := Decode(s).value;
    HeadLines(s);
    hide Decode, Find, SplitLines, PutLines, Words;
    var lines := SplitLines(s[..n - 4]);
    if ParseLines(lines).Some? {
      var first := FirstLine(lines[0]).value;
      PutLinesKeep(first, lines[1..], PROTOCOL);
      if |Words(h.title)| >= 2 {
        PutLinesKeep(first, lines[1..], RESPONSE);
      }
    }
  }

  /** For a title of one word that is the Protocol; for a title of two, separated by a blank, they are
      Protocol and Response. */
  lemma ProtocolLine(s: seq<byte>, first: seq<byte>, x: byte, second: seq<byte>)
    requires Decode(s).Some? && Blank(x) && first != [] && NoBlanks(first) && second != [] && NoBlanks(second)
    ensures var (h, n) := Decode(s).value;
            && 4 <= n <= |s| && SplitLines(s[..n - 4]) != []
            && var d := ParseLines(SplitLines(s[..n - 4]));
               && (h.title == first ==> d.Some? && PROTOCOL in d.value && d.value[PROTOCOL] == first)
               && (h.title == first + ([x] + second) ==>
                     && d.Some? && PROTOCOL in d.value && RESPONSE in d.value
                     && d.value[PROTOCOL] == first && d.value[RESPONSE] == second)
  {
    OneWord(first);
    OneWord(second);
    WordsApart(first, x, second);
    hide *;
    ParsersAgree(s, []);
    TitleWords(s);
  }
}
