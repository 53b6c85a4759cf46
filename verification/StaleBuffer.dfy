/** Exactly which junk in the uncleared receive buffer does harm. */
module StaleBuffer {
  import opened Bytes
  import opened Header
  import opened Numbers
  import opened Receive
  import opened Tree

  /** The buffer with the first bytes of a message over the junk. */
  function Over(m: seq<byte>, received: nat, junk: seq<byte>): seq<byte>
    requires received <= |m| && received <= |junk|
  {
    m[..received] + junk[received..] + [0]
  }

  lemma OverArrived(m: seq<byte>, received: nat, junk: seq<byte>)
    requires received <= |m| && received <= |junk| == 4096
    ensures Arrived(m, received, junk, Over(m, received, junk))
  {
    var buf := Over(m, received, junk);
    assert buf[..received] == m[..received] && buf[received..4096] == junk[received..];
  }

  /** The string seen starts with the received bytes and what follows them, up to the first zero. */
  lemma OverStarts(m: seq<byte>, received: nat, junk: seq<byte>, x: seq<byte>)
    requires received <= |m| && received + |x| <= |junk|
    requires junk[received..received + |x|] == x && NulFree(m[..received]) && NulFree(x)
    ensures var c := CStr(Over(m, received, junk)); var s := m[..received] + x;
            |s| <= |c| && c[..|s|] == s && c[|s|..] == CStr(junk[|s|..])
  {
    var buf, s := Over(m, received, junk), m[..received] + x;
    assert buf[..|s|] == s;
    assert forall k :: 0 <= k < |s| ==> buf[k] == s[k];
    CStrLong(buf, |s|);
    CStrDrop(buf, |s|);
    assert buf[|s|..] == junk[|s|..] + [0];
    CStrZero(junk[|s|..]);
  }

  /** A message that get_missing_len misjudges after so many bytes. */
  ghost predicate Misjudged(h: Head, body: seq<byte>, received: nat, junk: seq<byte>) {
    && 0 < received <= |junk| && received <= |Encode(h) + body| && Message(h, body)
    && !Right(h, body, received, Over(Encode(h) + body, received, junk))
  }

  /** After so many bytes of a message get_missing_len asks for n more. */
  ghost predicate AsksFor(m: seq<byte>, received: nat, junk: seq<byte>, n: int) {
    && received <= |m| && received <= |junk| && FieldFits(CStr(Over(m, received, junk)))
    && MissingLen(CStr(Over(m, received, junk)), received) == n
  }

  lemma AsksWrongly(h: Head, body: seq<byte>, received: nat, junk: seq<byte>, n: nat)
    requires Message(h, body) && 0 < received && AsksFor(Encode(h) + body, received, junk, n)
    requires n != |Encode(h) + body| - received
    ensures Misjudged(h, body, received, junk)
  {
    hide Encode, Message, CStr, Over, FieldFits, MissingLen;
  }

  lemma AsksIntro(m: seq<byte>, received: nat, junk: seq<byte>, n: int)
    requires received <= |m| && received <= |junk| && FieldFits(CStr(Over(m, received, junk)))
    requires MissingLen(CStr(Over(m, received, junk)), received) == n
    ensures AsksFor(m, received, junk, n)
  {
  }

  lemma CrLfIs(junk: seq<byte>, j: nat)
    requires CrLfAt(junk, j)
    ensures j + 2 <= |junk| && junk[j..j + 2] == CRLF && NulFree(CRLF)
    ensures CrLfAt(junk, j + 2) ==> j + 4 <= |junk| && junk[j..j + 4] == FLAG && NulFree(FLAG)
  {
  }

  /** The first bytes of the message together with a line end or two from the junk are taken for
      another head, which announces another number of bytes. */
  lemma TakenForOther(h: Head, body: seq<byte>, received: nat, junk: seq<byte>, x: seq<byte>, other: Head, n: nat)
    requires Message(h, body) && 0 < received <= |Encode(h)| && received + |x| <= |junk| == 4096
    requires junk[received..received + |x|] == x && NulFree(x)
    requires Encode(h)[..received] + x == Encode(other) && Plain(other) && Announces(other, n)
    requires n + |Encode(other)| < 0x8000_0000_0000_0000
    requires received <= n + |Encode(other)| != |Encode(h)| + |body|
    ensures AsksFor(Encode(h) + body, received, junk, n + |Encode(other)| - received)
    ensures Misjudged(h, body, received, junk)
  {
    hide *;
    var m := Encode(h) + body;
    MessageParts(h, body);
    assert m[..received] == Encode(h)[..received];
    NulFreeFront(Encode(h), received);
    OverStarts(m, received, junk, x);
    var c := CStr(Over(m, received, junk));
    WholeHead(other, n, c, received);
    AsksIntro(m, received, junk, n + |Encode(other)| - received);
    AsksWrongly(h, body, received, junk, n + |Encode(other)| - received);
  }

  lemma NulFreeFront(s: seq<byte>, k: nat)
    requires NulFree(s) && k <= |s|
    ensures NulFree(s[..k])
  {
  }

  // ----- heads made for the purpose -----

  function Times(b: byte, n: nat): (r: seq<byte>)
    ensures |r| == n && forall i :: 0 <= i < n ==> r[i] == b
  {
    seq(n, _ => b)
  }

  lemma {:induction false} DigitsZero(n: nat)
    ensures Digits(Times(48, n), 0) == 0
  {
    if n > 0 {
      assert Times(48, n)[1..] == Times(48, n - 1);
      DigitsZero(n - 1);
    }
  }

  lemma AtollZeros(n: nat)
    ensures Atoll(Times(48, n)) == 0
  {
    DigitsZero(n);
    hide Digits;
  }

  /** A first line that is a length field of value 0. */
  function ZeroTitle(z: nat): (r: seq<byte>)
    ensures |r| == 16 + z
  {
    CONTENT_LEN + COLON + Times(48, z)
  }

  lemma ZeroTitleFacts(z: nat)
    ensures NoCr(ZeroTitle(z)) && NulFree(ZeroTitle(z)) && ZeroTitle(z)[..14] == CONTENT_LEN
    ensures ZeroTitle(z)[16..] == Times(48, z)
  {
    assert forall i :: 0 <= i < 16 ==> (CONTENT_LEN + COLON)[i] != 0 && (CONTENT_LEN + COLON)[i] != 13;
  }

  function Filler(v: seq<byte>): Entry {
    Entry([], v)
  }

  lemma FillerLine(v: seq<byte>)
    ensures Line(Filler(v)) == COLON + v && |Line(Filler(v))| == 2 + |v|
    ensures NulFree(v) ==> NulFree(Line(Filler(v)))
    ensures NoCr(v) ==> CleanEntry(Filler(v))
    ensures Find(v, CRLF) < 0 ==> PlainEntry(Filler(v))
  {
    NoCrLf([]);
  }

  lemma {:induction false} NulFreeEntries(es: seq<Entry>)
    requires forall i :: 0 <= i < |es| ==> NulFree(Line(es[i]))
    ensures NulFree(EncodeEntries(es))
    decreases |es|
  {
    EncodeFirst(es);
    if es != [] {
      NulFreeEntries(es[1..]);
      hide Line, EncodeEntries;
    }
  }

  lemma NulFreeHead(title: seq<byte>, es: seq<Entry>)
    requires NulFree(title) && NulFree(EncodeEntries(es))
    ensures NulFree(Encode(Head(title, es)))
  {
    hide EncodeEntries;
  }

  /** Whatever follows such a first line, the head announces no bytes. */
  lemma ZeroAnnounced(z: nat, es: seq<Entry>)
    requires z < 64
    ensures Announces(Head(ZeroTitle(z), es), 0)
  {
    hide *;
    var h, t := Head(ZeroTitle(z), es), ZeroTitle(z);
    ZeroTitleFacts(z);
    NoCrNoLineEnd(t);
    TitleLine(h, []);
    HeadShape(h);
    var e := Encode(h);
    assert e + [] == e && e[0..] == e;
    NameFirst(t, e);
    FieldParts(e);
    SliceOfSlice(e, 0, |t|, 16, |t|);
    assert e[0..|t|] == t;
    AtollZeros(z);
    AnnouncesIntro(h, 16, |t|, 0);
  }

  lemma NameFirst(t: seq<byte>, e: seq<byte>)
    requires 14 <= |t| <= |e| && t[..14] == CONTENT_LEN && e[..|t|] == t
    ensures Find(e, CONTENT_LEN) == 0
  {
    assert e[0..14] == e[..|t|][..14];
    FindIs(e, CONTENT_LEN, 0);
  }

  lemma AnnouncesIntro(h: Head, lo: nat, hi: nat, n: nat)
    requires LengthField(Encode(h)) == Some((lo, hi)) && lo <= hi <= |Encode(h)| && hi - lo < 64
    requires Atoll(Encode(h)[lo..hi]) == n
    ensures Announces(h, n)
  {
  }

  lemma MessageIntro(h: Head, body: seq<byte>)
    requires Clean(h) && NulFree(Encode(h)) && |Encode(h)| <= 4096 && Announces(h, |body|)
    requires |Encode(h)| + |body| < 0x8000_0000_0000_0000
    ensures Message(h, body)
  {
  }

  /** A message with such a first line, a filling line or none, and lines without name and value. */
  lemma ZeroMessage(z: nat, es: seq<Entry>)
    requires z < 64 && 20 + z + |EncodeEntries(es)| <= 4096
    requires forall i :: 0 <= i < |es| ==> CleanEntry(es[i]) && NulFree(Line(es[i]))
    ensures Message(Head(ZeroTitle(z), es), []) && Plain(Head(ZeroTitle(z), es))
  {
    var h := Head(ZeroTitle(z), es);
    ZeroTitleFacts(z);
    assert Clean(h);
    hide *;
    NulFreeEntries(es);
    NulFreeHead(ZeroTitle(z), es);
    ZeroAnnounced(z, es);
    HeadShape(h);
    MessageIntro(h, []);
    CleanIsPlain(h);
  }

  // ----- a line end where a line can begin -----

  lemma {:induction false} EncodeJoin(es: seq<Entry>, more: seq<Entry>)
    ensures EncodeEntries(es + more) == EncodeEntries(es) + EncodeEntries(more)
    decreases |more|
  {
    EncodeFirst(more);
    hide *;
    if more == [] {
      assert es + more == es && EncodeEntries(es) + [] == EncodeEntries(es);
    } else {
      var front, e := more[..|more| - 1], more[|more| - 1];
      EncodeJoin(es, front);
      EncodeMore(es + front, e);
      EncodeMore(front, e);
      assert es + more == (es + front) + [e] && more == front + [e];
      var a, b := EncodeEntries(es), EncodeEntries(front);
      Assoc(a, b + Line(e), CRLF);
      Assoc(a, b, Line(e));
    }
  }

  lemma CutShape(a: seq<byte>, e: seq<byte>, m: seq<byte>, x: seq<byte>, b: seq<byte>)
    ensures var s := a + (e + m) + x + b;
            |s| == |a + e| + |m| + |x| + |b| && s[..|a + e|] == a + e
  {
    Assoc(a, e, m);
  }

  /** When the bytes of a head up to the end of its length line or a later one have arrived, with
      lines still to come, and the buffer happens to go on with a line end and then anything at all,
      the head is taken for complete: fewer bytes are asked for than are missing. */
  lemma JunkCutsShort(title: seq<byte>, es: seq<Entry>, more: seq<Entry>, body: seq<byte>, junk: seq<byte>,
                      received: nat)
    requires Message(Head(title, es + more), body) && Announces(Head(title, es), |body|) && more != []
    requires |junk| == 4096 && received == |title| + 2 + |EncodeEntries(es)| && CrLfAt(junk, received)
    ensures var m := Encode(Head(title, es + more)) + body;
            AsksFor(m, received, junk, |body| + 2) && |body| + 2 < |m| - received
    ensures Misjudged(Head(title, es + more), body, received, junk)
  {
    var h, other := Head(title, es + more), Head(title, es);
    HeadWhole(title, es);
    HeadWhole(title, es + more);
    EncodeJoin(es, more);
    EncodeFirst(more);
    hide *;
    CrLfIs(junk, received);
    CutShape(title + CRLF, EncodeEntries(es), EncodeEntries(more), CRLF, []);
    MessageParts(h, body);
    CleanIsPlain(h);
    FewerPlain(title, es, more);
    assert Encode(h) + [] == Encode(h);
    TakenForOther(h, body, received, junk, CRLF, other, |body|);
  }

  lemma FewerPlain(title: seq<byte>, es: seq<Entry>, more: seq<Entry>)
    requires Plain(Head(title, es + more))
    ensures Plain(Head(title, es))
  {
    hide PlainEntry, Find;
    forall i | 0 <= i < |es| ensures PlainEntry(es[i]) {
      assert (es + more)[i] == es[i];
    }
  }

  lemma EncodeOne(e: Entry)
    ensures EncodeEntries([e]) == Line(e) + CRLF && |EncodeEntries([e])| == |Line(e)| + 2 && EncodeEntries([]) == []
  {
    assert [e][1..] == [];
  }

  lemma PlainBytes(n: nat)
    ensures NoCr(Times(97, n)) && NulFree(Times(97, n))
  {
  }

  lemma TitleSize(z: nat)
    ensures |ZeroTitle(z)| == 16 + z && |Times(97, z)| == z && Times(97, 0) == []
  {
  }

  /** Some message is misjudged. */
  ghost predicate Harmful(junk: seq<byte>) {
    exists h, body, received: nat :: Misjudged(h, body, received, junk)
  }

  lemma HarmfulBy(h: Head, body: seq<byte>, received: nat, junk: seq<byte>)
    requires Misjudged(h, body, received, junk)
    ensures Harmful(junk)
  {
    hide Misjudged;
  }

  lemma LineEndHarms(junk: seq<byte>, j: nat)
    requires |junk| == 4096 && CrLfAt(junk, j) && 18 <= j <= 4090
    ensures Harmful(junk)
  {
    hide *;
    var z, n := if j < 22 then j - 18 else 0, if j < 22 then 0 else j - 22;
    var line, last := Filler(Times(97, n)), Filler([]);
    var es, more := if j < 22 then [] else [line], [last];
    PlainBytes(n);
    PlainBytes(0);
    TitleSize(n);
    TitleSize(0);
    TitleSize(z);
    FillerLine(Times(97, n));
    FillerLine([]);
    EncodeOne(line);
    EncodeOne(last);
    EncodeJoin(es, more);
    assert forall i :: 0 <= i < |es + more| ==> (es + more)[i] == line || (es + more)[i] == last;
    ZeroMessage(z, es + more);
    ZeroAnnounced(z, es);
    JunkCutsShort(ZeroTitle(z), es, more, [], junk, j);
    HarmfulBy(Head(ZeroTitle(z), es + more), [], j, junk);
  }

  // ----- two line ends -----

  /** Two line ends right after the name of the length field leave the field no room. */
  lemma EarlyDoubleHarms(junk: seq<byte>, i: nat)
    requires |junk| == 4096 && CrLfAt(junk, i) && CrLfAt(junk, i + 2) && 14 <= i < 16
    ensures Harmful(junk)
  {
    hide *;
    var h := Head(ZeroTitle(0), []);
    EncodeFirst([]);
    HeadShape(h);
    TitleSize(0);
    ZeroMessage(0, []);
    CrLfIs(junk, i);
    MessageParts(h, []);
    NulFreeFront(Encode(h), i);
    TitleFront(i);
    assert (Encode(h) + [])[..i] == Encode(h)[..i] == ZeroTitle(0)[..i];
    OverStarts(Encode(h) + [], i, junk, FLAG);
    NoRoom(CStr(Over(Encode(h) + [], i, junk)), ZeroTitle(0)[..i]);
    UnfitMisjudged(h, [], i, junk);
    HarmfulBy(h, [], i, junk);
  }

  lemma UnfitMisjudged(h: Head, body: seq<byte>, received: nat, junk: seq<byte>)
    requires Message(h, body) && 0 < received <= |junk| && received <= |Encode(h) + body|
    requires !FieldFits(CStr(Over(Encode(h) + body, received, junk)))
    ensures Misjudged(h, body, received, junk)
  {
    hide Encode, Message, CStr, Over, FieldFits, MissingLen;
  }

  lemma TitleFront(i: nat)
    requires 14 <= i < 16
    ensures var x := ZeroTitle(0)[..i]; NoCr(x) && x[..14] == CONTENT_LEN && |x| == i
  {
    ZeroTitleFacts(0);
  }

  lemma NoRoom(c: seq<byte>, x: seq<byte>)
    requires NoCr(x) && 14 <= |x| < 16 && x[..14] == CONTENT_LEN
    requires |x + FLAG| <= |c| && c[..|x + FLAG|] == x + FLAG
    ensures !FieldFits(c)
  {
    hide *;
    var s := x + FLAG;
    NoCrNoLineEnd(x);
    NameFirst(x, s);
    FlagParts(x);
    LineEnd(x, CRLF);
    FieldParts(s);
    assert s[0..] == s;
    FieldInPrefix(s, c);
    FindInPrefix(s, c, FLAG);
    NotFit(c);
  }

  lemma FlagParts(x: seq<byte>)
    ensures x + FLAG == x + CRLF + CRLF && Find(x + FLAG, FLAG) >= 0 && (x + FLAG)[..|x|] == x
  {
    assert Match(x + FLAG, FLAG, |x|);
  }

  lemma NotFit(c: seq<byte>)
    requires Find(c, FLAG) >= 0 && LengthField(c).Some? && LengthField(c).value.1 < LengthField(c).value.0
    ensures !FieldFits(c)
  {
    hide LengthField, Find;
  }

  /** Two line ends at the very end of the buffer are taken for the end of a head of 4095 or 4096
      bytes, also where the head has one byte more or less. */
  lemma LateDoubleHarms(junk: seq<byte>, i: nat)
    requires |junk| == 4096 && CrLfAt(junk, i) && CrLfAt(junk, i + 2) && 4090 < i
    ensures Harmful(junk)
  {
    hide *;
    CrLfIs(junk, i);
    var n, v := if i == 4091 then 4072 else 4071, if i == 4091 then Times(97, 4071) else Times(97, 4071) + [13];
    var sent, seen := Filler(Times(97, n)), Filler(v);
    PlainBytes(n);
    TitleSize(n);
    TitleSize(4071);
    TitleSize(0);
    FillerLine(Times(97, n));
    LastByte(4071);
    FillerLine(v);
    EncodeOne(sent);
    EncodeOne(seen);
    ZeroMessage(0, [sent]);
    ZeroAnnounced(0, [seen]);
    ZeroPlain([seen]);
    HeadWhole(ZeroTitle(0), [sent]);
    HeadWhole(ZeroTitle(0), [seen]);
    LateShape(ZeroTitle(0) + CRLF, Times(97, n), v);
    TakenForOther(Head(ZeroTitle(0), [sent]), [], i, junk, FLAG, Head(ZeroTitle(0), [seen]), 0);
    HarmfulBy(Head(ZeroTitle(0), [sent]), [], i, junk);
  }

  lemma LastByte(n: nat)
    ensures Find(Times(97, n), CRLF) < 0 && Find(Times(97, n) + [13], CRLF) < 0
    ensures Times(97, n + 1) == Times(97, n) + [97]
  {
    NoCrLf(Times(97, n));
    NoCrLf(Times(97, n) + [13]);
  }

  lemma ZeroPlain(es: seq<Entry>)
    requires forall i :: 0 <= i < |es| ==> PlainEntry(es[i])
    ensures Plain(Head(ZeroTitle(0), es))
  {
    ZeroTitleFacts(0);
    NoCrNoLineEnd(ZeroTitle(0));
    hide PlainEntry, Find;
  }

  /** The head with the value v, up to the end of v, begins the one with the value w. */
  lemma LateShape(t: seq<byte>, w: seq<byte>, v: seq<byte>)
    requires (|v| + 1 == |w| && w[..|v|] == v) || v == w + [13]
    ensures var a, b := t + (COLON + w + CRLF) + CRLF, t + (COLON + v + CRLF) + CRLF;
            var r := |t| + 2 + |v|;
            r <= |a| && a[..r] + FLAG == b && |a| == |t| + |w| + 6 && |b| == |t| + |v| + 6
  {
    var a, b := t + (COLON + w + CRLF) + CRLF, t + (COLON + v + CRLF) + CRLF;
    var r := |t| + 2 + |v|;
    assert a[..r] == t + COLON + v;
  }

  // ----- a line end with a length field after it in the buffer -----

  /** Two messages that differ in the announced byte only after the first r: one of them is misjudged. */
  lemma FieldHarms(junk: seq<byte>, r: nat, j: nat)
    requires |junk| == 4096 && 2 <= j < 18 && Completes(junk, r, j) && Counts(junk, r, j)
    requires CrLfAt(junk, j) && (16 <= j ==> !CrLfAt(junk, j - 2))
    ensures Harmful(junk)
  {
    hide *;
    var t := Times(97, j - 2);
    PlainBytes(j - 2);
    NoName(j - 2);
    OneDigit();
    DigitsMessage(t, [48], []);
    DigitsMessage(t, [49], [97]);
    ReplyStart(t, [48]);
    ReplyStart(t, [49]);
    var h0, h1 := Head(t, [LengthEntry([48])]), Head(t, [LengthEntry([49])]);
    var m0, m1 := Encode(h0) + [], Encode(h1) + [97];
    CompletedBytes(junk, r, j, t);
    SameStart(Encode(h0), [], Encode(h1), [97], t + CRLF, r);
    SameOver(m0, m1, r, junk);
    OverStarts(m0, r, junk, junk[r..j + 2]);
    var c := CStr(Over(m0, r, junk));
    CompletedField(junk, r, j, t, c);
    if FieldFits(c) {
      var n := MissingLen(c, r);
      AsksIntro(m0, r, junk, n);
      AsksIntro(m1, r, junk, n);
      if n != |m0| - r {
        AsksWrongly(h0, [], r, junk, n);
        HarmfulBy(h0, [], r, junk);
      } else {
        AsksWrongly(h1, [97], r, junk, n);
        HarmfulBy(h1, [97], r, junk);
      }
    } else {
      UnfitMisjudged(h0, [], r, junk);
      HarmfulBy(h0, [], r, junk);
    }
  }

  /** The first r bytes of both messages are those of the first line and its end. */
  lemma SameStart(e0: seq<byte>, b0: seq<byte>, e1: seq<byte>, b1: seq<byte>, line: seq<byte>, r: nat)
    requires r <= |line| <= |e0| && |line| <= |e1| && e0[..|line|] == line && e1[..|line|] == line
    ensures (e0 + b0)[..r] == line[..r] && (e1 + b1)[..r] == line[..r]
  {
    assert (e0 + b0)[..r] == e0[..|line|][..r];
    assert (e1 + b1)[..r] == e1[..|line|][..r];
  }

  /** What the first r bytes of such a line and the junk up to the line end at j make: a title, a
      double line end, no earlier one, no name. */
  lemma CompletedBytes(junk: seq<byte>, r: nat, j: nat, t: seq<byte>)
    requires |junk| == 4096 && 2 <= j < 18 && Completes(junk, r, j) && t == Times(97, j - 2)
    requires 16 <= j ==> !CrLfAt(junk, j - 2)
    ensures 0 < r <= |t + CRLF| == |t| + 2 && j + 2 <= |junk| && NulFree(junk[r..j + 2]) && NulFree((t + CRLF)[..r])
    ensures var s := (t + CRLF)[..r] + junk[r..j + 2];
            && |s| == j + 2 && CrLfAt(s, j - 2) && CrLfAt(s, j)
            && (forall k :: 0 <= k < j - 2 ==> !(CrLfAt(s, k) && CrLfAt(s, k + 2)))
            && (j >= 16 ==> s[0] == 97 && s[1] == 97)
  {
    var s := (t + CRLF)[..r] + junk[r..j + 2];
    assert forall k :: 0 <= k < r ==> s[k] == if k < j - 2 then 97 else if k == j - 2 then 13 else 10;
    assert forall k :: r <= k < j + 2 ==> s[k] == junk[k];
    assert forall k :: r <= k < j ==> junk[k] == junk[r..j][k - r];
    forall k | 0 <= k < j - 2 ensures !(CrLfAt(s, k) && CrLfAt(s, k + 2)) {
      if k >= r {
        assert !(CrLfAt(junk, k) && CrLfAt(junk, k + 2));
      }
    }
  }

  /** In the string seen the double line end is the first, and the field is that of the rest. */
  lemma CompletedField(junk: seq<byte>, r: nat, j: nat, t: seq<byte>, c: seq<byte>)
    requires |junk| == 4096 && 2 <= j < 18 && Completes(junk, r, j) && Counts(junk, r, j) && t == Times(97, j - 2)
    requires (16 <= j ==> !CrLfAt(junk, j - 2)) && r <= |t + CRLF| && j + 2 <= |junk|
    requires var s := (t + CRLF)[..r] + junk[r..j + 2]; |s| <= |c| && c[..|s|] == s && c[|s|..] == CStr(junk[|s|..])
    ensures FieldFits(c) ==> MissingLen(c, r) >= 0
  {
    hide *;
    var d := CStr(junk[j + 2..]);
    CompletedBytes(junk, r, j, t);
    CompletedFlag(c, (t + CRLF)[..r] + junk[r..j + 2], j);
    CountsFacts(junk, r, j);
    FieldParts(d);
    FindSkip(c, CONTENT_LEN, j + 2);
    FieldParts(c);
    assert c[j + 2..] == d;
    assert c[j + 2..][Find(d, CONTENT_LEN)..] == c[j + 2 + Find(d, CONTENT_LEN)..];
    FindFacts(d[Find(d, CONTENT_LEN)..], CRLF);
    if FieldFits(c) {
      MissingIs(c, r);
      var (lo, hi) := LengthField(d).value;
      SliceOfSlice(c, j + 2, |c|, lo, hi);
      assert c[j + 2..|c|] == c[j + 2..];
    }
  }

  lemma CountsFacts(junk: seq<byte>, r: nat, j: nat)
    requires j + 2 <= |junk| && Counts(junk, r, j)
    ensures var d := CStr(junk[j + 2..]);
            && LengthField(d).Some?
            && var (lo, hi) := LengthField(d).value;
               lo <= hi <= |d| && hi - lo < 64 ==> Signed64(Atoll(d[lo..hi]) + (j + 2) - r) >= 0
  {
    hide LengthField, CStr, Atoll, Signed64;
  }

  lemma CompletedFlag(c: seq<byte>, s: seq<byte>, j: nat)
    requires 2 <= j < 18 && |s| == j + 2 <= |c| && c[..|s|] == s && CrLfAt(s, j - 2) && CrLfAt(s, j)
    requires forall k :: 0 <= k < j - 2 ==> !(CrLfAt(s, k) && CrLfAt(s, k + 2))
    requires j >= 16 ==> s[0] == 97 && s[1] == 97
    ensures Find(c, FLAG) == j - 2
    ensures forall k :: 0 <= k < j + 2 ==> !Match(c, CONTENT_LEN, k)
  {
    assert forall k :: 0 <= k < |s| ==> c[k] == s[k];
    forall k: nat | k <= j - 2 ensures Match(c, FLAG, k) <==> k == j - 2 {
      MatchCrLf(c, k);
      assert CrLfAt(c, k) && CrLfAt(c, k + 2) <==> CrLfAt(s, k) && CrLfAt(s, k + 2);
    }
    FindIs(c, FLAG, j - 2);
    forall k | 0 <= k < j + 2 ensures !Match(c, CONTENT_LEN, k) {
      NameStart(c, k);
      if Match(c, CONTENT_LEN, k) {
        NoOverlap(c, k, j - 2);
      }
    }
  }

  lemma NameStart(c: seq<byte>, k: nat)
    ensures Match(c, CONTENT_LEN, k) ==> k < |c| && c[k] == 67
  {
    if k + 14 <= |c| {
      assert c[k..k + 14][0] == c[k];
    }
  }

  lemma SameOver(m0: seq<byte>, m1: seq<byte>, j: nat, junk: seq<byte>)
    requires j <= |m0| && j <= |m1| && j <= |junk| && m0[..j] == m1[..j]
    ensures Over(m0, j, junk) == Over(m1, j, junk)
  {
  }

  lemma NoName(n: nat)
    ensures Find(Times(97, n), CONTENT_LEN) < 0 && Find(Times(97, n), CRLF) < 0 && |Times(97, n)| == n
    ensures Find(Times(97, n) + CRLF, CONTENT_LEN) < 0
  {
    var t := Times(97, n);
    forall k: nat ensures !Match(t, CONTENT_LEN, k) && !Match(t + CRLF, CONTENT_LEN, k) {
      if k + 14 <= |t + CRLF| {
        assert (t + CRLF)[k..k + 14][0] == (t + CRLF)[k] != CONTENT_LEN[0];
      }
      if k + 14 <= |t| {
        assert t[k..k + 14][0] == t[k] != CONTENT_LEN[0];
      }
    }
    NoCrNoLineEnd(t);
  }

  lemma OneDigit()
    ensures AllDigits([48]) && Atoll([48]) == 0 && AllDigits([49]) && Atoll([49]) == 1
  {
  }

  /** The first line of a reply, and its length. */
  lemma ReplyStart(t: seq<byte>, value: seq<byte>)
    requires |value| == 1
    ensures var e := Encode(Head(t, [LengthEntry(value)]));
            |e| == |t| + 23 && |t| + 2 <= |e| && e[..|t| + 2] == t + CRLF
  {
    HeadWhole(t, [LengthEntry(value)]);
    EncodeOne(LengthEntry(value));
    var e := Encode(Head(t, [LengthEntry(value)]));
    assert e == t + CRLF + (EncodeEntries([LengthEntry(value)]) + CRLF);
    assert |Line(LengthEntry(value))| == 17;
  }

  // ----- exactly the harmful line ends -----

  /** Whatever message arrives, and however many of its bytes have arrived, get_missing_len is right
      about it. */
  ghost predicate AlwaysRight(junk: seq<byte>) {
    forall h, body, received: nat, buf ::
      0 < received && Message(h, body) && Arrived(Encode(h) + body, received, junk, buf) ==>
        Right(h, body, received, buf)
  }

  lemma HarmfulIsWrong(junk: seq<byte>)
    requires |junk| == 4096 && Harmful(junk)
    ensures !AlwaysRight(junk)
  {
    hide Message, Right, Arrived, Encode, Over;
    var h, body, received: nat :| Misjudged(h, body, received, junk);
    OverArrived(Encode(h) + body, received, junk);
  }

  lemma HarmlessIsRight(junk: seq<byte>)
    requires Harmless(junk)
    ensures AlwaysRight(junk)
  {
    hide Message, Right, Arrived, Encode, Harmless;
    forall h, body, received: nat, buf
      | 0 < received && Message(h, body) && Arrived(Encode(h) + body, received, junk, buf)
      ensures Right(h, body, received, buf)
    {
      MissingOfPart(h, body, received, junk, buf);
    }
  }

  lemma HarmsIsHarmful(junk: seq<byte>, j: nat)
    requires |junk| == 4096 && Harms(junk, j)
    ensures Harmful(junk)
  {
    HarmsParts(junk, j);
    hide *;
    if 18 <= j <= 4090 {
      LineEndHarms(junk, j);
    } else if 16 <= j && CrLfAt(junk, j - 2) {
      if j < 18 {
        EarlyDoubleHarms(junk, j - 2);
      } else if j - 2 <= 4090 {
        LineEndHarms(junk, j - 2);
      } else {
        LateDoubleHarms(junk, j - 2);
      }
    } else {
      var r := FieldReceived(junk, j);
      FieldHarms(junk, r, j);
    }
  }

  lemma FieldReceived(junk: seq<byte>, j: nat) returns (r: nat)
    requires Harms(junk, j) && !(18 <= j <= 4090) && !(16 <= j && CrLfAt(junk, j - 2))
    ensures Completes(junk, r, j) && Counts(junk, r, j)
  {
    hide Completes, Counts;
    r :| Completes(junk, r, j) && Counts(junk, r, j);
  }

  lemma HarmsParts(junk: seq<byte>, j: nat)
    requires |junk| == 4096 && Harms(junk, j)
    ensures 2 <= j && CrLfAt(junk, j)
    ensures 18 <= j <= 4090 || (16 <= j && CrLfAt(junk, j - 2)) || j < 18
  {
    hide Completes;
    if j > 4090 && LengthField(CStr(junk[j + 2..])).Some? {
      FieldRoom(CStr(junk[j + 2..]));
    }
  }

  lemma FieldRoom(s: seq<byte>)
    requires LengthField(s).Some?
    ensures |s| >= 14
  {
    FieldParts(s);
  }

  /** get_missing_len is right on every part of every message if and only if no line end in the
      buffer does harm. */
  lemma BufferExact(junk: seq<byte>)
    requires |junk| == 4096
    ensures AlwaysRight(junk) <==> Harmless(junk)
  {
    hide AlwaysRight, Harms, Harmful;
    if Harmless(junk) {
      HarmlessIsRight(junk);
    } else {
      var j: nat :| Harms(junk, j);
      HarmsIsHarmful(junk, j);
      HarmfulIsWrong(junk);
    }
  }
}
