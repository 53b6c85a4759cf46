/** The strings of the protocol, spelled in characters. */
module Literals {
  import opened Bytes
  import opened Header
  import opened HeaderParsers
  import opened Numbers
  import opened Receive
  import opened Tree

  /** The bytes of an ASCII string. */
  function Ascii(s: string): (b: seq<byte>)
    requires forall i :: 0 <= i < |s| ==> s[i] as int < 128
    ensures |b| == |s| && forall i :: 0 <= i < |s| ==> b[i] == s[i] as int
  {
    seq(|s|, i requires 0 <= i < |s| => s[i] as int)
  }

  lemma Spellings()
    ensures CRLF == Ascii("\r\n") && FLAG == Ascii("\r\n\r\n") && COLON == Ascii(": ")
    ensures CONTENT_LEN == Ascii("Content-Length")
    ensures PROTOCOL == Ascii("Protocol") && RESPONSE == Ascii("Response")
    ensures DOT == Ascii(".") && DOTDOT == Ascii("..") && [SLASH] == Ascii("/")
  {
  }

  /** The head of a data node's reply, byte by byte. */
  lemma ReplyHead(title: seq<byte>, n: nat)
    ensures Encode(Head(title, [LengthEntry(Decimal(n))]))
         == title + Ascii("\r\nContent-Length: ") + Decimal(n) + Ascii("\r\n\r\n")
  {
    OneEntry(title, LengthEntry(Decimal(n)));
    Separators();
    hide Ascii, Decimal, Encode;
    Joined(title, CRLF, CONTENT_LEN, COLON, Decimal(n));
  }

  lemma Separators()
    ensures Ascii("\r\nContent-Length: ") == CRLF + CONTENT_LEN + COLON
    ensures Ascii("\r\n\r\n") == CRLF + CRLF
  {
  }

  lemma OneEntry(title: seq<byte>, e: Entry)
    ensures Encode(Head(title, [e])) == title + CRLF + (e.name + COLON + e.value + CRLF) + CRLF
  {
    assert [e][1..] == [] && EncodeEntries([]) == [];
    assert e.name + COLON + e.value + CRLF + [] == e.name + COLON + e.value + CRLF;
    assert EncodeEntries([e]) == e.name + COLON + e.value + CRLF;
  }

  lemma Joined<T>(t: seq<T>, a: seq<T>, b: seq<T>, c: seq<T>, d: seq<T>)
    ensures t + a + (b + c + d + a) + a == t + (a + b + c) + d + (a + a)
  {
  }

  lemma SampleNumber()
    ensures Decimal(1048576) == Ascii("1048576")
  {
    assert Decimal(104) == [49, 48, 52];
    assert Decimal(104857) == Decimal(104) + [56, 53, 55];
    assert Decimal(1048576) == Decimal(104857) + [54];
  }
}
