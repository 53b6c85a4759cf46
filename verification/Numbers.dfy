/** Numbers as the library reads and prints them. */
module Numbers {
  import opened Bytes
  import opened Tree

  /** What isspace accepts. */
  predicate Blank(b: byte) {
    b == 32 || 9 <= b <= 13
  }

  function Digit(b: byte): Option<nat> {
    if 48 <= b <= 57 then Some(b - 48) else None
  }

  /** The value of the leading digits, after acc. */
  function Digits(s: seq<byte>, acc: nat): nat
    decreases |s|
  {
    if s == [] || Digit(s[0]).None? then acc else Digits(s[1..], 10 * acc + Digit(s[0]).value)
  }

  function SkipBlanks(s: seq<byte>): seq<byte> {
    if s != [] && Blank(s[0]) then SkipBlanks(s[1..]) else s
  }

  /** The nearest signed 64-bit number. */
  function Clamp(n: int): int {
    if n >= 0x8000_0000_0000_0000 then 0x7FFF_FFFF_FFFF_FFFF
    else if n < -0x8000_0000_0000_0000 then -0x8000_0000_0000_0000
    else n
  }

  /** atoll: blanks, perhaps a sign, and the leading digits.  A value that does not fit is the
      nearest that does, as in the GNU C library. */
  function Atoll(s: seq<byte>): (n: int)
    ensures -0x8000_0000_0000_0000 <= n < 0x8000_0000_0000_0000
  {
    var t := SkipBlanks(s);
    if t == [] then 0
    else if t[0] == 45 then Clamp(0 - Digits(t[1..], 0))
    else if t[0] == 43 then Clamp(Digits(t[1..], 0))
    else Clamp(Digits(t, 0))
  }

  /** A sum of 64-bit numbers, unsigned in between, returned as a signed one. */
  function Signed64(n: int): int {
    var low := n % 0x1_0000_0000_0000_0000;
    if low >= 0x8000_0000_0000_0000 then low - 0x1_0000_0000_0000_0000 else low
  }

  /** It is the only signed 64-bit number that differs from the sum by a multiple of 2^64. */
  lemma SignedExact(n: int, r: int)
    ensures Signed64(n) == r <==>
              -0x8000_0000_0000_0000 <= r < 0x8000_0000_0000_0000 && (n - r) % 0x1_0000_0000_0000_0000 == 0
  {
    var q, low := n / 0x1_0000_0000_0000_0000, n % 0x1_0000_0000_0000_0000;
    assert n == 0x1_0000_0000_0000_0000 * q + low;
    if (n - r) % 0x1_0000_0000_0000_0000 == 0 {
      var k := (n - r) / 0x1_0000_0000_0000_0000;
      assert r == 0x1_0000_0000_0000_0000 * (q - k) + low;
    }
  }

  lemma SignedIs(n: int)
    ensures -0x8000_0000_0000_0000 <= n < 0x8000_0000_0000_0000 ==> Signed64(n) == n
    ensures 0x8000_0000_0000_0000 <= n < 0x1_8000_0000_0000_0000 ==> Signed64(n) == n - 0x1_0000_0000_0000_0000
  {
  }

  // ----- decimal text -----

  predicate AllDigits(s: seq<byte>) {
    s != [] && forall j :: 0 <= j < |s| ==> Digit(s[j]).Some?
  }

  /** What "%d" prints for a number that is not negative. */
  function Decimal(n: nat): (s: seq<byte>)
    ensures s != []
  {
    if n < 10 then [48 + n] else Decimal(n / 10) + [48 + n % 10]
  }

  lemma {:induction false} DecimalDigits(n: nat)
    ensures AllDigits(Decimal(n))
  {
    if n >= 10 {
      DecimalDigits(n / 10);
    }
  }

  lemma DecimalShort(n: nat)
    requires n < 0x8000_0000_0000_0000
    ensures |Decimal(n)| <= 19
  {
    assert Power10(3) == 1000;
    assert Power10(6) == 1000 * Power10(3);
    assert Power10(9) == 1000 * Power10(6);
    assert Power10(12) == 1000 * Power10(9);
    assert Power10(15) == 1000 * Power10(12);
    assert Power10(18) == 1000 * Power10(15);
    DecimalLength(n, 19);
  }

  function Power10(k: nat): nat {
    if k == 0 then 1 else 10 * Power10(k - 1)
  }

  lemma {:induction false} DecimalLength(n: nat, k: nat)
    requires k > 0 && n < Power10(k)
    ensures |Decimal(n)| <= k
  {
    if n >= 10 {
      DecimalLength(n / 10, k - 1);
    }
  }

  ghost predicate NoDigitFirst(s: seq<byte>) {
    s == [] || Digit(s[0]).None?
  }

  lemma {:induction false} DigitsMore(s: seq<byte>, d: byte, acc: nat)
    requires (forall j :: 0 <= j < |s| ==> Digit(s[j]).Some?) && Digit(d).Some?
    ensures Digits(s + [d], acc) == 10 * Digits(s, acc) + Digit(d).value
  {
    if s != [] {
      assert (s + [d])[1..] == s[1..] + [d];
      DigitsMore(s[1..], d, 10 * acc + Digit(s[0]).value);
    } else {
      assert (s + [d])[1..] == [];
    }
  }

  lemma {:induction false} DigitsStop(s: seq<byte>, rest: seq<byte>, acc: nat)
    requires (forall j :: 0 <= j < |s| ==> Digit(s[j]).Some?) && NoDigitFirst(rest)
    ensures Digits(s + rest, acc) == Digits(s, acc)
  {
    if s != [] {
      assert (s + rest)[1..] == s[1..] + rest;
      DigitsStop(s[1..], rest, 10 * acc + Digit(s[0]).value);
    } else {
      assert s + rest == rest;
    }
  }

  /** Reading the digits of a number gives the number. */
  lemma {:induction false} DigitsDecimal(n: nat)
    ensures Digits(Decimal(n), 0) == n
  {
    if n >= 10 {
      DigitsDecimal(n / 10);
      DecimalDigits(n / 10);
      DigitsMore(Decimal(n / 10), 48 + n % 10, 0);
    }
  }

  lemma {:induction false} BlanksSkipped(b: seq<byte>, s: seq<byte>)
    requires (forall i :: 0 <= i < |b| ==> Blank(b[i])) && s != [] && !Blank(s[0])
    ensures SkipBlanks(b + s) == s
  {
    if b != [] {
      assert (b + s)[1..] == b[1..] + s;
      BlanksSkipped(b[1..], s);
    } else {
      assert b + s == s;
    }
  }

  /** atoll reads what is printed, after any blanks, with a sign or without, up to the first byte that
      is no digit; and the nearest number where that does not fit. */
  lemma AtollExact(b: seq<byte>, n: nat, rest: seq<byte>)
    requires (forall i :: 0 <= i < |b| ==> Blank(b[i])) && NoDigitFirst(rest)
    ensures var max := if n < 0x8000_0000_0000_0000 then n else 0x7FFF_FFFF_FFFF_FFFF;
            var min := if n <= 0x8000_0000_0000_0000 then 0 - n else -0x8000_0000_0000_0000;
            && Atoll(b + (Decimal(n) + rest)) == max
            && Atoll(b + ([43] + (Decimal(n) + rest))) == max
            && Atoll(b + ([45] + (Decimal(n) + rest))) == min
  {
    hide Digits, Decimal, SkipBlanks;
    var s := Decimal(n) + rest;
    DecimalDigits(n);
    DigitsDecimal(n);
    DigitsStop(Decimal(n), rest, 0);
    assert s[0] == Decimal(n)[0] && Digit(s[0]).Some?;
    BlanksSkipped(b, s);
    BlanksSkipped(b, [43] + s);
    BlanksSkipped(b, [45] + s);
    assert ([43] + s)[1..] == s && ([45] + s)[1..] == s;
  }

  lemma AtollDecimal(n: nat)
    requires n < 0x8000_0000_0000_0000
    ensures Atoll(Decimal(n)) == n
  {
    AtollExact([], n, []);
    assert [] + (Decimal(n) + []) == Decimal(n);
  }
}
