/** Bytes and numbers as archives hold them: decimal fields, binary words, C strings. */
module ArchiveBytes {
  import opened Basics

  type Bytes = seq<Byte>

  const NUL: Byte := 0
  const NEWLINE: Byte := 0x0a
  const SPACE: Byte := 0x20
  const HASH: Byte := 0x23
  const PLUS: Byte := 0x2b
  const MINUS: Byte := 0x2d
  const SLASH: Byte := 0x2f
  const ZERO: Byte := 0x30
  const COLON: Byte := 0x3a
  const BACKSLASH: Byte := 0x5c
  const BACKQUOTE: Byte := 0x60

  const AR_HDR: nat := 60
  const AR_NAME: nat := 16

  function Repeat(b: Byte, n: nat): (r: Bytes)
    ensures |r| == n && forall i :: 0 <= i < n ==> r[i] == b
  {
    seq(n, _ => b)
  }

  // ---------- decimal ----------

  predicate IsDigitByte(b: Byte) {
    ZERO <= b < ZERO + 10
  }

  /** n in decimal, without leading zeros. */
  function Decimal(n: nat): (r: Bytes)
    ensures |r| >= 1 && forall i :: 0 <= i < |r| ==> IsDigitByte(r[i])
  {
    if n < 10 then [ZERO + n] else Decimal(n / 10) + [ZERO + n % 10]
  }

  /** The number that the digits at the front of s spell. */
  function Leading(s: Bytes, acc: nat): (r: nat)
  {
    if s != [] && IsDigitByte(s[0]) then Leading(s[1..], 10 * acc + (s[0] - ZERO)) else acc
  }

  function Number(s: Bytes): nat {
    Leading(s, 0)
  }

  /** How many digits s begins with. */
  function DigitCount(s: Bytes): (n: nat)
    ensures n <= |s|
  {
    if s != [] && IsDigitByte(s[0]) then 1 + DigitCount(s[1..]) else 0
  }

  lemma {:induction false} LeadingOverDecimal(n: nat, rest: Bytes)
    ensures Leading(Decimal(n) + rest, 0) == Leading(rest, n)
  {
    if n < 10 {
      assert (Decimal(n) + rest)[1..] == rest;
    } else {
      var last := [ZERO + n % 10];
      assert Decimal(n) + rest == Decimal(n / 10) + (last + rest);
      LeadingOverDecimal(n / 10, last + rest);
      assert (last + rest)[1..] == rest;
    }
  }

  lemma {:induction false} DigitCountOver(ds: Bytes, rest: Bytes)
    requires forall i :: 0 <= i < |ds| ==> IsDigitByte(ds[i])
    requires rest == [] || !IsDigitByte(rest[0])
    ensures DigitCount(ds + rest) == |ds|
  {
    if ds == [] {
      assert ds + rest == rest;
    } else {
      assert (ds + rest)[1..] == ds[1..] + rest;
      DigitCountOver(ds[1..], rest);
    }
  }

  /** A decimal number reads back, whatever follows it that is not a digit. */
  lemma DecimalReadsBack(n: nat, rest: Bytes)
    requires rest == [] || !IsDigitByte(rest[0])
    ensures Number(Decimal(n) + rest) == n
    ensures DigitCount(Decimal(n) + rest) == |Decimal(n)|
  {
    LeadingOverDecimal(n, rest);
    DigitCountOver(Decimal(n), rest);
  }

  function Pow10(k: nat): (r: nat)
    ensures r >= 1
  {
    if k == 0 then 1 else 10 * Pow10(k - 1)
  }

  /** A number below 10^k takes at most k digits. */
  lemma {:induction false} DecimalFits(n: nat, k: nat)
    requires k >= 1
    ensures |Decimal(n)| <= k <==> n < Pow10(k)
  {
    if k == 1 {
      assert Pow10(1) == 10 * Pow10(0);
    } else if n >= 10 {
      DecimalFits(n / 10, k - 1);
    } else {
      assert Pow10(k) == 10 * Pow10(k - 1) && Pow10(k - 1) >= 1;
    }
  }

  // ---------- binary words ----------

  function Low(v: nat): Byte {
    v % 0x100
  }

  function Big32(v: nat): (r: Bytes)
    requires v < U32
    ensures |r| == 4
  {
    [Low(v / 0x100_0000), Low(v / 0x1_0000), Low(v / 0x100), Low(v)]
  }

  function Little32(v: nat): (r: Bytes)
    requires v < U32
    ensures |r| == 4
  {
    [Low(v), Low(v / 0x100), Low(v / 0x1_0000), Low(v / 0x100_0000)]
  }

  function Big64(v: nat): (r: Bytes)
    requires v < U64
    ensures |r| == 8
  {
    Big32(v / U32) + Big32(v % U32)
  }

  function OfBytes(a: nat, b: nat, c: nat, d: nat): nat {
    a * 0x100_0000 + b * 0x1_0000 + c * 0x100 + d
  }

  function GetBig32(s: Bytes): (r: nat)
    requires |s| == 4
    ensures r < U32
  {
    OfBytes(s[0], s[1], s[2], s[3])
  }

  function GetLittle32(s: Bytes): (r: nat)
    requires |s| == 4
    ensures r < U32
  {
    OfBytes(s[3], s[2], s[1], s[0])
  }

  function GetBig64(s: Bytes): nat
    requires |s| == 8
  {
    GetBig32(s[..4]) * U32 + GetBig32(s[4..])
  }

  /** H_PUT_32 and H_GET_32 follow the target's byte order. */
  function Put32(big: bool, v: nat): (r: Bytes)
    requires v < U32
    ensures |r| == 4
  {
    if big then Big32(v) else Little32(v)
  }

  function Get32(big: bool, s: Bytes): (r: nat)
    requires |s| == 4
    ensures r < U32
  {
    if big then GetBig32(s) else GetLittle32(s)
  }

  lemma OfBytesReadsBack(v: nat)
    requires v < U32
    ensures OfBytes(Low(v / 0x100_0000), Low(v / 0x1_0000), Low(v / 0x100), Low(v)) == v
  {
    var q1 := v / 0x100;
    var q2 := q1 / 0x100;
    var q3 := q2 / 0x100;
    assert v / 0x1_0000 == q2 && v / 0x100_0000 == q3;
    assert q3 % 0x100 == q3;
  }

  lemma WordsReadBack(big: bool, v: nat)
    requires v < U32
    ensures Get32(big, Put32(big, v)) == v
  {
    OfBytesReadsBack(v);
  }

  lemma LongWordReadsBack(v: nat)
    requires v < U64
    ensures GetBig64(Big64(v)) == v
  {
    WordsReadBack(true, v / U32);
    WordsReadBack(true, v % U32);
    assert Big64(v)[..4] == Big32(v / U32) && Big64(v)[4..] == Big32(v % U32);
  }

  // ---------- C strings ----------

  predicate NulFree(s: Bytes) {
    forall i :: 0 <= i < |s| ==> s[i] != NUL
  }

  /** The C string that begins at s; all of s if it holds no terminator. */
  function CString(s: Bytes): (r: Bytes)
    ensures NulFree(r) && r <= s
  {
    if s == [] || s[0] == NUL then [] else [s[0]] + CString(s[1..])
  }

  lemma {:induction false} CStringReadsBack(name: Bytes, rest: Bytes)
    requires NulFree(name)
    ensures CString(name + [NUL] + rest) == name
  {
    if name == [] {
    } else {
      assert (name + [NUL] + rest)[1..] == name[1..] + [NUL] + rest;
      CStringReadsBack(name[1..], rest);
    }
  }
}
