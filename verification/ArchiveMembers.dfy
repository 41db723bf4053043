/** The members of an archive: how they are written one after the other, and how a reader
    steps from each header to the next. */
module ArchiveMembers {
  import opened ArchiveBytes

  const AR_MIDDLE: nat := 32
  const AR_SIZE: nat := 10

  /** A member to write: its header's name field and the fields between name and size, its file name, and
      its contents. */
  datatype Member = Member(field: Bytes, middle: Bytes, name: Bytes, contents: Bytes)

  predicate MemberOk(m: Member) {
    |m.field| == AR_NAME && |m.middle| == AR_MIDDLE
  }

  // ---------- writing ----------

  /** A name field of the BSD 4.4 kind: the name follows the header. */
  predicate IsBsd44(field: Bytes)
    requires |field| >= 4
  {
    field[0] == HASH && field[1] == ZERO + 1 && field[2] == SLASH && IsDigitByte(field[3])
  }

  function PaddedLength(n: nat): (r: nat)
    ensures n <= r < n + 4
  {
    (n + 3) / 4 * 4
  }

  /** The bytes between a member's header and its contents. */
  function Extra(m: Member): (n: nat)
    requires MemberOk(m)
  {
    if IsBsd44(m.field) then PaddedLength(|m.name|) else 0
  }

  /** The sizes that a header has room for. */
  predicate SizeFits(n: nat) {
    |Decimal(n)| <= AR_SIZE
  }

  function SizeField(n: nat): (r: Bytes)
    requires SizeFits(n)
    ensures |r| == AR_SIZE
  {
    Decimal(n) + Repeat(SPACE, AR_SIZE - |Decimal(n)|)
  }

  /** What follows the name field in a header. */
  function AfterName(middle: Bytes, size: nat): (r: Bytes)
    requires |middle| == AR_MIDDLE && SizeFits(size)
    ensures |r| == AR_HDR - AR_NAME
  {
    middle + SizeField(size) + [BACKQUOTE, NEWLINE]
  }

  function Header(field: Bytes, middle: Bytes, size: nat): (r: Bytes)
    requires |field| == AR_NAME && |middle| == AR_MIDDLE && SizeFits(size)
    ensures |r| == AR_HDR
  {
    field + AfterName(middle, size)
  }

  predicate Writable(m: Member) {
    MemberOk(m) && SizeFits(|m.contents| + Extra(m))
  }

  function HeaderBytes(m: Member): (r: Bytes)
    requires Writable(m)
    ensures |r| == AR_HDR + Extra(m)
  {
    Header(m.field, m.middle, |m.contents| + Extra(m))
    + (if IsBsd44(m.field) then m.name + Repeat(NUL, Extra(m) - |m.name|) else [])
  }

  /** The byte that follows contents of odd length. */
  function Padding(n: nat): (p: nat)
    ensures p <= 1
  {
    n % 2
  }

  /** A member with its header; a thin archive holds headers only. */
  function MemberBytes(m: Member, thin: bool): (r: Bytes)
    requires Writable(m)
    ensures |r| == AR_HDR + Extra(m) + (if thin then 0 else |m.contents| + Padding(|m.contents|))
  {
    HeaderBytes(m) + (if thin then [] else m.contents + (if Padding(|m.contents|) == 1 then [NEWLINE] else []))
  }

  /** Where each part of a member is: the name's field, the size as text, the two bytes that end a header, the name behind
      a BSD 4.4 header, and the contents, with a newline behind them if their length is odd. */
  lemma PartsAre(m: Member, thin: bool)
    requires Writable(m)
    ensures var r, at, n := MemberBytes(m, thin), AR_HDR + Extra(m), |m.contents|;
            && r[..16] == m.field && Number(r[48..58]) == n + Extra(m) && r[58] == 0x60 && r[59] == 0x0a
            && (IsBsd44(m.field) ==> |m.name| <= Extra(m) && r[60..60 + |m.name|] == m.name)
            && (IsBsd44(m.field) ==> forall i :: 60 + |m.name| <= i < at ==> r[i] == 0)
            && (thin ==> |r| == at)
            && (!thin ==> r[at..at + n] == m.contents && |r| == at + n + n % 2 && (n % 2 == 1 ==> r[at + n] == 0x0a))
  {
    var n := |m.contents| + Extra(m);
    var r, pad := MemberBytes(m, thin), Repeat(SPACE, AR_SIZE - |Decimal(n)|);
    DecimalReadsBack(n, pad);
    assert r[48..58] == SizeField(n);
  }

  predicate AllWritable(ms: seq<Member>) {
    forall k :: 0 <= k < |ms| ==> Writable(ms[k])
  }

  function AllBytes(ms: seq<Member>, thin: bool): Bytes
    requires AllWritable(ms)
  {
    if ms == [] then [] else AllBytes(ms[..|ms| - 1], thin) + MemberBytes(ms[|ms| - 1], thin)
  }

  /** Where the header of member k is written when the first is written at start. */
  function Position(ms: seq<Member>, thin: bool, start: nat, k: nat): (p: nat)
    requires AllWritable(ms) && k <= |ms|
    ensures p == start + |AllBytes(ms[..k], thin)|
  {
    if k == 0 then start
    else
      assert ms[..k][..k - 1] == ms[..k - 1];
      Position(ms, thin, start, k - 1) + |MemberBytes(ms[k - 1], thin)|
  }

  const AR_WRITE_BUFFERSIZE: nat := 8 * 1024 * 1024

  /** The output file, written from front to back. */
  class Output {
    var bytes: Bytes

    constructor ()
      ensures bytes == []
    {
      bytes := [];
    }

    method Write(bs: Bytes)
      modifies this
      ensures bytes == old(bytes) + bs
    {
      bytes := bytes + bs;
    }

    /** Write a member's header, and the name after it if it goes there. */
    method WriteHeader(m: Member)
      requires Writable(m)
      modifies this
      ensures bytes == old(bytes) + HeaderBytes(m)
    {
      if IsBsd44(m.field) {
        var padded := PaddedLength(|m.name|);
        Write(Header(m.field, m.middle, |m.contents| + padded));
        Write(m.name);
        if |m.name| % 4 != 0 {
          Write(Repeat(NUL, 4 - |m.name| % 4));
        }
      } else {
        Write(Header(m.field, m.middle, |m.contents|));
      }
      assert bytes == old(bytes) + HeaderBytes(m);
    }

    /** Copy a member's contents through the buffer. */
    method CopyContents(contents: Bytes)
      modifies this
      ensures bytes == old(bytes) + contents
    {
      var remaining := |contents|;
      while remaining > 0
        invariant 0 <= remaining <= |contents| && bytes == old(bytes) + contents[..|contents| - remaining]
      {
        var amount := if AR_WRITE_BUFFERSIZE > remaining then remaining else AR_WRITE_BUFFERSIZE;
        ghost var done := |contents| - remaining;
        Write(contents[|contents| - remaining..|contents| - remaining + amount]);
        assert contents[..done] + contents[done..done + amount] == contents[..done + amount];
        remaining := remaining - amount;
      }
      assert contents[..|contents|] == contents;
    }

    method WriteMember(m: Member, thin: bool)
      requires Writable(m)
      modifies this
      ensures bytes == old(bytes) + MemberBytes(m, thin)
    {
      hide HeaderBytes;
      WriteHeader(m);
      if thin {
        return;
      }
      CopyContents(m.contents);
      if |m.contents| % 2 == 1 {
        Write([NEWLINE]);
      }
    }

    method WriteMembers(ms: seq<Member>, thin: bool)
      requires AllWritable(ms)
      modifies this
      ensures bytes == old(bytes) + AllBytes(ms, thin)
    {
      hide MemberBytes;
      for k := 0 to |ms|
        invariant bytes == old(bytes) + AllBytes(ms[..k], thin)
      {
        assert ms[..k + 1][..k] == ms[..k];
        WriteMember(ms[k], thin);
      }
      assert ms[..|ms|] == ms;
    }
  }

  predicate Even(n: int) {
    n % 2 == 0
  }

  lemma EvenSum(a: int, b: int)
    requires Even(a) && Even(b)
    ensures Even(a + b)
  {
  }

  lemma TwiceIsEven(n: int, half: int)
    requires n == 2 * half
    ensures Even(n)
  {
  }

  lemma PaddedIsEven(n: nat)
    ensures Even(PaddedLength(n)) && Even(n + Padding(n))
  {
    hide Even;
    TwiceIsEven(PaddedLength(n), (n + 3) / 4 * 2);
    TwiceIsEven(n + Padding(n), n / 2 + n % 2);
  }

  lemma EvenNumbers()
    ensures Even(0) && Even(AR_HDR)
  {
  }

  /** Members take an even number of bytes. */
  lemma EvenLength(m: Member, thin: bool)
    requires Writable(m)
    ensures Even(|MemberBytes(m, thin)|) && Even(AR_HDR + Extra(m))
  {
    hide PaddedLength, Padding, Even, MemberBytes, HeaderBytes, SizeFits;
    EvenNumbers();
    PaddedIsEven(|m.name|);
    PaddedIsEven(|m.contents|);
    EvenSum(AR_HDR, Extra(m));
    EvenSum(AR_HDR + Extra(m), |m.contents| + Padding(|m.contents|));
  }

  lemma {:induction false} PositionsAreEven(ms: seq<Member>, thin: bool, start: nat, k: nat)
    requires AllWritable(ms) && k <= |ms| && Even(start)
    ensures Even(Position(ms, thin, start, k))
  {
    hide MemberBytes, HeaderBytes, Extra, SizeFits, AllBytes, Writable, Even, Padding;
    if k == 0 {
    } else {
      PositionsAreEven(ms, thin, start, k - 1);
      EvenLength(ms[k - 1], thin);
      EvenSum(Position(ms, thin, start, k - 1), |MemberBytes(ms[k - 1], thin)|);
    }
  }

  /** A member's bytes, with what is written before and after them. */
  lemma {:induction false} SplitAt(ms: seq<Member>, thin: bool, k: nat) returns (rest: Bytes)
    requires AllWritable(ms) && k < |ms|
    ensures AllBytes(ms, thin) == AllBytes(ms[..k], thin) + MemberBytes(ms[k], thin) + rest
  {
    var front := ms[..|ms| - 1];
    if k == |ms| - 1 {
      rest := [];
    } else {
      assert front[..k] == ms[..k];
      var r := SplitAt(front, thin, k);
      rest := r + MemberBytes(ms[|ms| - 1], thin);
    }
  }

  /** A member's bytes stand at its position. */
  lemma MemberIsThere(before: Bytes, ms: seq<Member>, thin: bool, k: nat)
    requires AllWritable(ms) && k < |ms|
    ensures var p := Position(ms, thin, |before|, k);
            var q := Position(ms, thin, |before|, k + 1);
            && q == p + |MemberBytes(ms[k], thin)|
            && p <= q <= |before + AllBytes(ms, thin)|
            && (before + AllBytes(ms, thin))[p..q] == MemberBytes(ms[k], thin)
  {
    assert ms[..k + 1][..k] == ms[..k];
    var rest := SplitAt(ms, thin, k);
    hide MemberBytes, AllBytes;
    var a, m := before + AllBytes(ms[..k], thin), MemberBytes(ms[k], thin);
    assert before + AllBytes(ms, thin) == a + m + rest;
  }
}
