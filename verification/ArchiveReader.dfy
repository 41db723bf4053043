/** Reading an archive: one header at a time, and from each member to the next. */
module ArchiveReader {
  import opened ArchiveBytes
  import opened Basics
  import opened ArchiveMembers
  import LongNames

  /** What a reader knows of the archive: the cleaned-up table of long names, if it has one. */
  datatype Reader = Reader(names: Option<Bytes>, maxName: nat, thin: bool)

  /** An opened member: what its header says, and where its contents begin. */
  datatype Element = Element(name: Bytes, size: nat, extra: nat, origin: int, contentsAt: nat)

  /** The size field as sscanf reads an unsigned 64-bit number: a sign is allowed, and a negative number
      wraps around. */
  function ReadSize(field: Bytes): Option<nat> {
    var t := LongNames.SkipSpace(field);
    var signed := t != [] && (t[0] == MINUS || t[0] == PLUS);
    var u := if signed then t[1..] else t;
    if DigitCount(u) == 0 then None
    else Some((if signed && t[0] == MINUS then U64 - Number(u) % U64 else Number(u)) % U64)
  }

  function FindByte(s: Bytes, b: Byte): (i: nat)
    ensures i <= |s| && (i < |s| ==> s[i] == b) && b !in s[..i]
  {
    if s == [] || s[0] == b then 0 else 1 + FindByte(s[1..], b)
  }

  /** A name that fits its header: up to a terminator, else a slash, else a space, else all of it. */
  function ShortName(field: Bytes): Bytes {
    var nul := FindByte(field, NUL);
    var slash := FindByte(field, SLASH);
    var space := FindByte(field, SPACE);
    if nul < |field| then field[..nul] else if slash < |field| then field[..slash] else field[..space]
  }

  predicate PointsToTable(rd: Reader, field: Bytes)
    requires |field| == AR_NAME && rd.maxName <= AR_NAME
  {
    rd.names.Some? && (field[0] == SLASH || (field[0] == SPACE && SLASH !in field[..rd.maxName]))
  }

  /** The fields of a header that are used: its name, what comes after it, and the size it announces. */
  datatype Fields = Fields(name: Bytes, rest: Bytes, size: nat)

  function ParseHeader(h: Bytes): (r: Option<Fields>)
    requires |h| == AR_HDR
    ensures r.Some? ==> |r.value.name| == AR_NAME && r.value.size < U64
  {
    var size := ReadSize(h[48..58]);
    if h[58..] != [BACKQUOTE, NEWLINE] || size == None then None else Some(Fields(h[..AR_NAME], h[AR_NAME..], size.value))
  }

  /** The element with these header fields, where at is just past its header. */
  function Open(f: Bytes, rd: Reader, fields: Fields, at: nat): (r: Option<Element>)
    requires rd.maxName <= AR_NAME && |fields.name| == AR_NAME && fields.size < U64 && at <= |f|
    ensures r.Some? ==> at <= r.value.contentsAt <= |f| && r.value.size < U64
  {
    if PointsToTable(rd, fields.name) then
      match LongNames.Extended(rd.thin, rd.names.value, fields.name + fields.rest)
      case None => None
      case Some((name, origin)) => Some(Element(name, fields.size, 0, origin, at))
    else if IsBsd44(fields.name) then
      var length := Number(fields.name[3..]);
      if length > fields.size || at + length > |f| then None
      else Some(Element(CString(f[at..at + length]), fields.size - length, length, 0, at + length))
    else Some(Element(ShortName(fields.name[..rd.maxName]), fields.size, 0, 0, at))
  }

  /** The member whose header is at pos. */
  function ReadHeader(f: Bytes, rd: Reader, pos: nat): (r: Option<Element>)
    requires rd.maxName <= AR_NAME
    ensures r.Some? ==> pos + AR_HDR <= r.value.contentsAt <= |f| && r.value.size < U64
  {
    if pos + AR_HDR > |f| then None
    else
      match ParseHeader(f[pos..pos + AR_HDR])
      case None => None
      case Some(fields) => Open(f, rd, fields, pos + AR_HDR)
  }

  /** Where the header after an element is: past its contents, at an even place, with 64-bit wrap-around
      caught. */
  function NextPosition(rd: Reader, e: Element): (r: Option<nat>)
    ensures r.Some? ==> r.value >= e.contentsAt
  {
    if rd.thin then Some(e.contentsAt)
    else
      var p := (e.contentsAt + e.size) % U64;
      var q := (p + p % 2) % U64;
      if q < e.contentsAt then None else Some(q)
  }

  /** The members from pos on, each with the place of its header. Every header is further on than the one before
      it, which is why this ends. */
  function Iterate(f: Bytes, rd: Reader, pos: nat): (r: seq<(nat, Element)>)
    requires rd.maxName <= AR_NAME
    ensures r != [] ==> r[0].0 == pos
    decreases |f| - pos
  {
    match ReadHeader(f, rd, pos)
    case None => []
    case Some(e) =>
      match NextPosition(rd, e)
      case None => [(pos, e)]
      case Some(next) => [(pos, e)] + (if next > |f| then [] else Iterate(f, rd, next))
  }

  lemma Regroup<T>(a: seq<T>, x: T, b: seq<T>)
    ensures a + ([x] + b) == (a + [x]) + b
  {
  }

  /** bfd_generic_openr_next_archived_file, called over and over. */
  method ReadAll(f: Bytes, rd: Reader, first: nat) returns (es: seq<(nat, Element)>)
    requires rd.maxName <= AR_NAME
    ensures es == Iterate(f, rd, first)
  {
    hide ReadHeader, NextPosition;
    ghost var all := Iterate(f, rd, first);
    es := [];
    var pos := first;
    while true
      invariant all == es + Iterate(f, rd, pos)
      decreases |f| - pos
    {
      var e := ReadHeader(f, rd, pos);
      if e.None? {
        return;
      }
      ghost var seen := es;
      es := es + [(pos, e.value)];
      var next := NextPosition(rd, e.value);
      if next.None? || next.value > |f| {
        return;
      }
      Regroup(seen, (pos, e.value), Iterate(f, rd, next.value));
      pos := next.value;
    }
  }

  predicate Increasing(es: seq<(nat, Element)>) {
    forall i, j :: 0 <= i < j < |es| ==> es[i].0 + AR_HDR <= es[j].0
  }

  lemma IncreasingFrom(x: (nat, Element), es: seq<(nat, Element)>)
    requires Increasing(es) && es != [] && x.0 + AR_HDR <= es[0].0
    ensures Increasing([x] + es)
  {
    var all := [x] + es;
    forall i, j | 0 <= i < j < |all| ensures all[i].0 + AR_HDR <= all[j].0 {
      assert all[j] == es[j - 1];
      assert i == 0 && j > 1 ==> es[0].0 + AR_HDR <= es[j - 1].0;
      assert i > 0 ==> all[i] == es[i - 1];
    }
  }

  /** On any file whatever, the places of the headers strictly increase, by at least a header's length. */
  lemma {:induction false} PositionsIncrease(f: Bytes, rd: Reader, pos: nat)
    requires rd.maxName <= AR_NAME
    ensures Increasing(Iterate(f, rd, pos))
    decreases |f| - pos
  {
    hide ReadHeader, NextPosition;
    var es := Iterate(f, rd, pos);
    if |es| <= 1 {
    } else {
      var next := NextPosition(rd, es[0].1).value;
      PositionsIncrease(f, rd, next);
      IncreasingFrom(es[0], Iterate(f, rd, next));
    }
  }

  // ---------- reading what was written ----------

  /** The name, length of the name after the header, and origin that reading a member's header gives. */
  function Decoded(rd: Reader, m: Member): Option<(Bytes, int)>
    requires Writable(m) && rd.maxName <= AR_NAME
  {
    if PointsToTable(rd, m.field) then
      LongNames.Extended(rd.thin, rd.names.value, m.field + AfterName(m.middle, |m.contents| + Extra(m)))
    else if IsBsd44(m.field) then Some((m.name, 0))
    else Some((ShortName(m.field[..rd.maxName]), 0))
  }

  /** A member's header can be read: its name decodes, and a name after the header is announced with
      its padded length and holds no terminator. */
  predicate Readable(rd: Reader, m: Member) {
    && Writable(m)
    && rd.maxName <= AR_NAME
    && Decoded(rd, m).Some?
    && (IsBsd44(m.field) ==> NulFree(m.name) && Number(m.field[3..]) == PaddedLength(|m.name|))
  }

  predicate AllReadable(rd: Reader, ms: seq<Member>) {
    AllWritable(ms) && forall k :: 0 <= k < |ms| ==> Readable(rd, ms[k])
  }

  function ElementOf(rd: Reader, m: Member, pos: nat): Element
    requires Readable(rd, m)
  {
    Element(Decoded(rd, m).value.0, |m.contents|, Extra(m), Decoded(rd, m).value.1, pos + AR_HDR + Extra(m))
  }

  lemma SizeReadsBack(n: nat)
    requires SizeFits(n)
    ensures ReadSize(SizeField(n)) == Some(n)
  {
    var s := SizeField(n);
    var pad := Repeat(SPACE, AR_SIZE - |Decimal(n)|);
    assert IsDigitByte(s[0]);
    DecimalReadsBack(n, pad);
    DecimalFits(n, AR_SIZE);
    assert Pow10(10) == 10000000000;
  }

  /** Without a digit there is no size. */
  lemma SizeNeedsDigits(b: Byte, rest: Bytes)
    requires !IsDigitByte(b) && b != PLUS && b != MINUS && !LongNames.IsSpace(b)
    ensures ReadSize([b] + rest) == None
  {
    assert LongNames.SkipSpace([b] + rest) == [b] + rest;
  }

  /** A sign in front of the digits is allowed: a negative size is the number of bytes that together with its digits
      makes a multiple of 2^64. */
  lemma SignedSize(n: nat, rest: Bytes, sign: Byte)
    requires rest == [] || !IsDigitByte(rest[0])
    requires sign == PLUS || sign == MINUS
    ensures ReadSize([sign] + Decimal(n) + rest).Some?
    ensures var v := ReadSize([sign] + Decimal(n) + rest).value;
            v < U64 && (if sign == PLUS then v == n % U64 else (v + n) % U64 == 0)
  {
    hide Decimal;
    var t := [sign] + Decimal(n) + rest;
    assert t[1..] == Decimal(n) + rest;
    assert LongNames.SkipSpace(t) == t;
    DecimalReadsBack(n, rest);
  }

  lemma HeaderParts(field: Bytes, middle: Bytes, size: nat)
    requires |field| == AR_NAME && |middle| == AR_MIDDLE && SizeFits(size)
    ensures var h := Header(field, middle, size);
            h[..AR_NAME] == field && h[AR_NAME..] == AfterName(middle, size) && h[48..58] == SizeField(size) && h[58..] == [BACKQUOTE, NEWLINE]
  {
    hide SizeField, SizeFits;
  }

  lemma HeaderReadsBack(field: Bytes, middle: Bytes, size: nat)
    requires |field| == AR_NAME && |middle| == AR_MIDDLE && SizeFits(size)
    ensures ParseHeader(Header(field, middle, size)) == Some(Fields(field, AfterName(middle, size), size))
  {
    HeaderParts(field, middle, size);
    SizeReadsBack(size);
    hide Header, AfterName, ReadSize, SizeField, SizeFits;
  }

  lemma {:induction false} CStringOfAll(name: Bytes)
    requires NulFree(name)
    ensures CString(name) == name
  {
    if name == [] {
    } else {
      CStringOfAll(name[1..]);
    }
  }

  lemma PaddedNameReadsBack(name: Bytes, n: nat)
    requires NulFree(name)
    ensures CString(name + Repeat(NUL, n)) == name
  {
    if n == 0 {
      assert name + Repeat(NUL, n) == name;
      CStringOfAll(name);
    } else {
      assert name + Repeat(NUL, n) == name + [NUL] + Repeat(NUL, n - 1);
      CStringReadsBack(name, Repeat(NUL, n - 1));
    }
  }

  /** A file in which a member's bytes stand at pos. */
  ghost predicate Holds(f: Bytes, pos: nat, m: Member, thin: bool)
    requires Writable(m)
  {
    && pos + |MemberBytes(m, thin)| <= |f|
    && f[pos..pos + |MemberBytes(m, thin)|] == MemberBytes(m, thin)
  }

  lemma Part(f: Bytes, pos: nat, b: Bytes, i: nat, j: nat)
    requires pos + |b| <= |f| && f[pos..pos + |b|] == b && i <= j <= |b|
    ensures f[pos + i..pos + j] == b[i..j]
  {
    forall n | i <= n < j ensures f[pos + n] == b[n] {
      assert f[pos..pos + |b|][n] == f[pos + n];
    }
  }

  lemma MemberParts(m: Member, thin: bool)
    requires Writable(m)
    ensures var b := MemberBytes(m, thin);
            var at := AR_HDR + Extra(m);
            && b[0..AR_HDR] == Header(m.field, m.middle, |m.contents| + Extra(m))
            && (IsBsd44(m.field) ==> b[AR_HDR..at] == m.name + Repeat(NUL, Extra(m) - |m.name|))
            && (!thin ==> b[at..at + |m.contents|] == m.contents)
  {
    hide Header, Repeat, SizeFits;
    var h := HeaderBytes(m);
    assert MemberBytes(m, thin)[..AR_HDR + Extra(m)] == h;
  }

  /** What that means for the header, the name after it, and the contents. */
  lemma HeldParts(f: Bytes, pos: nat, m: Member, thin: bool)
    requires Writable(m) && Holds(f, pos, m, thin)
    ensures var at := pos + AR_HDR + Extra(m);
            && at <= |f|
            && f[pos..pos + AR_HDR] == Header(m.field, m.middle, |m.contents| + Extra(m))
            && (IsBsd44(m.field) ==> f[pos + AR_HDR..at] == m.name + Repeat(NUL, Extra(m) - |m.name|))
            && (!thin ==> at + |m.contents| <= |f| && f[at..at + |m.contents|] == m.contents)
  {
    var b, e := MemberBytes(m, thin), AR_HDR + Extra(m);
    MemberParts(m, thin);
    hide Header, Repeat, SizeFits, MemberBytes;
    Part(f, pos, b, 0, AR_HDR);
    Part(f, pos, b, AR_HDR, e);
    if !thin {
      Part(f, pos, b, e, e + |m.contents|);
    }
  }

  lemma OpensWritten(f: Bytes, rd: Reader, m: Member, at: nat)
    requires Readable(rd, m) && |m.contents| + Extra(m) < U64 && at + Extra(m) <= |f|
    requires IsBsd44(m.field) ==> CString(f[at..at + Extra(m)]) == m.name
    ensures Open(f, rd, Fields(m.field, AfterName(m.middle, |m.contents| + Extra(m)), |m.contents| + Extra(m)), at)
         == Some(Element(Decoded(rd, m).value.0, |m.contents|, Extra(m), Decoded(rd, m).value.1, at + Extra(m)))
  {
    hide LongNames.Extended, ShortName, SizeFits, NulFree, Number, PaddedLength, CString, AfterName;
  }

  /** Reading the header of a written member gives the member back. */
  lemma MemberReadsBack(f: Bytes, rd: Reader, pos: nat, m: Member)
    requires Readable(rd, m) && Holds(f, pos, m, rd.thin)
    ensures ReadHeader(f, rd, pos) == Some(ElementOf(rd, m, pos))
  {
    hide Holds, Header, Repeat, Decoded, Open, ParseHeader, CString, SizeFits, HeaderBytes, MemberBytes, IsBsd44;
    var size := |m.contents| + Extra(m);
    HeldParts(f, pos, m, rd.thin);
    HeaderReadsBack(m.field, m.middle, size);
    if IsBsd44(m.field) {
      PaddedNameReadsBack(m.name, Extra(m) - |m.name|);
    }
    OpensWritten(f, rd, m, pos + AR_HDR);
  }

  /** The bytes an element's contents are read from. */
  function Contents(f: Bytes, e: Element): Option<Bytes> {
    if e.contentsAt + e.size <= |f| then Some(f[e.contentsAt..e.contentsAt + e.size]) else None
  }

  /** And its contents are where the element says. */
  lemma ContentsReadBack(f: Bytes, rd: Reader, pos: nat, m: Member)
    requires Readable(rd, m) && Holds(f, pos, m, rd.thin) && !rd.thin
    ensures Contents(f, ElementOf(rd, m, pos)) == Some(m.contents)
  {
    HeldParts(f, pos, m, rd.thin);
  }

  lemma SameParity(a: nat, n: nat)
    requires Even(a)
    ensures (a + n) % 2 == Padding(n)
  {
  }

  lemma NextAfter(rd: Reader, e: Element)
    requires !rd.thin && e.contentsAt + e.size + (e.contentsAt + e.size) % 2 < U64
    ensures NextPosition(rd, e) == Some(e.contentsAt + e.size + (e.contentsAt + e.size) % 2)
  {
  }

  /** From a written member at an even place, the reader steps to the place after it. */
  lemma StepsOver(f: Bytes, rd: Reader, pos: nat, m: Member)
    requires Readable(rd, m) && Holds(f, pos, m, rd.thin) && |f| < U64 && Even(pos)
    ensures NextPosition(rd, ElementOf(rd, m, pos)) == Some(pos + |MemberBytes(m, rd.thin)|)
  {
    if !rd.thin {
      EvenLength(m, rd.thin);
      EvenSum(pos, AR_HDR + Extra(m));
      SameParity(pos + (AR_HDR + Extra(m)), |m.contents|);
      hide HeaderBytes, Decoded, LongNames.Extended, MemberBytes, Extra, Readable, SizeFits, NextPosition, Even,
           Padding;
      NextAfter(rd, ElementOf(rd, m, pos));
    }
  }

  /** The members with the places of their headers. */
  ghost function Listing(rd: Reader, ms: seq<Member>, start: nat): (r: seq<(nat, Element)>)
    requires AllReadable(rd, ms)
  {
    seq(|ms|, k requires 0 <= k < |ms| =>
      (Position(ms, rd.thin, start, k), ElementOf(rd, ms[k], Position(ms, rd.thin, start, k))))
  }

  /** Members written after `before` make up the file f. */
  ghost predicate Written(f: Bytes, before: Bytes, rd: Reader, ms: seq<Member>) {
    && AllReadable(rd, ms)
    && f == before + AllBytes(ms, rd.thin)
    && Even(|before|)
    && |f| < U64
    && rd.maxName <= AR_NAME
  }

  lemma HeldAt(f: Bytes, before: Bytes, rd: Reader, ms: seq<Member>, k: nat)
    requires Written(f, before, rd, ms) && k < |ms|
    ensures Holds(f, Position(ms, rd.thin, |before|, k), ms[k], rd.thin)
    ensures Position(ms, rd.thin, |before|, k + 1)
         == Position(ms, rd.thin, |before|, k) + |MemberBytes(ms[k], rd.thin)| <= |f|
    ensures Even(Position(ms, rd.thin, |before|, k))
  {
    hide Position, AllBytes, MemberBytes, Readable, Writable;
    MemberIsThere(before, ms, rd.thin, k);
    PositionsAreEven(ms, rd.thin, |before|, k);
  }

  lemma ReadsAt(f: Bytes, before: Bytes, rd: Reader, ms: seq<Member>, k: nat)
    requires Written(f, before, rd, ms) && k < |ms|
    ensures ReadHeader(f, rd, Position(ms, rd.thin, |before|, k))
         == Some(ElementOf(rd, ms[k], Position(ms, rd.thin, |before|, k)))
  {
    hide AllBytes, Holds, Writable, Readable, MemberBytes, Even, ReadHeader, NextPosition, ElementOf, Position;
    HeldAt(f, before, rd, ms, k);
    MemberReadsBack(f, rd, Position(ms, rd.thin, |before|, k), ms[k]);
  }

  lemma StepsAt(f: Bytes, before: Bytes, rd: Reader, ms: seq<Member>, k: nat)
    requires Written(f, before, rd, ms) && k < |ms|
    ensures NextPosition(rd, ElementOf(rd, ms[k], Position(ms, rd.thin, |before|, k)))
         == Some(Position(ms, rd.thin, |before|, k + 1))
  {
    hide AllBytes, Holds, Writable, Readable, MemberBytes, Even, ReadHeader, NextPosition, ElementOf, Position;
    HeldAt(f, before, rd, ms, k);
    StepsOver(f, rd, Position(ms, rd.thin, |before|, k), ms[k]);
  }

  lemma EndsAt(f: Bytes, before: Bytes, rd: Reader, ms: seq<Member>)
    requires Written(f, before, rd, ms)
    ensures Position(ms, rd.thin, |before|, |ms|) == |f|
  {
    assert ms[..|ms|] == ms;
  }

  lemma {:induction false} IteratesFrom(f: Bytes, before: Bytes, rd: Reader, ms: seq<Member>, k: nat)
    requires Written(f, before, rd, ms) && k <= |ms|
    ensures Iterate(f, rd, Position(ms, rd.thin, |before|, k)) == Listing(rd, ms, |before|)[k..]
    decreases |ms| - k
  {
    hide ReadHeader, Readable, Writable, ElementOf, Decoded, NextPosition, AllBytes, Position, Holds, Even, MemberBytes;
    var all := Listing(rd, ms, |before|);
    if k == |ms| {
      EndsAt(f, before, rd, ms);
    } else {
      HeldAt(f, before, rd, ms, k);
      ReadsAt(f, before, rd, ms, k);
      StepsAt(f, before, rd, ms, k);
      IteratesFrom(f, before, rd, ms, k + 1);
      assert all[k..] == [all[k]] + all[k + 1..];
    }
  }

  /** Write then iterate is the identity: from where the first member was written, the reader visits exactly
      the written members, in order, each at its position, with its name and size. */
  lemma WriteThenIterate(f: Bytes, before: Bytes, rd: Reader, ms: seq<Member>)
    requires Written(f, before, rd, ms)
    ensures Iterate(f, rd, |before|) == Listing(rd, ms, |before|)
  {
    IteratesFrom(f, before, rd, ms, 0);
  }

  /** And each element's contents are the member's. */
  lemma WriteThenRead(f: Bytes, before: Bytes, rd: Reader, ms: seq<Member>, k: nat)
    requires Written(f, before, rd, ms) && k < |ms| && !rd.thin
    ensures Contents(f, Listing(rd, ms, |before|)[k].1) == Some(ms[k].contents)
  {
    HeldAt(f, before, rd, ms, k);
    hide AllBytes, Position, Holds, ElementOf, SizeFits, Decoded, MemberBytes, Contents;
    ContentsReadBack(f, rd, Position(ms, rd.thin, |before|, k), ms[k]);
  }
}
