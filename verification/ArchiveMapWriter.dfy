/** Writing the symbol map: the 4 GB scan, the sizes, and the bytes of the three formats. */
module ArchiveMapWriter {
  import opened ArchiveBytes
  import opened Basics
  import opened ArchiveMembers
  import opened ArchiveMap

  /** An archive being written: its target's map format and byte order, its members, and the date and owner
      fields of the map's header. */
  datatype Archive = Archive(kind: Kind, big: bool, thin: bool, members: seq<Member>, middle: Bytes)

  datatype Outcome = Wrote32 | Wrote64 | Truncated

  predicate ArchiveOk(a: Archive) {
    AllWritable(a.members) && |a.middle| == AR_MIDDLE
  }

  /** What the cast of a number to unsigned int keeps. */
  function Unsigned(n: nat): (r: nat)
    ensures r < U32
  {
    n % U32
  }

  /** The name of the map's header. */
  function MapName(kind: Kind): (r: Bytes)
    ensures |r| == AR_NAME
  {
    match kind
    case Bsd => SYMDEF + Repeat(SPACE, 7)
    case Coff => [SLASH] + Repeat(SPACE, 15)
    case Irix => [SLASH, 0x53, 0x59, 0x4d, 0x36, 0x34, SLASH] + Repeat(SPACE, 9)
  }

  /** The size of the map before padding, for n symbols and s bytes of names, in unsigned int. */
  function BareSize(kind: Kind, n: nat, s: nat): (r: nat)
    ensures r < U32
  {
    match kind
    case Bsd => Unsigned(Unsigned(n * 8) + s + 8)
    case Coff => Unsigned(s + Unsigned(n * 4 + 4))
    case Irix => Unsigned(s + Unsigned(n * 8 + 8))
  }

  function MapPadding(kind: Kind, n: nat, s: nat): (r: nat)
    ensures r < 8
  {
    match kind
    case Bsd => s % 2
    case Coff => BareSize(kind, n, s) % 2
    case Irix => (8 - BareSize(kind, n, s) % 8) % 8
  }

  function MapSize(kind: Kind, n: nat, s: nat): (r: nat)
    ensures r < U32
  {
    Unsigned(BareSize(kind, n, s) + MapPadding(kind, n, s))
  }

  /** The table of long names as the map's writers are told of it: with its header, rounded up to even. */
  function TableSize(elength: nat): nat {
    var e := Unsigned(if Unsigned(elength) != 0 then Unsigned(elength) + AR_HDR else 0);
    Unsigned(e + e % 2)
  }

  /** Where the first member goes. */
  function FirstMember(mapSize: nat, tableSize: nat): nat {
    Unsigned(mapSize + tableSize) + AR_HDR + SARMAG
  }

  const SARMAG: nat := 8

  /** What the map says of symbol k. */
  function Cell(kind: Kind, big: bool, namidx: nat, offset: nat): Bytes {
    match kind
    case Bsd => Put32(big, Unsigned(namidx)) + Put32(big, Unsigned(offset))
    case Coff => Big32(Unsigned(offset))
    case Irix => Big64(offset % U64)
  }

  function Cells(kind: Kind, a: Archive, entries: seq<Entry>, first: nat, n: nat): Bytes
    requires ArchiveOk(a) && Ordered(entries, |a.members|) && n <= |entries|
  {
    if n == 0 then []
    else Cells(kind, a, entries, first, n - 1)
         + Cell(kind, a.big, |Strings(entries[..n - 1])|, Offset(kind, a.thin, a.members, first, entries[n - 1].member))
  }

  function CountWord(kind: Kind, big: bool, n: nat): Bytes {
    match kind
    case Bsd => Put32(big, Unsigned(n * 8))
    case Coff => Big32(Unsigned(n))
    case Irix => Big64(Unsigned(n))
  }

  /** The word before a BSD map's names. */
  function StringsWord(kind: Kind, big: bool, s: nat): Bytes {
    if kind.Bsd? then Put32(big, Unsigned(s + s % 2)) else []
  }

  function MapContents(kind: Kind, a: Archive, entries: seq<Entry>, first: nat): Bytes
    requires ArchiveOk(a) && Ordered(entries, |a.members|)
  {
    var s := |Strings(entries)|;
    CountWord(kind, a.big, |entries|) + Cells(kind, a, entries, first, |entries|) + StringsWord(kind, a.big, s)
    + Strings(entries) + Repeat(NUL, MapPadding(kind, |entries|, s))
  }

  /** The map with its header, in the given format. */
  function MapBytes(kind: Kind, a: Archive, entries: seq<Entry>, tableSize: nat): Bytes
    requires ArchiveOk(a) && Ordered(entries, |a.members|)
  {
    var size := MapSize(kind, |entries|, |Strings(entries)|);
    SizesFit(size);
    Header(MapName(kind), a.middle, size) + MapContents(kind, a, entries, FirstMember(size, tableSize))
  }

  /** A 32-bit size always fits its header, so that writing the size cannot fail. */
  lemma SizesFit(size: nat)
    requires size < U32
    ensures SizeFits(size)
  {
    DecimalFits(size, 10);
    assert Pow10(10) == 10000000000;
  }

  /** Every offset of the map fits 32 bits. */
  predicate AllFit(kind: Kind, a: Archive, entries: seq<Entry>, first: nat, n: nat)
    requires ArchiveOk(a) && Ordered(entries, |a.members|) && n <= |entries|
  {
    forall k :: 0 <= k < n ==> Offset(kind, a.thin, a.members, first, entries[k].member) < U32
  }

  /** A map in the given format has no offset past 4 GB. */
  predicate MapFits(kind: Kind, a: Archive, entries: seq<Entry>, tableSize: nat)
    requires ArchiveOk(a) && Ordered(entries, |a.members|)
  {
    AllFit(kind, a, entries, FirstMember(MapSize(kind, |entries|, |Strings(entries)|), tableSize), |entries|)
  }

  lemma CellsGrow(kind: Kind, a: Archive, entries: seq<Entry>, first: nat, n: nat)
    requires ArchiveOk(a) && Ordered(entries, |a.members|) && n < |entries|
    ensures Cells(kind, a, entries, first, n + 1)
         == Cells(kind, a, entries, first, n)
            + Cell(kind, a.big, |Strings(entries[..n])|, Offset(kind, a.thin, a.members, first, entries[n].member))
  {
  }

  lemma AtStart(kind: Kind, a: Archive, entries: seq<Entry>, first: nat)
    requires ArchiveOk(a) && Ordered(entries, |a.members|)
    ensures Offset(kind, a.thin, a.members, first, 0) == first
    ensures Cells(kind, a, entries, first, 0) == [] && Strings(entries[..0]) == []
  {
  }

  // ---------- the scans ----------

  /** Past one member. */
  method Pass(kind: Kind, a: Archive, first: nat, j: nat, p: nat) returns (q: nat)
    requires ArchiveOk(a) && j < |a.members| && p == Offset(kind, a.thin, a.members, first, j)
    ensures q == Offset(kind, a.thin, a.members, first, j + 1)
  {
    q := Next(kind, a.thin, a.members[j], p);
  }

  /** Walk from member j to member k. */
  method Walk(kind: Kind, a: Archive, first: nat, j: nat, p: nat, k: nat) returns (q: nat)
    requires ArchiveOk(a) && j <= k <= |a.members| && p == Offset(kind, a.thin, a.members, first, j)
    ensures q == Offset(kind, a.thin, a.members, first, k)
  {
    q := p;
    for i := j to k
      invariant q == Offset(kind, a.thin, a.members, first, i)
    {
      q := Next(kind, a.thin, a.members[i], q);
    }
  }

  /** The BSD writer's scan for offsets past 4 GB. */
  method BsdScan(a: Archive, entries: seq<Entry>, first: nat) returns (fits: bool)
    requires ArchiveOk(a) && Ordered(entries, |a.members|)
    ensures fits == AllFit(Bsd, a, entries, first, |entries|)
  {
    hide Offset, Writable, Cells, Big32, Big64, AllWritable;
    AtStart(Bsd, a, entries, first);
    var p, current := first, 0;
    for count := 0 to |entries|
      invariant 0 <= current <= |a.members| && p == Offset(Bsd, a.thin, a.members, first, current)
      invariant count == 0 ==> current == 0
      invariant count > 0 ==> current == entries[count - 1].member
      invariant AllFit(Bsd, a, entries, first, count)
    {
      p := Walk(Bsd, a, first, current, p, entries[count].member);
      current := entries[count].member;
      if p != Unsigned(p) {
        return false;
      }
    }
    return true;
  }

  /** The COFF writer's. */
  method CoffScan(a: Archive, entries: seq<Entry>, first: nat) returns (fits: bool)
    requires ArchiveOk(a) && Ordered(entries, |a.members|)
    ensures fits == AllFit(Coff, a, entries, first, |entries|)
  {
    hide Offset, Writable, Cells, Big32, Big64, AllWritable;
    AtStart(Coff, a, entries, first);
    var p, current, count: nat := first, 0, 0;
    while current < |a.members| && count < |entries|
      invariant current <= |a.members| && count <= |entries|
      invariant p == Offset(Coff, a.thin, a.members, first, current)
      invariant count < |entries| ==> current <= entries[count].member
      invariant AllFit(Coff, a, entries, first, count)
    {
      while count < |entries| && entries[count].member == current
        invariant count <= |entries|
        invariant count < |entries| ==> current <= entries[count].member
        invariant AllFit(Coff, a, entries, first, count)
      {
        if p != Unsigned(p) {
          return false;
        }
        count := count + 1;
      }
      p := Pass(Coff, a, first, current, p);
      current := current + 1;
    }
    return true;
  }

  // ---------- the cells ----------

  method WriteBsdCells(out: Output, a: Archive, entries: seq<Entry>, first: nat) returns (ok: bool)
    requires ArchiveOk(a) && Ordered(entries, |a.members|)
    modifies out
    ensures ok == AllFit(Bsd, a, entries, first, |entries|)
    ensures ok ==> out.bytes == old(out.bytes) + Cells(Bsd, a, entries, first, |entries|)
  {
    hide Offset, Writable, Cell, Cells, Strings, AllWritable;
    AtStart(Bsd, a, entries, first);
    var p, current, namidx := first, 0, 0;
    for count := 0 to |entries|
      invariant 0 <= current <= |a.members| && p == Offset(Bsd, a.thin, a.members, first, current)
      invariant count == 0 ==> current == 0
      invariant count > 0 ==> current == entries[count - 1].member
      invariant namidx == |Strings(entries[..count])|
      invariant AllFit(Bsd, a, entries, first, count)
      invariant out.bytes == old(out.bytes) + Cells(Bsd, a, entries, first, count)
    {
      p := Walk(Bsd, a, first, current, p, entries[count].member);
      current := entries[count].member;
      if p != Unsigned(p) {
        return false;
      }
      CellsGrow(Bsd, a, entries, first, count);
      out.Write(Cell(Bsd, a.big, namidx, p));
      namidx := namidx + |entries[count].name| + 1;
      StringsGrow(entries[..count], entries[count]);
      assert entries[..count + 1] == entries[..count] + [entries[count]];
    }
    return true;
  }

  method WriteCoffCells(out: Output, a: Archive, entries: seq<Entry>, first: nat) returns (ok: bool)
    requires ArchiveOk(a) && Ordered(entries, |a.members|)
    modifies out
    ensures ok == AllFit(Coff, a, entries, first, |entries|)
    ensures ok ==> out.bytes == old(out.bytes) + Cells(Coff, a, entries, first, |entries|)
  {
    hide Offset, Writable, Cells, Big32, Big64, AllWritable;
    AtStart(Coff, a, entries, first);
    var p, current, count: nat := first, 0, 0;
    while current < |a.members| && count < |entries|
      invariant current <= |a.members| && count <= |entries|
      invariant p == Offset(Coff, a.thin, a.members, first, current)
      invariant count < |entries| ==> current <= entries[count].member
      invariant AllFit(Coff, a, entries, first, count)
      invariant out.bytes == old(out.bytes) + Cells(Coff, a, entries, first, count)
    {
      while count < |entries| && entries[count].member == current
        invariant count <= |entries|
        invariant count < |entries| ==> current <= entries[count].member
        invariant AllFit(Coff, a, entries, first, count)
        invariant out.bytes == old(out.bytes) + Cells(Coff, a, entries, first, count)
      {
        if p != Unsigned(p) {
          return false;
        }
        CellsGrow(Coff, a, entries, first, count);
        out.Write(Big32(Unsigned(p)));
        count := count + 1;
      }
      p := Pass(Coff, a, first, current, p);
      current := current + 1;
    }
    return true;
  }

  method WriteIrixCells(out: Output, a: Archive, entries: seq<Entry>, first: nat)
    requires ArchiveOk(a) && Ordered(entries, |a.members|)
    modifies out
    ensures out.bytes == old(out.bytes) + Cells(Irix, a, entries, first, |entries|)
  {
    hide Offset, Writable, Cells, Big32, Big64, AllWritable;
    AtStart(Irix, a, entries, first);
    var p, current, count: nat := first, 0, 0;
    while current < |a.members| && count < |entries|
      invariant current <= |a.members| && count <= |entries|
      invariant p == Offset(Irix, a.thin, a.members, first, current)
      invariant count < |entries| ==> current <= entries[count].member
      invariant out.bytes == old(out.bytes) + Cells(Irix, a, entries, first, count)
    {
      while count < |entries| && entries[count].member == current
        invariant count <= |entries|
        invariant count < |entries| ==> current <= entries[count].member
        invariant out.bytes == old(out.bytes) + Cells(Irix, a, entries, first, count)
      {
        CellsGrow(Irix, a, entries, first, count);
        out.Write(Big64(p % U64));
        count := count + 1;
      }
      p := Pass(Irix, a, first, current, p);
      current := current + 1;
    }
  }

  // ---------- the writers ----------

  method WriteStrings(out: Output, entries: seq<Entry>)
    modifies out
    ensures out.bytes == old(out.bytes) + Strings(entries)
  {
    for k := 0 to |entries|
      invariant out.bytes == old(out.bytes) + Strings(entries[..k])
    {
      out.Write(entries[k].name + [NUL]);
      StringsGrow(entries[..k], entries[k]);
      assert entries[..k + 1] == entries[..k] + [entries[k]];
    }
    assert entries[..|entries|] == entries;
  }

  lemma Grouped(o: Bytes, h: Bytes, n: Bytes, c: Bytes, w: Bytes, s: Bytes, p: Bytes)
    ensures o + h + n + c + w + s + p == o + (h + (n + c + w + s + p))
  {
  }

  method WriteIrix(out: Output, a: Archive, entries: seq<Entry>, tableSize: nat)
    requires ArchiveOk(a) && Ordered(entries, |a.members|)
    modifies out
    ensures out.bytes == old(out.bytes) + MapBytes(Irix, a, entries, tableSize)
  {
    hide Cells, Strings, Header, AllWritable, Repeat, MapSize, MapPadding, FirstMember, CountWord;
    var n, s := |entries|, |Strings(entries)|;
    var size := MapSize(Irix, n, s);
    SizesFit(size);
    out.Write(Header(MapName(Irix), a.middle, size));
    out.Write(CountWord(Irix, a.big, n));
    WriteIrixCells(out, a, entries, FirstMember(size, tableSize));
    WriteStrings(out, entries);
    out.Write(Repeat(NUL, MapPadding(Irix, n, s)));
    Grouped(old(out.bytes), Header(MapName(Irix), a.middle, size), CountWord(Irix, a.big, n),
            Cells(Irix, a, entries, FirstMember(size, tableSize), n), [], Strings(entries),
            Repeat(NUL, MapPadding(Irix, n, s)));
  }

  /** The COFF writer: the 64-bit one takes over if an offset is past 4 GB, and the check of the second pass never
      fails. */
  method WriteCoff(out: Output, a: Archive, entries: seq<Entry>, tableSize: nat) returns (outcome: Outcome)
    requires ArchiveOk(a) && Ordered(entries, |a.members|)
    modifies out
    ensures outcome == Wrote32 || outcome == Wrote64
    ensures outcome == Wrote32 <==> MapFits(Coff, a, entries, tableSize)
    ensures out.bytes == old(out.bytes) + MapBytes(if outcome == Wrote32 then Coff else Irix, a, entries, tableSize)
  {
    hide Cells, Strings, Header, AllWritable, Repeat, MapSize, MapPadding, FirstMember, CountWord, AllFit, Offset;
    var n, s := |entries|, |Strings(entries)|;
    var size := MapSize(Coff, n, s);
    var first := FirstMember(size, tableSize);
    var fits := CoffScan(a, entries, first);
    if !fits {
      WriteIrix(out, a, entries, tableSize);
      return Wrote64;
    }
    SizesFit(size);
    out.Write(Header(MapName(Coff), a.middle, size));
    out.Write(CountWord(Coff, a.big, n));
    var ok := WriteCoffCells(out, a, entries, first);
    if ok {
      WriteStrings(out, entries);
      out.Write(Repeat(NUL, MapPadding(Coff, n, s)));
    }
    outcome := if ok then Wrote32 else Truncated;
    Grouped(old(out.bytes), Header(MapName(Coff), a.middle, size), CountWord(Coff, a.big, n),
            Cells(Coff, a, entries, first, n), [], Strings(entries), Repeat(NUL, MapPadding(Coff, n, s)));
  }

  /** The BSD writer. */
  method WriteBsd(out: Output, a: Archive, entries: seq<Entry>, tableSize: nat) returns (outcome: Outcome)
    requires ArchiveOk(a) && Ordered(entries, |a.members|)
    modifies out
    ensures outcome == Wrote32 || outcome == Wrote64
    ensures outcome == Wrote32 <==> MapFits(Bsd, a, entries, tableSize)
    ensures out.bytes == old(out.bytes) + MapBytes(if outcome == Wrote32 then Bsd else Irix, a, entries, tableSize)
  {
    hide Cells, Strings, Header, AllWritable, Repeat, MapSize, MapPadding, FirstMember, CountWord, AllFit, Offset;
    var n, s := |entries|, |Strings(entries)|;
    var size := MapSize(Bsd, n, s);
    var first := FirstMember(size, tableSize);
    var fits := BsdScan(a, entries, first);
    if !fits {
      WriteIrix(out, a, entries, tableSize);
      return Wrote64;
    }
    SizesFit(size);
    out.Write(Header(MapName(Bsd), a.middle, size));
    out.Write(CountWord(Bsd, a.big, n));
    var ok := WriteBsdCells(out, a, entries, first);
    if ok {
      out.Write(StringsWord(Bsd, a.big, s));
      WriteStrings(out, entries);
      out.Write(Repeat(NUL, MapPadding(Bsd, n, s)));
    }
    outcome := if ok then Wrote32 else Truncated;
    Grouped(old(out.bytes), Header(MapName(Bsd), a.middle, size), CountWord(Bsd, a.big, n),
            Cells(Bsd, a, entries, first, n), StringsWord(Bsd, a.big, s), Strings(entries),
            Repeat(NUL, MapPadding(Bsd, n, s)));
  }
}
