/** Reading the symbol map back, in each of its three formats. */
module ArchiveMapReader {
  import opened ArchiveBytes
  import opened Basics
  import opened ArchiveMembers
  import opened ArchiveMap
  import opened ArchiveMapWriter
  import opened ArchiveReader

  /** A symbol of a map that was read. */
  datatype Symdef = Symdef(name: Bytes, offset: nat)

  datatype Slurped = NoMap | Bad | Map(symdefs: seq<Symdef>, first: nat)

  // ---------- COFF and 64-bit maps: names follow one another ----------

  /** Where the name after the one at p begins. */
  function NextName(strings: Bytes, p: nat): (q: nat)
    requires p <= |strings|
    ensures p <= q <= |strings|
  {
    var e := p + |CString(strings[p..])|;
    if e < |strings| then e + 1 else e
  }

  function CellWord(wide: bool, cells: Bytes, i: nat): nat
    requires if wide then 8 * i + 8 <= |cells| else 4 * i + 4 <= |cells|
  {
    if wide then GetBig64(cells[8 * i..8 * i + 8]) else GetBig32(cells[4 * i..4 * i + 4])
  }

  predicate HasCells(wide: bool, cells: Bytes, n: nat) {
    if wide then 8 * n <= |cells| else 4 * n <= |cells|
  }

  function Carsyms(strings: Bytes, p: nat, wide: bool, cells: Bytes, i: nat, n: nat): seq<Symdef>
    requires p <= |strings| && i <= n && HasCells(wide, cells, n)
    decreases n - i
  {
    if i == n then []
    else [Symdef(CString(strings[p..]), CellWord(wide, cells, i))]
         + Carsyms(strings, NextName(strings, p), wide, cells, i + 1, n)
  }

  method ReadCarsyms(strings: Bytes, wide: bool, cells: Bytes, n: nat) returns (symdefs: seq<Symdef>)
    requires HasCells(wide, cells, n)
    ensures symdefs == Carsyms(strings, 0, wide, cells, 0, n)
  {
    hide NextName, CellWord, CString;
    ghost var all := Carsyms(strings, 0, wide, cells, 0, n);
    symdefs := [];
    var p: nat := 0;
    for i := 0 to n
      invariant p <= |strings| && all == symdefs + Carsyms(strings, p, wide, cells, i, n)
    {
      Regroup(symdefs, Symdef(CString(strings[p..]), CellWord(wide, cells, i)),
              Carsyms(strings, NextName(strings, p), wide, cells, i + 1, n));
      symdefs := symdefs + [Symdef(CString(strings[p..]), CellWord(wide, cells, i))];
      p := NextName(strings, p);
    }
  }

  /** The symbols of a COFF map with contents c. */
  function CoffSymdefs(c: Bytes): Option<seq<Symdef>> {
    if |c| < 4 then None
    else
      var n := GetBig32(c[..4]);
      if |c| - 4 < 4 * n then None
      else Some(Carsyms(c[4 + 4 * n..], 0, false, c[4..4 + 4 * n], 0, n))
  }

  const CARSYM: nat := 16

  /** The symbols of a 64-bit map. The sizes are computed in 64-bit words, and checked afterwards. */
  function IrixSymdefs(c: Bytes): Option<seq<Symdef>>
    requires |c| < U64
  {
    if |c| < 8 then None
    else
      var n := GetBig64(c[..8]);
      var size := (|c| - 8 * n - 8) % U64;
      if n >= (U64 - 1) / 8 || size > |c| || n > (U64 - 1) / CARSYM then None
      else
        var amt := (CARSYM * n + size + 1) % U64;
        if amt <= CARSYM * n || amt <= size then None
        else
          ChecksAreEnough(|c|, n);
          Some(Carsyms(c[8 + 8 * n..], 0, true, c[8..8 + 8 * n], 0, n))
  }

  /** The check that the computed size has not wrapped is exact. */
  lemma ChecksAreEnough(parsed: nat, n: nat)
    requires parsed < U64 && n < (U64 - 1) / 8
    ensures (parsed - 8 * n - 8) % U64 <= parsed <==> 8 + 8 * n <= parsed
    ensures 8 + 8 * n <= parsed ==> (parsed - 8 * n - 8) % U64 == parsed - 8 * n - 8
  {
    var d := parsed - 8 * n - 8;
    if d < 0 {
      assert d % U64 == d + U64;
    }
  }

  // ---------- BSD maps: each symbol gives the place of its name ----------

  /** The name and offset at position q of a BSD map's raw bytes. */
  function BsdSymdef(big: bool, raw: Bytes, strings: Bytes, q: nat): Option<Symdef>
    requires q + 8 <= |raw|
  {
    var nameoff := Get32(big, raw[q..q + 4]);
    if nameoff >= |strings| then None
    else Some(Symdef(CString(strings[nameoff..]), Get32(big, raw[q + 4..q + 8])))
  }

  function BsdEntries(big: bool, raw: Bytes, strings: Bytes, n: nat): Option<seq<Symdef>>
    requires 4 + 8 * n <= |raw|
  {
    if n == 0 then Some([])
    else
      match BsdEntries(big, raw, strings, n - 1)
      case None => None
      case Some(front) =>
        match BsdSymdef(big, raw, strings, 4 + 8 * (n - 1))
        case None => None
        case Some(s) => Some(front + [s])
  }

  /** The first n entries are refused exactly if one of them gives a place that is not inside the names. */
  lemma {:induction false} BadNamesStop(big: bool, raw: Bytes, strings: Bytes, n: nat)
    requires 4 + 8 * n <= |raw|
    ensures BsdEntries(big, raw, strings, n).None? <==>
            exists k :: 0 <= k < n && Get32(big, raw[4 + 8 * k..8 + 8 * k]) >= |strings|
  {
    hide Get32, CString;
    if n == 0 {
    } else {
      BadNamesStop(big, raw, strings, n - 1);
    }
  }

  lemma {:induction false} NoneStays(big: bool, raw: Bytes, strings: Bytes, m: nat, n: nat)
    requires m <= n && 4 + 8 * n <= |raw| && BsdEntries(big, raw, strings, m).None?
    ensures BsdEntries(big, raw, strings, n).None?
  {
    if m == n {
    } else {
      NoneStays(big, raw, strings, m, n - 1);
    }
  }

  method ReadBsdEntries(big: bool, raw: Bytes, strings: Bytes, n: nat) returns (r: Option<seq<Symdef>>)
    requires 4 + 8 * n <= |raw|
    ensures r == BsdEntries(big, raw, strings, n)
  {
    hide BsdSymdef;
    var symdefs := [];
    for i := 0 to n
      invariant BsdEntries(big, raw, strings, i) == Some(symdefs)
    {
      var s := BsdSymdef(big, raw, strings, 4 + 8 * i);
      if s.None? {
        NoneStays(big, raw, strings, i + 1, n);
        return None;
      }
      symdefs := symdefs + [s.value];
    }
    return Some(symdefs);
  }

  function BsdSymdefs(big: bool, c: Bytes): Option<seq<Symdef>> {
    if |c| < 8 then None
    else
      var amt := Get32(big, c[..4]);
      if amt > |c| - 8 || amt % 8 != 0 then None
      else BsdEntries(big, c, c[8 + amt..], amt / 8)
  }

  // ---------- the map of an archive ----------

  function RoundUp(p: nat): nat {
    p + Padding(p)
  }

  /** A second header, as PE archives have, follows at p. */
  predicate SecondHeader(f: Bytes, rd: Reader, p: nat)
    requires rd.maxName <= AR_NAME
  {
    ReadHeader(f, rd, p).Some? && f[p] == SLASH && f[p + 1] == SPACE
  }

  /** How far past it the members are: the mask that rounds the size has 32 bits. */
  function PastSecond(size: nat): nat {
    Unsigned(size + AR_HDR + 1) / 2 * 2
  }

  function SlurpCoff(f: Bytes, rd: Reader): Slurped
    requires rd.maxName <= AR_NAME
  {
    match ReadHeader(f, rd, SARMAG)
    case None => Bad
    case Some(e) =>
      if e.contentsAt + e.size > |f| then Bad
      else
        match CoffSymdefs(f[e.contentsAt..e.contentsAt + e.size])
        case None => Bad
        case Some(symdefs) =>
          var first := RoundUp(e.contentsAt + e.size);
          if SecondHeader(f, rd, first) then Map(symdefs, first + PastSecond(ReadHeader(f, rd, first).value.size))
          else Map(symdefs, first)
  }

  function SlurpOther(kind: Kind, f: Bytes, rd: Reader, big: bool): Slurped
    requires rd.maxName <= AR_NAME && !kind.Coff?
  {
    match ReadHeader(f, rd, SARMAG)
    case None => Bad
    case Some(e) =>
      if e.contentsAt + e.size > |f| then Bad
      else
        var c := f[e.contentsAt..e.contentsAt + e.size];
        match if kind.Bsd? then BsdSymdefs(big, c) else IrixSymdefs(c)
        case None => Bad
        case Some(symdefs) => Map(symdefs, RoundUp(e.contentsAt + e.size))
  }

  /** bfd_slurp_armap: the format is that of the first member's name. */
  function Slurp(f: Bytes, rd: Reader, big: bool): Slurped
    requires rd.maxName <= AR_NAME
  {
    if |f| <= SARMAG then NoMap
    else if |f| < SARMAG + AR_NAME then Bad
    else
      var name := f[SARMAG..SARMAG + AR_NAME];
      if name == MapName(Bsd) || name == SYMDEF + [SLASH] + Repeat(SPACE, 6) then SlurpOther(Bsd, f, rd, big)
      else if name == MapName(Coff) then SlurpCoff(f, rd)
      else if name == MapName(Irix) then SlurpOther(Irix, f, rd, big)
      else NoMap
  }

  // ---------- sizes ----------

  /** The length of the map in unbounded arithmetic. */
  function WholeSize(kind: Kind, n: nat, s: nat): nat {
    match kind
    case Bsd => 8 * n + 8 + s + s % 2
    case Coff => 4 * n + 4 + s + s % 2
    case Irix => 8 * n + 8 + s + (8 - s % 8) % 8
  }

  lemma Fits32(n: nat)
    requires n < U32
    ensures Unsigned(n) == n
  {
  }

  lemma SameRemainders(n: nat, s: nat)
    ensures (s + (4 * n + 4)) % 2 == s % 2
    ensures (s + (8 * n + 8)) % 8 == s % 8
  {
    ByTwo(s + (4 * n + 4), s / 2 + 2 * n + 2, s % 2);
    ByEight(s + (8 * n + 8), s / 8 + n + 1, s % 8);
  }

  lemma ByTwo(x: nat, q: nat, r: nat)
    requires x == 2 * q + r && r < 2
    ensures x % 2 == r
  {
  }

  lemma ByEight(x: nat, q: nat, r: nat)
    requires x == 8 * q + r && r < 8
    ensures x % 8 == r
  {
  }

  /** Below 4 GB the unsigned sizes of the writers are the true ones. */
  lemma SizesAreTrue(kind: Kind, n: nat, s: nat)
    requires WholeSize(kind, n, s) < U32
    ensures MapSize(kind, n, s) == WholeSize(kind, n, s)
    ensures MapPadding(kind, n, s) == if kind.Irix? then (8 - s % 8) % 8 else s % 2
  {
    hide Unsigned;
    SameRemainders(n, s);
    Fits32(WholeSize(kind, n, s));
    match kind
    case Bsd =>
      Fits32(n * 8);
      Fits32(n * 8 + s + 8);
    case Coff =>
      Fits32(n * 4 + 4);
      Fits32(s + (n * 4 + 4));
    case Irix =>
      Fits32(n * 8 + 8);
      Fits32(s + (n * 8 + 8));
  }

  /** And they are even. */
  lemma WholeSizeIsEven(kind: Kind, n: nat, s: nat)
    ensures Even(WholeSize(kind, n, s))
  {
    match kind
    case Bsd => TwiceIsEven(WholeSize(kind, n, s), 4 * n + 4 + (s / 2 + s % 2));
    case Coff => TwiceIsEven(WholeSize(kind, n, s), 2 * n + 2 + (s / 2 + s % 2));
    case Irix =>
      assert s == 8 * (s / 8) + s % 8;
      TwiceIsEven(WholeSize(kind, n, s), 4 * n + 4 + 4 * (s / 8) + (if s % 8 == 0 then 0 else 4));
  }

  lemma {:induction false} CellsLength(kind: Kind, a: Archive, entries: seq<Entry>, first: nat, n: nat)
    requires ArchiveOk(a) && Ordered(entries, |a.members|) && n <= |entries|
    ensures |Cells(kind, a, entries, first, n)| == if kind.Coff? then 4 * n else 8 * n
  {
    hide Offset, Strings, Big32, Put32;
    if n == 0 {
    } else {
      CellsLength(kind, a, entries, first, n - 1);
    }
  }

  /** The map's contents are as long as its header says. */
  lemma ContentsLength(kind: Kind, a: Archive, entries: seq<Entry>, first: nat)
    requires ArchiveOk(a) && Ordered(entries, |a.members|)
    requires WholeSize(kind, |entries|, |Strings(entries)|) < U32
    ensures |MapContents(kind, a, entries, first)| == WholeSize(kind, |entries|, |Strings(entries)|)
  {
    hide Cells, Strings, MapPadding, Put32, Big32;
    SizesAreTrue(kind, |entries|, |Strings(entries)|);
    CellsLength(kind, a, entries, first, |entries|);
  }

  // ---------- what is written reads back ----------

  /** The symbols of a map with the offsets of their members. */
  ghost function Listed(kind: Kind, a: Archive, entries: seq<Entry>, first: nat): (r: seq<Symdef>)
    requires ArchiveOk(a) && Ordered(entries, |a.members|)
    ensures |r| == |entries|
  {
    seq(|entries|, k requires 0 <= k < |entries| =>
      Symdef(entries[k].name, Offset(kind, a.thin, a.members, first, entries[k].member)))
  }

  /** Every offset fits a word of the map. */
  predicate InRange(kind: Kind, a: Archive, entries: seq<Entry>, first: nat)
    requires ArchiveOk(a) && Ordered(entries, |a.members|)
  {
    forall k :: 0 <= k < |entries| ==>
      Offset(kind, a.thin, a.members, first, entries[k].member) < if kind.Irix? then U64 else U32
  }

  /** A map whose names are C strings and whose size is below 4 GB. */
  ghost predicate MapOk(kind: Kind, a: Archive, entries: seq<Entry>, first: nat) {
    && ArchiveOk(a)
    && Ordered(entries, |a.members|)
    && InRange(kind, a, entries, first)
    && (forall k :: 0 <= k < |entries| ==> NulFree(entries[k].name))
    && WholeSize(kind, |entries|, |Strings(entries)|) < U32
  }

  /** Where symbol k's cell is among the cells. */
  function CellPlace(kind: Kind, k: nat): nat {
    if kind.Coff? then 4 * k else 8 * k
  }

  lemma {:induction false} CellAt(kind: Kind, a: Archive, entries: seq<Entry>, first: nat, n: nat, k: nat)
    requires ArchiveOk(a) && Ordered(entries, |a.members|) && k < n <= |entries|
    ensures |Cells(kind, a, entries, first, n)| == CellPlace(kind, n)
    ensures Cells(kind, a, entries, first, n)[CellPlace(kind, k)..CellPlace(kind, k + 1)]
         == Cell(kind, a.big, |Strings(entries[..k])|, Offset(kind, a.thin, a.members, first, entries[k].member))
  {
    hide Cells, Cell, Strings, Offset;
    CellsLength(kind, a, entries, first, n);
    CellsLength(kind, a, entries, first, n - 1);
    CellsGrow(kind, a, entries, first, n - 1);
    if k == n - 1 {
    } else {
      CellAt(kind, a, entries, first, n - 1, k);
    }
  }

  /** A name among the names. */
  lemma {:induction false} NameAmong(entries: seq<Entry>, k: nat) returns (rest: Bytes)
    requires k < |entries|
    ensures Strings(entries) == Strings(entries[..k]) + (entries[k].name + [NUL] + rest)
  {
    var front := entries[..|entries| - 1];
    if k == |entries| - 1 {
      rest := [];
    } else {
      assert front[..k] == entries[..k];
      var r := NameAmong(front, k);
      rest := r + entries[|entries| - 1].name + [NUL];
    }
  }

  /** The name that begins at its symbol's place, whatever follows the names. */
  lemma NameThere(entries: seq<Entry>, k: nat, padding: Bytes)
    requires k < |entries| && NulFree(entries[k].name)
    ensures |Strings(entries[..k])| + |entries[k].name| < |Strings(entries)|
    ensures CString((Strings(entries) + padding)[|Strings(entries[..k])|..]) == entries[k].name
  {
    var rest := NameAmong(entries, k);
    hide Strings, CString;
    var pre, name := Strings(entries[..k]), entries[k].name;
    assert (Strings(entries) + padding)[|pre|..] == name + [NUL] + (rest + padding);
    CStringReadsBack(name, rest + padding);
  }

  lemma PlaceAfter(entries: seq<Entry>, k: nat)
    requires k < |entries|
    ensures |Strings(entries[..k + 1])| == |Strings(entries[..k])| + |entries[k].name| + 1
  {
    assert entries[..k + 1] == entries[..k] + [entries[k]];
    StringsGrow(entries[..k], entries[k]);
  }

  lemma CellWordIs(kind: Kind, a: Archive, entries: seq<Entry>, first: nat, k: nat)
    requires MapOk(kind, a, entries, first) && !kind.Bsd? && k < |entries|
    ensures HasCells(kind.Irix?, Cells(kind, a, entries, first, |entries|), |entries|)
    ensures CellWord(kind.Irix?, Cells(kind, a, entries, first, |entries|), k)
         == Offset(kind, a.thin, a.members, first, entries[k].member)
  {
    hide Cells, Offset, Strings, Big32, Big64, GetBig32, GetBig64, Put32, Get32;
    CellAt(kind, a, entries, first, |entries|, k);
    var offset := Offset(kind, a.thin, a.members, first, entries[k].member);
    if kind.Irix? {
      LongWordReadsBack(offset);
    } else {
      BigWordReadsBack(offset);
    }
  }

  lemma BigWordReadsBack(v: nat)
    requires v < U32
    ensures GetBig32(Big32(v)) == v
  {
    WordsReadBack(true, v);
  }

  lemma {:induction false} CarsymsFrom(kind: Kind, a: Archive, entries: seq<Entry>, first: nat, padding: Bytes, k: nat)
    requires MapOk(kind, a, entries, first) && !kind.Bsd? && k <= |entries|
    ensures |Strings(entries[..k])| <= |Strings(entries) + padding|
    ensures HasCells(kind.Irix?, Cells(kind, a, entries, first, |entries|), |entries|)
    ensures Carsyms(Strings(entries) + padding, |Strings(entries[..k])|, kind.Irix?,
                    Cells(kind, a, entries, first, |entries|), k, |entries|)
         == Listed(kind, a, entries, first)[k..]
    decreases |entries| - k
  {
    hide Strings, CellWord, CString, Cells, InRange, WholeSize, Offset, ArchiveOk, Ordered;
    CellsLength(kind, a, entries, first, |entries|);
    if k == |entries| {
      assert entries[..k] == entries;
    } else {
      var strings := Strings(entries) + padding;
      NameThere(entries, k, padding);
      PlaceAfter(entries, k);
      CellWordIs(kind, a, entries, first, k);
      CarsymsFrom(kind, a, entries, first, padding, k + 1);
      assert NextName(strings, |Strings(entries[..k])|) == |Strings(entries[..k + 1])|;
      var all := Listed(kind, a, entries, first);
      assert all[k..] == [all[k]] + all[k + 1..];
    }
  }

  lemma Sections(w: Bytes, cells: Bytes, sw: Bytes, strings: Bytes, padding: Bytes)
    ensures var c := w + cells + sw + strings + padding;
            && c[..|w|] == w
            && c[|w|..|w| + |cells|] == cells
            && c[|w| + |cells|..|w| + |cells| + |sw|] == sw
            && c[|w| + |cells| + |sw|..] == strings + padding
  {
  }

  lemma CoffReadsBack(a: Archive, entries: seq<Entry>, first: nat)
    requires MapOk(Coff, a, entries, first)
    ensures CoffSymdefs(MapContents(Coff, a, entries, first)) == Some(Listed(Coff, a, entries, first))
  {
    hide Strings, CellWord, CString, Cells, InRange, Offset, ArchiveOk, Ordered, Carsyms, Listed, Big32, GetBig32, MapPadding,
         Repeat;
    var n, strings, padding := |entries|, Strings(entries), Repeat(NUL, MapPadding(Coff, |entries|, |Strings(entries)|));
    var cells := Cells(Coff, a, entries, first, n);
    Sections(Big32(n), cells, [], strings, padding);
    CellsLength(Coff, a, entries, first, n);
    Fits32(n);
    BigWordReadsBack(n);
    CarsymsFrom(Coff, a, entries, first, padding, 0);
    StringsOfNone(entries);
  }

  lemma StringsOfNone(entries: seq<Entry>)
    ensures Strings(entries[..0]) == []
  {
  }

  lemma SmallCount(parsed: nat, n: nat)
    requires parsed < U32 && 8 + 8 * n <= parsed
    ensures var size := (parsed - 8 * n - 8) % U64;
            && n < (U64 - 1) / CARSYM
            && size == parsed - 8 * n - 8
            && (CARSYM * n + size + 1) % U64 == CARSYM * n + size + 1
  {
  }

  lemma IrixReadsBack(a: Archive, entries: seq<Entry>, first: nat)
    requires MapOk(Irix, a, entries, first) && |MapContents(Irix, a, entries, first)| < U32
    ensures IrixSymdefs(MapContents(Irix, a, entries, first)) == Some(Listed(Irix, a, entries, first))
  {
    hide Strings, CellWord, CString, Cells, InRange, Offset, ArchiveOk, Ordered, Carsyms, Listed, Big64, GetBig64, MapPadding,
         Repeat;
    var n, strings, padding := |entries|, Strings(entries), Repeat(NUL, MapPadding(Irix, |entries|, |Strings(entries)|));
    var cells := Cells(Irix, a, entries, first, n);
    Sections(Big64(n), cells, [], strings, padding);
    CellsLength(Irix, a, entries, first, n);
    Fits32(n);
    LongWordReadsBack(n);
    SmallCount(|MapContents(Irix, a, entries, first)|, n);
    CarsymsFrom(Irix, a, entries, first, padding, 0);
    StringsOfNone(entries);
  }

  lemma HalfCells(a: Bytes, b: Bytes, c: Bytes, q: nat)
    requires |a| == 4 && |b| == 4 && q + 8 <= |c| && c[q..q + 8] == a + b
    ensures c[q..q + 4] == a && c[q + 4..q + 8] == b
  {
    assert c[q..q + 4] == c[q..q + 8][..4];
    assert c[q + 4..q + 8] == c[q..q + 8][4..];
  }

  lemma BsdSymdefIs(a: Archive, entries: seq<Entry>, first: nat, k: nat, c: Bytes, padding: Bytes)
    requires MapOk(Bsd, a, entries, first) && k < |entries|
    requires 4 + 8 * |entries| <= |c| && c[4..4 + 8 * |entries|] == Cells(Bsd, a, entries, first, |entries|)
    ensures BsdSymdef(a.big, c, Strings(entries) + padding, 4 + 8 * k) == Some(Listed(Bsd, a, entries, first)[k])
  {
    hide Strings, CString, Cells, Offset, AllWritable, Put32, Get32;
    var namidx, offset := |Strings(entries[..k])|, Offset(Bsd, a.thin, a.members, first, entries[k].member);
    CellAt(Bsd, a, entries, first, |entries|, k);
    NameThere(entries, k, padding);
    Part(c, 4, Cells(Bsd, a, entries, first, |entries|), 8 * k, 8 * (k + 1));
    HalfCells(Put32(a.big, namidx), Put32(a.big, offset), c, 4 + 8 * k);
    WordsReadBack(a.big, namidx);
    WordsReadBack(a.big, offset);
  }

  lemma {:induction false} BsdEntriesAre(a: Archive, entries: seq<Entry>, first: nat, k: nat, c: Bytes, padding: Bytes)
    requires MapOk(Bsd, a, entries, first) && k <= |entries|
    requires 4 + 8 * |entries| <= |c| && c[4..4 + 8 * |entries|] == Cells(Bsd, a, entries, first, |entries|)
    ensures BsdEntries(a.big, c, Strings(entries) + padding, k) == Some(Listed(Bsd, a, entries, first)[..k])
  {
    hide Strings, Cells, InRange, Offset, ArchiveOk, Ordered, BsdSymdef, Listed;
    if k == 0 {
    } else {
      BsdEntriesAre(a, entries, first, k - 1, c, padding);
      BsdSymdefIs(a, entries, first, k - 1, c, padding);
      var all := Listed(Bsd, a, entries, first);
      assert all[..k] == all[..k - 1] + [all[k - 1]];
    }
  }

  /** The word before the names of a BSD map is the number of bytes that follow it. */
  lemma NamesAreCounted(a: Archive, entries: seq<Entry>, first: nat)
    requires MapOk(Bsd, a, entries, first)
    ensures var c, q := MapContents(Bsd, a, entries, first), 4 + 8 * |entries|;
            q + 4 <= |c| && Get32(a.big, c[q..q + 4]) == |c| - (q + 4)
  {
    hide Strings, Cells, InRange, Offset, ArchiveOk, Ordered, Put32, Get32, Repeat;
    var n, strings, padding := |entries|, Strings(entries), Repeat(NUL, MapPadding(Bsd, |entries|, |Strings(entries)|));
    CellsLength(Bsd, a, entries, first, n);
    Fits32(n * 8);
    Sections(Put32(a.big, n * 8), Cells(Bsd, a, entries, first, n), StringsWord(Bsd, a.big, |strings|), strings, padding);
    SizesAreTrue(Bsd, n, |strings|);
    ContentsLength(Bsd, a, entries, first);
    WordsReadBack(a.big, |strings| + |strings| % 2);
  }

  lemma BsdReadsBack(a: Archive, entries: seq<Entry>, first: nat)
    requires MapOk(Bsd, a, entries, first)
    ensures BsdSymdefs(a.big, MapContents(Bsd, a, entries, first)) == Some(Listed(Bsd, a, entries, first))
  {
    hide Strings, CString, Cells, InRange, Offset, ArchiveOk, Ordered, BsdEntries, Listed, Put32, Get32, MapPadding, Repeat;
    var n, strings, padding := |entries|, Strings(entries), Repeat(NUL, MapPadding(Bsd, |entries|, |Strings(entries)|));
    var cells := Cells(Bsd, a, entries, first, n);
    var c := MapContents(Bsd, a, entries, first);
    Fits32(n * 8);
    Sections(Put32(a.big, n * 8), cells, StringsWord(Bsd, a.big, |strings|), strings, padding);
    CellsLength(Bsd, a, entries, first, n);
    WordsReadBack(a.big, n * 8);
    BsdEntriesAre(a, entries, first, n, c, padding);
    var all := Listed(Bsd, a, entries, first);
    assert all[..n] == all;
  }

  /** The map's header and contents in the file. */
  ghost predicate MapThere(kind: Kind, f: Bytes, a: Archive, entries: seq<Entry>, tableSize: nat)
    requires ArchiveOk(a) && Ordered(entries, |a.members|)
  {
    var b := MapBytes(kind, a, entries, tableSize);
    SARMAG + |b| <= |f| && f[SARMAG..SARMAG + |b|] == b
  }

  /** Where the first member goes after a map of the given format. */
  function MapFirst(kind: Kind, entries: seq<Entry>, tableSize: nat): nat {
    FirstMember(MapSize(kind, |entries|, |Strings(entries)|), tableSize)
  }

  lemma MapParts(kind: Kind, f: Bytes, a: Archive, entries: seq<Entry>, tableSize: nat)
    requires MapOk(kind, a, entries, MapFirst(kind, entries, tableSize)) && MapThere(kind, f, a, entries, tableSize)
    ensures var size := WholeSize(kind, |entries|, |Strings(entries)|);
            && SizeFits(size)
            && SARMAG + AR_HDR + size <= |f|
            && f[SARMAG..SARMAG + AR_HDR] == Header(MapName(kind), a.middle, size)
            && f[SARMAG + AR_HDR..SARMAG + AR_HDR + size] == MapContents(kind, a, entries, MapFirst(kind, entries, tableSize))
  {
    hide Strings, MapContents, Header, MapName, WholeSize, MapSize, SizeFits, InRange;
    var size, b := WholeSize(kind, |entries|, |Strings(entries)|), MapBytes(kind, a, entries, tableSize);
    SizesAreTrue(kind, |entries|, |Strings(entries)|);
    SizesFit(size);
    ContentsLength(kind, a, entries, MapFirst(kind, entries, tableSize));
    Part(f, SARMAG, b, 0, AR_HDR);
    Part(f, SARMAG, b, AR_HDR, AR_HDR + size);
  }

  lemma MapNameIsPlain(kind: Kind)
    ensures !IsBsd44(MapName(kind))
  {
  }

  /** The map's header, read before there is a table of long names. */
  lemma MapHeaderReadsBack(kind: Kind, f: Bytes, a: Archive, entries: seq<Entry>, tableSize: nat, rd: Reader)
    requires MapOk(kind, a, entries, MapFirst(kind, entries, tableSize)) && MapThere(kind, f, a, entries, tableSize)
    requires rd.maxName <= AR_NAME && rd.names.None?
    ensures var r := ReadHeader(f, rd, SARMAG);
            r.Some? && r.value.contentsAt == SARMAG + AR_HDR && r.value.size == WholeSize(kind, |entries|, |Strings(entries)|)
  {
    hide MapOk, MapThere, Header, MapName, ParseHeader, WholeSize, SizeFits, MapContents, IsBsd44, ShortName;
    var size := WholeSize(kind, |entries|, |Strings(entries)|);
    assert size < U32 && |a.middle| == AR_MIDDLE by { OkMap(kind, a, entries, MapFirst(kind, entries, tableSize)); }
    MapParts(kind, f, a, entries, tableSize);
    HeaderReadsBack(MapName(kind), a.middle, size);
    MapNameIsPlain(kind);
  }

  lemma OkMap(kind: Kind, a: Archive, entries: seq<Entry>, first: nat)
    requires MapOk(kind, a, entries, first)
    ensures WholeSize(kind, |entries|, |Strings(entries)|) < U32 && |a.middle| == AR_MIDDLE
  {
  }

  lemma NamesDiffer()
    ensures MapName(Bsd) != MapName(Coff) && MapName(Bsd) != MapName(Irix) && MapName(Coff) != MapName(Irix)
    ensures MapName(Coff) != SYMDEF + [SLASH] + Repeat(SPACE, 6) && MapName(Irix) != SYMDEF + [SLASH] + Repeat(SPACE, 6)
  {
    assert MapName(Bsd)[0] == 0x5f && MapName(Coff)[0] == SLASH && MapName(Irix)[0] == SLASH;
    assert MapName(Coff)[1] == SPACE && MapName(Irix)[1] == 0x53;
    assert (SYMDEF + [SLASH] + Repeat(SPACE, 6))[0] == 0x5f;
  }

  lemma NameStands(kind: Kind, f: Bytes, a: Archive, size: nat)
    requires |a.middle| == AR_MIDDLE && SizeFits(size) && SARMAG + AR_HDR <= |f|
    requires f[SARMAG..SARMAG + AR_HDR] == Header(MapName(kind), a.middle, size)
    ensures f[SARMAG..SARMAG + AR_NAME] == MapName(kind)
  {
    hide Header, SizeFits, MapName;
    HeaderParts(MapName(kind), a.middle, size);
    assert f[SARMAG..SARMAG + AR_NAME] == f[SARMAG..SARMAG + AR_HDR][..AR_NAME];
  }

  /** The contents of a map read back, in its own format. */
  lemma ContentsReadsBack(kind: Kind, a: Archive, entries: seq<Entry>, first: nat)
    requires MapOk(kind, a, entries, first)
    ensures |MapContents(kind, a, entries, first)| < U64
    ensures (match kind
             case Bsd => BsdSymdefs(a.big, MapContents(kind, a, entries, first))
             case Coff => CoffSymdefs(MapContents(kind, a, entries, first))
             case Irix => IrixSymdefs(MapContents(kind, a, entries, first)))
         == Some(Listed(kind, a, entries, first))
  {
    hide WholeSize, MapContents, InRange, Listed, BsdSymdefs, CoffSymdefs, IrixSymdefs, Strings, ArchiveOk, Ordered;
    ContentsLength(kind, a, entries, first);
    match kind
    case Bsd => BsdReadsBack(a, entries, first);
    case Coff => CoffReadsBack(a, entries, first);
    case Irix => IrixReadsBack(a, entries, first);
  }

  function PastMap(kind: Kind, f: Bytes, rd: Reader, end: nat): nat
    requires rd.maxName <= AR_NAME
  {
    if kind.Coff? && SecondHeader(f, rd, end) then end + PastSecond(ReadHeader(f, rd, end).value.size) else end
  }

  /** The round trip: reading a map that was written gives its names, each with the offset the writer computed, and the
      place of the first member; unless a COFF map is followed by what looks like a second one, which is
      skipped. */
  lemma MapReadsBack(kind: Kind, f: Bytes, a: Archive, entries: seq<Entry>, tableSize: nat, rd: Reader)
    requires MapOk(kind, a, entries, MapFirst(kind, entries, tableSize)) && MapThere(kind, f, a, entries, tableSize)
    requires rd.maxName <= AR_NAME && rd.names.None?
    ensures Slurp(f, rd, a.big)
         == Map(Listed(kind, a, entries, MapFirst(kind, entries, tableSize)),
                PastMap(kind, f, rd, SARMAG + AR_HDR + WholeSize(kind, |entries|, |Strings(entries)|)))
  {
    hide MapOk, MapThere, Header, MapName, ReadHeader, WholeSize, SizeFits, MapContents, Listed, Strings, Even, Padding,
         BsdSymdefs, CoffSymdefs, IrixSymdefs, PastSecond, SecondHeader;
    var first, size := MapFirst(kind, entries, tableSize), WholeSize(kind, |entries|, |Strings(entries)|);
    OkMap(kind, a, entries, first);
    MapParts(kind, f, a, entries, tableSize);
    NameStands(kind, f, a, size);
    NamesDiffer();
    MapHeaderReadsBack(kind, f, a, entries, tableSize, rd);
    ContentsReadsBack(kind, a, entries, first);
    EvenEnd(kind, |entries|, |Strings(entries)|);
  }

  lemma EvenEnd(kind: Kind, n: nat, s: nat)
    ensures var end := SARMAG + AR_HDR + WholeSize(kind, n, s); Padding(end) == 0
  {
    hide WholeSize;
    WholeSizeIsEven(kind, n, s);
  }
}
