/** A whole archive: magic string, symbol map, table of long names and members, written and opened again. */
module ArchiveWhole {
  import opened ArchiveBytes
  import opened Basics
  import opened ArchiveMembers
  import opened ArchiveMap
  import opened ArchiveMapWriter
  import opened ArchiveReader
  import opened ArchiveMapReader
  import LongNames

  // ---------- writing ----------

  function Magic(thin: bool): (r: Bytes)
    ensures |r| == SARMAG
  {
    [0x21, 0x3c] + (if thin then [0x74, 0x68, 0x69, 0x6e] else [0x61, 0x72, 0x63, 0x68]) + [0x3e, NEWLINE]
  }

  /** The table of long names: its header's name and its bytes. */
  datatype NameTable = NameTable(name: Bytes, bytes: Bytes)

  predicate TableOk(t: NameTable) {
    |t.name| == AR_NAME
  }

  /** The table's size fits its header. */
  predicate TableFits(t: NameTable) {
    SizeFits(|Padded(t.bytes)|)
  }

  lemma NoTableFits(t: NameTable)
    requires t.bytes == []
    ensures TableFits(t)
  {
    assert |Padded(t.bytes)| == 0;
  }

  /** A text in ASCII. */
  function Ascii(text: string): (r: Bytes)
    requires forall i :: 0 <= i < |text| ==> text[i] < 128 as char
    ensures |r| == |text|
  {
    seq(|text|, i requires 0 <= i < |text| => text[i] as int)
  }

  /** What archives and their maps are known by. */
  lemma TextsAre()
    ensures Magic(false) == Ascii("!<arch>\n") && Magic(true) == Ascii("!<thin>\n")
    ensures MapName(Bsd) == Ascii("__.SYMDEF       ")
    ensures MapName(Coff) == Ascii("/               ")
    ensures MapName(Irix) == Ascii("/SYM64/         ")
  {
    assert Repeat(SPACE, 7) == Ascii("       ") && Repeat(SPACE, 9) == Ascii("         ");
    assert Repeat(SPACE, 15) == Ascii("               ");
  }

  function Middle(): (r: Bytes)
    ensures |r| == AR_MIDDLE
  {
    Repeat(SPACE, AR_MIDDLE)
  }

  /** The table's bytes, with the newline that makes their number even. */
  function Padded(bytes: Bytes): (r: Bytes)
    ensures |r| == |bytes| + Padding(|bytes|)
  {
    bytes + (if Padding(|bytes|) == 1 then [NEWLINE] else [])
  }

  function TableBytes(t: NameTable): (r: Bytes)
    requires TableOk(t) && TableFits(t)
    ensures |r| == if t.bytes == [] then 0 else AR_HDR + |t.bytes| + Padding(|t.bytes|)
  {
    if t.bytes == [] then [] else Header(t.name, Middle(), |Padded(t.bytes)|) + Padded(t.bytes)
  }

  /** The format in which the map is written. */
  function KindWritten(a: Archive, entries: seq<Entry>, tableSize: nat): Kind
    requires ArchiveOk(a) && Ordered(entries, |a.members|)
  {
    if a.kind.Irix? || !MapFits(a.kind, a, entries, tableSize) then Irix else a.kind
  }

  function Front(a: Archive, entries: Option<seq<Entry>>, t: NameTable): Bytes
    requires ArchiveOk(a) && TableOk(t) && TableFits(t)
    requires entries.Some? ==> Ordered(entries.value, |a.members|)
  {
    Magic(a.thin)
    + (if entries.None? then []
       else MapBytes(KindWritten(a, entries.value, TableSize(|t.bytes|)), a, entries.value, TableSize(|t.bytes|)))
    + TableBytes(t)
  }

  method WriteMap(out: Output, a: Archive, entries: seq<Entry>, tableSize: nat)
    requires ArchiveOk(a) && Ordered(entries, |a.members|)
    modifies out
    ensures out.bytes == old(out.bytes) + MapBytes(KindWritten(a, entries, tableSize), a, entries, tableSize)
  {
    hide MapBytes, MapFits, ArchiveOk, Ordered;
    match a.kind
    case Bsd => var outcome := WriteBsd(out, a, entries, tableSize);
    case Coff => var outcome := WriteCoff(out, a, entries, tableSize);
    case Irix => WriteIrix(out, a, entries, tableSize);
  }

  method WriteTable(out: Output, t: NameTable) returns (ok: bool)
    requires TableOk(t)
    modifies out
    ensures ok <==> TableFits(t)
    ensures ok ==> out.bytes == old(out.bytes) + TableBytes(t)
  {
    hide Header;
    if t.bytes == [] {
      NoTableFits(t);
      return true;
    }
    if |Decimal(|Padded(t.bytes)|)| > AR_SIZE {
      return false;
    }
    out.Write(Header(t.name, Middle(), |Padded(t.bytes)|));
    out.Write(t.bytes);
    if |t.bytes| % 2 == 1 {
      out.Write([NEWLINE]);
    }
    return true;
  }

  /** The archive without the old maps it begins with. */
  function Kept(a: Archive, n: nat): Archive
    requires n <= |a.members|
  {
    a.(members := a.members[n..])
  }

  /** The map that goes in, if one does. */
  function MapOf(sources: seq<Source>, makeMap: bool): Option<seq<Entry>> {
    if makeMap then var rest := sources[OldMaps(sources)..]; Some(Collected(rest, |rest|)) else None
  }

  /** What goes into the file: the archive with the members that are kept, the map if there is one, and the table of
      long names. */
  datatype Plan = Plan(a: Archive, entries: Option<seq<Entry>>, t: NameTable)

  predicate PlanOk(w: Plan) {
    && ArchiveOk(w.a) && TableOk(w.t) && TableFits(w.t)
    && (w.entries.Some? ==> Ordered(w.entries.value, |w.a.members|))
  }

  function PlanOf(a: Archive, sources: seq<Source>, makeMap: bool, t: NameTable): Plan
    requires |sources| == |a.members|
  {
    Plan(Kept(a, if makeMap then OldMaps(sources) else 0), MapOf(sources, makeMap), t)
  }

  function FileBytes(w: Plan): Bytes
    requires PlanOk(w)
  {
    Front(w.a, w.entries, w.t) + AllBytes(w.a.members, w.a.thin)
  }

  /** _bfd_write_archive_contents. */
  method WriteArchive(out: Output, a: Archive, sources: seq<Source>, makeMap: bool, t: NameTable) returns (ok: bool)
    requires ArchiveOk(a) && |sources| == |a.members| && TableOk(t)
    requires out.bytes == []
    modifies out
    ensures ok <==> TableFits(t)
    ensures ok ==> PlanOk(PlanOf(a, sources, makeMap, t)) && out.bytes == FileBytes(PlanOf(a, sources, makeMap, t))
  {
    hide MapBytes, TableBytes, AllBytes, Collected, Ordered, TableFits, KindWritten, OldMaps, Magic, TableSize;
    out.Write(Magic(a.thin));
    var k := Kept(a, 0);
    if makeMap {
      var n, entries, stridx := ComputeMap(sources);
      k := Kept(a, n);
      MapIsOrdered(sources[n..], |sources| - n);
      WriteMap(out, k, entries, TableSize(|t.bytes|));
    }
    ok := WriteTable(out, t);
    if ok {
      out.WriteMembers(k.members, a.thin);
    }
  }

  // ---------- opening ----------

  /** An opened archive: what its headers are read with, its symbols, and where its members begin. */
  datatype Opened = Opened(rd: Reader, symdefs: seq<Symdef>, first: nat)

  predicate IsTableName(name: Bytes) {
    name == [SLASH, SLASH] + Repeat(SPACE, 14)
    || name == [0x41, 0x52, 0x46, 0x49, 0x4c, 0x45, 0x4e, 0x41, 0x4d, 0x45, 0x53, SLASH] + Repeat(SPACE, 4)
  }

  /** _bfd_slurp_extended_name_table: the table, if one is at p, cleaned up, and where the members begin. */
  function SlurpTable(f: Bytes, rd: Reader, p: nat): Option<(Option<Bytes>, nat)>
    requires rd.maxName <= AR_NAME
  {
    if p + AR_NAME > |f| || !IsTableName(f[p..p + AR_NAME]) then Some((None, p))
    else
      match ReadHeader(f, rd, p)
      case None => None
      case Some(e) =>
        if e.size == U64 - 1 || e.contentsAt + e.size > |f| then None
        else Some((Some(LongNames.Clean(f[e.contentsAt..e.contentsAt + e.size])), RoundUp(e.contentsAt + e.size)))
  }

  /** bfd_generic_archive_p. */
  function OpenArchive(f: Bytes, maxName: nat, big: bool): Option<Opened>
    requires maxName <= AR_NAME
  {
    if |f| < SARMAG || (f[..SARMAG] != Magic(true) && f[..SARMAG] != Magic(false)) then None
    else
      var thin := f[..SARMAG] == Magic(true);
      var rd := Reader(None, maxName, thin);
      var slurped := Slurp(f, rd, big);
      if slurped == Bad then None
      else
        var (symdefs, first) := if slurped == NoMap then ([], SARMAG) else (slurped.symdefs, slurped.first);
        match SlurpTable(f, rd, first)
        case None => None
        case Some((names, q)) => Some(Opened(Reader(names, maxName, thin), symdefs, q))
  }

  // ---------- what is written opens again ----------

  /** The reader that an opened archive gets from its table. */
  function ReaderOf(t: NameTable, maxName: nat, thin: bool): Reader {
    Reader(if t.bytes == [] then None else Some(LongNames.Clean(Padded(t.bytes))), maxName, thin)
  }

  /** What a file holds at p: the table, or nothing that would be taken for one. */
  ghost predicate TableThere(f: Bytes, p: nat, t: NameTable)
    requires TableOk(t) && TableFits(t)
  {
    && p + |TableBytes(t)| <= |f|
    && f[p..p + |TableBytes(t)|] == TableBytes(t)
    && (if t.bytes == [] then p + AR_NAME <= |f| ==> !IsTableName(f[p..p + AR_NAME])
        else IsTableName(t.name))
  }

  lemma TableNameIsPlain(name: Bytes)
    requires |name| == AR_NAME && IsTableName(name)
    ensures !IsBsd44(name)
  {
  }

  lemma PaddedIsEvenLong(bytes: Bytes)
    ensures Even(|Padded(bytes)|)
  {
    hide Even, Padding;
    PaddedIsEven(|bytes|);
  }

  lemma SmallSize(t: NameTable)
    requires TableFits(t)
    ensures |Padded(t.bytes)| < U64 - 1
  {
    hide Padded;
    DecimalFits(|Padded(t.bytes)|, 10);
    assert Pow10(10) == 10000000000;
  }

  lemma RoundUpOfEven(p: nat)
    requires Even(p)
    ensures RoundUp(p) == p
  {
  }

  lemma TableReadsBack(f: Bytes, rd: Reader, p: nat, t: NameTable)
    requires TableOk(t) && TableFits(t) && TableThere(f, p, t) && Even(p)
    requires rd.maxName <= AR_NAME && rd.names.None?
    ensures SlurpTable(f, rd, p)
         == Some((if t.bytes == [] then None else Some(LongNames.Clean(Padded(t.bytes))), p + |TableBytes(t)|))
  {
    hide Header, ParseHeader, IsBsd44, LongNames.Clean, ShortName, Middle, IsTableName, Even, Padding, RoundUp, SizeFits;
    if t.bytes != [] {
      var b, size := TableBytes(t), |Padded(t.bytes)|;
      Part(f, p, b, 0, AR_HDR);
      Part(f, p, b, AR_HDR, AR_HDR + size);
      Part(f, p, b, 0, AR_NAME);
      HeaderParts(t.name, Middle(), size);
      assert b[..AR_HDR] == Header(t.name, Middle(), size);
      assert b[0..AR_NAME] == Header(t.name, Middle(), size)[..AR_NAME];
      HeaderReadsBack(t.name, Middle(), size);
      TableNameIsPlain(t.name);
      SmallSize(t);
      PaddedIsEvenLong(t.bytes);
      EvenNumbers();
      EvenSum(p, AR_HDR);
      EvenSum(p + AR_HDR, size);
      RoundUpOfEven(p + AR_HDR + size);
    }
  }

  lemma MagicReadsBack(thin: bool)
    ensures Magic(true) != Magic(false)
  {
    assert Magic(true)[2] == 0x74 && Magic(false)[2] == 0x61;
  }

  /** The format of the map in the archive. */
  function MapKind(a: Archive, entries: seq<Entry>, t: NameTable): Kind
    requires ArchiveOk(a) && Ordered(entries, |a.members|)
  {
    KindWritten(a, entries, TableSize(|t.bytes|))
  }

  /** The length of the map with its header. */
  function MapEnd(kind: Kind, entries: seq<Entry>): nat {
    SARMAG + AR_HDR + WholeSize(kind, |entries|, |Strings(entries)|)
  }
}
