/** From a whole archive that was written to what a reader finds in it: members, names, and the way from a symbol to
    the member that exports it. */
module ArchiveRoundTrip {
  import opened ArchiveBytes
  import opened Basics
  import opened ArchiveMembers
  import opened ArchiveMap
  import opened ArchiveMapWriter
  import opened ArchiveReader
  import opened ArchiveMapReader
  import opened ArchiveWhole

  // ---------- what may be written ----------

  function KindOf(w: Plan): Kind
    requires PlanOk(w) && w.entries.Some?
  {
    MapKind(w.a, w.entries.value, w.t)
  }

  /** Where the table of long names goes. */
  function TableStart(w: Plan): nat
    requires PlanOk(w)
  {
    if w.entries.None? then SARMAG else MapEnd(KindOf(w), w.entries.value)
  }

  /** Where the first member goes. */
  function FirstStart(w: Plan): nat
    requires PlanOk(w)
  {
    TableStart(w) + |TableBytes(w.t)|
  }

  /** The map and the table end below 4 GB, and the file below 2^64. */
  predicate Small(w: Plan)
    requires PlanOk(w)
  {
    (w.entries.Some? ==> FirstStart(w) < U32) && |FileBytes(w)| < U64
  }

  predicate IsMapName(name: Bytes) {
    name == MapName(Bsd) || name == SYMDEF + [SLASH] + Repeat(SPACE, 6) || name == MapName(Coff) || name == MapName(Irix)
  }

  /** The name field of the first member is not one that a reader takes for a map, a table of names, or the second map
      that it expects after a COFF one. */
  predicate FirstIsMember(w: Plan, field: Bytes)
    requires PlanOk(w) && |field| == AR_NAME
  {
    && !IsTableName(field)
    && (w.entries.None? ==> !IsMapName(field))
    && (w.entries.Some? && KindOf(w).Coff? ==> !(field[0] == SLASH && field[1] == SPACE))
  }

  /** All that is asked of what is written: C strings for the names of symbols, sizes that fit, a proper name for the
      table, and a first member that cannot be taken for something else. */
  predicate CanBeRead(w: Plan) {
    && PlanOk(w)
    && Small(w)
    && (w.entries.Some? ==> forall k :: 0 <= k < |w.entries.value| ==> NulFree(w.entries.value[k].name))
    && (if w.t.bytes != [] then IsTableName(w.t.name)
        else w.a.members != [] ==> FirstIsMember(w, w.a.members[0].field))
  }

  // ---------- where the parts are ----------

  lemma TableSizeIsTrue(t: NameTable)
    requires TableOk(t) && TableFits(t) && |TableBytes(t)| < U32
    ensures TableSize(|t.bytes|) == |TableBytes(t)|
  {
    hide Header, Padded, TableFits;
    var n := |t.bytes|;
    Fits32(n);
    if n > 0 {
      EvenHeader(n);
      Fits32(n + AR_HDR);
      Fits32(n + AR_HDR + n % 2);
    }
  }

  lemma EvenHeader(n: nat)
    ensures (n + AR_HDR) % 2 == n % 2
  {
    ByTwo(n + AR_HDR, n / 2 + 30, n % 2);
  }

  /** The place of the first member that the map's writer computes ahead is where the first member begins. */
  lemma FrontLength(a: Archive, entries: seq<Entry>, t: NameTable)
    requires ArchiveOk(a) && Ordered(entries, |a.members|) && TableOk(t) && TableFits(t)
    requires MapEnd(MapKind(a, entries, t), entries) + |TableBytes(t)| < U32
    ensures |MapBytes(MapKind(a, entries, t), a, entries, TableSize(|t.bytes|))|
         == MapEnd(MapKind(a, entries, t), entries) - SARMAG
    ensures |Front(a, Some(entries), t)| == MapEnd(MapKind(a, entries, t), entries) + |TableBytes(t)|
    ensures MapFirst(MapKind(a, entries, t), entries, TableSize(|t.bytes|)) == |Front(a, Some(entries), t)|
  {
    hide KindWritten, MapContents, TableBytes, Header, WholeSize, MapSize, Strings, TableFits, ArchiveOk, Ordered,
         TableSize;
    var kind := MapKind(a, entries, t);
    TableSizeIsTrue(t);
    SizesAreTrue(kind, |entries|, |Strings(entries)|);
    ContentsLength(kind, a, entries, MapFirst(kind, entries, TableSize(|t.bytes|)));
    Fits32(MapEnd(kind, entries) - SARMAG - AR_HDR + |TableBytes(t)|);
  }

  lemma MapEndIsEven(kind: Kind, entries: seq<Entry>)
    ensures Even(MapEnd(kind, entries))
  {
    hide WholeSize, Strings;
    WholeSizeIsEven(kind, |entries|, |Strings(entries)|);
  }

  lemma TableIsEven(t: NameTable)
    requires TableOk(t) && TableFits(t)
    ensures Even(|TableBytes(t)|)
  {
    hide TableBytes, Even, Padding, TableFits;
    EvenNumbers();
    PaddedIsEven(|t.bytes|);
    EvenSum(AR_HDR, |t.bytes| + Padding(|t.bytes|));
  }

  lemma StartsAreEven(w: Plan)
    requires PlanOk(w)
    ensures Even(TableStart(w)) && Even(FirstStart(w))
  {
    hide Even, MapEnd, KindWritten, TableFits, ArchiveOk, Ordered, TableBytes;
    if w.entries.Some? {
      MapEndIsEven(KindOf(w), w.entries.value);
    } else {
      EvenNumbers();
      assert Even(SARMAG) by { MagicIsEven(); }
    }
    TableIsEven(w.t);
    EvenSum(TableStart(w), |TableBytes(w.t)|);
  }

  lemma MagicIsEven()
    ensures Even(SARMAG)
  {
  }

  lemma FrontIs(w: Plan)
    requires PlanOk(w) && Small(w)
    ensures |Front(w.a, w.entries, w.t)| == FirstStart(w)
    ensures w.entries.Some? ==> MapFirst(KindOf(w), w.entries.value, TableSize(|w.t.bytes|)) == FirstStart(w)
  {
    hide MapEnd, KindWritten, TableFits, ArchiveOk, Ordered, TableBytes, Magic, MapBytes, MapFirst, AllBytes;
    if w.entries.Some? {
      FrontLength(w.a, w.entries.value, w.t);
    }
  }

  /** The front of the file up to the table, and what follows the table. */
  lemma FileIs(w: Plan) returns (pre: Bytes)
    requires PlanOk(w) && Small(w)
    ensures |pre| == TableStart(w)
    ensures FileBytes(w) == pre + (TableBytes(w.t) + AllBytes(w.a.members, w.a.thin))
    ensures Front(w.a, w.entries, w.t) == pre + TableBytes(w.t)
  {
    hide MapEnd, KindWritten, TableFits, AllWritable, Ordered, TableBytes, Magic, MapBytes, AllBytes, TableSize;
    FrontIs(w);
    pre := Magic(w.a.thin) + (if w.entries.None? then []
                              else MapBytes(KindOf(w), w.a, w.entries.value, TableSize(|w.t.bytes|)));
    Associates(pre, TableBytes(w.t), AllBytes(w.a.members, w.a.thin));
  }

  lemma Associates(a: Bytes, b: Bytes, c: Bytes)
    ensures a + b + c == a + (b + c)
  {
  }

  /** The file begins with the magic string, and the map if there is one. */
  lemma BeginsWith(w: Plan)
    requires PlanOk(w) && Small(w)
    ensures |FileBytes(w)| >= SARMAG && FileBytes(w)[..SARMAG] == Magic(w.a.thin)
    ensures w.entries.Some? ==> MapThere(KindOf(w), FileBytes(w), w.a, w.entries.value, TableSize(|w.t.bytes|))
  {
    hide KindWritten, TableFits, AllWritable, Ordered, TableBytes, Magic, MapBytes, AllBytes, TableSize, MapEnd;
    var m := Magic(w.a.thin);
    if w.entries.None? {
      assert FileBytes(w) == m + (TableBytes(w.t) + AllBytes(w.a.members, w.a.thin));
    } else {
      var b := MapBytes(KindOf(w), w.a, w.entries.value, TableSize(|w.t.bytes|));
      assert FileBytes(w) == m + b + (TableBytes(w.t) + AllBytes(w.a.members, w.a.thin));
    }
  }

  /** The first member's name field is where the first member begins; without members the file ends there. */
  lemma FirstThere(w: Plan)
    requires PlanOk(w) && Small(w)
    ensures if w.a.members == [] then |FileBytes(w)| == FirstStart(w)
            else FirstStart(w) + AR_NAME <= |FileBytes(w)|
                 && FileBytes(w)[FirstStart(w)..FirstStart(w) + AR_NAME] == w.a.members[0].field
  {
    hide Front, TableFits, TableStart, Ordered, TableBytes, MemberBytes, Header, HeaderBytes, Writable;
    FrontIs(w);
    var f, p, ms := FileBytes(w), FirstStart(w), w.a.members;
    if ms != [] {
      var m := ms[0];
      MemberIsThere(Front(w.a, w.entries, w.t), ms, w.a.thin, 0);
      FieldInFront(m, w.a.thin);
      Part(f, p, MemberBytes(m, w.a.thin), 0, AR_NAME);
    }
  }

  lemma FieldInFront(m: Member, thin: bool)
    requires Writable(m)
    ensures |MemberBytes(m, thin)| >= AR_HDR && MemberBytes(m, thin)[0..AR_NAME] == m.field
  {
    hide Header, MemberBytes, HeaderBytes, Extra;
    MemberParts(m, thin);
    HeaderParts(m.field, m.middle, |m.contents| + Extra(m));
    assert MemberBytes(m, thin)[0..AR_NAME] == MemberBytes(m, thin)[0..AR_HDR][..AR_NAME];
  }

  lemma TableFront(t: NameTable)
    requires TableOk(t) && TableFits(t) && t.bytes != []
    ensures |TableBytes(t)| >= AR_HDR && TableBytes(t)[0..AR_NAME] == t.name
  {
    hide Header;
    HeaderParts(t.name, Middle(), |Padded(t.bytes)|);
    assert TableBytes(t)[0..AR_NAME] == Header(t.name, Middle(), |Padded(t.bytes)|)[..AR_NAME];
  }

  /** The name that a reader sees after the map: the table's, or the first member's, or none. */
  function NameAfterMap(w: Plan): (name: Option<Bytes>)
    requires PlanOk(w)
    ensures name.Some? ==> |name.value| == AR_NAME
  {
    if w.t.bytes != [] then Some(w.t.name)
    else if w.a.members != [] then Some(w.a.members[0].field)
    else None
  }

  lemma NameAfterMapThere(w: Plan)
    requires PlanOk(w) && Small(w)
    ensures if NameAfterMap(w).None? then |FileBytes(w)| == TableStart(w)
            else TableStart(w) + AR_NAME <= |FileBytes(w)|
                 && FileBytes(w)[TableStart(w)..TableStart(w) + AR_NAME] == NameAfterMap(w).value
  {
    hide FileBytes, TableStart, TableFits, ArchiveOk, Ordered, Header, Padded;
    if w.t.bytes != [] {
      TableStands(w);
      TableFront(w.t);
      hide TableBytes;
      Part(FileBytes(w), TableStart(w), TableBytes(w.t), 0, AR_NAME);
    } else {
      FirstThere(w);
    }
  }

  /** The table's bytes are at its place. */
  lemma TableStands(w: Plan)
    requires PlanOk(w) && Small(w)
    ensures FirstStart(w) <= |FileBytes(w)| && FileBytes(w)[TableStart(w)..FirstStart(w)] == TableBytes(w.t)
  {
    hide FileBytes, TableStart, TableFits, Ordered, TableBytes, AllBytes, AllWritable;
    var pre := FileIs(w);
    assert (pre + (TableBytes(w.t) + AllBytes(w.a.members, w.a.thin)))[|pre|..|pre| + |TableBytes(w.t)|] == TableBytes(w.t);
  }

  /** What the reader of the table needs, from what was asked of the plan. */
  lemma TableIsThere(w: Plan)
    requires CanBeRead(w)
    ensures TableThere(FileBytes(w), TableStart(w), w.t)
  {
    hide FileBytes, TableStart, TableFits, ArchiveOk, Ordered, TableBytes, IsTableName, IsMapName, Small;
    TableStands(w);
    NameAfterMapThere(w);
  }

  /** Nothing after a COFF map looks like a second one. */
  lemma NoSecondMap(w: Plan, rd: Reader)
    requires CanBeRead(w) && w.entries.Some? && KindOf(w).Coff? && rd.maxName <= AR_NAME
    ensures !SecondHeader(FileBytes(w), rd, TableStart(w))
  {
    hide FileBytes, TableStart, TableFits, ArchiveOk, Ordered, TableBytes, ParseHeader, Open, KindWritten, Small;
    NameAfterMapThere(w);
    var f, p := FileBytes(w), TableStart(w);
    if ReadHeader(f, rd, p).Some? {
      assert f[p..p + AR_NAME][0] == f[p] && f[p..p + AR_NAME][1] == f[p + 1];
    }
  }

  /** Without a map, nothing is taken for one. */
  lemma NoMapFound(w: Plan, rd: Reader)
    requires CanBeRead(w) && w.entries.None? && rd.maxName <= AR_NAME
    ensures Slurp(FileBytes(w), rd, w.a.big) == NoMap
  {
    hide FileBytes, TableFits, ArchiveOk, Ordered, TableBytes, MapName, SlurpOther, SlurpCoff, Small, IsTableName;
    NameAfterMapThere(w);
    if w.t.bytes != [] {
      TableIsNoMap(w.t.name);
    }
  }

  lemma TableIsNoMap(name: Bytes)
    requires IsTableName(name)
    ensures !IsMapName(name)
  {
    assert MapName(Coff)[1] == SPACE && MapName(Irix)[1] == 0x53 && MapName(Bsd)[0] == 0x5f;
    assert (SYMDEF + [SLASH] + Repeat(SPACE, 6))[0] == 0x5f;
    assert name[0] == 0x41 || (name[0] == SLASH && name[1] == SLASH);
  }

  /** Offsets fit the words of the map. */
  lemma OffsetsFit(w: Plan)
    requires CanBeRead(w) && w.entries.Some?
    ensures InRange(KindOf(w), w.a, w.entries.value, FirstStart(w))
  {
    hide TableFits, AllBytes, Front, Offset, Writable, MapEnd, TableBytes, FirstIsMember, IsTableName, Position;
    FrontIs(w);
    StartsAreEven(w);
    var kind, entries := KindOf(w), w.entries.value;
    if kind.Irix? {
      hide MapFits;
      forall k | 0 <= k < |entries| ensures Offset(kind, w.a.thin, w.a.members, FirstStart(w), entries[k].member) < U64 {
        OffsetAgainstPosition(kind, w.a.thin, w.a.members, FirstStart(w), entries[k].member);
        MemberIsThere(Front(w.a, w.entries, w.t), w.a.members, w.a.thin, entries[k].member);
      }
    }
  }

  lemma MapIsOk(w: Plan)
    requires CanBeRead(w) && w.entries.Some?
    ensures MapOk(KindOf(w), w.a, w.entries.value, FirstStart(w))
    ensures MapFirst(KindOf(w), w.entries.value, TableSize(|w.t.bytes|)) == FirstStart(w)
  {
    OffsetsFit(w);
    FrontIs(w);
    hide TableFits, FileBytes, InRange, TableBytes, FirstIsMember, IsTableName, Ordered, AllWritable, KindWritten, WholeSize,
         Strings, MapFirst;
  }

  // ---------- opening what was written ----------

  /** The symbols of the file's map, with the offsets its writer computed. */
  ghost function SymbolsOf(w: Plan): seq<Symdef>
    requires PlanOk(w)
  {
    if w.entries.None? then [] else Listed(KindOf(w), w.a, w.entries.value, FirstStart(w))
  }

  lemma SlurpsWritten(w: Plan, rd: Reader)
    requires CanBeRead(w) && rd.maxName <= AR_NAME && rd.names.None?
    ensures Slurp(FileBytes(w), rd, w.a.big)
         == if w.entries.None? then NoMap else Map(SymbolsOf(w), TableStart(w))
  {
    hide FileBytes, TableFits, ArchiveOk, Ordered, TableBytes, Slurp, Small, IsTableName, FirstIsMember, MapOk, MapThere,
         SecondHeader, KindWritten, Listed, MapFirst, WholeSize, Strings, TableSize;
    if w.entries.None? {
      NoMapFound(w, rd);
    } else {
      BeginsWith(w);
      MapIsOk(w);
      MapReadsBack(KindOf(w), FileBytes(w), w.a, w.entries.value, TableSize(|w.t.bytes|), rd);
      if KindOf(w).Coff? {
        NoSecondMap(w, rd);
      }
    }
  }

  /** Opening an archive that was written: the symbols with the offsets the map's writer computed, the cleaned-up
      table, and the place where the first member was written. */
  lemma FileOpens(w: Plan, maxName: nat)
    requires CanBeRead(w) && maxName <= AR_NAME
    ensures OpenArchive(FileBytes(w), maxName, w.a.big)
         == Some(Opened(ReaderOf(w.t, maxName, w.a.thin), SymbolsOf(w), FirstStart(w)))
  {
    hide FileBytes, TableFits, ArchiveOk, Ordered, TableBytes, Slurp, SlurpTable, Small, IsTableName, FirstIsMember, Magic,
         Listed, KindWritten, MapEnd, TableThere, Even, Padded;
    var rd := Reader(None, maxName, w.a.thin);
    MagicReadsBack(w.a.thin);
    BeginsWith(w);
    SlurpsWritten(w, rd);
    TableIsThere(w);
    StartsAreEven(w);
    TableReadsBack(FileBytes(w), rd, TableStart(w), w.t);
  }

  /** And reading it from end to end finds exactly the written members. */
  lemma OpensAndIterates(w: Plan, maxName: nat)
    requires CanBeRead(w) && maxName <= AR_NAME && AllReadable(ReaderOf(w.t, maxName, w.a.thin), w.a.members)
    ensures Iterate(FileBytes(w), ReaderOf(w.t, maxName, w.a.thin), FirstStart(w))
         == Listing(ReaderOf(w.t, maxName, w.a.thin), w.a.members, FirstStart(w))
  {
    hide TableFits, Front, AllBytes, AllReadable, TableBytes, TableStart, Even, Listing, Iterate, Ordered, AllWritable,
         IsTableName, FirstIsMember, Padded;
    FrontIs(w);
    StartsAreEven(w);
    WriteThenIterate(FileBytes(w), Front(w.a, w.entries, w.t), ReaderOf(w.t, maxName, w.a.thin), w.a.members);
  }

  /** The place of the member that the reader finds as number j. */
  function FoundAt(f: Bytes, o: Opened, j: nat): Option<nat>
    requires o.rd.maxName <= AR_NAME
  {
    var found := Iterate(f, o.rd, o.first);
    if j < |found| then Some(found[j].0) else None
  }

  lemma ListedAt(kind: Kind, a: Archive, entries: seq<Entry>, first: nat, k: nat)
    requires ArchiveOk(a) && Ordered(entries, |a.members|) && k < |entries|
    ensures Listed(kind, a, entries, first)[k]
         == Symdef(entries[k].name, Offset(kind, a.thin, a.members, first, entries[k].member))
  {
  }

  lemma ListingAt(rd: Reader, ms: seq<Member>, start: nat, j: nat)
    requires AllReadable(rd, ms) && j < |ms|
    ensures |Listing(rd, ms, start)| == |ms| && Listing(rd, ms, start)[j].0 == Position(ms, rd.thin, start, j)
  {
  }

  /** No member before number j is one whose length the map miscounts. */
  predicate Counted(w: Plan, j: nat)
    requires PlanOk(w) && w.entries.Some? && j <= |w.a.members|
  {
    if KindOf(w).Bsd? then !w.a.thin || (forall i :: 0 <= i < j ==> w.a.members[i].contents == [])
    else forall i :: 0 <= i < j ==> Extra(w.a.members[i]) == 0
  }

  /** From the symbols to the members: the offset that the opened archive gives for a symbol is the place where the
      reader finds the member that exports it, if and only if no member before it is one whose length its map
      miscounts. */
  lemma MapLeadsToMembers(w: Plan, maxName: nat, k: nat)
    requires CanBeRead(w) && maxName <= AR_NAME && AllReadable(ReaderOf(w.t, maxName, w.a.thin), w.a.members)
    requires w.entries.Some? && k < |w.entries.value|
    ensures var o := Opened(ReaderOf(w.t, maxName, w.a.thin), SymbolsOf(w), FirstStart(w));
            && |o.symdefs| == |w.entries.value|
            && o.symdefs[k].name == w.entries.value[k].name
            && (Some(o.symdefs[k].offset) == FoundAt(FileBytes(w), o, w.entries.value[k].member)
                <==> Counted(w, w.entries.value[k].member))
  {
    hide KindWritten, TableFits, FileBytes, Small, AllReadable, Offset, Position, Extra, Even, Writable, Listing, Listed,
         Iterate, TableBytes, MapEnd, IsTableName, FirstIsMember, Padded, FirstStart;
    var entry, first := w.entries.value[k], FirstStart(w);
    OpensAndIterates(w, maxName);
    StartsAreEven(w);
    ListedAt(KindOf(w), w.a, w.entries.value, first, k);
    ListingAt(ReaderOf(w.t, maxName, w.a.thin), w.a.members, first, entry.member);
    OffsetIsPosition(KindOf(w), w.a.thin, w.a.members, first, entry.member);
  }

  /** Every name that a member exports is in the map for it. */
  lemma ExportIsListed(sources: seq<Source>, j: nat, name: Bytes) returns (k: nat)
    requires j < |sources| && Exports(sources[j].symbols, name)
    ensures k < |Collected(sources, |sources|)| && Collected(sources, |sources|)[k] == Entry(name, j)
  {
    hide Exports, Collected;
    MapIsExports(sources, |sources|, Entry(name, j));
    k :| 0 <= k < |Collected(sources, |sources|)| && Collected(sources, |sources|)[k] == Entry(name, j);
  }

  /** From end to end: in the file that writing an archive makes, once it is opened, a symbol that a member exports has an
      entry, and that entry's offset is where the reader finds the member, if and only if no member before it is
      miscounted; and only symbols that some member exports have one. */
  lemma ExportLeadsToMember(a: Archive, sources: seq<Source>, t: NameTable, maxName: nat, j: nat, name: Bytes)
    returns (o: Opened, k: nat)
    requires |sources| == |a.members| && maxName <= AR_NAME && CanBeRead(PlanOf(a, sources, true, t))
    requires AllReadable(ReaderOf(t, maxName, a.thin), a.members[OldMaps(sources)..])
    requires OldMaps(sources) + j < |sources| && Exports(sources[OldMaps(sources) + j].symbols, name)
    ensures OpenArchive(FileBytes(PlanOf(a, sources, true, t)), maxName, a.big) == Some(o) && o.rd.maxName <= AR_NAME
    ensures k < |o.symdefs| && o.symdefs[k].name == name
    ensures Some(o.symdefs[k].offset) == FoundAt(FileBytes(PlanOf(a, sources, true, t)), o, j)
       <==> Counted(PlanOf(a, sources, true, t), j)
    ensures forall i :: 0 <= i < |o.symdefs| ==> SomeExports(sources[OldMaps(sources)..], o.symdefs[i].name)
  {
    hide CanBeRead, OpenArchive, FileBytes, FoundAt, Counted, SymbolsOf, FirstStart, AllReadable, Exports, OldMaps, Collected;
    var w := PlanOf(a, sources, true, t);
    assert PlanOk(w) by { CanBeReadIsOk(w); }
    var rest := sources[OldMaps(sources)..];
    k := ExportIsListed(rest, j, name);
    o := Opened(ReaderOf(t, maxName, a.thin), SymbolsOf(w), FirstStart(w));
    FileOpens(w, maxName);
    MapLeadsToMembers(w, maxName, k);
    forall i | 0 <= i < |o.symdefs| ensures SomeExports(rest, o.symdefs[i].name) {
      MapLeadsToMembers(w, maxName, i);
      ListedIsExported(rest, i);
    }
  }

  predicate SomeExports(sources: seq<Source>, name: Bytes) {
    exists m :: 0 <= m < |sources| && Exports(sources[m].symbols, name)
  }

  lemma ListedIsExported(sources: seq<Source>, i: nat)
    requires i < |Collected(sources, |sources|)|
    ensures SomeExports(sources, Collected(sources, |sources|)[i].name)
  {
    hide Exports, Collected;
    MapIsExports(sources, |sources|, Collected(sources, |sources|)[i]);
  }

  lemma CanBeReadIsOk(w: Plan)
    requires CanBeRead(w)
    ensures PlanOk(w)
  {
  }
}
