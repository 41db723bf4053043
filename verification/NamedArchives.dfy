/** The names of an archive's members, from the files that go in to what a reader finds: short names in their headers,
    long ones through the table, and the BSD 4.4 way after the headers. */
module NamedArchives {
  import opened ArchiveBytes
  import opened Basics
  import opened ArchiveMembers
  import opened ArchiveMapWriter
  import opened ArchiveNames
  import opened ArchiveReader
  import opened ArchiveWhole
  import opened ArchiveRoundTrip
  import LongNames

  // ---------- headers with a table of long names ----------

  /** A member whose name is in the table. */
  predicate Tabled(fmt: LongNames.Format, ns: seq<LongNames.Member>, k: nat)
    requires k < |ns|
  {
    fmt.thin || (!fmt.traditional && |ns[k].normal| > fmt.maxName)
  }

  function FieldFor(fmt: LongNames.Format, ns: seq<LongNames.Member>, k: nat): Bytes
    requires FormatOk(fmt) && k < |ns|
  {
    if Tabled(fmt, ns, k) then LongNames.FieldOf(fmt, ns, k) else ShortField(fmt, ns[k].normal)
  }

  /** The table, which is left out in the traditional format. */
  function TableOf(fmt: LongNames.Format, ns: seq<LongNames.Member>): Bytes {
    if fmt.traditional && !fmt.thin then [] else LongNames.Table(fmt, ns, |ns|)
  }

  /** What follows the name field in a member's header. */
  function Following(m: Member): Bytes
    requires Writable(m)
  {
    AfterName(m.middle, |m.contents| + Extra(m))
  }

  /** A short name's field is not taken for the length of a name after the header nor, if there is a table, for an index
      into it. */
  predicate TakenAsName(fmt: LongNames.Format, table: bool, name: Bytes)
    requires FormatOk(fmt)
  {
    var field := ShortField(fmt, name);
    !IsBsd44(field) && (table ==> field[0] != SLASH && (field[0] == SPACE ==> SLASH in field[..fmt.maxName]))
  }

  /** C strings; in the table, an index and a place whose digits end in time, given what follows the field; and else a
      field that is taken for a name. */
  predicate NameFits(fmt: LongNames.Format, ns: seq<LongNames.Member>, k: nat, next: Bytes)
    requires FormatOk(fmt) && k < |ns|
  {
    && NulFree(ns[k].normal)
    && if Tabled(fmt, ns, k) then
         var index := LongNames.TableIndex(fmt, ns, k);
         LongNames.IndexFits(fmt, index) && ns[k].origin < I64 && LongNames.Opens(fmt, index, ns[k].origin, next)
       else TakenAsName(fmt, TableOf(fmt, ns) != [], ns[k].normal)
  }

  /** The members of the plan have the headers and the table of these names; dropped are those in front that are
      old maps. */
  ghost predicate NamedByTable(w: Plan, fmt: LongNames.Format, ns: seq<LongNames.Member>, dropped: nat)
    requires AllWritable(w.a.members)
  {
    && FormatOk(fmt)
    && fmt.thin == w.a.thin
    && |ns| == dropped + |w.a.members|
    && w.t.bytes == TableOf(fmt, ns)
    && LongNames.NamesFollowPaths(ns)
    && (forall j :: 0 <= j < |w.a.members| ==>
          && w.a.members[j].field == FieldFor(fmt, ns, dropped + j)
          && NameFits(fmt, ns, dropped + j, Following(w.a.members[j])))
  }

  lemma TableIsNotEmpty(fmt: LongNames.Format, ns: seq<LongNames.Member>, k: nat)
    requires k < |ns| && LongNames.Stored(fmt, ns, k)
    ensures LongNames.Table(fmt, ns, |ns|) != []
  {
    var e := LongNames.EntryOf(fmt, ns, k);
    LongNames.EntryHas(fmt, ns, k);
    LongNames.TableGrows(fmt, ns, e + 1, |ns|);
  }

  lemma DigitsAreNoSlash(n: nat)
    ensures SLASH !in Decimal(n)
  {
    hide Decimal;
    var d := Decimal(n);
    assert forall i :: 0 <= i < |d| ==> IsDigitByte(d[i]) && d[i] != SLASH;
  }

  /** An index field has no slash but its first byte. */
  lemma IndexHasNoSlash(fmt: LongNames.Format, index: nat, origin: nat)
    requires FormatOk(fmt)
    ensures SLASH !in LongNames.NameField(fmt, index, origin)[1..]
  {
    hide Decimal;
    DigitsAreNoSlash(index);
    DigitsAreNoSlash(if origin >= AR_HDR then origin - AR_HDR else AR_HDR - origin);
    var text := LongNames.IndexText(fmt, index, origin);
    assert SLASH !in text;
    TextInField(fmt, text);
  }

  lemma TextInField(fmt: LongNames.Format, text: Bytes)
    requires FormatOk(fmt) && SLASH !in text
    ensures SLASH !in ([fmt.padChar] + LongNames.SpacePad(text, fmt.maxName - 1) + Repeat(SPACE, AR_NAME - fmt.maxName))[1..]
  {
    var s := LongNames.SpacePad(text, fmt.maxName - 1);
    assert SLASH !in s;
    assert ([fmt.padChar] + s + Repeat(SPACE, AR_NAME - fmt.maxName))[1..] == s + Repeat(SPACE, AR_NAME - fmt.maxName);
  }

  /** So the reader takes it for one. */
  lemma IndexPointsToTable(fmt: LongNames.Format, index: nat, origin: nat, rd: Reader)
    requires FormatOk(fmt) && rd.names.Some? && rd.maxName == fmt.maxName
    ensures PointsToTable(rd, LongNames.NameField(fmt, index, origin)) && !IsBsd44(LongNames.NameField(fmt, index, origin))
  {
    IndexHasNoSlash(fmt, index, origin);
    var field := LongNames.NameField(fmt, index, origin);
    hide LongNames.IndexText, LongNames.SpacePad;
    assert field[0] == fmt.padChar;
    if fmt.padChar == SPACE {
      assert forall i :: 0 < i < fmt.maxName ==> field[i] == field[1..][i - 1];
      assert SLASH !in field[..fmt.maxName];
    }
  }

  /** What reading a header gives for a member in the table: its name exactly if it is one that survives the table, and its
      place in a containing archive exactly if the header spells it. */
  lemma TabledReadsBack(w: Plan, fmt: LongNames.Format, ns: seq<LongNames.Member>, k: nat, m: Member)
    requires FormatOk(fmt) && k < |ns| && Tabled(fmt, ns, k) && LongNames.NamesFollowPaths(ns)
    requires Writable(m) && NameFits(fmt, ns, k, Following(m))
    requires w.t.bytes == TableOf(fmt, ns) && m.field == LongNames.FieldOf(fmt, ns, k)
    ensures var d := Decoded(ReaderOf(w.t, fmt.maxName, fmt.thin), m);
            && d.Some?
            && (d.value.0 == ns[k].normal <==> LongNames.Printable(fmt, ns[k].normal))
            && (d.value.1 == (if fmt.thin && ns[k].origin > 0 then ns[k].origin - AR_HDR else 0)
                <==> LongNames.PlaceReads(fmt, LongNames.TableIndex(fmt, ns, k), ns[k].origin, Following(m)))
            && !IsBsd44(m.field)
  {
    hide LongNames.NameField, LongNames.Table, LongNames.Printable, LongNames.Clean, LongNames.Extended, ShortName, PointsToTable,
         IsBsd44, NulFree, LongNames.Opens, LongNames.PlaceReads, LongNames.IndexFits, AfterName, Writable;
    var rd := ReaderOf(w.t, fmt.maxName, fmt.thin);
    TableIsNotEmpty(fmt, ns, k);
    var table := LongNames.Table(fmt, ns, |ns|);
    var padding := if Padding(|table|) == 1 then [NEWLINE] else [];
    assert Padded(table) == table + padding;
    LongNames.FieldIs(fmt, ns, k);
    IndexPointsToTable(fmt, LongNames.TableIndex(fmt, ns, k), ns[k].origin, rd);
    LongNames.LongNamesReadBack(fmt, ns, k, padding, Following(m));
  }

  /** And for one whose name is in its header: the name, as it is shown there, exactly if it has no slash, nor a space that
      ends it. */
  lemma ShortReadsBack(rd: Reader, fmt: LongNames.Format, name: Bytes, m: Member)
    requires FormatOk(fmt) && rd.maxName == fmt.maxName && Writable(m) && m.field == ShortField(fmt, name)
    requires NulFree(name) && TakenAsName(fmt, rd.names.Some?, name)
    ensures var d := Decoded(rd, m);
            && d.Some? && (d.value.0 == Shown(fmt, name) <==> ShortOk(fmt, Shown(fmt, name)))
            && d.value.1 == 0 && !IsBsd44(m.field)
  {
    var shown := Shown(fmt, name);
    assert ShortField(fmt, shown) == ShortField(fmt, name);
    assert NulFree(shown);
    hide ShortField, ShortOk, ShortName, IsBsd44, NulFree;
    ShortNameReadsBack(fmt, shown);
  }

  /** The name that a member is found by. */
  function NameOf(fmt: LongNames.Format, ns: seq<LongNames.Member>, k: nat): Bytes
    requires FormatOk(fmt) && k < |ns|
  {
    if Tabled(fmt, ns, k) then ns[k].normal else Shown(fmt, ns[k].normal)
  }

  /** A member that the reader sees under a name. */
  predicate Shows(rd: Reader, m: Member, name: Bytes) {
    Readable(rd, m) && Decoded(rd, m).value.0 == name
  }

  /** Its name survives the way into the archive and back. */
  predicate Survives(fmt: LongNames.Format, ns: seq<LongNames.Member>, k: nat)
    requires FormatOk(fmt) && k < |ns|
  {
    if Tabled(fmt, ns, k) then LongNames.Printable(fmt, ns[k].normal) else ShortOk(fmt, Shown(fmt, ns[k].normal))
  }

  lemma NamedMember(w: Plan, fmt: LongNames.Format, ns: seq<LongNames.Member>, dropped: nat, j: nat)
    requires PlanOk(w) && NamedByTable(w, fmt, ns, dropped) && j < |w.a.members|
    ensures Readable(ReaderOf(w.t, fmt.maxName, fmt.thin), w.a.members[j])
    ensures Shows(ReaderOf(w.t, fmt.maxName, fmt.thin), w.a.members[j], NameOf(fmt, ns, dropped + j))
       <==> Survives(fmt, ns, dropped + j)
  {
    hide LongNames.FieldOf, LongNames.NamesFollowPaths, LongNames.Printable, ShortField, Decoded, TableOf, IsBsd44, TableFits,
         ShortOk, TakenAsName, LongNames.Opens, LongNames.IndexFits, AfterName;
    var k, m := dropped + j, w.a.members[j];
    if Tabled(fmt, ns, k) {
      TabledReadsBack(w, fmt, ns, k, m);
    } else {
      ShortReadsBack(ReaderOf(w.t, fmt.maxName, fmt.thin), fmt, ns[k].normal, m);
    }
  }

  /** The reader's list of the file that is written. */
  function Found(w: Plan, rd: Reader): (r: seq<(nat, Element)>)
    requires PlanOk(w) && rd.maxName <= AR_NAME
  {
    Iterate(FileBytes(w), rd, FirstStart(w))
  }

  /** It has as many elements as there are members, with the names that their headers decode to. */
  lemma FoundNames(w: Plan, maxName: nat)
    requires CanBeRead(w) && maxName <= AR_NAME && AllReadable(ReaderOf(w.t, maxName, w.a.thin), w.a.members)
    ensures |Found(w, ReaderOf(w.t, maxName, w.a.thin))| == |w.a.members|
    ensures forall j :: 0 <= j < |w.a.members| ==>
              && Decoded(ReaderOf(w.t, maxName, w.a.thin), w.a.members[j]).Some?
              && Found(w, ReaderOf(w.t, maxName, w.a.thin))[j].1.name
                 == Decoded(ReaderOf(w.t, maxName, w.a.thin), w.a.members[j]).value.0
  {
    OpensAndIterates(w, maxName);
    hide FileBytes, FirstStart, Iterate, Position, Decoded, IsBsd44, Writable, ReaderOf, Extra, CanBeRead;
  }

  lemma ShownNames(w: Plan, maxName: nat, names: seq<Bytes>)
    requires CanBeRead(w) && maxName <= AR_NAME && |names| == |w.a.members|
    requires forall j :: 0 <= j < |w.a.members| ==> Readable(ReaderOf(w.t, maxName, w.a.thin), w.a.members[j])
    ensures |Found(w, ReaderOf(w.t, maxName, w.a.thin))| == |w.a.members|
    ensures forall j :: 0 <= j < |w.a.members| ==>
              (Found(w, ReaderOf(w.t, maxName, w.a.thin))[j].1.name == names[j]
               <==> Shows(ReaderOf(w.t, maxName, w.a.thin), w.a.members[j], names[j]))
  {
    hide FileBytes, FirstStart, Iterate, Position, Decoded, IsBsd44, Writable, ReaderOf, Extra, Found, Small, IsTableName;
    FoundNames(w, maxName);
  }

  /** From end to end: an archive written with a table of long names, opened and read again, shows the members in order,
      every name of the table if and only if it is one that survives it, and every short name, as its header shows it,
      if and only if it has no slash, nor a space that ends it. */
  lemma NamesAreFound(w: Plan, fmt: LongNames.Format, ns: seq<LongNames.Member>, dropped: nat) returns (o: Opened)
    requires CanBeRead(w) && NamedByTable(w, fmt, ns, dropped)
    ensures OpenArchive(FileBytes(w), fmt.maxName, w.a.big) == Some(o) && o.rd.maxName <= AR_NAME
    ensures o.first == FirstStart(w) && |Found(w, o.rd)| == |w.a.members|
    ensures forall j :: 0 <= j < |w.a.members| ==>
              (Found(w, o.rd)[j].1.name == NameOf(fmt, ns, dropped + j) <==> Survives(fmt, ns, dropped + j))
  {
    hide CanBeRead, OpenArchive, FileBytes, Found, Readable, NameOf, Survives, FirstStart, SymbolsOf, Shows, ReaderOf,
         NameFits, FieldFor, TableOf, LongNames.NamesFollowPaths, ArchiveOk, TableFits;
    var rd := ReaderOf(w.t, fmt.maxName, w.a.thin);
    assert PlanOk(w) by { CanBeReadIsOk(w); }
    var names := seq(|w.a.members|, j requires 0 <= j < |w.a.members| => NameOf(fmt, ns, dropped + j));
    forall j | 0 <= j < |w.a.members|
      ensures Readable(rd, w.a.members[j])
      ensures Shows(rd, w.a.members[j], names[j]) <==> Survives(fmt, ns, dropped + j)
    {
      NamedMember(w, fmt, ns, dropped, j);
    }
    ReaderIs(w.t, fmt.maxName, w.a.thin);
    o := Opened(rd, SymbolsOf(w), FirstStart(w));
    FileOpens(w, fmt.maxName);
    ShownNames(w, fmt.maxName, names);
  }

  lemma ReaderIs(t: NameTable, maxName: nat, thin: bool)
    ensures ReaderOf(t, maxName, thin).maxName == maxName && ReaderOf(t, maxName, thin).thin == thin
  {
  }

  // ---------- names after the headers ----------

  /** The field that the BSD 4.4 writer leaves in the header of a new member. */
  function Bsd44Field(fmt: LongNames.Format, name: Bytes): Bytes
    requires FormatOk(fmt)
  {
    var field := FittedName(Bsd, fmt, name, Repeat(SPACE, AR_NAME));
    if GoesAfter(fmt.maxName, name) then NumberedField(fmt.maxName, name, field) else field
  }

  /** The members of the plan have headers of the BSD 4.4 kind, and C strings for names whose lengths fit; a name that stays
      in its header has no slash. */
  ghost predicate NamedAfter(w: Plan, fmt: LongNames.Format) {
    && FormatOk(fmt) && fmt.padChar == SPACE
    && w.t.bytes == []
    && forall j :: 0 <= j < |w.a.members| ==> MemberNamedAfter(fmt, w.a.members[j])
  }

  predicate MemberNamedAfter(fmt: LongNames.Format, m: Member)
    requires FormatOk(fmt)
  {
    && m.field == Bsd44Field(fmt, m.name)
    && NulFree(m.name)
    && (if GoesAfter(fmt.maxName, m.name) then |NumberText(PaddedLength(|m.name|))| <= fmt.maxName else SLASH !in m.name)
  }

  /** A name of less than 4 GB has room for its length in the header. */
  lemma LengthFits(name: Bytes, maxName: nat)
    requires PaddedLength(|name|) < U32 && maxName >= 13
    ensures |NumberText(PaddedLength(|name|))| <= maxName
  {
    DecimalFits(PaddedLength(|name|), 10);
    assert Pow10(10) == 10000000000;
  }

  lemma NumberedReads(fmt: LongNames.Format, m: Member, rd: Reader)
    requires FormatOk(fmt) && fmt.padChar == SPACE && Writable(m) && MemberNamedAfter(fmt, m) && GoesAfter(fmt.maxName, m.name)
    requires rd.maxName == fmt.maxName && rd.names.None?
    ensures IsBsd44(m.field) && Number(m.field[3..]) == PaddedLength(|m.name|) && Decoded(rd, m) == Some((m.name, 0))
  {
    hide NumberedField, IsBsd44, Number, PaddedLength, NumberText;
    var field := FittedName(Bsd, fmt, m.name, Repeat(SPACE, AR_NAME));
    assert fmt.maxName < AR_NAME ==> field[fmt.maxName] == SPACE;
    NumberReadsBack(fmt.maxName, m.name, field);
  }

  lemma StayedReads(fmt: LongNames.Format, m: Member, rd: Reader)
    requires FormatOk(fmt) && fmt.padChar == SPACE && Writable(m) && MemberNamedAfter(fmt, m) && !GoesAfter(fmt.maxName, m.name)
    requires rd.maxName == fmt.maxName && rd.names.None?
    ensures !IsBsd44(m.field) && Decoded(rd, m) == Some((m.name, 0))
  {
    BsdIsShort(fmt, m.name);
    assert !IsBsd44(m.field) by { StayedIsPlain(fmt, m.name); }
    hide ShortField, ShortName, IsBsd44, NulFree, FittedName;
    ShortNameReadsBack(fmt, m.name);
  }

  lemma BsdIsShort(fmt: LongNames.Format, name: Bytes)
    requires FormatOk(fmt) && fmt.padChar == SPACE && |name| <= fmt.maxName
    ensures FittedName(Bsd, fmt, name, Repeat(SPACE, AR_NAME)) == ShortField(fmt, name)
  {
  }

  lemma StayedIsPlain(fmt: LongNames.Format, name: Bytes)
    requires FormatOk(fmt) && fmt.padChar == SPACE && |name| <= fmt.maxName && SLASH !in name
    ensures !IsBsd44(ShortField(fmt, name))
  {
    assert |name| > 2 ==> ShortField(fmt, name)[2] == name[2] && name[2] in name;
  }

  lemma NamedAfterMember(fmt: LongNames.Format, m: Member, rd: Reader)
    requires FormatOk(fmt) && fmt.padChar == SPACE && Writable(m) && MemberNamedAfter(fmt, m)
    requires rd.maxName == fmt.maxName && rd.names.None?
    ensures Readable(rd, m) && Decoded(rd, m).value.0 == m.name
  {
    hide MemberNamedAfter, IsBsd44, Number, PaddedLength, SizeFits, Decoded, Extra;
    assert NulFree(m.name) by { NameIsCString(fmt, m); }
    if GoesAfter(fmt.maxName, m.name) {
      NumberedReads(fmt, m, rd);
    } else {
      StayedReads(fmt, m, rd);
    }
  }

  lemma NameIsCString(fmt: LongNames.Format, m: Member)
    requires FormatOk(fmt) && MemberNamedAfter(fmt, m)
    ensures NulFree(m.name)
  {
  }

  /** From end to end the BSD 4.4 way: every member is found by its name, whatever its length and with spaces too. */
  lemma AllNamesAreFound(w: Plan, fmt: LongNames.Format) returns (o: Opened)
    requires CanBeRead(w) && NamedAfter(w, fmt)
    ensures OpenArchive(FileBytes(w), fmt.maxName, w.a.big) == Some(o) && o.rd.maxName <= AR_NAME
    ensures o.first == FirstStart(w) && |Found(w, o.rd)| == |w.a.members|
    ensures forall j :: 0 <= j < |w.a.members| ==> Found(w, o.rd)[j].1.name == w.a.members[j].name
  {
    hide CanBeRead, OpenArchive, FileBytes, Found, Readable, FirstStart, SymbolsOf, MemberNamedAfter, Decoded;
    var rd := ReaderOf(w.t, fmt.maxName, w.a.thin);
    assert PlanOk(w) by { CanBeReadIsOk(w); }
    var names := seq(|w.a.members|, j requires 0 <= j < |w.a.members| => w.a.members[j].name);
    forall j | 0 <= j < |w.a.members|
      ensures Readable(rd, w.a.members[j]) && Shows(rd, w.a.members[j], names[j])
    {
      NamedAfterMember(fmt, w.a.members[j], rd);
    }
    o := Opened(rd, SymbolsOf(w), FirstStart(w));
    FileOpens(w, fmt.maxName);
    ShownNames(w, fmt.maxName, names);
  }
}
