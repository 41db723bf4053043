/** What each record of the output symbol table says: the type and the value of its symbol, whose section is named for each
    type, over whole links; and which symbols have a record. */
module SymbolRecords {
  import opened AoutSymbols
  import opened AoutTypes
  import opened Basics
  import opened LinkRuns

  // ---------- what a record may say ----------

  /** Bits 1 to 4 of a type are those of t. */
  predicate HasType(kind: Byte, t: Byte) {
    kind / 2 % 16 == t / 2
  }

  predicate IsDebugging(kind: Byte) {
    kind >= 0x20
  }

  /** Equal as words of the output. */
  predicate SameWord(a: int, b: int) {
    (a - b) % U32 == 0
  }

  /** The record has the symbol's type, and is as far from where its section goes as the symbol is from the start of the
      section. */
  predicate KeepsPlace(s: Placed, y: Nlist, r: Record) {
    r.kind == y.kind && SameWord(r.value - (s.outVma + s.outOffset), y.value - s.vma)
  }

  /** The record is the symbol unchanged. */
  predicate Unchanged(y: Nlist, r: Record) {
    r.kind == y.kind && SameWord(r.value, y.value)
  }

  /** The record has the name and the symbol's other two fields. */
  predicate Described(y: Nlist, name: string, r: Record) {
    r.name == name && r.other == y.other && r.desc == y.desc
  }

  /** The symbol that opens a group carries the group's total. */
  predicate TotalSays(f: Input, i: nat, r: Record)
    requires i < |f.syms|
  {
    f.syms[i].kind == N_BINCL ==> r.value == GroupTotal(f.syms, i) % U32
  }

  /** The name a symbol with hash entry e is written with: the entry's, except that one with a warning keeps its own if the
      string tables of the input files stay in memory. */
  function NameBy(info: Info, y: Nlist, e: Entry): string {
    if e.kind == Warning && info.keepMemory then y.name else e.name
  }

  predicate InText(kind: Byte) {
    HasType(kind, N_TEXT) || kind == N_WEAKT
  }

  predicate InData(kind: Byte) {
    HasType(kind, N_DATA) || kind == N_WEAKD
  }

  predicate InBss(kind: Byte) {
    HasType(kind, N_BSS) || kind == N_WEAKB
  }

  predicate IsAbsolute(kind: Byte) {
    HasType(kind, N_ABS) || kind == N_WEAKA
  }

  /** A type that names a section of its own accord. */
  predicate HasSection(kind: Byte) {
    InText(kind) || InData(kind) || InBss(kind) || IsAbsolute(kind)
  }

  /** Of a symbol in a section, whatever its hash entry says. */
  predicate SectionSays(f: Input, y: Nlist, r: Record) {
    && (InText(y.kind) ==> KeepsPlace(f.text, y, r))
    && (InData(y.kind) ==> KeepsPlace(f.data, y, r))
    && (InBss(y.kind) ==> KeepsPlace(f.bss, y, r))
    && (IsAbsolute(y.kind) && y.kind != N_BINCL ==> Unchanged(y, r))
    && (y.kind == N_BINCL ==> r.kind == N_BINCL || r.kind == N_EXCL)
  }

  /** Of a symbol without a hash entry: elements of sets go with their section, and indirect and warning symbols and
      stabs stay as they are; of the rest only the type does. */
  predicate LocalSays(f: Input, y: Nlist, r: Record) {
    && SectionSays(f, y, r)
    && (HasType(y.kind, N_INDR) || y.kind == N_WARNING ==> Unchanged(y, r))
    && (IsDebugging(y.kind) && !HasSection(y.kind) ==> Unchanged(y, r))
    && (!IsDebugging(y.kind) && y.kind != N_WARNING ==>
          && (HasType(y.kind, N_SETT) ==> KeepsPlace(f.text, y, r))
          && (HasType(y.kind, N_SETD) ==> KeepsPlace(f.data, y, r))
          && (HasType(y.kind, N_SETB) ==> KeepsPlace(f.bss, y, r))
          && (HasType(y.kind, N_SETA) ==> Unchanged(y, r)))
    && (HasType(y.kind, N_UNDF) && !IsDebugging(y.kind) ==> r.kind == y.kind && r.value == 0)
  }

  /** The address of a definition, and its type in a section of the output; weak is the type of a weak one there. */
  predicate DefinitionSays(e: Entry, y: Nlist, r: Record) {
    var ext := if y.kind % 2 == 1 || y.kind == N_SETT || y.kind == N_SETD || y.kind == N_SETB || y.kind == N_SETA then 1 else 0;
    && SameWord(r.value, e.section.outVma + e.section.outOffset + e.value)
    && (e.kind == Defined ==>
          && (e.section.out == OutText ==> r.kind == N_TEXT + ext)
          && (e.section.out == OutData ==> r.kind == N_DATA + ext)
          && (e.section.out == OutBss ==> r.kind == N_BSS + ext)
          && (e.section.out == OutOther ==> r.kind == N_ABS + ext))
    && (e.kind == DefWeak ==>
          && (e.section.out == OutText ==> r.kind == N_WEAKT)
          && (e.section.out == OutData ==> r.kind == N_WEAKD + ext)
          && (e.section.out == OutBss ==> r.kind == N_WEAKB)
          && (e.section.out == OutOther ==> r.kind == N_WEAKA + ext))
  }

  predicate HasAddress(e: Entry) {
    e.kind == Defined || e.kind == DefWeak
  }

  /** Of a symbol with a hash entry, which comes to e: a type that names a section goes by it; an indirect symbol that is
      not defined after all, a warning and a stab stay as they are; and the rest go by the entry. */
  predicate GlobalSays(f: Input, y: Nlist, e: Entry, r: Record) {
    && SectionSays(f, y, r)
    && (HasType(y.kind, N_INDR) && !HasAddress(e) && e.kind != Common ==> Unchanged(y, r))
    && (y.kind == N_WARNING ==> Unchanged(y, r))
    && (IsDebugging(y.kind) && !HasSection(y.kind) ==> Unchanged(y, r))
    && (!IsDebugging(y.kind) && !HasSection(y.kind) && y.kind != N_WARNING ==>
          && (HasAddress(e) ==> DefinitionSays(e, y, r))
          && (e.kind == Common ==> r.kind == y.kind && SameWord(r.value, e.size))
          && (e.kind == UndefWeak && !HasType(y.kind, N_INDR) ==> r.kind == N_WEAKU && r.value == 0)
          && (e.kind == Undefined && !HasType(y.kind, N_INDR) ==> r.kind == y.kind && r.value == 0))
  }

  /** Of a hash entry that is written outside the input files: an external symbol. */
  predicate OtherSays(e: Entry, r: Record) {
    && (HasAddress(e) ==> DefinitionSays(e, Nlist(N_UNDF + N_EXT, 0, 0, e.name, 0, false), r))
    && (e.kind == Common ==> r.kind == N_EXT && SameWord(r.value, e.size))
    && (e.kind == UndefWeak ==> r.kind == N_WEAKU && r.value == 0)
    && (e.kind == Undefined ==> r.kind == N_EXT && r.value == 0)
    && r.name == e.name && r.other == 0 && r.desc == 0
  }

  // ---------- which symbols are kept ----------

  /** Each way of stripping, by the symbol's type and the name it is looked up under. */
  predicate StripKeeps(info: Info, kind: Byte, name: string) {
    && (info.strip == StripAll ==> false)
    && (info.strip == StripDebugger ==> !IsDebugging(kind))
    && (info.strip == StripSome ==> name in info.keep)
  }

  predicate IsSetElement(kind: Byte) {
    HasType(kind, N_SETT) || HasType(kind, N_SETD) || HasType(kind, N_SETB) || HasType(kind, N_SETA)
  }

  /** Each way of discarding local symbols; the elements of sets stay in any. */
  predicate DiscardKeeps(info: Info, y: Nlist) {
    && (info.discard == DiscardAll ==> IsSetElement(y.kind))
    && (info.discard == DiscardL && y.localLabel ==> IsDebugging(y.kind) || IsSetElement(y.kind))
  }

  predicate LocalKept(info: Info, y: Nlist) {
    StripKeeps(info, y.kind, y.name) && DiscardKeeps(info, y)
  }

  predicate GlobalKept(info: Info, y: Nlist, e: Entry) {
    StripKeeps(info, y.kind, if e.kind == Warning then y.name else e.name)
  }

  // ---------- one step ----------

  lemma TypeIs(kind: Byte, t: Byte)
    requires t < 0x20 && t % 2 == 0
    ensures TypeBits(kind) == t <==> HasType(kind, t)
  {
    assert kind % 0x20 == 2 * (kind / 2 % 16) + kind % 2;
  }

  lemma TypesAre(kind: Byte)
    ensures TypeBits(kind) == N_TEXT <==> HasType(kind, N_TEXT)
    ensures TypeBits(kind) == N_DATA <==> HasType(kind, N_DATA)
    ensures TypeBits(kind) == N_BSS <==> HasType(kind, N_BSS)
    ensures TypeBits(kind) == N_ABS <==> HasType(kind, N_ABS)
    ensures TypeBits(kind) == N_UNDF <==> HasType(kind, N_UNDF)
    ensures TypeBits(kind) == N_INDR <==> HasType(kind, N_INDR)
    ensures TypeBits(kind) == N_SETT <==> HasType(kind, N_SETT)
    ensures TypeBits(kind) == N_SETD <==> HasType(kind, N_SETD)
    ensures TypeBits(kind) == N_SETB <==> HasType(kind, N_SETB)
    ensures TypeBits(kind) == N_SETA <==> HasType(kind, N_SETA)
  {
    hide TypeBits, HasType;
    TypeIs(kind, N_TEXT);
    TypeIs(kind, N_DATA);
    TypeIs(kind, N_BSS);
    TypeIs(kind, N_ABS);
    TypeIs(kind, N_UNDF);
    TypeIs(kind, N_INDR);
    TypeIs(kind, N_SETT);
    TypeIs(kind, N_SETD);
    TypeIs(kind, N_SETB);
    TypeIs(kind, N_SETA);
  }

  /** The record that is made of a symbol with value v. */
  predicate MadeOf(v: Value, r: Record) {
    if v.kind == N_BINCL then r.kind == N_BINCL || r.kind == N_EXCL
    else r.kind == v.kind && r.value == v.value % U32
  }

  lemma WordIsSame(v: int, d: int)
    ensures SameWord(v % U32, v) && SameWord(v % U32 - d, v - d)
  {
    assert v == v / U32 * U32 + v % U32;
  }

  lemma PlaceIsKept(s: Placed, y: Nlist, r: Record)
    requires r.kind == y.kind && r.value == Moved(s, y.value) % U32
    ensures KeepsPlace(s, y, r) && (s == ABS_SECTION ==> Unchanged(y, r))
  {
    hide SameWord;
    WordIsSame(Moved(s, y.value), s.outVma + s.outOffset);
    WordIsSame(Moved(s, y.value), 0);
    assert Moved(s, y.value) - (s.outVma + s.outOffset) == y.value - s.vma;
  }

  lemma StaysUnchanged(y: Nlist, r: Record)
    requires r.kind == y.kind && r.value == y.value % U32
    ensures Unchanged(y, r)
  {
    hide SameWord;
    WordIsSame(y.value, 0);
  }

  lemma OneSection(kind: Byte)
    ensures InText(kind) ==> !InData(kind) && !InBss(kind) && !IsAbsolute(kind)
    ensures InData(kind) ==> !InBss(kind) && !IsAbsolute(kind)
    ensures InBss(kind) ==> !IsAbsolute(kind)
    ensures kind == N_BINCL ==> IsAbsolute(kind)
  {
  }

  /** A type that names a section. */
  lemma SectionValueSays(f: Input, y: Nlist, e: Option<Entry>, r: Record)
    requires HasSection(y.kind) && MadeOf(ValueOf(f, y, e), r)
    ensures SectionSays(f, y, r)
  {
    TypesAre(y.kind);
    OneSection(y.kind);
    hide TypeBits, HasType, KeepsPlace, Unchanged, Moved;
    if InText(y.kind) {
      PlaceIsKept(f.text, y, r);
    } else if InData(y.kind) {
      PlaceIsKept(f.data, y, r);
    } else if InBss(y.kind) {
      PlaceIsKept(f.bss, y, r);
    } else if y.kind != N_BINCL {
      PlaceIsKept(ABS_SECTION, y, r);
    }
  }

  lemma LocalValueSays(f: Input, y: Nlist, r: Record)
    requires MadeOf(ValueOf(f, y, None), r)
    ensures LocalSays(f, y, r)
  {
    if HasSection(y.kind) {
      SectionValueSays(f, y, None, r);
      TypesAreApart(y.kind);
      hide HasType, ValueOf;
    } else {
      OtherLocalSays(f, y, r);
    }
  }

  /** A type that names a section is no other, and the others are apart. */
  lemma TypesAreApart(kind: Byte)
    ensures HasSection(kind) ==> !HasType(kind, N_INDR) && kind != N_WARNING && !HasType(kind, N_UNDF) && !IsSetElement(kind)
    ensures HasType(kind, N_INDR) || HasType(kind, N_UNDF) ==> kind != N_WARNING && !IsSetElement(kind)
    ensures HasType(kind, N_INDR) ==> !HasType(kind, N_UNDF)
    ensures kind == N_WARNING ==> !IsSetElement(kind)
  {
  }

  lemma OtherLocalSays(f: Input, y: Nlist, r: Record)
    requires !HasSection(y.kind) && MadeOf(ValueOf(f, y, None), r)
    ensures LocalSays(f, y, r)
  {
    TypesAre(y.kind);
    OneSection(y.kind);
    TypesAreApart(y.kind);
    hide TypeBits, HasType, KeepsPlace, Unchanged, Moved;
    if r.value == y.value % U32 {
      StaysUnchanged(y, r);
    }
    if IsDebugging(y.kind) {
    } else if HasType(y.kind, N_SETT) {
      PlaceIsKept(f.text, y, r);
    } else if HasType(y.kind, N_SETD) {
      PlaceIsKept(f.data, y, r);
    } else if HasType(y.kind, N_SETB) {
      PlaceIsKept(f.bss, y, r);
    } else if HasType(y.kind, N_SETA) {
      PlaceIsKept(ABS_SECTION, y, r);
    }
  }

  /** A definition's type is that of its section, external if the symbol is. */
  lemma DefinitionTypeSays(kind: Byte, e: Entry, r: Record)
    requires !IsDebugging(kind) && HasAddress(e) && r.kind == DefinedType(kind, e)
    requires SameWord(r.value, e.section.outVma + e.section.outOffset + e.value)
    ensures DefinitionSays(e, Nlist(kind, 0, 0, e.name, 0, false), r)
  {
    hide SameWord;
  }

  lemma DefinitionValueSays(y: Nlist, e: Entry, r: Record)
    requires !IsDebugging(y.kind) && HasAddress(e) && r.kind == DefinedType(y.kind, e) && r.value == Address(e) % U32
    ensures DefinitionSays(e, y, r)
  {
    hide SameWord, DefinedType;
    WordIsSame(Address(e), 0);
    assert Address(e) == e.section.outVma + e.section.outOffset + e.value;
    DefinitionTypeSays(y.kind, e, r);
  }

  lemma GlobalValueSays(f: Input, y: Nlist, e: Entry, r: Record)
    requires MadeOf(ValueOf(f, y, Some(e)), r)
    ensures GlobalSays(f, y, e, r)
  {
    TypesAreApart(y.kind);
    if HasSection(y.kind) {
      SectionValueSays(f, y, Some(e), r);
      hide HasType, ValueOf;
    } else {
      OtherGlobalSays(f, y, e, r);
    }
  }

  lemma OtherGlobalSays(f: Input, y: Nlist, e: Entry, r: Record)
    requires !HasSection(y.kind) && MadeOf(ValueOf(f, y, Some(e)), r)
    ensures GlobalSays(f, y, e, r)
  {
    TypesAre(y.kind);
    OneSection(y.kind);
    TypesAreApart(y.kind);
    NoBracketMade(f, y, e);
    hide TypeBits, HasType, Unchanged, Moved, DefinedType, DefinitionSays, Address, SameWord;
    if r.value == y.value % U32 && r.kind == y.kind {
      StaysUnchanged(y, r);
    }
    if !IsDebugging(y.kind) && HasAddress(e) && y.kind != N_WARNING {
      DefinitionValueSays(y, e, r);
    }
    WordIsSame(e.size, 0);
  }

  lemma NoBracketMade(f: Input, y: Nlist, e: Entry)
    requires !HasSection(y.kind)
    ensures ValueOf(f, y, Some(e)).kind != N_BINCL
  {
  }

  lemma OtherRecordSays(e: Entry)
    requires e.kind != New && !IsLink(e)
    ensures OtherSays(e, OtherRecord(e))
  {
    var y := Nlist(N_UNDF + N_EXT, 0, 0, e.name, 0, false);
    hide SameWord, Address, DefinedType;
    WordIsSame(Address(e), 0);
    WordIsSame(e.size, 0);
    if HasAddress(e) {
      DefinedSymbolReadsBack(e);
      DefinitionValueSays(y, e, OtherRecord(e));
    }
  }

  // ---------- one turn of the loop ----------

  /** The record that symbol i adds is its own, unchanged after an indirect or warning symbol, or that of its hash entry; and
      then the way of stripping, and of discarding, keeps it. */
  ghost predicate Added(info: Info, rank: seq<nat>, f: Input, file: nat, p: Pass, i: nat, r: Record, o: Owner)
    requires TableOk(info.table, rank) && InputOk(info.table, f) && i < |f.syms|
  {
    if p.pass then o == LocalSym(file, i) && Unchanged(f.syms[i], r) && Described(f.syms[i], f.syms[i].name, r)
    else if f.hashes[i].None? then
      && o == LocalSym(file, i) && LocalSays(f, f.syms[i], r) && LocalKept(info, f.syms[i])
      && Described(f.syms[i], f.syms[i].name, r) && TotalSays(f, i, r)
    else
      var h := f.hashes[i].value;
      && o == GlobalSym(h)
      && Described(f.syms[i], NameBy(info, f.syms[i], info.table[h]), r) && TotalSays(f, i, r)
      && GlobalSays(f, f.syms[i], info.table[Resolve(info.table, rank, h)], r)
      && GlobalKept(info, f.syms[i], info.table[h])
  }

  lemma ModesKeep(info: Info, y: Nlist, name: string)
    ensures Stripped(info, y.kind, name) <==> !StripKeeps(info, y.kind, name)
    ensures IsSet(y.kind) <==> IsSetElement(y.kind)
    ensures !IsSet(y.kind) && Discarded(info, y) <==> !DiscardKeeps(info, y)
  {
    TypesAre(y.kind);
    hide TypeBits, HasType;
  }

  lemma TypeIsKept(f: Input, y: Nlist)
    ensures ValueOf(f, y, None).kind == y.kind
    ensures forall e :: y.kind == N_BINCL ==> ValueOf(f, y, e).kind == N_BINCL
    ensures forall e :: ValueOf(f, y, e).pass ==> HasType(y.kind, N_INDR) || y.kind == N_WARNING
  {
    TypesAre(y.kind);
    hide HasType;
  }

  /** What Place makes of a symbol that is not discarded. */
  lemma PlaceMakes(info: Info, f: Input, file: nat, p: Pass, i: nat, h: Option<nat>, v: Value, name: string)
    requires PassOk(info.table, f, p) && i < |f.syms| && (h.Some? ==> h.value < |info.table|)
    ensures var q := Place(info, f, file, p, i, h, v, name);
            && (q.pass ==> v.pass) && q.hashes == p.hashes
            && (h.Some? ==> q.st.written == p.st.written[h.value := true]
                            && q.st.indx == p.st.indx[h.value := |p.st.records|])
            && (q.st.records == p.st.records <==> h.None? && !IsSet(v.kind) && Discarded(info, f.syms[i]))
            && (q.st.records == p.st.records ==> q.st.owners == p.st.owners && q.symbolMap == p.symbolMap)
            && (q.st.records != p.st.records ==>
                  && |q.st.records| == |p.st.records| + 1 && q.st.records[..|p.st.records|] == p.st.records
                  && q.st.owners == p.st.owners + [if h.None? then LocalSym(file, i) else GlobalSym(h.value)]
                  && q.symbolMap[i] == |p.st.records|
                  && MadeOf(v, q.st.records[|p.st.records|])
                  && (v.kind == N_BINCL ==> q.st.records[|p.st.records|].value == GroupTotal(f.syms, i) % U32)
                  && Described(f.syms[i], if h.Some? && !info.keepMemory then info.table[h.value].name else name,
                               q.st.records[|p.st.records|]))
  {
    hide GroupTotal, MarkGroup, IsSet, Discarded, Totals;
  }

  /** A local symbol that is neither marked nor met with a flag set has a record exactly if it is kept. */
  lemma LocalStepSays(info: Info, rank: seq<nat>, f: Input, file: nat, p: Pass, i: nat)
    requires TableOk(info.table, rank) && InputOk(info.table, f) && PassOk(info.table, f, p) && i < |f.syms|
    requires p.hashes[i] == f.hashes[i] == None && p.symbolMap[i] != -1 && !p.pass && !p.skipNext
    ensures var q := Step(info, rank, f, file, p, i);
            && (q.pass ==> HasType(f.syms[i].kind, N_INDR) || f.syms[i].kind == N_WARNING)
            && (if LocalKept(info, f.syms[i]) then
                  && |q.st.records| == |p.st.records| + 1 && q.st.records[..|p.st.records|] == p.st.records
                  && q.st.owners == p.st.owners + [LocalSym(file, i)] && q.symbolMap[i] == |p.st.records|
                  && LocalSays(f, f.syms[i], q.st.records[|p.st.records|])
                  && Described(f.syms[i], f.syms[i].name, q.st.records[|p.st.records|])
                  && TotalSays(f, i, q.st.records[|p.st.records|])
                else q.st.records == p.st.records && q.st.owners == p.st.owners && q.symbolMap[i] == -1)
  {
    var y := f.syms[i];
    var v := ValueOf(f, y, None);
    TypeIsKept(f, y);
    ModesKeep(info, y, y.name);
    var p' := p.(symbolMap := p.symbolMap[i := -1]);
    hide ValueOf, Place, LocalSays, Stripped, StripKeeps, DiscardKeeps, IsSet, Discarded, HasType;
    PlaceMakes(info, f, file, p', i, None, v, y.name);
    var q := Step(info, rank, f, file, p, i);
    if q.st.records != p.st.records {
      LocalValueSays(f, y, q.st.records[|p.st.records|]);
    }
  }

  /** A symbol whose hash entry is not written has a record exactly if it is kept; one whose entry is written has none, and
      shares its number. From then on the entry counts as written, with a record or without. */
  lemma GlobalStepSays(info: Info, rank: seq<nat>, f: Input, file: nat, p: Pass, i: nat)
    requires TableOk(info.table, rank) && InputOk(info.table, f) && PassOk(info.table, f, p) && i < |f.syms|
    requires p.hashes[i] == f.hashes[i] && f.hashes[i].Some? && p.symbolMap[i] != -1 && !p.pass && !p.skipNext
    ensures var q, h := Step(info, rank, f, file, p, i), f.hashes[i].value;
            && (q.pass ==> HasType(f.syms[i].kind, N_INDR) || f.syms[i].kind == N_WARNING)
            && (if !p.st.written[h] && GlobalKept(info, f.syms[i], info.table[h]) then
                  && |q.st.records| == |p.st.records| + 1 && q.st.records[..|p.st.records|] == p.st.records
                  && q.st.owners == p.st.owners + [GlobalSym(h)]
                  && GlobalSays(f, f.syms[i], info.table[Resolve(info.table, rank, h)], q.st.records[|p.st.records|])
                  && Described(f.syms[i], NameBy(info, f.syms[i], info.table[h]), q.st.records[|p.st.records|])
                  && TotalSays(f, i, q.st.records[|p.st.records|])
                  && q.st.indx == p.st.indx[h := |p.st.records|] && q.symbolMap[i] == |p.st.records|
                else
                  && q.st.records == p.st.records && q.st.owners == p.st.owners && q.st.indx == p.st.indx
                  && q.symbolMap[i] == if p.st.written[h] then p.st.indx[h] else -1)
            && q.st.written == p.st.written[h := true]
  {
    var y, h := f.syms[i], f.hashes[i].value;
    var e, r := info.table[h], Resolve(info.table, rank, h);
    var name := if e.kind == Warning then y.name else e.name;
    var v := ValueOf(f, y, Some(info.table[r]));
    TypeIsKept(f, y);
    ModesKeep(info, y, name);
    hide ValueOf, Place, GlobalSays, Stripped, StripKeeps, IsSet, Discarded, HasType, Resolve;
    PlaceMakes(info, f, file, p.(symbolMap := p.symbolMap[i := -1], hashes := p.hashes[i := Some(r)]), i, f.hashes[i], v, name);
    var q := Step(info, rank, f, file, p, i);
    if q.st.records != p.st.records {
      GlobalValueSays(f, y, info.table[r], q.st.records[|p.st.records|]);
    }
  }

  lemma StepSays(info: Info, rank: seq<nat>, f: Input, file: nat, p: Pass, i: nat)
    requires TableOk(info.table, rank) && InputOk(info.table, f) && PassOk(info.table, f, p) && i < |f.syms|
    requires p.hashes[i] == f.hashes[i]
    ensures var q := Step(info, rank, f, file, p, i);
            && (q.pass ==> HasType(f.syms[i].kind, N_INDR) || f.syms[i].kind == N_WARNING
                           || (p.pass && p.symbolMap[i] == -1))
            && (q.st.records == p.st.records ==> q.st.owners == p.st.owners)
            && (q.st.records != p.st.records ==>
                  && |q.st.records| == |p.st.records| + 1 && q.st.records[..|p.st.records|] == p.st.records
                  && |q.st.owners| == |p.st.owners| + 1 && q.st.owners[..|p.st.owners|] == p.st.owners
                  && Added(info, rank, f, file, p, i, q.st.records[|p.st.records|], q.st.owners[|p.st.records|]))
  {
    var y := f.syms[i];
    TypeIsKept(f, y);
    if p.symbolMap[i] == -1 {
    } else if p.pass {
      var r := MakeRecord(y, y.kind, y.name, y.value);
      StaysUnchanged(y, r);
    } else if p.skipNext {
    } else if f.hashes[i].None? {
      LocalStepSays(info, rank, f, file, p, i);
    } else {
      GlobalStepSays(info, rank, f, file, p, i);
    }
  }

  // ---------- whole links ----------

  /** An indirect or warning symbol comes before symbol i. */
  predicate AfterPassing(f: Input, i: nat)
    requires i <= |f.syms|
  {
    exists j :: 0 <= j < i && (HasType(f.syms[j].kind, N_INDR) || f.syms[j].kind == N_WARNING)
  }

  /** The record was made of a symbol of this file with hash entry h. */
  ghost predicate FromFile(info: Info, rank: seq<nat>, f: Input, i: nat, h: nat, r: Record)
    requires TableOk(info.table, rank) && InputOk(info.table, f) && h < |info.table|
  {
    && i < |f.syms| && f.hashes[i] == Some(h)
    && GlobalSays(f, f.syms[i], info.table[Resolve(info.table, rank, h)], r)
    && Described(f.syms[i], NameBy(info, f.syms[i], info.table[h]), r) && TotalSays(f, i, r)
    && GlobalKept(info, f.syms[i], info.table[h])
  }

  /** Whether an input file has a symbol of its own, which stands at the beginning of its text. */
  predicate FileKept(info: Info, f: Input) {
    && info.strip != StripAll && info.discard != DiscardAll
    && (info.strip == StripSome ==> f.filename in info.keep)
  }

  predicate FileSays(f: Input, r: Record) {
    && r.kind == N_TEXT && r.other == 0 && r.desc == 0 && r.name == f.filename
    && SameWord(r.value, f.text.outVma + f.text.outOffset)
  }

  /** The record says what it should of its owner. */
  ghost predicate RecordSays(info: Info, rank: seq<nat>, files: seq<Input>, r: Record, o: Owner)
    requires LinkOk(info, rank, files)
  {
    match o
    case FileName(f) =>
      f < |files| && FileKept(info, files[f]) && FileSays(files[f], r)
    case LocalSym(f, i) =>
      && f < |files| && i < |files[f].syms|
      && Described(files[f].syms[i], files[f].syms[i].name, r)
      && ((AfterPassing(files[f], i) && Unchanged(files[f].syms[i], r))
          || (files[f].hashes[i].None? && LocalSays(files[f], files[f].syms[i], r) && LocalKept(info, files[f].syms[i])
              && TotalSays(files[f], i, r)))
    case GlobalSym(h) =>
      && h < |info.table|
      && ((IsReal(info.table[h]) && OtherSays(info.table[h], r))
          || exists f, i :: 0 <= f < |files| && FromFile(info, rank, files[f], i, h, r))
  }

  ghost predicate AllSay(info: Info, rank: seq<nat>, files: seq<Input>, st: State)
    requires LinkOk(info, rank, files) && |st.owners| == |st.records|
  {
    forall k :: 0 <= k < |st.records| ==> RecordSays(info, rank, files, st.records[k], st.owners[k])
  }

  /** What holds before symbol i of a file. */
  ghost predicate SaysBefore(info: Info, rank: seq<nat>, files: seq<Input>, file: nat, p: Pass, i: nat)
    requires LinkOk(info, rank, files) && file < |files| && PassOk(info.table, files[file], p) && i <= |files[file].syms|
  {
    && AllSay(info, rank, files, p.st)
    && HashesAhead(files[file], p, i)
    && (p.pass ==> AfterPassing(files[file], i))
  }

  lemma AppendSays(info: Info, rank: seq<nat>, files: seq<Input>, p: State, q: State)
    requires LinkOk(info, rank, files) && |p.owners| == |p.records| && AllSay(info, rank, files, p)
    requires |q.owners| == |q.records| == |p.records| + 1
    requires q.records[..|p.records|] == p.records && q.owners[..|p.records|] == p.owners
    requires RecordSays(info, rank, files, q.records[|p.records|], q.owners[|p.records|])
    ensures AllSay(info, rank, files, q)
  {
    hide RecordSays;
    forall k | 0 <= k < |p.records| ensures q.records[k] == p.records[k] && q.owners[k] == p.owners[k] {
      assert q.records[..|p.records|][k] == p.records[k] && q.owners[..|p.records|][k] == p.owners[k];
    }
  }

  lemma AddedSays(info: Info, rank: seq<nat>, files: seq<Input>, file: nat, p: Pass, i: nat, r: Record, o: Owner)
    requires LinkOk(info, rank, files) && file < |files| && i < |files[file].syms|
    requires p.pass ==> AfterPassing(files[file], i)
    requires Added(info, rank, files[file], file, p, i, r, o)
    ensures RecordSays(info, rank, files, r, o)
  {
    hide LocalSays, GlobalSays, LocalKept, GlobalKept, AfterPassing, Unchanged, Resolve;
    if !p.pass && files[file].hashes[i].Some? {
      assert FromFile(info, rank, files[file], i, files[file].hashes[i].value, r);
    }
  }

  lemma StepKeepsSaying(info: Info, rank: seq<nat>, files: seq<Input>, file: nat, p: Pass, i: nat)
    requires LinkOk(info, rank, files) && file < |files| && i < |files[file].syms|
    requires PassOk(info.table, files[file], p) && SaysBefore(info, rank, files, file, p, i)
    ensures SaysBefore(info, rank, files, file, Step(info, rank, files[file], file, p, i), i + 1)
  {
    hide Step, RecordSays, Added, HasType;
    var f := files[file];
    StepSays(info, rank, f, file, p, i);
    var h := StepAdds(info, rank, f, file, p, i);
    var q := Step(info, rank, f, file, p, i);
    if q.st.records != p.st.records {
      AddedSays(info, rank, files, file, p, i, q.st.records[|p.st.records|], q.st.owners[|p.st.records|]);
      AppendSays(info, rank, files, p.st, q.st);
    }
  }

  lemma StartSays(info: Info, rank: seq<nat>, files: seq<Input>, file: nat, st: State)
    requires LinkOk(info, rank, files) && file < |files| && StateOk(info.table, st) && AllSay(info, rank, files, st)
    ensures SaysBefore(info, rank, files, file, Start(info, files[file], file, st), 0)
    ensures FileKept(info, files[file]) <==> Start(info, files[file], file, st).st.records != st.records
  {
    var q := Start(info, files[file], file, st);
    WordIsSame(files[file].text.outVma + files[file].text.outOffset, 0);
    if q.st != st {
      hide SameWord;
      AppendSays(info, rank, files, st, q.st);
    }
  }

  lemma {:induction false} FileRunSays(info: Info, rank: seq<nat>, files: seq<Input>, file: nat, st: State, i: nat)
    requires LinkOk(info, rank, files) && file < |files| && i <= |files[file].syms|
    requires StateOk(info.table, st) && AllSay(info, rank, files, st)
    ensures SaysBefore(info, rank, files, file, FileRun(info, rank, files[file], file, st, i), i)
  {
    hide Step, Start, SaysBefore, AllSay;
    if i == 0 {
      StartSays(info, rank, files, file, st);
    } else {
      FileRunSays(info, rank, files, file, st, i - 1);
      StepKeepsSaying(info, rank, files, file, FileRun(info, rank, files[file], file, st, i - 1), i - 1);
    }
  }

  lemma WriteOtherSays(info: Info, rank: seq<nat>, files: seq<Input>, st: State, entry: nat)
    requires LinkOk(info, rank, files) && StateOk(info.table, st) && entry < |info.table| && AllSay(info, rank, files, st)
    ensures AllSay(info, rank, files, WriteOther(info, st, entry))
  {
    hide RecordSays, OtherRecord;
    var q := WriteOther(info, st, entry);
    if q.records != st.records {
      var h := q.owners[|st.records|].entry;
      OtherRecordSays(info.table[h]);
      EntrySays(info, rank, files, h);
      AppendSays(info, rank, files, st, q);
    }
  }

  lemma EntrySays(info: Info, rank: seq<nat>, files: seq<Input>, h: nat)
    requires LinkOk(info, rank, files) && h < |info.table| && IsReal(info.table[h])
    ensures RecordSays(info, rank, files, OtherRecord(info.table[h]), GlobalSym(h))
  {
    OtherRecordSays(info.table[h]);
    hide OtherSays, OtherRecord;
  }

  /** Over every link, every record says what it should: the file symbol where the text goes; a local symbol its type and
      its place in the section that its type names, or all of it unchanged after an indirect or warning symbol; and a global
      one the same, or the address or size of its hash entry. And local symbols that have one are kept by the ways of
      stripping and discarding. */
  lemma {:induction false} RecordsSay(info: Info, rank: seq<nat>, files: seq<Input>, evs: seq<Event>)
    requires LinkOk(info, rank, files) && EventsOk(info, files, evs)
    ensures AllSay(info, rank, files, Run(info, rank, files, evs))
  {
    hide RecordSays, FileRun, WriteOther;
    if evs == [] {
    } else {
      var st := Run(info, rank, files, evs[..|evs| - 1]);
      RecordsSay(info, rank, files, evs[..|evs| - 1]);
      match evs[|evs| - 1]
      case InputFile(f) => FileRunSays(info, rank, files, f, st, |files[f].syms|);
      case Other(e) => WriteOtherSays(info, rank, files, st, e);
      case Forced(e) =>
        WriteOtherSays(info, rank, files, st.(indx := st.indx[e := -2], written := st.written[e := false]), e);
    }
  }

  // ---------- which local symbols have a record ----------

  /** A file without header groups, and without indirect and warning symbols. */
  predicate Quiet(f: Input) {
    forall i :: 0 <= i < |f.syms| ==>
      f.syms[i].kind != N_BINCL && !HasType(f.syms[i].kind, N_INDR) && f.syms[i].kind != N_WARNING
  }

  ghost predicate KeptSoFar(info: Info, f: Input, p: Pass, i: nat)
    requires InputOk(info.table, f) && PassOk(info.table, f, p) && i <= |f.syms|
  {
    && !p.pass && !p.skipNext
    && HashesAhead(f, p, i)
    && (forall j :: i <= j < |f.syms| ==> p.symbolMap[j] == 0)
    && (forall j :: 0 <= j < i && f.hashes[j].None? ==> (p.symbolMap[j] >= 0 <==> LocalKept(info, f.syms[j])))
  }

  lemma QuietValue(f: Input, y: Nlist, e: Option<Entry>)
    requires y.kind != N_BINCL && !HasType(y.kind, N_INDR) && y.kind != N_WARNING
    ensures var v := ValueOf(f, y, e); !v.pass && !v.skip && v.kind != N_BINCL
  {
    TypesAre(y.kind);
    hide HasType;
    if e.Some? && !IsStab(y.kind) {
      assert !IsStab(DefinedType(y.kind, e.value));
    }
  }

  lemma QuietStep(info: Info, rank: seq<nat>, f: Input, file: nat, p: Pass, i: nat)
    requires TableOk(info.table, rank) && InputOk(info.table, f) && PassOk(info.table, f, p) && i < |f.syms|
    requires Quiet(f) && !p.pass && !p.skipNext && p.symbolMap[i] == 0
    ensures var q := Step(info, rank, f, file, p, i);
            && !q.pass && !q.skipNext
            && forall j :: 0 <= j < |f.syms| && j != i ==> q.symbolMap[j] == p.symbolMap[j]
  {
    var y := f.syms[i];
    QuietValue(f, y, None);
    TypesAre(y.kind);
    if p.hashes[i].Some? {
      QuietValue(f, y, Some(info.table[Resolve(info.table, rank, p.hashes[i].value)]));
    }
    hide ValueOf, TypeBits, HasType, Resolve, Quiet;
  }

  lemma QuietKept(info: Info, rank: seq<nat>, f: Input, file: nat, p: Pass, i: nat)
    requires TableOk(info.table, rank) && InputOk(info.table, f) && PassOk(info.table, f, p) && i < |f.syms|
    requires Quiet(f) && KeptSoFar(info, f, p, i)
    ensures KeptSoFar(info, f, Step(info, rank, f, file, p, i), i + 1)
  {
    hide Step, LocalKept, Quiet, HasType, LocalSays;
    QuietStep(info, rank, f, file, p, i);
    var h := StepAdds(info, rank, f, file, p, i);
    if f.hashes[i].None? {
      LocalStepSays(info, rank, f, file, p, i);
    }
  }

  /** In such a file, under every way of stripping and discarding, exactly those local symbols have a record that are
      kept. */
  lemma {:induction false} LocalsKept(info: Info, rank: seq<nat>, f: Input, file: nat, st: State, i: nat)
    requires TableOk(info.table, rank) && InputOk(info.table, f) && StateOk(info.table, st) && i <= |f.syms| && Quiet(f)
    ensures KeptSoFar(info, f, FileRun(info, rank, f, file, st, i), i)
  {
    hide Step, Quiet, LocalKept;
    if i == 0 {
    } else {
      LocalsKept(info, rank, f, file, st, i - 1);
      QuietKept(info, rank, f, file, FileRun(info, rank, f, file, st, i - 1), i - 1);
    }
  }

  /** An entry, or the one that it warns of, gets a record exactly if it has none yet, is a real symbol, and is forced or kept
      by the way of stripping; and its index is then the number of that record. */
  lemma OtherKept(info: Info, st: State, entry: nat)
    requires StateOk(info.table, st) && entry < |info.table|
    requires info.table[entry].kind == Warning ==>
               info.table[entry].link < |info.table| && info.table[info.table[entry].link].kind != Warning
    ensures var h := if info.table[entry].kind == Warning then info.table[entry].link else entry;
            var e, q := info.table[h], WriteOther(info, st, entry);
            && (q.records != st.records
                <==> !st.written[h] && IsReal(e)
                     && (st.indx[h] == -2
                         || (info.strip != StripAll && (info.strip == StripSome ==> e.name in info.keep))))
            && (q.records != st.records ==> q.owners == st.owners + [GlobalSym(h)] && q.indx == st.indx[h := |st.records|])
            && (q.records == st.records ==> q.owners == st.owners && q.indx == st.indx)
            && (q.written == st.written || q.written == st.written[h := true]) && (e.kind != New ==> q.written[h])
  {
    var q := WriteOther(info, st, entry);
    assert q.records == st.records || |q.records| == |st.records| + 1;
  }

  // ---------- which entries are forced ----------

  /** An index is -1, the number of a record, or -2 for an entry that was forced. */
  ghost predicate OnlyForced(st: State, evs: seq<Event>) {
    forall h :: 0 <= h < |st.indx| && st.indx[h] < -1 ==> st.indx[h] == -2 && Forced(h) in evs
  }

  lemma {:induction false} FileForcesNone(info: Info, rank: seq<nat>, f: Input, file: nat, st: State, i: nat, evs: seq<Event>)
    requires TableOk(info.table, rank) && InputOk(info.table, f) && StateOk(info.table, st) && i <= |f.syms|
    requires OnlyForced(st, evs)
    ensures OnlyForced(FileRun(info, rank, f, file, st, i).st, evs)
  {
    hide Step;
    if i == 0 {
    } else {
      FileForcesNone(info, rank, f, file, st, i - 1, evs);
      var h := StepAdds(info, rank, f, file, FileRun(info, rank, f, file, st, i - 1), i - 1);
    }
  }

  lemma MoreForced(st: State, evs: seq<Event>, ev: Event)
    requires OnlyForced(st, evs)
    ensures OnlyForced(st, evs + [ev])
  {
  }

  /** Over every run an entry whose index overrides stripping is one that an event forced. */
  lemma {:induction false} ForcedByEvents(info: Info, rank: seq<nat>, files: seq<Input>, evs: seq<Event>)
    requires LinkOk(info, rank, files) && EventsOk(info, files, evs)
    ensures OnlyForced(Run(info, rank, files, evs), evs)
  {
    hide FileRun, WriteOther;
    if evs == [] {
    } else {
      var front, ev := evs[..|evs| - 1], evs[|evs| - 1];
      var st := Run(info, rank, files, front);
      ForcedByEvents(info, rank, files, front);
      assert evs == front + [ev];
      MoreForced(st, front, ev);
      match ev
      case InputFile(f) => FileForcesNone(info, rank, files[f], f, st, |files[f].syms|, evs);
      case Other(e) => OtherKept(info, st, e);
      case Forced(e) =>
        var t := st.(indx := st.indx[e := -2], written := st.written[e := false]);
        assert OnlyForced(t, evs);
        OtherKept(info, t, e);
    }
  }
}
