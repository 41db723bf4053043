/** Extended a.out relocations: what a relocatable link does to a record, what a final link
    patches for it, and when going through a relocatable link first makes no difference. */
module AoutRelocate {
  import opened AoutSymbols
  import opened AoutTypes
  import opened Basics

  datatype Howto = Howto(pcRelative: bool, pcrelOffset: bool)

  /** A relocation record. index is a symbol number if extern, else a section's symbol type. */
  datatype ExtReloc = ExtReloc(address: int, index: nat, extern: bool, howto: Howto, addend: int)

  /** What a link knows of one input file: the hash entries of its symbols, and its
      sections with their places in that link's output. */
  datatype View = View(table: seq<Entry>, hashes: seq<Option<nat>>, text: Placed, data: Placed, bss: Placed)

  /** Equal as words of the output. */
  predicate Same(a: int, b: int) {
    (a - b) % U32 == 0
  }

  function Home(s: Placed): int {
    s.outVma + s.outOffset
  }

  /** How far a link moves a section. */
  function Shift(s: Placed): int {
    Home(s) - s.vma
  }

  predicate IsDefined(e: Entry) {
    e.kind == Defined || e.kind == DefWeak
  }

  /** The hash entry a relocation is against, if it is defined. */
  function Known(v: View, rel: ExtReloc): Option<Entry> {
    if rel.extern && rel.index < |v.hashes| && v.hashes[rel.index].Some? && v.hashes[rel.index].value < |v.table|
       && IsDefined(v.table[v.hashes[rel.index].value])
    then Some(v.table[v.hashes[rel.index].value])
    else None
  }

  /** The section a section relocation is against; other types abort the link. */
  function SectionAt(v: View, index: nat): Option<Placed> {
    var t := index % 0x20 - index % 2;
    if t == N_TEXT then Some(v.text)
    else if t == N_DATA then Some(v.data)
    else if t == N_BSS then Some(v.bss)
    else if t == N_ABS || t == N_UNDF then Some(ABS_SECTION)
    else None
  }

  function SectionIndex(out: OutSection): nat {
    match out
    case OutText => N_TEXT
    case OutData => N_DATA
    case OutBss => N_BSS
    case OutOther => N_ABS
  }

  /** Neither link aborts at this record. */
  predicate Sound(v: View, rel: ExtReloc) {
    rel.extern || SectionAt(v, rel.index).Some?
  }

  // ---------- the two kinds of link ----------

  /** A relocatable link rewrites a record. newIndex is the output number of the symbol
      when the record stays against a symbol. */
  function Rewritten(v: View, s: Placed, rel: ExtReloc, newIndex: nat): ExtReloc
    requires Sound(v, rel)
  {
    var known := Known(v, rel);
    var relocation :=
      (if known.Some? then Address(known.value)
       else if rel.extern then 0
       else Shift(SectionAt(v, rel.index).value))
      - (if rel.howto.pcRelative && !rel.howto.pcrelOffset then Shift(s) else 0);
    ExtReloc((rel.address + s.outOffset) % U32,
             if known.Some? then SectionIndex(known.value.section.out) else if rel.extern then newIndex else rel.index,
             rel.extern && known.None?,
             rel.howto,
             if relocation % U32 != 0 then (rel.addend + relocation) % U32 else rel.addend)
  }

  /** The relocation a final link computes; an undefined symbol counts as zero. */
  function FinalRelocation(v: View, s: Placed, rel: ExtReloc): int
    requires Sound(v, rel)
  {
    if rel.extern then (if Known(v, rel).Some? then Address(Known(v, rel).value) else 0)
    else Shift(SectionAt(v, rel.index).value) + (if rel.howto.pcRelative then s.vma else 0)
  }

  /** Relocation and addend, less the place for a pc-relative record. */
  function FinalSum(v: View, s: Placed, rel: ExtReloc): int
    requires Sound(v, rel)
  {
    FinalRelocation(v, s, rel) + rel.addend
    - (if rel.howto.pcRelative then Home(s) + (if rel.howto.pcrelOffset then rel.address else 0) else 0)
  }

  /** The word a final link puts into the section. */
  function FinalValue(v: View, s: Placed, rel: ExtReloc): int
    requires Sound(v, rel)
  {
    FinalSum(v, s, rel) % U32
  }

  /** Where a final link puts it. */
  function FinalPlace(s: Placed, rel: ExtReloc): int {
    (Home(s) + rel.address) % U32
  }

  // ---------- when two links agree with one ----------

  /** A section goes to the same final place by way of a relocatable link as directly:
      first is its place in the relocatable output, second the place of that output section in
      the final one, direct its place in a direct link. */
  predicate Consistent(first: Placed, second: Placed, direct: Placed) {
    && direct.vma == first.vma
    && Same(second.vma, first.outVma)
    && Same(Home(direct), Home(second) + first.outOffset)
  }

  function ExternAddress(v: View, rel: ExtReloc): int {
    if Known(v, rel).Some? then Address(Known(v, rel).value) else 0
  }

  /** The section type of a relocation: bits 1 to 4 of its index. */
  predicate IsAgainst(index: nat, t: nat) {
    index / 2 % 16 == t / 2
  }

  /** Each of the three sections, if the record is against it, goes to the same final place either way. */
  predicate SectionConsistent(v1: View, v2: View, direct: View, index: nat) {
    && (IsAgainst(index, N_TEXT) ==> Consistent(v1.text, v2.text, direct.text))
    && (IsAgainst(index, N_DATA) ==> Consistent(v1.data, v2.data, direct.data))
    && (IsAgainst(index, N_BSS) ==> Consistent(v1.bss, v2.bss, direct.bss))
  }

  /** The section of the relocatable output that a definition is in goes with the definition. */
  predicate DefinitionConsistent(first: Placed, v2: View, direct: Placed) {
    match first.out
    case OutText => Consistent(first, v2.text, direct)
    case OutData => Consistent(first, v2.data, direct)
    case OutBss => Consistent(first, v2.bss, direct)
    case OutOther => Consistent(first, ABS_SECTION, direct)
  }

  /** The target of a record goes to the same final place either way. */
  predicate TargetConsistent(v1: View, v2: View, direct: View, rel: ExtReloc, newIndex: nat) {
    if Known(v1, rel).Some? then
      var e := Known(v1, rel).value;
      var d := Known(direct, rel);
      d.Some? && d.value.value == e.value && DefinitionConsistent(e.section, v2, d.value.section)
    else if rel.extern then
      Same(ExternAddress(v2, rel.(index := newIndex)), ExternAddress(direct, rel))
    else
      SectionConsistent(v1, v2, direct, rel.index)
  }

  /** What a section relocation is against, and the type that a definition's section has. */
  lemma SectionsAre(v: View, index: nat)
    ensures IsAgainst(index, N_TEXT) ==> SectionAt(v, index) == Option.Some(v.text)
    ensures IsAgainst(index, N_DATA) ==> SectionAt(v, index) == Option.Some(v.data)
    ensures IsAgainst(index, N_BSS) ==> SectionAt(v, index) == Option.Some(v.bss)
    ensures IsAgainst(index, N_ABS) || IsAgainst(index, N_UNDF) ==> SectionAt(v, index) == Option.Some(ABS_SECTION)
    ensures SectionAt(v, index).Some? ==>
              IsAgainst(index, N_TEXT) || IsAgainst(index, N_DATA) || IsAgainst(index, N_BSS)
              || IsAgainst(index, N_ABS) || IsAgainst(index, N_UNDF)
  {
  }

  lemma TargetsAre(v1: View, v2: View, direct: View, rel: ExtReloc, newIndex: nat)
    requires Sound(v1, rel) && TargetConsistent(v1, v2, direct, rel, newIndex)
    ensures Known(v1, rel).Some? ==>
              var e := Known(v1, rel).value;
              && Known(direct, rel).Some? && SectionAt(v2, SectionIndex(e.section.out)).Some?
              && Consistent(e.section, SectionAt(v2, SectionIndex(e.section.out)).value, Known(direct, rel).value.section)
    ensures !rel.extern ==>
              && SectionAt(v1, rel.index).Some? && SectionAt(v2, rel.index).Some? && SectionAt(direct, rel.index).Some?
              && Consistent(SectionAt(v1, rel.index).value, SectionAt(v2, rel.index).value, SectionAt(direct, rel.index).value)
  {
    hide SectionAt, Consistent, IsAgainst, SectionIndex;
    SectionsAre(v1, rel.index);
    SectionsAre(v2, rel.index);
    SectionsAre(direct, rel.index);
    AbsoluteIsConsistent();
    if Known(v1, rel).Some? {
      var out := Known(v1, rel).value.section.out;
      SectionsAre(v2, SectionIndex(out));
      TypesOfSections(out);
    }
  }

  lemma AbsoluteIsConsistent()
    ensures Consistent(ABS_SECTION, ABS_SECTION, ABS_SECTION)
  {
  }

  lemma TypesOfSections(out: OutSection)
    ensures IsAgainst(SectionIndex(out), match out case OutText => N_TEXT case OutData => N_DATA case OutBss => N_BSS case OutOther => N_ABS)
  {
  }

  /** The records that come through a relocatable link unharmed. */
  predicate Survives(v: View, s: Placed, rel: ExtReloc) {
    if !rel.howto.pcRelative then true
    else if Known(v, rel).Some? then Same(if rel.howto.pcrelOffset then s.outVma else s.vma, 0)
    else if rel.extern then rel.howto.pcrelOffset || Same(s.outVma, s.vma)
    else !rel.howto.pcrelOffset || Same(s.outVma, s.vma)
  }

  lemma RewrittenSound(v1: View, s1: Placed, v2: View, direct: View, rel: ExtReloc, newIndex: nat)
    requires Sound(v1, rel) && TargetConsistent(v1, v2, direct, rel, newIndex)
    ensures Sound(v2, Rewritten(v1, s1, rel, newIndex)) && Sound(direct, rel)
  {
    TargetsAre(v1, v2, direct, rel, newIndex);
    hide SectionAt;
  }

  lemma AddendSame(v: View, s: Placed, rel: ExtReloc, newIndex: nat)
    requires Sound(v, rel)
    ensures var known := Known(v, rel);
            var r := Rewritten(v, s, rel, newIndex);
            && Same(r.addend, rel.addend
                 + (if known.Some? then Address(known.value) else if rel.extern then 0
                    else Shift(SectionAt(v, rel.index).value))
                 - (if rel.howto.pcRelative && !rel.howto.pcrelOffset then Shift(s) else 0))
            && Same(r.address, rel.address + s.outOffset)
  {
  }

  /** How many words two equal words are apart. */
  function Apart(a: int, b: int): (k: int)
    requires Same(a, b)
    ensures a == b + k * U32
  {
    (a - b) / U32
  }

  /** Two sums that differ by x and whole words are equal words iff x is zero. */
  lemma EqualUpTo(a: int, b: int, x: int, k: int)
    requires a == b + x + k * U32
    ensures a % U32 == b % U32 <==> Same(x, 0)
  {
  }

  lemma SameDifference(a: int, b: int, x: int)
    requires x == a - b || x == b - a
    ensures Same(x, 0) <==> Same(a, b)
  {
  }

  /** How far the two ways are apart: nothing for a record that is not pc-relative, else what
      the source section's address in the relocatable output, or in the input, leaves behind. */
  function Drift(v: View, s: Placed, rel: ExtReloc): int {
    if !rel.howto.pcRelative then 0
    else if Known(v, rel).Some? then (if rel.howto.pcrelOffset then s.outVma else s.vma)
    else if rel.extern then (if rel.howto.pcrelOffset then 0 else s.vma - s.outVma)
    else (if rel.howto.pcrelOffset then s.outVma - s.vma else 0)
  }

  lemma DriftDecides(v: View, s: Placed, rel: ExtReloc)
    ensures Same(Drift(v, s, rel), 0) <==> Survives(v, s, rel)
  {
    SameDifference(s.vma, s.outVma, s.vma - s.outVma);
  }

  lemma DriftOfTwoLinks(v1: View, s1: Placed, v2: View, s2: Placed, direct: View, sd: Placed, rel: ExtReloc, newIndex: nat)
    returns (k: int)
    requires Sound(v1, rel) && TargetConsistent(v1, v2, direct, rel, newIndex)
    requires Consistent(s1, s2, sd)
    requires Sound(v2, Rewritten(v1, s1, rel, newIndex)) && Sound(direct, rel)
    ensures FinalSum(v2, s2, Rewritten(v1, s1, rel, newIndex))
         == FinalSum(direct, sd, rel) + Drift(v1, s1, rel) + k * U32
  {
    var r := Rewritten(v1, s1, rel, newIndex);
    AddendSame(v1, s1, rel, newIndex);
    TargetsAre(v1, v2, direct, rel, newIndex);
    hide SectionAt, DefinitionConsistent, SectionConsistent;
    var known := Known(v1, rel);
    var move := if known.Some? then Address(known.value) else if rel.extern then 0 else Shift(SectionAt(v1, rel.index).value);
    var ka := Apart(r.addend, rel.addend + move - (if rel.howto.pcRelative && !rel.howto.pcrelOffset then Shift(s1) else 0));
    var kp := Apart(r.address, rel.address + s1.outOffset);
    var kv := Apart(s2.vma, s1.outVma);
    var kh := Apart(Home(sd), Home(s2) + s1.outOffset);
    var pc := if !rel.howto.pcRelative then 0
              else kh - (if rel.howto.pcrelOffset then kp else 0) + (if rel.extern && known.None? then 0 else kv);
    if known.Some? {
      var e := known.value;
      var second := SectionAt(v2, SectionIndex(e.section.out)).value;
      var d := Known(direct, rel).value;
      k := ka + pc - Apart(second.vma, e.section.outVma) - Apart(Home(d.section), Home(second) + e.section.outOffset);
    } else if rel.extern {
      k := ka + pc + Apart(ExternAddress(v2, rel.(index := newIndex)), ExternAddress(direct, rel));
    } else {
      var t1, t2, td := SectionAt(v1, rel.index).value, SectionAt(v2, rel.index).value, SectionAt(direct, rel.index).value;
      k := ka + pc - Apart(t2.vma, t1.outVma) - Apart(Home(td), Home(t2) + t1.outOffset);
    }
  }

  /** A relocatable link followed by a final link puts the same word at the same place as one
      direct final link, exactly for the records that survive. */
  lemma TwoLinksAreOne(v1: View, s1: Placed, v2: View, s2: Placed, direct: View, sd: Placed, rel: ExtReloc, newIndex: nat)
    requires Sound(v1, rel) && TargetConsistent(v1, v2, direct, rel, newIndex)
    requires Consistent(s1, s2, sd)
    ensures var r := Rewritten(v1, s1, rel, newIndex);
            && Sound(v2, r) && Sound(direct, rel)
            && FinalPlace(s2, r) == FinalPlace(sd, rel)
            && (FinalValue(v2, s2, r) == FinalValue(direct, sd, rel) <==> Survives(v1, s1, rel))
  {
    hide TargetConsistent, SectionAt, Rewritten, FinalSum, Survives, Drift, Known;
    RewrittenSound(v1, s1, v2, direct, rel, newIndex);
    AddendSame(v1, s1, rel, newIndex);
    var r := Rewritten(v1, s1, rel, newIndex);
    var k := DriftOfTwoLinks(v1, s1, v2, s2, direct, sd, rel, newIndex);
    EqualUpTo(FinalSum(v2, s2, r), FinalSum(direct, sd, rel), Drift(v1, s1, rel), k);
    DriftDecides(v1, s1, rel);
    EqualUpTo(Home(s2) + r.address, Home(sd) + rel.address, 0,
              Apart(r.address, rel.address + s1.outOffset) - Apart(Home(sd), Home(s2) + s1.outOffset));
  }

  // ---------- what a record means ----------

  /** The address in the input file that a section record means: a pc-relative one counts from its own section. */
  function InputAddress(s: Placed, rel: ExtReloc): int {
    rel.addend + (if rel.howto.pcRelative then s.vma else 0)
  }

  /** The address that a patched word leads to: with the place added for a pc-relative record. */
  function Reached(s: Placed, rel: ExtReloc, word: int): int {
    word + (if !rel.howto.pcRelative then 0
            else s.outVma + s.outOffset + (if rel.howto.pcrelOffset then rel.address else 0))
  }

  /** x is where address a goes, which the section's own place in the output gives. */
  predicate GoesTo(s: Placed, a: int, x: int) {
    Same(x, s.outVma + s.outOffset + (a - s.vma))
  }

  lemma WordSame(a: int, b: int)
    ensures Same(a % U32 + b, a + b)
  {
    assert a == a / U32 * U32 + a % U32;
  }

  lemma PatchGoesTo(v: View, s: Placed, rel: ExtReloc, t: Placed)
    requires !rel.extern && SectionAt(v, rel.index) == Option.Some(t)
    ensures GoesTo(t, InputAddress(s, rel), Reached(s, rel, FinalValue(v, s, rel)))
  {
    hide SectionAt, Same, Known;
    var sum := FinalSum(v, s, rel);
    WordSame(sum, Reached(s, rel, 0));
    assert Reached(s, rel, sum % U32) == sum % U32 + Reached(s, rel, 0);
    assert sum + Reached(s, rel, 0) == t.outVma + t.outOffset + (InputAddress(s, rel) - t.vma);
  }

  lemma AbsoluteGoesTo(a: int, x: int)
    requires GoesTo(ABS_SECTION, a, x)
    ensures Same(x, a)
  {
  }

  /** What a final link patches for a section record leads to where the address that it means in the input file goes: as
      part of the text, the data or .bss, or unmoved. */
  lemma SectionPatch(v: View, s: Placed, rel: ExtReloc)
    requires Sound(v, rel) && !rel.extern
    ensures var a, x := InputAddress(s, rel), Reached(s, rel, FinalValue(v, s, rel));
            && (IsAgainst(rel.index, N_TEXT) ==> GoesTo(v.text, a, x))
            && (IsAgainst(rel.index, N_DATA) ==> GoesTo(v.data, a, x))
            && (IsAgainst(rel.index, N_BSS) ==> GoesTo(v.bss, a, x))
            && (IsAgainst(rel.index, N_ABS) || IsAgainst(rel.index, N_UNDF) ==> Same(x, a))
  {
    hide SectionAt, IsAgainst, Same, GoesTo, FinalValue, InputAddress, Reached;
    SectionsAre(v, rel.index);
    var t := SectionAt(v, rel.index).value;
    PatchGoesTo(v, s, rel, t);
    if t == ABS_SECTION {
      AbsoluteGoesTo(InputAddress(s, rel), Reached(s, rel, FinalValue(v, s, rel)));
    }
  }

  /** Entry e is the definition that record rel is against. */
  predicate IsDefinedAs(v: View, rel: ExtReloc, e: Entry) {
    && rel.index < |v.hashes| && v.hashes[rel.index].Some? && v.hashes[rel.index].value < |v.table|
    && v.table[v.hashes[rel.index].value] == e && (e.kind == Defined || e.kind == DefWeak)
  }

  /** For a record against a symbol it leads to the symbol's address and the addend; and to the addend alone if the symbol
      is not defined. */
  lemma SymbolPatch(v: View, s: Placed, rel: ExtReloc, e: Entry)
    requires rel.extern
    ensures var x := Reached(s, rel, FinalValue(v, s, rel));
            && (IsDefinedAs(v, rel, e) ==> Same(x, e.section.outVma + e.section.outOffset + e.value + rel.addend))
            && ((forall d :: !IsDefinedAs(v, rel, d)) ==> Same(x, rel.addend))
  {
    hide SectionAt, Same;
    WordSame(FinalSum(v, s, rel), Reached(s, rel, 0));
    if Known(v, rel).Some? {
      assert IsDefinedAs(v, rel, Known(v, rel).value);
    }
  }

  /** How much less a relocatable link adds to the addend of a pc-relative record that does not count its place. */
  function Recoil(s: Placed, rel: ExtReloc): int {
    if rel.howto.pcRelative && !rel.howto.pcrelOffset then s.outVma + s.outOffset - s.vma else 0
  }

  lemma RewrittenGoesTo(v: View, s: Placed, rel: ExtReloc, newIndex: nat, t: Placed)
    requires !rel.extern && SectionAt(v, rel.index) == Option.Some(t)
    ensures var r := Rewritten(v, s, rel, newIndex);
            !r.extern && r.index == rel.index && r.howto == rel.howto && GoesTo(t, rel.addend, r.addend + Recoil(s, rel))
  {
    hide SectionAt, Same;
    AddendSame(v, s, rel, newIndex);
    var r := Rewritten(v, s, rel, newIndex);
    SameMoved(r.addend, rel.addend + Shift(t) - Recoil(s, rel), Recoil(s, rel));
  }

  lemma SameMoved(a: int, b: int, d: int)
    requires Same(a, b)
    ensures Same(a + d, b + d)
  {
    assert (a + d) - (b + d) == a - b;
  }

  /** A relocatable link keeps a section record against its section, and moves its addend as that section moves. */
  lemma SectionRewritten(v: View, s: Placed, rel: ExtReloc, newIndex: nat)
    requires Sound(v, rel) && !rel.extern
    ensures var r := Rewritten(v, s, rel, newIndex);
            && !r.extern && r.index == rel.index && r.howto == rel.howto
            && (IsAgainst(rel.index, N_TEXT) ==> GoesTo(v.text, rel.addend, r.addend + Recoil(s, rel)))
            && (IsAgainst(rel.index, N_DATA) ==> GoesTo(v.data, rel.addend, r.addend + Recoil(s, rel)))
            && (IsAgainst(rel.index, N_BSS) ==> GoesTo(v.bss, rel.addend, r.addend + Recoil(s, rel)))
            && (IsAgainst(rel.index, N_ABS) || IsAgainst(rel.index, N_UNDF) ==> Same(r.addend + Recoil(s, rel), rel.addend))
  {
    hide SectionAt, IsAgainst, Same, GoesTo, Rewritten, Recoil;
    SectionsAre(v, rel.index);
    var t := SectionAt(v, rel.index).value;
    RewrittenGoesTo(v, s, rel, newIndex, t);
    if t == ABS_SECTION {
      AbsoluteGoesTo(rel.addend, Rewritten(v, s, rel, newIndex).addend + Recoil(s, rel));
    }
  }

  /** One against a defined symbol comes to be against the section of the output that has the definition, with the symbol's
      address in its addend; and one against any other symbol stays against it, under its new number. */
  lemma SymbolRewritten(v: View, s: Placed, rel: ExtReloc, newIndex: nat, e: Entry)
    requires rel.extern
    ensures var r := Rewritten(v, s, rel, newIndex);
            && r.howto == rel.howto
            && (IsDefinedAs(v, rel, e) ==>
                  && !r.extern
                  && (e.section.out == OutText ==> r.index == N_TEXT)
                  && (e.section.out == OutData ==> r.index == N_DATA)
                  && (e.section.out == OutBss ==> r.index == N_BSS)
                  && (e.section.out == OutOther ==> r.index == N_ABS)
                  && Same(r.addend + Recoil(s, rel), e.section.outVma + e.section.outOffset + e.value + rel.addend))
            && ((forall d :: !IsDefinedAs(v, rel, d)) ==>
                  r.extern && r.index == newIndex && Same(r.addend + Recoil(s, rel), rel.addend))
  {
    hide SectionAt, Same;
    AddendSame(v, s, rel, newIndex);
    var r := Rewritten(v, s, rel, newIndex);
    if Known(v, rel).Some? {
      assert IsDefinedAs(v, rel, Known(v, rel).value);
      SameMoved(r.addend, rel.addend + Address(Known(v, rel).value) - Recoil(s, rel), Recoil(s, rel));
    } else {
      SameMoved(r.addend, rel.addend - Recoil(s, rel), Recoil(s, rel));
    }
  }

  /** A text section, its place in a relocatable output, the place of that in the final one, and its place in a direct
      link. */
  const TEXT_FIRST: Placed := Placed(0, OutText, 0x1000, 0)
  const TEXT_SECOND: Placed := Placed(0x1000, OutText, 0x2000, 0)
  const TEXT_DIRECT: Placed := Placed(0, OutText, 0x2000, 0)

  function ViewOf(text: Placed): View {
    View([], [], text, text, text)
  }

  /** A pc-relative record against it whose addend does not count its place. */
  const HARMED: ExtReloc := ExtReloc(4, N_TEXT, false, Howto(true, true), 0)

  lemma TextIs(s: Placed)
    ensures SectionAt(ViewOf(s), N_TEXT) == Option.Some(s) && Known(ViewOf(s), HARMED).None?
  {
  }

  lemma HarmedRewritten()
    ensures Rewritten(ViewOf(TEXT_FIRST), TEXT_FIRST, HARMED, 0) == HARMED.(addend := 0x1000)
  {
    hide SectionAt, Known, Address, SectionIndex, ViewOf;
    TextIs(TEXT_FIRST);
    assert 4 % U32 == 4 && 0x1000 % U32 == 0x1000;
  }

  lemma HarmedFinal(s: Placed, rel: ExtReloc)
    requires rel == HARMED.(addend := rel.addend)
    ensures FinalSum(ViewOf(s), s, rel) == rel.addend - 4
  {
    hide SectionAt, Known, Address, ViewOf;
    TextIs(s);
  }

  lemma HarmedDirect()
    ensures Sound(ViewOf(TEXT_DIRECT), HARMED) && FinalValue(ViewOf(TEXT_DIRECT), TEXT_DIRECT, HARMED) == 0xffff_fffc
  {
    hide FinalSum, SectionAt, ViewOf, Known;
    TextIs(TEXT_DIRECT);
    HarmedFinal(TEXT_DIRECT, HARMED);
    assert -4 % U32 == 0xffff_fffc;
  }

  lemma HarmedTwice(r: ExtReloc)
    requires r == HARMED.(addend := 0x1000)
    ensures Sound(ViewOf(TEXT_SECOND), r) && FinalValue(ViewOf(TEXT_SECOND), TEXT_SECOND, r) == 0xffc
  {
    hide FinalSum, SectionAt, ViewOf, Known;
    TextIs(TEXT_SECOND);
    HarmedFinal(TEXT_SECOND, r);
    assert 0xffc % U32 == 0xffc;
  }

  lemma MovesText()
    ensures Consistent(TEXT_FIRST, TEXT_SECOND, TEXT_DIRECT)
  {
  }

  /** Both links put the text section to the same place, yet patch different words. */
  lemma OneIsHarmed() returns (r: ExtReloc)
    ensures r == Rewritten(ViewOf(TEXT_FIRST), TEXT_FIRST, HARMED, 0)
    ensures Consistent(TEXT_FIRST, TEXT_SECOND, TEXT_DIRECT)
    ensures Sound(ViewOf(TEXT_SECOND), r) && Sound(ViewOf(TEXT_DIRECT), HARMED)
    ensures FinalValue(ViewOf(TEXT_SECOND), TEXT_SECOND, r) != FinalValue(ViewOf(TEXT_DIRECT), TEXT_DIRECT, HARMED)
  {
    hide *;
    HarmedRewritten();
    r := HARMED.(addend := 0x1000);
    HarmedTwice(r);
    HarmedDirect();
    MovesText();
  }
}
