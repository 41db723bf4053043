/** Relocation records of a.out files: standard, extended and ns32k ones, written and read in both byte orders. */
module RelocRecords {
  import opened AoutTypes
  import opened ArchiveBytes
  import opened Basics

  const U24: int := 0x100_0000

  datatype Section = Text | Data | Bss | Abs | Und | Com

  /** The symbol of a relocation: its number in the output, its section, and its flags. */
  datatype Symbol = Symbol(index: nat, section: Section, isSection: bool, weak: bool, global: bool)

  /** Section symbols are those of the three sections and the absolute one. */
  predicate SymbolOk(s: Symbol) {
    s.isSection ==> !s.section.Und? && !s.section.Com?
  }

  /** What a record that was read refers to. */
  datatype Ref = ToSymbol(index: nat) | ToSection(section: Section) | ToAbs

  function TargetIndex(s: Section): nat
    requires s.Text? || s.Data? || s.Bss?
  {
    if s.Text? then N_TEXT else if s.Data? then N_DATA else N_BSS
  }

  /** The addresses of the sections. */
  datatype Vmas = Vmas(text: nat, data: nat, bss: nat)

  function VmaOf(v: Vmas, s: Section): nat {
    match s
    case Text => v.text
    case Data => v.data
    case Bss => v.bss
    case _ => 0
  }

  // ---------- fields ----------

  function IndexBytes(big: bool, i: nat): (r: Bytes)
    ensures |r| == 3
  {
    if big then [Low(i / 0x1_0000), Low(i / 0x100), Low(i)] else [Low(i), Low(i / 0x100), Low(i / 0x1_0000)]
  }

  function IndexOf(big: bool, b: Bytes): nat
    requires |b| == 3
  {
    if big then OfBytes(0, b[0], b[1], b[2]) else OfBytes(0, b[2], b[1], b[0])
  }

  lemma IndexReadsBack(big: bool, i: nat)
    ensures IndexOf(big, IndexBytes(big, i)) == i % U24
  {
    assert i / 0x100 == i / 0x1_0000 * 0x100 + i / 0x100 % 0x100;
    assert i == i / 0x100 * 0x100 + i % 0x100;
    assert i / 0x1_0000 == i / U24 * 0x100 + i / 0x1_0000 % 0x100;
    assert i == i / U24 * U24 + i % U24;
  }

  function Bit(on: bool): (r: nat)
    ensures r < 2
  {
    if on then 1 else 0
  }

  /** A single bit of a byte. */
  predicate Has(b: Byte, mask: Byte)
    requires mask > 0
  {
    b / mask % 2 == 1
  }

  // ---------- what MOVE_ADDRESS makes of an index ----------

  function RefRead(extern: bool, index: nat, symcount: nat): Ref {
    if extern then (if index < symcount then ToSymbol(index) else ToAbs)
    else if index == N_TEXT || index == N_TEXT + N_EXT then ToSection(Text)
    else if index == N_DATA || index == N_DATA + N_EXT then ToSection(Data)
    else if index == N_BSS || index == N_BSS + N_EXT then ToSection(Bss)
    else ToAbs
  }

  function AddendRead(ref: Ref, ad: int, v: Vmas): nat {
    (if ref.ToSection? then ad - VmaOf(v, ref.section) else ad) % U64
  }

  // ---------- standard records ----------

  /** The howtos that the table has; the others are empty. */
  predicate StdHowto(t: nat) {
    t <= 10 || t == 16 || t == 32 || t == 40
  }

  lemma HowtosAre(t: nat)
    ensures StdHowto(t) <==> t in [0, 1, 2, 3, 4, 5, 6, 7, 8, 9, 10, 16, 32, 40]
  {
  }

  /** The logarithm of its size, and whether it is relative to the pc. */
  function StdLength(t: nat): nat
    requires StdHowto(t)
    ensures StdLength(t) < 4
  {
    if t < 8 then t % 4 else if t == 9 then 1 else 2
  }

  predicate StdPcRel(t: nat) {
    4 <= t < 8
  }

  /** A bit of the howto's type. */
  predicate TypeBit(t: nat, mask: nat)
    requires mask > 0
  {
    t / mask % 2 == 1
  }

  /** The type byte of a standard record, from the top, in each byte order: pc-relative, length, external, base-relative,
      jump table, relative. */
  function BigType(p: nat, l: nat, e: nat, b: nat, j: nat, r: nat): nat {
    0x80 * p + 0x20 * l + 0x10 * e + 0x08 * b + 0x04 * j + 0x02 * r
  }

  function LittleType(p: nat, l: nat, e: nat, b: nat, j: nat, r: nat): nat {
    0x40 * r + 0x20 * j + 0x10 * b + 0x08 * e + 0x02 * l + p
  }

  lemma BigFields(p: nat, l: nat, e: nat, b: nat, j: nat, r: nat)
    requires p < 2 && l < 4 && e < 2 && b < 2 && j < 2 && r < 2
    ensures var x := BigType(p, l, e, b, j, r);
            && x < 0x100
            && x / 0x80 % 2 == p && x / 0x20 % 4 == l && x / 0x10 % 2 == e
            && x / 0x08 % 2 == b && x / 0x04 % 2 == j && x / 0x02 % 2 == r && x % 2 == 0
  {
    var x := BigType(p, l, e, b, j, r);
    assert x / 0x80 == p;
    assert x / 0x20 == 4 * p + l;
    assert x / 0x10 == 2 * (4 * p + l) + e;
    assert x / 0x08 == 2 * (8 * p + 2 * l + e) + b;
    assert x / 0x04 == 2 * (16 * p + 4 * l + 2 * e + b) + j;
    assert x / 0x02 == 2 * (32 * p + 8 * l + 4 * e + 2 * b + j) + r;
  }

  lemma LittleFields(p: nat, l: nat, e: nat, b: nat, j: nat, r: nat)
    requires p < 2 && l < 4 && e < 2 && b < 2 && j < 2 && r < 2
    ensures var x := LittleType(p, l, e, b, j, r);
            && x < 0x80
            && x / 0x40 % 2 == r && x / 0x20 % 2 == j && x / 0x10 % 2 == b
            && x / 0x08 % 2 == e && x / 0x02 % 4 == l && x / 0x01 % 2 == p
  {
    var x := LittleType(p, l, e, b, j, r);
    assert x / 0x40 == r;
    assert x / 0x20 == 2 * r + j;
    assert x / 0x10 == 2 * (2 * r + j) + b;
    assert x / 0x08 == 2 * (4 * r + 2 * j + b) + e;
    assert x / 0x02 == 4 * (8 * r + 4 * j + 2 * b + e) + l;
    assert x == 2 * (32 * r + 16 * j + 8 * b + 4 * e + l) + p;
  }

  function StdType(big: bool, extern: bool, t: nat): Byte
    requires StdHowto(t)
  {
    var p, l, e, b, j, r :=
      Bit(StdPcRel(t)), StdLength(t), Bit(extern), Bit(TypeBit(t, 8)), Bit(TypeBit(t, 16)), Bit(TypeBit(t, 32));
    BigFields(p, l, e, b, j, r);
    LittleFields(p, l, e, b, j, r);
    if big then BigType(p, l, e, b, j, r) else LittleType(p, l, e, b, j, r)
  }

  /** A record against a symbol, rather than a section. */
  predicate StdExternal(s: Symbol) {
    (s.section.Com? || s.section.Abs? || s.section.Und? || s.weak) && !(s.isSection && s.section.Abs?)
  }

  function StdIndex(s: Symbol): nat
    requires SymbolOk(s)
  {
    if StdExternal(s) then s.index
    else if s.section.Abs? then N_ABS
    else TargetIndex(s.section)
  }

  function StdBytes(big: bool, address: nat, s: Symbol, t: nat): (r: Bytes)
    requires SymbolOk(s) && StdHowto(t)
    ensures |r| == 8
  {
    Put32(big, address % U32) + IndexBytes(big, StdIndex(s)) + [StdType(big, StdExternal(s), t)]
  }

  datatype Reloc = Reloc(address: nat, howto: Option<nat>, ref: Ref, addend: nat)

  function StdIdx(big: bool, b: Byte): nat {
    if big then
      b / 0x20 % 4 + (if Has(b, 0x80) then 4 else 0) + (if Has(b, 0x08) then 8 else 0) + (if Has(b, 0x04) then 16 else 0)
      + (if Has(b, 0x02) then 32 else 0)
    else
      b / 0x02 % 4 + (if Has(b, 0x01) then 4 else 0) + (if Has(b, 0x10) then 8 else 0) + (if Has(b, 0x20) then 16 else 0)
      + (if Has(b, 0x40) then 32 else 0)
  }

  predicate StdBaseRel(big: bool, b: Byte) {
    Has(b, if big then 0x08 else 0x10)
  }

  function StdRead(big: bool, r: Bytes, symcount: nat, v: Vmas): Reloc
    requires |r| == 8
  {
    var b := r[7];
    var extern := Has(b, if big then 0x10 else 0x08) || StdBaseRel(big, b);
    var index := IndexOf(big, r[4..7]);
    var ref := if extern && index >= symcount then RefRead(false, N_ABS, symcount) else RefRead(extern, index, symcount);
    Reloc(Get32(big, r[..4]), if StdHowto(StdIdx(big, b)) then Some(StdIdx(big, b)) else None, ref, AddendRead(ref, 0, v))
  }

  method WriteIndex(big: bool, index: nat, record: array<Byte>)
    requires record.Length >= 8
    modifies record
    ensures record[4..7] == IndexBytes(big, index)
    ensures forall i :: 0 <= i < record.Length && !(4 <= i < 7) ==> record[i] == old(record[i])
  {
    if big {
      record[4], record[5], record[6] := Low(index / 0x1_0000), Low(index / 0x100), Low(index);
    } else {
      record[6], record[5], record[4] := Low(index / 0x1_0000), Low(index / 0x100), Low(index);
    }
  }

  method WriteWord(big: bool, value: nat, record: array<Byte>, at: nat)
    requires at + 4 <= record.Length
    modifies record
    ensures record[at..at + 4] == Put32(big, value % U32)
    ensures forall i :: 0 <= i < record.Length && !(at <= i < at + 4) ==> record[i] == old(record[i])
  {
    var w := Put32(big, value % U32);
    record[at], record[at + 1], record[at + 2], record[at + 3] := w[0], w[1], w[2], w[3];
  }

  lemma RecordIs(r: Bytes, a: Bytes, i: Bytes, t: Byte)
    requires |r| == 8 && |a| == 4 && |i| == 3 && r[0..4] == a && r[4..7] == i && r[7] == t
    ensures r == a + i + [t]
  {
    assert r == r[0..4] + r[4..7] + [r[7]];
  }

  /** swap_std_reloc_out. */
  method SwapStdOut(big: bool, address: nat, s: Symbol, t: nat, record: array<Byte>)
    requires SymbolOk(s) && StdHowto(t) && record.Length == 8
    modifies record
    ensures record[..] == StdBytes(big, address, s, t)
  {
    hide Put32, IndexBytes, StdType, StdHowto;
    WriteWord(big, address, record, 0);
    var extern, index := false, 0;
    if s.section.Com? || s.section.Abs? || s.section.Und? || s.weak {
      if s.isSection && s.section.Abs? {
        index := N_ABS;
      } else {
        extern, index := true, s.index;
      }
    } else {
      index := TargetIndex(s.section);
    }
    WriteIndex(big, index, record);
    record[7] := StdType(big, extern, t);
    RecordIs(record[..], Put32(big, address % U32), IndexBytes(big, index), StdType(big, extern, t));
  }

  lemma StdTypeReadsBack(big: bool, extern: bool, t: nat)
    requires StdHowto(t)
    ensures if big then StdType(big, extern, t) % 2 == 0 else StdType(big, extern, t) < 0x80
    ensures Has(StdType(big, extern, t), if big then 0x10 else 0x08) <==> extern
    ensures StdBaseRel(big, StdType(big, extern, t)) <==> TypeBit(t, 8)
    ensures StdIdx(big, StdType(big, extern, t))
         == StdLength(t) + 4 * Bit(StdPcRel(t)) + 8 * Bit(TypeBit(t, 8)) + 16 * Bit(TypeBit(t, 16)) + 32 * Bit(TypeBit(t, 32))
  {
    hide StdPcRel, TypeBit, StdLength, BigType, LittleType, StdHowto;
    var p, l, e, b, j, r :=
      Bit(StdPcRel(t)), StdLength(t), Bit(extern), Bit(TypeBit(t, 8)), Bit(TypeBit(t, 16)), Bit(TypeBit(t, 32));
    BigFields(p, l, e, b, j, r);
    LittleFields(p, l, e, b, j, r);
  }

  lemma StdFields(big: bool, address: nat, s: Symbol, t: nat)
    requires SymbolOk(s) && StdHowto(t) && StdIndex(s) < U24
    ensures var r := StdBytes(big, address, s, t);
            && Get32(big, r[..4]) == address % U32
            && IndexOf(big, r[4..7]) == StdIndex(s)
            && r[7] == StdType(big, StdExternal(s), t)
  {
    hide Put32, Get32, IndexBytes, IndexOf, StdType, StdHowto, StdExternal;
    var r := StdBytes(big, address, s, t);
    assert r[..4] == Put32(big, address % U32) && r[4..7] == IndexBytes(big, StdIndex(s));
    WordsReadBack(big, address % U32);
    IndexReadsBack(big, StdIndex(s));
  }

  /** What a standard record says its relocation is against. */
  function StdRef(s: Symbol): Ref
    requires SymbolOk(s)
  {
    if StdExternal(s) then ToSymbol(s.index) else if s.section.Abs? then ToAbs else ToSection(s.section)
  }

  /** Base-relative howtos, whose records are always read as external. */
  predicate BaseRel(t: nat) {
    8 <= t <= 10 || t == 40
  }

  lemma BaseRelIsBit(t: nat)
    requires StdHowto(t)
    ensures BaseRel(t) <==> TypeBit(t, 8)
  {
  }

  lemma StdIdxIs(t: nat)
    requires StdHowto(t)
    ensures var i := StdLength(t) + 4 * Bit(StdPcRel(t)) + 8 * Bit(TypeBit(t, 8)) + 16 * Bit(TypeBit(t, 16))
                     + 32 * Bit(TypeBit(t, 32));
            (if StdHowto(i) then Some(i) else None) == Some(t) <==> t <= 10 && t != 8
  {
  }

  /** The round trip of a standard record: the address comes back; so does the howto, exactly for the first eleven without
      number 8; and so does what it is against, exactly if a symbol's number is known to the reader, and a section
      or the absolute section is not taken for a symbol because the howto is base-relative. */
  lemma StdRoundTrip(big: bool, address: nat, s: Symbol, t: nat, symcount: nat, v: Vmas)
    requires SymbolOk(s) && StdHowto(t) && StdIndex(s) < U24 && address < U32
    ensures StdRead(big, StdBytes(big, address, s, t), symcount, v).address == address
    ensures StdRead(big, StdBytes(big, address, s, t), symcount, v).howto == Some(t) <==> t <= 10 && t != 8
    ensures StdRead(big, StdBytes(big, address, s, t), symcount, v).ref == StdRef(s)
       <==> if StdExternal(s) then s.index < symcount else !BaseRel(t) || (s.section.Abs? && symcount <= N_ABS)
  {
    hide Get32, IndexOf, StdType, StdHowto, StdIdx, StdBaseRel, StdLength, StdPcRel, TypeBit, BaseRel, Has,
         StdBytes, AddendRead, Bit;
    StdFields(big, address, s, t);
    StdTypeReadsBack(big, StdExternal(s), t);
    StdIdxIs(t);
    BaseRelIsBit(t);
  }

  /** What a record read back says, by the symbol's flags: an undefined, common, weak or absolute symbol is itself, and any
      other, and a section symbol that is not weak, its section, with the section's address taken off. */
  predicate RefersBy(s: Symbol, r: Reloc, v: Vmas) {
    && (s.section.Und? || s.section.Com? ==> r.ref == ToSymbol(s.index) && r.addend == 0)
    && (s.section.Abs? && !s.isSection ==> r.ref == ToSymbol(s.index) && r.addend == 0)
    && (s.section.Abs? && s.isSection ==> r.ref == ToAbs && r.addend == 0)
    && (s.weak && !s.section.Abs? ==> r.ref == ToSymbol(s.index) && r.addend == 0)
    && (s.section.Text? && !s.weak ==> r.ref == ToSection(Text) && (r.addend + v.text) % U64 == 0)
    && (s.section.Data? && !s.weak ==> r.ref == ToSection(Data) && (r.addend + v.data) % U64 == 0)
    && (s.section.Bss? && !s.weak ==> r.ref == ToSection(Bss) && (r.addend + v.bss) % U64 == 0)
  }

  lemma RefIsBy(s: Symbol, r: Reloc, v: Vmas)
    requires SymbolOk(s) && r.ref == StdRef(s) && r.addend == AddendRead(r.ref, 0, v)
    ensures RefersBy(s, r, v)
  {
  }

  /** So a standard record refers to what the symbol's flags say. */
  lemma StdRefers(big: bool, address: nat, s: Symbol, t: nat, symcount: nat, v: Vmas)
    requires SymbolOk(s) && StdHowto(t) && StdIndex(s) < U24 && address < U32 && !BaseRel(t) && s.index < symcount
    ensures RefersBy(s, StdRead(big, StdBytes(big, address, s, t), symcount, v), v)
  {
    hide StdBytes, StdHowto, StdRead, StdIndex, BaseRel, RefersBy, AddendRead;
    StdRoundTrip(big, address, s, t, symcount, v);
    StdAddendRead(big, StdBytes(big, address, s, t), symcount, v);
    RefIsBy(s, StdRead(big, StdBytes(big, address, s, t), symcount, v), v);
  }

  lemma StdAddendRead(big: bool, r: Bytes, symcount: nat, v: Vmas)
    requires |r| == 8
    ensures StdRead(big, r, symcount, v).addend == AddendRead(StdRead(big, r, symcount, v).ref, 0, v)
  {
    hide Get32, IndexOf, StdIdx, StdHowto, StdBaseRel, Has, AddendRead, RefRead;
  }

  /** A GOT-relative howto reads back as a 32-bit base-relative one, and one for a jump table as none at all. */
  lemma StdMisreads(big: bool)
    ensures StdIdx(big, StdType(big, true, 8)) == 10
    ensures StdIdx(big, StdType(big, true, 16)) == 18 && !StdHowto(18)
  {
    hide StdType, StdIdx;
    StdTypeReadsBack(big, true, 8);
    StdTypeReadsBack(big, true, 16);
  }

  // ---------- extended records ----------

  const EXT_HOWTOS: nat := 27

  /** The type of a row of the table; two rows are placeholders of type 0. */
  function ExtType(row: nat): (t: nat)
    requires row < EXT_HOWTOS
    ensures t < 32
  {
    if row == 24 || row == 25 then 0 else row
  }

  /** Types that are always read as external. */
  predicate ExtBase(t: nat) {
    14 <= t <= 16
  }

  function ExtTypeByte(big: bool, extern: bool, t: nat): Byte
    requires t < 32
  {
    if big then 0x80 * Bit(extern) + t else 0x08 * t + Bit(extern)
  }

  predicate ExtExternal(s: Symbol) {
    !s.section.Abs? && !s.isSection && (s.section.Und? || s.global)
  }

  function ExtIndex(s: Symbol): nat
    requires SymbolOk(s)
  {
    if s.section.Abs? then N_ABS else if !s.isSection then s.index else TargetIndex(s.section)
  }

  /** The addend as it is written: relative to the section's address for a section symbol. */
  function ExtAddend(s: Symbol, addend: nat, v: Vmas): (r: nat)
    ensures r < U64
  {
    (addend + (if s.isSection then VmaOf(v, s.section) else 0)) % U64
  }

  function ExtBytes(big: bool, address: nat, s: Symbol, row: nat, addend: nat, v: Vmas): (r: Bytes)
    requires SymbolOk(s) && row < EXT_HOWTOS
    ensures |r| == 12
  {
    Put32(big, address % U32) + IndexBytes(big, ExtIndex(s)) + [ExtTypeByte(big, ExtExternal(s), ExtType(row))]
    + Put32(big, ExtAddend(s, addend, v) % U32)
  }

  /** A 32-bit word as a signed number, in a 64-bit word. */
  function SignExtend(w: nat): (r: nat)
    requires w < U32
    ensures r < U64
  {
    if w < I32 then w else U64 - (U32 - w)
  }

  /** 64-bit words that are the sign extension of their lower half. */
  predicate FitsSigned(x: nat) {
    x < I32 || U64 - I32 <= x < U64
  }

  function ExtRead(big: bool, r: Bytes, symcount: nat, v: Vmas): Reloc
    requires |r| == 12
  {
    var index := IndexOf(big, r[4..7]);
    var t := if big then r[7] % 0x20 else r[7] / 0x08;
    var extern := Has(r[7], if big then 0x80 else 0x01) || ExtBase(t);
    var ref := if extern && index > symcount then RefRead(false, N_ABS, symcount) else RefRead(extern, index, symcount);
    Reloc(SignExtend(Get32(big, r[..4])), if t < EXT_HOWTOS then Some(t) else None, ref,
          AddendRead(ref, SignExtend(Get32(big, r[8..])), v))
  }

  lemma ExtRecordIs(r: Bytes, a: Bytes, i: Bytes, t: Byte, d: Bytes)
    requires |r| == 12 && |a| == 4 && |i| == 3 && |d| == 4
    requires r[0..4] == a && r[4..7] == i && r[7] == t && r[8..12] == d
    ensures r == a + i + [t] + d
  {
    assert r == r[0..4] + r[4..7] + [r[7]] + r[8..12];
  }

  /** swap_ext_reloc_out. */
  method SwapExtOut(big: bool, address: nat, s: Symbol, row: nat, addend: nat, v: Vmas, record: array<Byte>)
    requires SymbolOk(s) && row < EXT_HOWTOS && record.Length == 12
    modifies record
    ensures record[..] == ExtBytes(big, address, s, row, addend, v)
  {
    hide Put32, IndexBytes, ExtTypeByte, ExtType, VmaOf;
    WriteWord(big, address, record, 0);
    var written := addend;
    if s.isSection {
      written := written + VmaOf(v, s.section);
    }
    written := written % U64;
    var extern, index := false, N_ABS;
    if !s.section.Abs? {
      if !s.isSection {
        extern, index := s.section.Und? || s.global, s.index;
      } else {
        index := TargetIndex(s.section);
      }
    }
    WriteIndex(big, index, record);
    record[7] := ExtTypeByte(big, extern, ExtType(row));
    WriteWord(big, written, record, 8);
    ExtRecordIs(record[..], Put32(big, address % U32), IndexBytes(big, index), ExtTypeByte(big, extern, ExtType(row)),
                Put32(big, written % U32));
  }

  lemma ExtTypeReadsBack(big: bool, extern: bool, t: nat)
    requires t < 32
    ensures var b := ExtTypeByte(big, extern, t);
            (if big then b % 0x20 else b / 0x08) == t && (Has(b, if big then 0x80 else 0x01) <==> extern)
  {
    var b := ExtTypeByte(big, extern, t);
    if big {
      assert b / 0x80 == Bit(extern);
    } else {
      assert b == 2 * (4 * t) + Bit(extern);
    }
  }

  lemma ExtFields(big: bool, address: nat, s: Symbol, row: nat, addend: nat, v: Vmas)
    requires SymbolOk(s) && row < EXT_HOWTOS && ExtIndex(s) < U24
    ensures var r := ExtBytes(big, address, s, row, addend, v);
            && Get32(big, r[..4]) == address % U32
            && IndexOf(big, r[4..7]) == ExtIndex(s)
            && r[7] == ExtTypeByte(big, ExtExternal(s), ExtType(row))
            && Get32(big, r[8..]) == ExtAddend(s, addend, v) % U32
  {
    hide Put32, Get32, IndexBytes, IndexOf, ExtTypeByte, ExtType, ExtAddend, ExtExternal;
    var r := ExtBytes(big, address, s, row, addend, v);
    assert r[..4] == Put32(big, address % U32) && r[4..7] == IndexBytes(big, ExtIndex(s));
    assert r[8..] == Put32(big, ExtAddend(s, addend, v) % U32);
    WordsReadBack(big, address % U32);
    WordsReadBack(big, ExtAddend(s, addend, v) % U32);
    IndexReadsBack(big, ExtIndex(s));
  }

  /** Extending the lower half of a word gives the word back exactly if it fits. */
  lemma SignExtends(x: nat)
    requires x < U64
    ensures SignExtend(x % U32) == x <==> FitsSigned(x)
  {
    assert x == x / U32 * U32 + x % U32;
  }

  /** What an extended record says its relocation is against. */
  function ExtRef(s: Symbol): Ref
    requires SymbolOk(s)
  {
    if s.section.Abs? then ToAbs else if s.isSection then ToSection(s.section) else ToSymbol(s.index)
  }

  /** When the reader finds it. */
  predicate ExtRefKept(s: Symbol, t: nat, symcount: nat) {
    if s.section.Abs? then !ExtBase(t) || symcount <= N_ABS
    else if s.isSection then !ExtBase(t)
    else (s.section.Und? || s.global || ExtBase(t)) && s.index < symcount
  }

  predicate VmasOk(v: Vmas) {
    v.text < U64 && v.data < U64 && v.bss < U64
  }

  /** Taking off the address that was added. */
  lemma ShiftBack(x: nat, addend: nat, vma: nat, y: nat)
    requires addend < U64 && vma < U64 && x == (addend + vma) % U64 && y < U64
    ensures (y - vma) % U64 == addend <==> y == x
  {
    assert (addend + vma) % U64 == if addend + vma < U64 then addend + vma else addend + vma - U64;
    assert (y - vma) % U64 == if y >= vma then y - vma else y - vma + U64;
  }

  /** The round trip of an extended record, with its addend: every howto but the two placeholders comes back; the address
      and, for the same reference, the addend do exactly if they are sign extensions of 32 bits as they are
      written. */
  lemma ExtRoundTrip(big: bool, address: nat, s: Symbol, row: nat, addend: nat, v: Vmas, symcount: nat)
    requires SymbolOk(s) && row < EXT_HOWTOS && ExtIndex(s) < U24 && address < U64 && addend < U64 && VmasOk(v)
    ensures ExtRead(big, ExtBytes(big, address, s, row, addend, v), symcount, v).address == address <==> FitsSigned(address)
    ensures ExtRead(big, ExtBytes(big, address, s, row, addend, v), symcount, v).howto == Some(row) <==> row != 24 && row != 25
    ensures ExtRead(big, ExtBytes(big, address, s, row, addend, v), symcount, v).ref == ExtRef(s)
       <==> ExtRefKept(s, ExtType(row), symcount)
    ensures ExtRefKept(s, ExtType(row), symcount) ==>
              (ExtRead(big, ExtBytes(big, address, s, row, addend, v), symcount, v).addend == addend
               <==> FitsSigned(ExtAddend(s, addend, v)))
  {
    hide Get32, IndexOf, ExtTypeByte, ExtBytes, SignExtend, FitsSigned, Has, ExtBase;
    ExtFields(big, address, s, row, addend, v);
    ExtTypeReadsBack(big, ExtExternal(s), ExtType(row));
    SignExtends(address);
    AddressLow(address);
    SignExtends(ExtAddend(s, addend, v));
    var y := SignExtend(ExtAddend(s, addend, v) % U32);
    ShiftBack(ExtAddend(s, addend, v), addend, if s.isSection then VmaOf(v, s.section) else 0, y);
    ShiftBack(y, y, 0, y);
  }

  /** So, by the symbol's flags: an undefined or global symbol is read as itself, an absolute one as the absolute section,
      and a section symbol as its section. */
  lemma ExtRefers(big: bool, address: nat, s: Symbol, row: nat, addend: nat, v: Vmas, symcount: nat)
    requires SymbolOk(s) && row < EXT_HOWTOS && ExtIndex(s) < U24 && address < U64 && addend < U64 && VmasOk(v)
    requires ExtType(row) < 14 || ExtType(row) > 16
    ensures var r := ExtRead(big, ExtBytes(big, address, s, row, addend, v), symcount, v);
            && (s.section.Abs? ==> r.ref == ToAbs)
            && (!s.section.Abs? && !s.isSection && (s.section.Und? || s.global) && s.index < symcount ==>
                  r.ref == ToSymbol(s.index))
            && (s.isSection && s.section.Text? ==> r.ref == ToSection(Text))
            && (s.isSection && s.section.Data? ==> r.ref == ToSection(Data))
            && (s.isSection && s.section.Bss? ==> r.ref == ToSection(Bss))
  {
    hide ExtBytes, ExtRead, ExtIndex, ExtType, FitsSigned, ExtAddend;
    ExtRoundTrip(big, address, s, row, addend, v, symcount);
  }

  /** The first placeholder reads back as the howto of type 0; an address of 2 GB as one at the end of the address space. */
  lemma ExtMisreads(big: bool, s: Symbol, v: Vmas)
    requires SymbolOk(s) && ExtIndex(s) < U24 && VmasOk(v)
    ensures ExtRead(big, ExtBytes(big, I32, s, 24, 0, v), 0, v).howto == Some(0)
    ensures ExtRead(big, ExtBytes(big, I32, s, 24, 0, v), 0, v).address == U64 - I32
  {
    hide Get32, IndexOf, ExtTypeByte, ExtBytes, Has, ExtBase, AddendRead, RefRead;
    ExtFields(big, I32, s, 24, 0, v);
    ExtTypeReadsBack(big, ExtExternal(s), ExtType(24));
  }

  lemma AddressLow(address: nat)
    ensures address % U32 < U32
  {
  }

  // ---------- ns32k records ----------

  const NS32K_HOWTOS: nat := 18

  /** A howto of the ns32k table, by its number: sizes 1, 2 and 4, not relative to the pc and relative to it, in each of
      three storage methods. */
  function Ns32kLength(h: nat): nat {
    h % 3
  }

  predicate Ns32kPcRel(h: nat) {
    h / 3 % 2 == 1
  }

  function Ns32kType(h: nat): nat {
    h / 6
  }

  function Ns32kByte(extern: bool, h: nat): Byte
    requires h < NS32K_HOWTOS
  {
    0x08 * Bit(extern) + Bit(Ns32kPcRel(h)) + 0x02 * Ns32kLength(h) + 0x20 * Ns32kType(h)
  }

  function Ns32kBytes(value: nat, extern: bool, index: nat, h: nat): (r: Bytes)
    requires h < NS32K_HOWTOS
    ensures |r| == 8
  {
    Put32(false, value % U32) + IndexBytes(false, index) + [Ns32kByte(extern, h)]
  }

  /** MY (put_reloc). */
  method PutReloc(extern: bool, index: nat, value: nat, h: nat, record: array<Byte>)
    requires h < NS32K_HOWTOS && record.Length == 8
    modifies record
    ensures record[..] == Ns32kBytes(value, extern, index, h)
  {
    hide Put32, IndexBytes, Ns32kByte;
    WriteWord(false, value, record, 0);
    WriteIndex(false, index, record);
    record[7] := Ns32kByte(extern, h);
    RecordIs(record[..], Put32(false, value % U32), IndexBytes(false, index), Ns32kByte(extern, h));
  }

  /** MY (reloc_howto): the howto, if there is one, and the index, external bit and pc-relative bit. */
  function Ns32kRead(r: Bytes): (Option<nat>, nat, bool, bool)
    requires |r| == 8
  {
    var length, kind, pcrel := r[7] / 0x02 % 4, r[7] / 0x20 % 4, Has(r[7], 0x01);
    (if length > 2 || kind > 2 then None else Some(length + 3 * Bit(pcrel) + 6 * kind),
     IndexOf(false, r[4..7]), Has(r[7], 0x08), pcrel)
  }

  lemma Ns32kByteReadsBack(extern: bool, h: nat)
    requires h < NS32K_HOWTOS
    ensures var b := Ns32kByte(extern, h);
            && b / 0x02 % 4 == Ns32kLength(h) && b / 0x20 % 4 == Ns32kType(h)
            && (Has(b, 0x01) <==> Ns32kPcRel(h)) && (Has(b, 0x08) <==> extern)
  {
    hide Ns32kLength, Ns32kPcRel, Ns32kType;
    assert Ns32kLength(h) < 3 && Ns32kType(h) < 3 by { Ns32kSmall(h); }
    var b, e, p, l, t := Ns32kByte(extern, h), Bit(extern), Bit(Ns32kPcRel(h)), Ns32kLength(h), Ns32kType(h);
    assert b / 0x20 == t;
    assert b / 0x08 == 2 * (2 * t) + e;
    assert b / 0x02 == 4 * (4 * t + e) + l;
    assert b == 2 * (16 * t + 4 * e + l) + p;
  }

  lemma Ns32kSmall(h: nat)
    requires h < NS32K_HOWTOS
    ensures Ns32kLength(h) < 3 && Ns32kType(h) < 3
    ensures Ns32kLength(h) + 3 * Bit(Ns32kPcRel(h)) + 6 * Ns32kType(h) == h
  {
  }

  /** The round trip of an ns32k record: all its howtos, for any index of 24 bits, external or not. */
  lemma Ns32kRoundTrip(value: nat, extern: bool, index: nat, h: nat)
    requires h < NS32K_HOWTOS
    ensures Ns32kRead(Ns32kBytes(value, extern, index, h)) == (Some(h), index % U24, extern, Ns32kPcRel(h))
    ensures Get32(false, Ns32kBytes(value, extern, index, h)[..4]) == value % U32
  {
    hide Put32, Get32, IndexBytes, IndexOf, Ns32kByte, Ns32kLength, Ns32kPcRel, Ns32kType, Has;
    var r := Ns32kBytes(value, extern, index, h);
    assert r[..4] == Put32(false, value % U32) && r[4..7] == IndexBytes(false, index) && r[7] == Ns32kByte(extern, h);
    WordsReadBack(false, value % U32);
    IndexReadsBack(false, index);
    Ns32kByteReadsBack(extern, h);
    Ns32kSmall(h);
  }
}
