/** The layout of an a.out file: how the three kinds of executables pad their sections, and where they put them. */
module AoutLayout {
  import opened Alignment
  import opened Basics

  // ---------- arithmetic in 64-bit words ----------

  function Minus(x: Word, y: Word): Word {
    (x - y) % U64
  }

  lemma MinusIs(x: Word, y: Word)
    ensures Minus(x, y) == if x >= y then x - y else x - y + U64
  {
  }

  function Pow2(k: nat): (r: nat)
    ensures r >= 1
  {
    if k == 0 then 1 else 2 * Pow2(k - 1)
  }

  /** x without its bits below p, a power of two. */
  function Masked(x: Word, p: nat): Word
    requires p > 0
  {
    x - x % p
  }

  /** align_power. */
  function AlignPower(x: Word, k: nat): Word {
    Masked((x + Pow2(k) - 1) % U64, Pow2(k))
  }

  /** BFD_ALIGN: at the end of the address space it gives the last word instead of wrapping around. */
  function BfdAlign(x: Word, p: nat): Word
    requires 0 < p < U64
  {
    if Plus(x, p - 1) >= x then Masked(Plus(x, p - 1), p) else U64 - 1
  }

  lemma {:induction false} Pow2Sum(a: nat, b: nat)
    ensures Pow2(a) * Pow2(b) == Pow2(a + b)
  {
    if a == 0 {
    } else {
      Pow2Sum(a - 1, b);
      assert Pow2(a) * Pow2(b) == 2 * (Pow2(a - 1) * Pow2(b));
    }
  }

  lemma Pow2Of64()
    ensures Pow2(64) == U64
  {
    assert Pow2(8) == 0x100;
    Pow2Sum(8, 8);
    Pow2Sum(16, 16);
    Pow2Sum(32, 32);
  }

  /** A power of two divides the size of the address space. */
  lemma PageDivides(k: nat)
    requires k <= 64
    ensures U64 % Pow2(k) == 0 && Pow2(k) <= U64
  {
    Pow2Of64();
    Pow2Sum(k, 64 - k);
    MultipleIsAligned(Pow2(64 - k), Pow2(k));
    if k < 64 {
      ScaledOrder(Pow2(k), 0, Pow2(64 - k));
    }
  }

  /** Rounding down after adding p - 1 is rounding up. */
  lemma RoundsUp(x: nat, p: nat)
    requires p > 0
    ensures (x + p - 1) - (x + p - 1) % p == Ceiling(x, p)
  {
    var q, r := x / p, x % p;
    assert x == p * q + r;
    if r == 0 {
      QuotientIs(x + p - 1, p, q, p - 1);
    } else {
      assert x + p - 1 == p * (q + 1) + (r - 1);
      QuotientIs(x + p - 1, p, q + 1, r - 1);
    }
  }

  /** The next multiple fits a word exactly if the sum that is rounded down does. */
  lemma CeilingFits(x: Word, k: nat)
    requires k <= 64
    ensures Ceiling(x, Pow2(k)) < U64 <==> x + Pow2(k) - 1 < U64
  {
    PageDivides(k);
    CeilingIsLeast(x, Pow2(k), U64);
    RoundsUp(x, Pow2(k));
    if x + Pow2(k) - 1 >= U64 {
      RoundsUp(x, Pow2(k));
      if Ceiling(x, Pow2(k)) < U64 {
        BelowNext(Ceiling(x, Pow2(k)), U64, Pow2(k));
      }
    }
  }

  /** Different multiples are at least p apart. */
  lemma BelowNext(x: nat, y: nat, p: nat)
    requires p > 0 && x < y && Aligned(x, p) && Aligned(y, p)
    ensures x + p <= y
  {
    if p > 1 {
      assert x == p * (x / p) && y == p * (y / p);
      if x / p < y / p {
        ScaledOrder(p, x / p, y / p);
      } else if y / p < x / p {
        ScaledOrder(p, y / p, x / p);
      }
    }
  }

  /** align_power gives the least multiple, or 0 if that does not fit a word. */
  lemma AlignPowerIs(x: Word, k: nat)
    requires k < 64
    ensures AlignPower(x, k) == if Ceiling(x, Pow2(k)) < U64 then Ceiling(x, Pow2(k)) else 0
  {
    CeilingFits(x, k);
    RoundsUp(x, Pow2(k));
    PageDivides(k);
    var sum := x + Pow2(k) - 1;
    if sum >= U64 {
      WrapsSmall(sum, Pow2(k));
    }
  }

  lemma WrapsSmall(sum: nat, p: nat)
    requires U64 <= sum < U64 + p - 1 && 0 < p <= U64
    ensures sum % U64 == sum - U64 < p && (sum % U64) % p == sum % U64
  {
    QuotientIs(sum, U64, 1, sum - U64);
    QuotientIs(sum - U64, p, 0, sum - U64);
  }

  /** BFD_ALIGN gives the least multiple, or the last word if that does not fit. */
  lemma BfdAlignIs(x: Word, k: nat)
    requires k < 64 && Pow2(k) < U64
    ensures BfdAlign(x, Pow2(k)) == if Ceiling(x, Pow2(k)) < U64 then Ceiling(x, Pow2(k)) else U64 - 1
  {
    hide Plus, Ceiling, Pow2;
    CeilingFits(x, k);
    RoundsUp(x, Pow2(k));
    PlusIs(x, Pow2(k) - 1);
  }

  // ---------- the three layouts ----------

  datatype Magic = OMagic | NMagic | ZMagic | QMagic

  /** Sizes and flags of the target: all sizes of pages and segments are powers of two. */
  datatype Target = Target(execBytes: Word, page: nat, segment: nat, diskBlock: Word, includesHeader: bool,
                           defaultTextVma: Word, contiguous: bool, headerNotCounted: bool, qmagic: bool, hasReloc: bool)

  predicate TargetOk(t: Target) {
    && 0 < t.page < U64 && 0 < t.segment < U64
  }

  class Section {
    var size: Word
    var power: nat
    var userSetVma: bool
    var vma: Word
    var filepos: Word

    constructor (size: Word, power: nat, userSetVma: bool, vma: Word)
    {
      this.size, this.power, this.userSetVma, this.vma, this.filepos := size, power, userSetVma, vma, 0;
    }
  }

  class Exec {
    var text: Word
    var data: Word
    var bss: Word
    var magic: Magic

    constructor (text: Word)
    {
      this.text, this.data, this.bss, this.magic := text, 0, 0, OMagic;
    }
  }

  /** A section as the layout finds it. */
  datatype Given = Given(size: Word, power: nat, user: bool, vma: Word)

  function GivenOf(s: Section): Given
    reads s
  {
    Given(s.size, s.power, s.userSetVma, s.vma)
  }

  /** What a layout sets: addresses and file positions of the sections, and the sizes in the header. */
  datatype Layout = Layout(textPos: Word, textVma: Word, dataPos: Word, dataVma: Word, bssPos: Word, bssVma: Word,
                           text: Word, data: Word, bss: Word, magic: Magic)

  function LayoutOf(text: Section, data: Section, bss: Section, e: Exec): Layout
    reads text, data, bss, e
  {
    Layout(text.filepos, text.vma, data.filepos, data.vma, bss.filepos, bss.vma, e.text, e.data, e.bss, e.magic)
  }

  /** The cast of a word to int. */
  function ToInt(x: Word): (r: int)
    ensures -I32 <= r < I32
  {
    if x % U32 < I32 then x % U32 else x % U32 - U32
  }

  /** The padding before a .bss whose address the user set. */
  function BssPad(dataEnd: Word, bss: Given): Word {
    if bss.user && ToInt(Minus(bss.vma, dataEnd)) > 0 then ToInt(Minus(bss.vma, dataEnd)) else 0
  }

  function OLayout(t: Target, text: Given, data: Given, bss: Given, aText: Word): Layout {
    var textVma := if text.user then text.vma else 0;
    var dataVma := if data.user then data.vma else Plus(textVma, aText);
    var dataPos := Plus(t.execBytes, aText);
    var dataEnd := Plus(dataVma, data.size);
    var pad := BssPad(dataEnd, bss);
    Layout(t.execBytes, textVma, dataPos, dataVma, Plus(Plus(dataPos, data.size), pad), if bss.user then bss.vma else dataEnd,
           aText, Plus(data.size, pad), bss.size, OMagic)
  }

  /** The file position of .bss is not set. */
  function NLayout(t: Target, text: Given, data: Given, bss: Given, aText: Word, bssPos: Word): Layout
    requires TargetOk(t)
  {
    var textVma := if text.user then text.vma else 0;
    var dataVma := if data.user then data.vma else BfdAlign(Plus(textVma, aText), t.segment);
    var dataEnd := Plus(dataVma, data.size);
    var pad := ToInt(Minus(AlignPower(dataEnd, bss.power), dataEnd)) % U64;
    Layout(t.execBytes, textVma, Plus(t.execBytes, aText), dataVma, bssPos, if bss.user then bss.vma else dataEnd,
           aText, Plus(data.size, pad), bss.size, NMagic)
  }

  /** The text includes the header. */
  predicate HeaderInText(t: Target) {
    t.includesHeader || t.qmagic
  }

  function ZTextVma(t: Target, text: Given): Word {
    if text.user then text.vma
    else if t.hasReloc then 0
    else if HeaderInText(t) then Plus(t.defaultTextVma, t.execBytes)
    else t.defaultTextVma
  }

  function ZTextPos(t: Target): Word {
    if HeaderInText(t) then t.execBytes else t.diskBlock
  }

  /** The padding for an unusual address of the text, and the padding up to a page. */
  function ZTextPad(t: Target, text: Given, aText: Word): Word
    requires TargetOk(t)
  {
    var unusual := if text.user then Minus(if HeaderInText(t) then ZTextPos(t) else 0, text.vma) % t.page else 0;
    var end := if HeaderInText(t) then Plus(ZTextPos(t), aText) else aText;
    Plus(unusual, Minus(BfdAlign(end, t.page), end))
  }

  /** The padded text. */
  function ZText(t: Target, text: Given, aText: Word): Word
    requires TargetOk(t)
  {
    Plus(aText, ZTextPad(t, text, aText))
  }

  function ZDataVma(t: Target, text: Given, data: Given, aText: Word): Word
    requires TargetOk(t)
  {
    if data.user then data.vma else BfdAlign(Plus(ZTextVma(t, text), ZText(t, text, aText)), t.segment)
  }

  /** The text that is mapped: padded up to the data if it has to be contiguous. */
  function ZMapped(t: Target, text: Given, data: Given, aText: Word): Word
    requires TargetOk(t)
  {
    var padded := ZText(t, text, aText);
    if t.contiguous then Plus(padded, Minus(ZDataVma(t, text, data, aText), Plus(ZTextVma(t, text), padded))) else padded
  }

  function ZData(t: Target, data: Given, bss: Given): Word
    requires TargetOk(t)
  {
    BfdAlign(AlignPower(data.size, bss.power), t.page)
  }

  /** What the header says of .bss: less by the padding of the data, if it follows it. */
  function ZBss(t: Target, data: Given, bss: Given, dataVma: Word, bssVma: Word): Word
    requires TargetOk(t)
  {
    var pad := Minus(ZData(t, data, bss), data.size);
    if AlignPower(bssVma, bss.power) == Plus(dataVma, ZData(t, data, bss)) then (if pad > bss.size then 0 else bss.size - pad)
    else bss.size
  }

  function ZLayout(t: Target, text: Given, data: Given, bss: Given, aText: Word, bssPos: Word): Layout
    requires TargetOk(t)
  {
    var mapped, dataVma := ZMapped(t, text, data, aText), ZDataVma(t, text, data, aText);
    var bssVma := if bss.user then bss.vma else Plus(dataVma, ZData(t, data, bss));
    Layout(ZTextPos(t), ZTextVma(t, text), Plus(ZTextPos(t), mapped), dataVma, bssPos, bssVma,
           if HeaderInText(t) && !t.headerNotCounted then Plus(mapped, t.execBytes) else mapped,
           ZData(t, data, bss), ZBss(t, data, bss, dataVma, bssVma), if t.qmagic then QMagic else ZMagic)
  }

  predicate Apart(text: Section, data: Section, bss: Section) {
    text != data && data != bss && text != bss
  }

  method AdjustO(t: Target, text: Section, data: Section, bss: Section, e: Exec)
    requires Apart(text, data, bss)
    modifies text`vma, text`filepos, data`vma, data`filepos, bss`vma, bss`filepos, e
    ensures LayoutOf(text, data, bss, e) == OLayout(t, old(GivenOf(text)), old(GivenOf(data)), old(GivenOf(bss)), old(e.text))
  {
    hide Plus, Minus, ToInt;
    var pos, vma, pad := t.execBytes, 0, 0;
    text.filepos := pos;
    if !text.userSetVma {
      text.vma := vma;
    } else {
      vma := text.vma;
    }
    pos := Plus(pos, e.text);
    vma := Plus(vma, e.text);
    if !data.userSetVma {
      data.vma := vma;
    } else {
      vma := data.vma;
    }
    data.filepos := pos;
    pos := Plus(pos, data.size);
    vma := Plus(vma, data.size);
    if !bss.userSetVma {
      NoPad(pos);
      bss.vma := vma;
    } else {
      pad := ToInt(Minus(bss.vma, vma));
      if pad < 0 {
        pad := 0;
      }
    }
    pos := Plus(pos, pad);
    e.data := Plus(data.size, pad);
    bss.filepos := pos;
    e.bss := bss.size;
    e.magic := OMagic;
  }

  lemma NoPad(x: Word)
    ensures Plus(x, 0) == x
  {
  }

  method AdjustN(t: Target, text: Section, data: Section, bss: Section, e: Exec)
    requires TargetOk(t) && Apart(text, data, bss)
    modifies text`vma, text`filepos, data`vma, data`filepos, bss`vma, e
    ensures LayoutOf(text, data, bss, e)
         == NLayout(t, old(GivenOf(text)), old(GivenOf(data)), old(GivenOf(bss)), old(e.text), old(bss.filepos))
  {
    hide Plus, Minus, BfdAlign, AlignPower, ToInt;
    var pos, vma := t.execBytes, 0;
    text.filepos := pos;
    if !text.userSetVma {
      text.vma := vma;
    } else {
      vma := text.vma;
    }
    pos := Plus(pos, e.text);
    vma := Plus(vma, e.text);
    data.filepos := pos;
    if !data.userSetVma {
      data.vma := BfdAlign(vma, t.segment);
    }
    vma := Plus(data.vma, data.size);
    var pad := ToInt(Minus(AlignPower(vma, bss.power), vma)) % U64;
    e.data := Plus(data.size, pad);
    if !bss.userSetVma {
      bss.vma := vma;
    }
    e.bss := bss.size;
    e.magic := NMagic;
  }

  /** The text of a demand-paged file, with its padding. */
  method PlaceText(t: Target, text: Section, e: Exec)
    requires TargetOk(t)
    modifies text`vma, text`filepos, e`text
    ensures text.filepos == ZTextPos(t) && text.vma == ZTextVma(t, old(GivenOf(text)))
    ensures e.text == ZText(t, old(GivenOf(text)), old(e.text))
  {
    hide Plus, Minus, BfdAlign;
    var ztih := t.includesHeader || t.qmagic;
    var textPad: Word := 0;
    text.filepos := if ztih then t.execBytes else t.diskBlock;
    if !text.userSetVma {
      text.vma := if t.hasReloc then 0 else if ztih then Plus(t.defaultTextVma, t.execBytes) else t.defaultTextVma;
    } else if ztih {
      textPad := Minus(text.filepos, text.vma) % t.page;
    } else {
      textPad := Minus(0, text.vma) % t.page;
    }
    var textEnd := if ztih then Plus(text.filepos, e.text) else e.text;
    textPad := Plus(textPad, Minus(BfdAlign(textEnd, t.page), textEnd));
    e.text := Plus(e.text, textPad);
  }

  /** Its data, and the text up to it. */
  method PlaceData(t: Target, text: Section, data: Section, e: Exec, ghost given: Given, ghost aText: Word)
    requires TargetOk(t) && text != data
    requires text.filepos == ZTextPos(t) && text.vma == ZTextVma(t, given) && e.text == ZText(t, given, aText)
    modifies data`vma, data`filepos, e`text
    ensures data.vma == ZDataVma(t, given, old(GivenOf(data)), aText)
    ensures data.filepos == Plus(ZTextPos(t), ZMapped(t, given, old(GivenOf(data)), aText))
    ensures e.text == var mapped := ZMapped(t, given, old(GivenOf(data)), aText);
                      if HeaderInText(t) && !t.headerNotCounted then Plus(mapped, t.execBytes) else mapped
  {
    hide Plus, Minus, BfdAlign, ZText, ZTextVma, ZTextPos;
    if !data.userSetVma {
      data.vma := BfdAlign(Plus(text.vma, e.text), t.segment);
    }
    if t.contiguous {
      var textPad := Minus(data.vma, Plus(text.vma, e.text));
      NoPad(e.text);
      if textPad > 0 {
        e.text := Plus(e.text, textPad);
      }
    }
    data.filepos := Plus(text.filepos, e.text);
    if (t.includesHeader || t.qmagic) && !t.headerNotCounted {
      e.text := Plus(e.text, t.execBytes);
    }
  }

  /** The padded data, and .bss. */
  method PlaceBss(t: Target, data: Section, bss: Section, e: Exec)
    requires TargetOk(t) && data != bss
    modifies bss`vma, e`data, e`bss
    ensures var d, b := old(GivenOf(data)), old(GivenOf(bss));
            && e.data == ZData(t, d, b)
            && bss.vma == (if b.user then b.vma else Plus(d.vma, ZData(t, d, b)))
            && e.bss == ZBss(t, d, b, d.vma, bss.vma)
  {
    hide Plus, Minus, BfdAlign, AlignPower;
    e.data := AlignPower(data.size, bss.power);
    e.data := BfdAlign(e.data, t.page);
    var dataPad := Minus(e.data, data.size);
    if !bss.userSetVma {
      bss.vma := Plus(data.vma, e.data);
    }
    if AlignPower(bss.vma, bss.power) == Plus(data.vma, e.data) {
      e.bss := if dataPad > bss.size then 0 else bss.size - dataPad;
    } else {
      e.bss := bss.size;
    }
  }

  lemma SameData(t: Target, d: Given, c: Given, b: Given, dataVma: Word, bssVma: Word)
    requires TargetOk(t) && d.size == c.size
    ensures ZData(t, d, b) == ZData(t, c, b) && ZBss(t, d, b, dataVma, bssVma) == ZBss(t, c, b, dataVma, bssVma)
  {
  }

  method AdjustZ(t: Target, text: Section, data: Section, bss: Section, e: Exec)
    requires TargetOk(t) && Apart(text, data, bss)
    modifies text`vma, text`filepos, data`vma, data`filepos, bss`vma, e
    ensures LayoutOf(text, data, bss, e)
         == ZLayout(t, old(GivenOf(text)), old(GivenOf(data)), old(GivenOf(bss)), old(e.text), old(bss.filepos))
  {
    hide Plus, ZTextPos, ZTextVma, ZText, ZMapped, ZDataVma, ZData, ZBss, HeaderInText;
    ghost var givenText, givenData, givenBss, aText := GivenOf(text), GivenOf(data), GivenOf(bss), e.text;
    PlaceText(t, text, e);
    PlaceData(t, text, data, e, givenText, aText);
    e.magic := if t.qmagic then QMagic else ZMagic;
    PlaceBss(t, data, bss, e);
    SameData(t, givenData, givenData.(vma := data.vma), givenBss, data.vma, bss.vma);
  }

  /** adjust_sizes_and_vmas, for a file whose kind is not decided yet: demand paging goes before a write-protected
      text. */
  method AdjustSizesAndVmas(t: Target, paged: bool, protect: bool, text: Section, data: Section, bss: Section, e: Exec)
    requires TargetOk(t) && Apart(text, data, bss)
    modifies text`vma, text`filepos, data`vma, data`filepos, bss`vma, bss`filepos, e
    ensures var aText := AlignPower(text.size, text.power);
            var g, d, b := old(GivenOf(text)), old(GivenOf(data)), old(GivenOf(bss));
            LayoutOf(text, data, bss, e) == if paged then ZLayout(t, g, d, b, aText, old(bss.filepos))
                                            else if protect then NLayout(t, g, d, b, aText, old(bss.filepos))
                                            else OLayout(t, g, d, b, aText)
  {
    hide AlignPower, ZLayout, NLayout, OLayout;
    e.text := AlignPower(text.size, text.power);
    if paged {
      AdjustZ(t, text, data, bss, e);
    } else if protect {
      AdjustN(t, text, data, bss, e);
    } else {
      AdjustO(t, text, data, bss, e);
    }
  }

  // ---------- what the layouts keep ----------

  lemma PlusAssociates(x: Word, y: Word, z: Word)
    ensures Plus(Plus(x, y), z) == Plus(x, Plus(y, z))
  {
    hide Plus;
    PlusIs(x, y);
    PlusIs(Plus(x, y), z);
    PlusIs(y, z);
    PlusIs(x, Plus(y, z));
  }

  lemma PlusMinus(x: Word, y: Word)
    ensures Plus(x, Minus(y, x)) == y
  {
    hide Plus, Minus;
    MinusIs(y, x);
    PlusIs(x, Minus(y, x));
  }

  lemma MinusPlus(x: Word, y: Word)
    ensures Minus(Plus(x, y), x) == y
  {
    hide Plus, Minus;
    PlusIs(x, y);
    MinusIs(Plus(x, y), x);
  }

  /** OMAGIC: the parts of the file follow one another without gaps; and so do those addresses that the user did not
      set. */
  lemma OMagicFollows(t: Target, text: Given, data: Given, bss: Given, aText: Word)
    ensures var l := OLayout(t, text, data, bss, aText);
            && l.textPos == t.execBytes
            && l.dataPos == Plus(l.textPos, l.text)
            && l.bssPos == Plus(l.dataPos, l.data)
            && (!data.user ==> l.dataVma == Plus(l.textVma, l.text))
            && (!bss.user ==> l.bssVma == Plus(l.dataVma, l.data))
  {
    hide Plus, Minus, ToInt;
    var l := OLayout(t, text, data, bss, aText);
    PlusAssociates(l.dataPos, data.size, BssPad(Plus(l.dataVma, data.size), bss));
    NoPad(data.size);
  }

  /** The padding goes through an int: for a .bss at an address that the user set, the data is padded up to it exactly if
      it begins less than 2^31 bytes after the data. */
  lemma OMagicReachesBss(t: Target, text: Given, data: Given, bss: Given, aText: Word)
    requires bss.user
    ensures var l := OLayout(t, text, data, bss, aText);
            Plus(l.dataVma, l.data) == l.bssVma <==> Minus(bss.vma, Plus(l.dataVma, data.size)) < I32
  {
    hide Plus, Minus, ToInt;
    var l := OLayout(t, text, data, bss, aText);
    var end := Plus(l.dataVma, data.size);
    var gap := Minus(bss.vma, end);
    PlusAssociates(l.dataVma, data.size, BssPad(end, bss));
    PlusMinus(end, bss.vma);
    MinusPlus(end, BssPad(end, bss));
    IntIsGap(gap);
  }

  /** A .bss 2 GB behind the data: no padding at all. */
  lemma OMagicMissesOne(t: Target)
    ensures var l := OLayout(t, Given(0x1000, 0, false, 0), Given(0x10, 0, false, 0), Given(0, 0, true, 0x8000_1010), 0x1000);
            Plus(l.dataVma, l.data) == 0x1010 && l.bssVma == 0x8000_1010
  {
    assert Minus(0x8000_1010, 0x1010) == I32 && ToInt(I32) == -I32;
  }

  lemma IntIsGap(gap: Word)
    ensures (if ToInt(gap) > 0 then ToInt(gap) else 0) == gap <==> gap < I32
  {
    assert gap == gap / U32 * U32 + gap % U32;
  }

  /** An NMAGIC file: the text comes right after the header and the data right after the text in the file; without
      addresses of the user's, the text begins at 0, and the data at the first segment after it. */
  lemma NMagicFollows(t: Target, text: Given, data: Given, bss: Given, aText: Word, bssPos: Word, k: nat)
    requires TargetOk(t) && k < 64 && t.segment == Pow2(k)
    requires Ceiling(Plus(if text.user then text.vma else 0, aText), t.segment) < U64
    ensures var l := NLayout(t, text, data, bss, aText, bssPos);
            && l.textPos == t.execBytes
            && l.dataPos == Plus(l.textPos, l.text) && l.text == aText
            && (if text.user then l.textVma == text.vma else l.textVma == 0)
            && (if data.user then l.dataVma == data.vma else l.dataVma == Ceiling(Plus(l.textVma, l.text), t.segment))
            && (if bss.user then l.bssVma == bss.vma else l.bssVma == Plus(l.dataVma, data.size))
            && l.bss == bss.size && l.magic == NMagic
  {
    hide Plus, Minus, ToInt, BfdAlign, AlignPower, Ceiling, Pow2;
    BfdAlignIs(Plus(if text.user then text.vma else 0, aText), k);
  }

  /** NMAGIC: the data, as the header has it, ends where .bss can begin, exactly if the gap is less than 2^31, since the
      padding goes through an int; but .bss itself is put at the end of the unpadded data, which is the place where the
      header's data ends exactly if the padding, as an int, is zero. */
  lemma NMagicEnds(t: Target, text: Given, data: Given, bss: Given, aText: Word, bssPos: Word)
    requires TargetOk(t) && bss.power < 64
    requires Ceiling(NDataEnd(t, text, data, aText), Pow2(bss.power)) < U64
    ensures var l, end := NLayout(t, text, data, bss, aText, bssPos), NDataEnd(t, text, data, aText);
            && (Plus(l.dataVma, l.data) == Ceiling(end, Pow2(bss.power)) <==> Ceiling(end, Pow2(bss.power)) - end < I32)
            && (!bss.user ==> (l.bssVma == Plus(l.dataVma, l.data)
                               <==> ToInt(Ceiling(end, Pow2(bss.power)) - end) == 0))
  {
    hide Plus, Minus, ToInt, BfdAlign, AlignPower, Ceiling, Pow2;
    var l, end := NLayout(t, text, data, bss, aText, bssPos), NDataEnd(t, text, data, aText);
    var to := Ceiling(end, Pow2(bss.power));
    AlignPowerIs(end, bss.power);
    CeilingIsAligned(end, Pow2(bss.power));
    HalfSpace(bss.power);
    MinusIs(to, end);
    PlusAssociates(l.dataVma, data.size, ToInt(to - end) % U64);
    PadReaches(end, to);
  }

  /** The padding that went through an int, added to where it begins. */
  lemma PadReaches(end: Word, to: Word)
    requires end <= to && to - end < U64 / 2
    ensures Plus(end, ToInt(to - end) % U64) == to <==> to - end < I32
    ensures end == Plus(end, ToInt(to - end) % U64) <==> ToInt(to - end) == 0
  {
    hide Plus, Minus, ToInt;
    SmallGap(to - end);
    MinusIs(to, end);
    PlusMinus(end, to);
    MinusPlus(end, ToInt(to - end) % U64);
    MinusIs(end, end);
    NoPad(end);
  }

  /** Data that ends at an odd place, and a .bss aligned to 16 bytes. */
  lemma NMagicMissesOne(t: Target)
    requires t.segment == 0x1000 && TargetOk(t)
    ensures var l := NLayout(t, Given(0x1000, 0, false, 0), Given(0x11, 0, false, 0), Given(0, 4, false, 0), 0x1000, 0);
            Plus(l.dataVma, l.data) == 0x1020 && l.bssVma == 0x1011
  {
    assert Plus(0, 0x1000) == 0x1000 && Plus(0x1000, 0xfff) == 0x1fff && BfdAlign(0x1000, 0x1000) == 0x1000;
    assert Pow2(4) == 16 && AlignPower(0x1011, 4) == 0x1020;
    assert Minus(0x1020, 0x1011) == 0xf && ToInt(0xf) == 0xf;
  }

  /** So with an alignment below 2^31 they are the same place exactly if the end of the data is aligned already. */
  lemma NMagicGap(end: Word, k: nat)
    requires k < 31 && Ceiling(end, Pow2(k)) < U64
    ensures Ceiling(end, Pow2(k)) - end < I32
    ensures ToInt(Ceiling(end, Pow2(k)) - end) == 0 <==> Aligned(end, Pow2(k))
  {
    hide Ceiling, Aligned;
    SmallPower(k);
    CeilingIsAligned(end, Pow2(k));
    CeilingStays(end, Pow2(k));
  }

  lemma HalfSpace(k: nat)
    requires k < 64
    ensures Pow2(k) <= U64 / 2
  {
    PowerGrows(k, 63);
    Pow2Of64();
    assert Pow2(64) == 2 * Pow2(63);
  }

  function NDataEnd(t: Target, text: Given, data: Given, aText: Word): Word
    requires TargetOk(t)
  {
    Plus(if data.user then data.vma else BfdAlign(Plus(if text.user then text.vma else 0, aText), t.segment), data.size)
  }

  lemma CeilingStays(x: nat, p: nat)
    ensures Ceiling(x, p) == x <==> Aligned(x, p)
  {
    CeilingIsAligned(x, p);
  }

  lemma {:induction false} SmallPower(k: nat)
    requires k < 31
    ensures Pow2(k) < I32
  {
    PowerGrows(k, 30);
    assert Pow2(6) == 64;
    Pow2Sum(6, 6);
    Pow2Sum(12, 12);
    Pow2Sum(24, 6);
  }

  lemma {:induction false} PowerGrows(j: nat, k: nat)
    requires j <= k
    ensures Pow2(j) <= Pow2(k)
  {
    if j == k {
    } else {
      PowerGrows(j, k - 1);
    }
  }

  lemma SmallGap(gap: Word)
    requires gap < U64 / 2
    ensures ToInt(gap) % U64 == gap <==> gap < I32
    ensures ToInt(gap) % U64 == 0 <==> ToInt(gap) == 0
  {
    assert gap == gap / U32 * U32 + gap % U32;
  }

  /** ZMAGIC: the data in the header is a multiple of the page, the least that is not below the data aligned for .bss; and
      with .bss it covers both, exactly if .bss follows the data. */
  lemma ZMagicCovers(t: Target, data: Given, bss: Given, dataVma: Word, bssVma: Word, k: nat)
    requires TargetOk(t) && t.page == Pow2(k) && k < 64 && bss.power < 64
    requires Ceiling(data.size, Pow2(bss.power)) < U64 && Ceiling(Ceiling(data.size, Pow2(bss.power)), t.page) < U64
    ensures ZData(t, data, bss) == Ceiling(Ceiling(data.size, Pow2(bss.power)), t.page)
    ensures Aligned(ZData(t, data, bss), t.page) && data.size <= ZData(t, data, bss)
    ensures var sum, d := ZData(t, data, bss) + ZBss(t, data, bss, dataVma, bssVma), ZData(t, data, bss);
            && data.size + bss.size <= sum
            && sum == if AlignPower(bssVma, bss.power) != Plus(dataVma, d) then d + bss.size
                      else if d > data.size + bss.size then d else data.size + bss.size
  {
    hide Plus, Minus, BfdAlign, AlignPower, Ceiling, Aligned;
    AlignPowerIs(data.size, bss.power);
    BfdAlignIs(AlignPower(data.size, bss.power), k);
    CeilingIsAligned(data.size, Pow2(bss.power));
    CeilingIsAligned(Ceiling(data.size, Pow2(bss.power)), t.page);
    MinusIs(ZData(t, data, bss), data.size);
  }

  /** Mapped contiguously, the text ends exactly where the data begins, in memory as in the file. */
  lemma ContiguousMeets(t: Target, text: Given, data: Given, bss: Given, aText: Word, bssPos: Word)
    requires TargetOk(t) && t.contiguous
    ensures var l, mapped := ZLayout(t, text, data, bss, aText, bssPos), ZMapped(t, text, data, aText);
            && Plus(l.textVma, mapped) == l.dataVma
            && Plus(l.textPos, mapped) == l.dataPos
            && mapped == Minus(l.dataVma, l.textVma)
  {
    hide Plus, Minus, BfdAlign, ZText, ZTextVma, ZDataVma, ZData, ZBss, HeaderInText, ZTextPos;
    var v, padded, d := ZTextVma(t, text), ZText(t, text, aText), ZDataVma(t, text, data, aText);
    PlusAssociates(v, padded, Minus(d, Plus(v, padded)));
    PlusMinus(Plus(v, padded), d);
    MinusPlus(v, ZMapped(t, text, data, aText));
  }

  /** The text that is mapped, if it is padded only when the data comes after it. */
  function Intended(v: Word, padded: Word, d: Word): Word {
    if v + padded <= d then d - v else padded
  }

  /** The difference is unsigned, so that it never counts as negative: the text is padded just when the data comes after it
      if and only if the data does come after it, or the text wraps around and ends exactly there. */
  lemma ContiguousIsIntended(t: Target, text: Given, data: Given, aText: Word)
    requires TargetOk(t) && t.contiguous
    ensures var v, padded, d := ZTextVma(t, text), ZText(t, text, aText), ZDataVma(t, text, data, aText);
            ZMapped(t, text, data, aText) == Intended(v, padded, d) <==> v + padded <= d || v + padded == d + U64
  {
    hide Plus, Minus, BfdAlign, ZText, ZTextVma, ZDataVma;
    var v, padded, d := ZTextVma(t, text), ZText(t, text, aText), ZDataVma(t, text, data, aText);
    PlusIs(v, padded);
    MinusIs(d, Plus(v, padded));
    PlusIs(padded, Minus(d, Plus(v, padded)));
  }

  /** Data inside the padded text: the text is cut down to end there. */
  lemma ContiguousCuts(t: Target, text: Given, data: Given, aText: Word)
    requires TargetOk(t) && t.contiguous && data.user
    requires ZTextVma(t, text) <= data.vma < ZTextVma(t, text) + ZText(t, text, aText) < U64
    ensures ZMapped(t, text, data, aText) == data.vma - ZTextVma(t, text) < ZText(t, text, aText)
  {
    hide Plus, Minus, BfdAlign, ZText, ZTextVma;
    var v, padded := ZTextVma(t, text), ZText(t, text, aText);
    PlusIs(v, padded);
    MinusIs(data.vma, v + padded);
    PlusIs(padded, Minus(data.vma, v + padded));
  }

  /** Data before the text: the text is padded by what is left of the address space, and more. */
  lemma ContiguousOverflows(t: Target, text: Given, data: Given, aText: Word)
    requires TargetOk(t) && t.contiguous && data.user
    requires data.vma < ZTextVma(t, text) && ZTextVma(t, text) + ZText(t, text, aText) < U64
    ensures ZMapped(t, text, data, aText) == data.vma - ZTextVma(t, text) + U64 > ZText(t, text, aText)
  {
    hide Plus, Minus, BfdAlign, ZText, ZTextVma;
    var v, padded := ZTextVma(t, text), ZText(t, text, aText);
    PlusIs(v, padded);
    MinusIs(data.vma, v + padded);
    PlusIs(padded, Minus(data.vma, v + padded));
  }

  /** A page of text at the second page, on a target that maps contiguously. */
  const MAPPED: Target := Target(0x20, 0x1000, 0x1000, 0x1000, false, 0, true, false, false, false)

  const SECOND_PAGE: Given := Given(0x1000, 0, true, 0x1000)

  /** Its data in the middle of it: half of the text is lost. */
  lemma CutsOne()
    ensures ZText(MAPPED, SECOND_PAGE, 0x1000) == 0x1000
    ensures ZMapped(MAPPED, SECOND_PAGE, Given(0x10, 0, true, 0x1800), 0x1000) == 0x800
  {
    assert Minus(0, 0x1000) == U64 - 0x1000 && (U64 - 0x1000) % 0x1000 == 0;
    assert Plus(0x1000, 0xfff) == 0x1fff && BfdAlign(0x1000, 0x1000) == 0x1000;
  }

  /** Its data in front of it: the text is padded to almost the whole address space. */
  lemma OverflowsOne()
    ensures ZText(MAPPED, SECOND_PAGE, 0x1000) == 0x1000
    ensures ZMapped(MAPPED, SECOND_PAGE, Given(0x10, 0, true, 0), 0x1000) == U64 - 0x1000
  {
    assert Minus(0, 0x1000) == U64 - 0x1000 && (U64 - 0x1000) % 0x1000 == 0;
    assert Plus(0x1000, 0xfff) == 0x1fff && BfdAlign(0x1000, 0x1000) == 0x1000;
  }

  // ---------- the padded text ends on a page ----------

  /** a and b differ by a multiple of p. */
  predicate Congruent(a: int, b: int, p: nat)
    requires p > 0
  {
    (a - b) % p == 0
  }

  lemma CongruentIf(a: int, b: int, p: nat, q: int)
    requires p > 0 && a - b == p * q
    ensures Congruent(a, b, p)
  {
    QuotientIs(a - b, p, q, 0);
  }

  lemma CongruentSum(a: int, b: int, c: int, d: int, p: nat)
    requires p > 0 && Congruent(a, b, p) && Congruent(c, d, p)
    ensures Congruent(a + c, b + d, p) && Congruent(a - c, b - d, p)
  {
    assert a - b == p * ((a - b) / p) && c - d == p * ((c - d) / p);
    CongruentIf(a + c, b + d, p, (a - b) / p + (c - d) / p);
    CongruentIf(a - c, b - d, p, (a - b) / p - (c - d) / p);
  }

  lemma CongruentTrans(a: int, b: int, c: int, p: nat)
    requires p > 0 && Congruent(a, b, p) && Congruent(b, c, p)
    ensures Congruent(a, c, p)
  {
    assert a - b == p * ((a - b) / p) && b - c == p * ((b - c) / p);
    CongruentIf(a, c, p, (a - b) / p + (b - c) / p);
  }

  lemma SameRemainder(a: int, b: int, p: nat)
    requires p > 0 && Congruent(a, b, p)
    ensures a % p == b % p
  {
    assert a - b == p * ((a - b) / p) && b == p * (b / p) + b % p;
    QuotientIs(a, p, (a - b) / p + b / p, b % p);
  }

  lemma RemainderIsCongruent(a: int, p: nat)
    requires p > 0
    ensures Congruent(a % p, a, p) && Congruent(a, a, p)
  {
    assert a == p * (a / p) + a % p;
    CongruentIf(a % p, a, p, -(a / p));
    CongruentIf(a, a, p, 0);
  }

  lemma WordsApart(a: int, b: int, k: nat)
    requires k <= 64 && (a == b || a == b - U64 || a == b + U64)
    ensures Congruent(a, b, Pow2(k))
  {
    PageDivides(k);
    hide Congruent, Pow2;
    var p, m := Pow2(k), U64 / Pow2(k);
    CongruentIf(a, b, p, if a == b then 0 else if a < b then -m else m);
  }

  /** Wrapping around keeps the remainder by a page. */
  lemma WordsAreCongruent(x: Word, y: Word, k: nat)
    requires k <= 64
    ensures Congruent(Plus(x, y), x + y, Pow2(k)) && Congruent(Minus(x, y), x - y, Pow2(k))
  {
    hide Plus, Minus, Congruent, Pow2;
    PlusIs(x, y);
    MinusIs(x, y);
    WordsApart(Plus(x, y), x + y, k);
    WordsApart(Minus(x, y), x - y, k);
  }

  /** The padding ends on a page what begins at `from`, by the text's file position. */
  lemma PaddingEnds(from: Word, aText: Word, end: Word, unusual: Word, k: nat)
    requires k < 64 && Pow2(k) < U64 && end == Plus(from, aText) && Ceiling(end, Pow2(k)) < U64
    ensures Congruent(Plus(aText, Plus(unusual, Minus(BfdAlign(end, Pow2(k)), end))), unusual - from, Pow2(k))
  {
    hide Plus, Minus, BfdAlign, Congruent, Ceiling;
    var p, top := Pow2(k), Ceiling(end, Pow2(k));
    BfdAlignIs(end, k);
    CeilingIsAligned(end, p);
    var up := Minus(top, end);
    WordsAreCongruent(from, aText, k);
    WordsAreCongruent(top, end, k);
    WordsAreCongruent(unusual, up, k);
    WordsAreCongruent(aText, Plus(unusual, up), k);
    AlignedIsCongruent(top, p);
    RemainderIsCongruent(unusual, p);
    RemainderIsCongruent(aText, p);
    RemainderIsCongruent(from, p);
    CongruentSum(top, 0, end, from + aText, p);
    CongruentTrans(up, top - end, 0 - (from + aText), p);
    CongruentSum(unusual, unusual, up, -(from + aText), p);
    CongruentTrans(Plus(unusual, up), unusual + up, unusual - (from + aText), p);
    CongruentSum(aText, aText, Plus(unusual, up), unusual - (from + aText), p);
    CongruentTrans(Plus(aText, Plus(unusual, up)), aText + Plus(unusual, up), unusual - from, p);
  }

  lemma AlignedIsCongruent(x: nat, p: nat)
    requires p > 0 && Aligned(x, p)
    ensures Congruent(x, 0, p)
  {
    if p == 1 {
      CongruentIf(x, 0, 1, x);
    }
  }

  /** Where the padded text begins, for the padding: at its place in the file if it includes the header. */
  function ZFrom(t: Target): Word {
    if HeaderInText(t) then ZTextPos(t) else 0
  }

  /** The padded text of a demand-paged file ends on a page if the user set its address; otherwise it ends as far past a
      page as its address is from where its padding was counted. */
  lemma TextEndsOnPage(t: Target, text: Given, aText: Word, k: nat)
    requires TargetOk(t) && t.page == Pow2(k) && k < 64
    requires Ceiling(Plus(ZFrom(t), aText), t.page) < U64
    ensures Plus(ZTextVma(t, text), ZText(t, text, aText)) % t.page
         == if text.user then 0 else (ZTextVma(t, text) - ZFrom(t)) % t.page
  {
    hide Plus, Minus, BfdAlign, Congruent, Ceiling;
    var p, v, from := t.page, ZTextVma(t, text), ZFrom(t);
    var unusual := if text.user then Minus(from, v) % p else 0;
    PlusZero(aText);
    PaddingEnds(from, aText, Plus(from, aText), unusual, k);
    WordsAreCongruent(v, ZText(t, text, aText), k);
    RemainderIsCongruent(v, p);
    CongruentSum(v, v, ZText(t, text, aText), unusual - from, p);
    CongruentTrans(Plus(v, ZText(t, text, aText)), v + ZText(t, text, aText), v + (unusual - from), p);
    if text.user {
      UnusualCancels(from, v, k);
      CongruentTrans(Plus(v, ZText(t, text, aText)), v + (unusual - from), 0, p);
      SameRemainder(Plus(v, ZText(t, text, aText)), 0, p);
    } else {
      SameRemainder(Plus(v, ZText(t, text, aText)), v - from, p);
    }
  }

  lemma PlusZero(x: Word)
    ensures Plus(0, x) == x
  {
  }

  lemma UnusualCancels(from: Word, v: Word, k: nat)
    requires k <= 64
    ensures Congruent(v + (Minus(from, v) % Pow2(k) - from), 0, Pow2(k))
  {
    hide Minus, Congruent;
    var p, u := Pow2(k), Minus(from, v);
    WordsAreCongruent(from, v, k);
    RemainderIsCongruent(u, p);
    CongruentTrans(u % p, u, from - v, p);
    RemainderIsCongruent(v - from, p);
    CongruentSum(v - from, v - from, u % p, from - v, p);
  }
}
