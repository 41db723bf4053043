/** The olnk layout: sections sorted and laid out one after the other in 64-bit arithmetic, and the second, simpler
    offset pass. */
module OutputLayout {
  import opened Alignment
  import opened Basics
  import opened StableSort

  datatype Kind = Unknown | Code | ReadOnlyData | Data | Bss | Tls | Debug

  datatype Section = Section(name: seq<Byte>, kind: Kind, size: Word, alignment: Word, ordinal: nat)

  datatype LayoutEntry = LayoutEntry(name: seq<Byte>, kind: Kind, size: Word, alignment: Word, offset: Word)

  // ---------- arithmetic ----------

  /** align_up, with the wrap-around of its addition. */
  function AlignUp(value: Word, alignment: Word): Word {
    if alignment <= 1 then value
    else if value % alignment == 0 then value
    else Plus(value, alignment - value % alignment)
  }

  /** The wrapped sum is smaller exactly if the true one does not fit a word. */
  lemma AlignWraps(value: Word, a: Word)
    ensures AlignUp(value, a) < value <==> Ceiling(value, a) >= U64
    ensures Ceiling(value, a) < U64 ==> AlignUp(value, a) == Ceiling(value, a)
  {
    if Ceiling(value, a) >= U64 {
      PlusIs(value, a - value % a);
    }
  }

  // ---------- the layout in unbounded arithmetic ----------

  /** Where section n begins and where the first n sections end. */
  function Start(sections: seq<Section>, base: nat, n: nat): nat
    requires n < |sections|
  {
    Ceiling(End(sections, base, n), sections[n].alignment)
  }

  function End(sections: seq<Section>, base: nat, n: nat): nat
    requires n <= |sections|
  {
    if n == 0 then base
    else Ceiling(End(sections, base, n - 1), sections[n - 1].alignment) + sections[n - 1].size
  }

  lemma {:induction false} EndGrows(sections: seq<Section>, base: nat, m: nat, n: nat)
    requires m <= n <= |sections|
    ensures End(sections, base, m) <= End(sections, base, n)
  {
    hide Ceiling;
    if m == n {
    } else {
      EndGrows(sections, base, m, n - 1);
      CeilingIsLeast(End(sections, base, n - 1), sections[n - 1].alignment, 0);
    }
  }

  /** Each section is aligned, begins no earlier than the base and ends no later than the layout. */
  lemma SectionIsPlaced(sections: seq<Section>, base: nat, n: nat)
    requires n < |sections|
    ensures base <= Start(sections, base, n) && Aligned(Start(sections, base, n), sections[n].alignment)
    ensures Start(sections, base, n) + sections[n].size <= End(sections, base, |sections|)
  {
    hide Ceiling;
    CeilingIsLeast(End(sections, base, n), sections[n].alignment, 0);
    EndGrows(sections, base, 0, n);
    EndGrows(sections, base, n + 1, |sections|);
  }

  /** Sections are in order and do not overlap. */
  lemma LayoutIsOrdered(sections: seq<Section>, base: nat, m: nat, n: nat)
    requires m < n < |sections|
    ensures Start(sections, base, m) + sections[m].size <= Start(sections, base, n)
  {
    hide Ceiling;
    CeilingIsLeast(End(sections, base, n), sections[n].alignment, 0);
    EndGrows(sections, base, m + 1, n);
  }

  /** Places for the sections, in the same order: aligned, not before the base, and not overlapping. */
  predicate Placement(sections: seq<Section>, base: nat, places: seq<nat>) {
    && |places| == |sections|
    && (forall n :: 0 <= n < |sections| ==> base <= places[n] && Aligned(places[n], sections[n].alignment))
    && (forall m, n {:trigger places[m], places[n]} :: 0 <= m < |sections| && n == m + 1 && n < |sections| ==>
          places[m] + sections[m].size <= places[n])
  }

  /** The layout is the least one: in any other, no section begins earlier. */
  lemma {:induction false} LayoutIsLeast(sections: seq<Section>, base: nat, places: seq<nat>, n: nat)
    requires Placement(sections, base, places) && n < |sections|
    ensures Start(sections, base, n) <= places[n]
  {
    hide Ceiling, Aligned;
    if n == 0 {
    } else {
      LayoutIsLeast(sections, base, places, n - 1);
      assert places[n - 1] + sections[n - 1].size <= places[n];
    }
    CeilingIsLeast(End(sections, base, n), sections[n].alignment, places[n]);
  }

  // ---------- the builder ----------

  /** The order of sections: by kind, then by name, then by input ordinal. */
  predicate NameLess(a: seq<Byte>, b: seq<Byte>) {
    b != [] && (a == [] || a[0] < b[0] || (a[0] == b[0] && NameLess(a[1..], b[1..])))
  }

  function Rank(k: Kind): nat {
    match k
    case Unknown => 0
    case Code => 1
    case ReadOnlyData => 2
    case Data => 3
    case Bss => 4
    case Tls => 5
    case Debug => 6
  }

  predicate Less(a: Section, b: Section) {
    if a.kind != b.kind then Rank(a.kind) < Rank(b.kind)
    else if a.name != b.name then NameLess(a.name, b.name)
    else a.ordinal < b.ordinal
  }

  function Normal(s: Section): Section {
    if s.alignment == 0 then s.(alignment := 1) else s
  }

  function Normalized(sections: seq<Section>): (r: seq<Section>)
    ensures |r| == |sections|
  {
    seq(|sections|, i requires 0 <= i < |sections| => Normal(sections[i]))
  }

  /** The inputs as they are laid out. */
  function Prepared(inputs: seq<Section>): seq<Section> {
    Sort(Normalized(inputs), (a, b) => Less(a, b))
  }

  function EntryFor(s: Section, offset: Word): LayoutEntry {
    LayoutEntry(s.name, s.kind, s.size, s.alignment, offset)
  }

  /** The first n sections begin at words. */
  predicate Fits(sections: seq<Section>, base: nat, n: nat)
    requires n <= |sections|
  {
    forall i :: 0 <= i < n ==> Start(sections, base, i) < U64
  }

  /** The first n entries of the image of a layout. */
  function Entries(sections: seq<Section>, base: nat, n: nat): (r: seq<LayoutEntry>)
    requires n <= |sections| && Fits(sections, base, n)
  {
    seq(n, i requires 0 <= i < n => EntryFor(sections[i], Start(sections, base, i)))
  }

  lemma NoEntries(sections: seq<Section>, base: nat)
    ensures Entries(sections, base, 0) == [] && End(sections, base, 0) == base
  {
  }

  lemma EntriesGrow(sections: seq<Section>, base: nat, n: nat)
    requires n < |sections| && Fits(sections, base, n) && Start(sections, base, n) < U64
    ensures Fits(sections, base, n + 1)
    ensures Entries(sections, base, n + 1)
         == Entries(sections, base, n) + [EntryFor(sections[n], Start(sections, base, n))]
  {
    hide Start;
  }

  /** Where a section begins and ends, against the end of the whole layout. */
  lemma StepGrows(sections: seq<Section>, base: nat, n: nat)
    requires n < |sections|
    ensures Start(sections, base, n) == Ceiling(End(sections, base, n), sections[n].alignment)
    ensures End(sections, base, n + 1) == Start(sections, base, n) + sections[n].size
    ensures Start(sections, base, n) <= End(sections, base, n + 1) <= End(sections, base, |sections|)
  {
    hide Ceiling;
    EndGrows(sections, base, n + 1, |sections|);
  }

  class OutputImage {
    var base: Word
    var sections: seq<LayoutEntry>

    constructor ()
    {
      base, sections := 0, [];
    }
  }

  class OutputBuilder {
    var inputs: seq<Section>

    constructor ()
      ensures inputs == []
    {
      inputs := [];
    }

    method AddSection(section: Section)
      modifies this
      ensures inputs == old(inputs) + [section]
    {
      inputs := inputs + [section];
    }

    /** normalize_inputs: alignments of 0 become 1, and the inputs are sorted. */
    method NormalizeInputs()
      modifies this
      ensures inputs == Prepared(old(inputs))
    {
      ghost var was := inputs;
      var i := 0;
      while i < |inputs|
        invariant 0 <= i <= |inputs| == |was|
        invariant forall j :: 0 <= j < |was| ==> inputs[j] == if j < i then Normal(was[j]) else was[j]
      {
        if inputs[i].alignment == 0 {
          inputs := inputs[i := inputs[i].(alignment := 1)];
        }
        i := i + 1;
      }
      assert inputs == Normalized(was);
      inputs := Sort(inputs, (a, b) => Less(a, b));
    }

    /** Lay out the inputs as they are. */
    method LayOut(base: Word, image: OutputImage) returns (ok: bool)
      modifies image
      ensures image.base == base
      ensures ok <==> End(inputs, base, |inputs|) < U64
      ensures ok ==> Fits(inputs, base, |inputs|) && image.sections == Entries(inputs, base, |inputs|)
    {
      hide Ceiling, AlignUp, Plus, Entries, Start;
      image.base, image.sections := base, [];
      NoEntries(inputs, base);
      var cursor := base;
      for n := 0 to |inputs|
        invariant image.base == base && cursor == End(inputs, base, n)
        invariant Fits(inputs, base, n) && image.sections == Entries(inputs, base, n)
      {
        var input := inputs[n];
        StepGrows(inputs, base, n);
        AlignWraps(cursor, input.alignment);
        var aligned := AlignUp(cursor, input.alignment);
        if aligned < cursor {
          return false;
        }
        EntriesGrow(inputs, base, n);
        image.sections := image.sections + [EntryFor(input, aligned)];
        PlusIs(aligned, input.size);
        cursor := Plus(aligned, input.size);
        if cursor < aligned {
          return false;
        }
      }
      return true;
    }

    /** build: true exactly if the layout of the sorted sections in unbounded arithmetic ends below 2^64, and then the
        image has it. */
    method Build(base: Word, image: OutputImage?) returns (ok: bool)
      modifies this, image
      ensures inputs == if image == null then old(inputs) else Prepared(old(inputs))
      ensures ok <==> image != null && End(inputs, base, |inputs|) < U64
      ensures image != null ==> image.base == base
      ensures ok ==> Fits(inputs, base, |inputs|) && image.sections == Entries(inputs, base, |inputs|)
    {
      if image == null {
        return false;
      }
      NormalizeInputs();
      ok := LayOut(base, image);
    }
  }


  // ---------- any order of the inputs ----------

  lemma {:induction false} NameIrreflexive(a: seq<Byte>)
    ensures !NameLess(a, a)
  {
    if a == [] {
    } else {
      NameIrreflexive(a[1..]);
    }
  }

  lemma {:induction false} NameTransitive(a: seq<Byte>, b: seq<Byte>, c: seq<Byte>)
    requires NameLess(a, b) && NameLess(b, c)
    ensures NameLess(a, c)
  {
    if a == [] || !(a[0] == b[0] == c[0]) {
    } else {
      NameTransitive(a[1..], b[1..], c[1..]);
    }
  }

  lemma {:induction false} NameTotal(a: seq<Byte>, b: seq<Byte>)
    ensures a == b || NameLess(a, b) || NameLess(b, a)
  {
    if a == [] || b == [] || a[0] != b[0] {
    } else {
      NameTotal(a[1..], b[1..]);
      assert a == [a[0]] + a[1..] && b == [b[0]] + b[1..];
    }
  }

  lemma NameOrder(a: seq<Byte>, b: seq<Byte>, c: seq<Byte>)
    ensures !NameLess(a, a)
    ensures NameLess(a, b) && NameLess(b, c) ==> NameLess(a, c)
    ensures a == b || NameLess(a, b) || NameLess(b, a)
  {
    NameIrreflexive(a);
    NameTotal(a, b);
    if NameLess(a, b) && NameLess(b, c) {
      NameTransitive(a, b, c);
    }
  }

  lemma RankOrder(a: Kind, b: Kind)
    ensures a == b <==> Rank(a) == Rank(b)
  {
  }

  lemma LessTransitive(x: Section, y: Section, z: Section)
    requires Less(x, y) && Less(y, z)
    ensures Less(x, z)
  {
    hide NameLess, Rank;
    RankOrder(x.kind, y.kind);
    RankOrder(y.kind, z.kind);
    RankOrder(x.kind, z.kind);
    NameOrder(x.name, y.name, z.name);
    NameOrder(y.name, x.name, y.name);
  }

  lemma LessSplits(x: Section, y: Section, z: Section)
    requires Less(x, z)
    ensures Less(x, y) || Less(y, z)
  {
    hide NameLess, Rank;
    RankOrder(x.kind, y.kind);
    RankOrder(y.kind, z.kind);
    RankOrder(x.kind, z.kind);
    NameOrder(x.name, y.name, z.name);
    NameOrder(y.name, z.name, x.name);
    NameOrder(y.name, x.name, z.name);
    NameOrder(x.name, z.name, y.name);
  }

  lemma LessIsStrictWeak()
    ensures StrictWeak((a, b) => Less(a, b))
  {
    hide Less;
    forall x ensures !Less(x, x) {
      NotLessItself(x);
    }
    forall x, y, z | Less(x, y) && Less(y, z) ensures Less(x, z) {
      LessTransitive(x, y, z);
    }
    forall x, y, z | Less(x, z) ensures Less(x, y) || Less(y, z) {
      LessSplits(x, y, z);
    }
  }

  lemma NotLessItself(x: Section)
    ensures !Less(x, x)
  {
  }

  /** No two sections agree in kind, name and ordinal. */
  ghost predicate DistinctKeys(sections: seq<Section>) {
    forall i, j :: 0 <= i < |sections| && 0 <= j < |sections| && i != j ==>
      !(sections[i].kind == sections[j].kind && sections[i].name == sections[j].name && sections[i].ordinal == sections[j].ordinal)
  }

  lemma DistinctSeparates(sections: seq<Section>)
    requires DistinctKeys(sections)
    ensures Separates(sections, (a, b) => Less(a, b))
  {
    forall x, y | x in sections && y in sections && x != y ensures Less(x, y) || Less(y, x) {
      var i :| 0 <= i < |sections| && sections[i] == x;
      var j :| 0 <= j < |sections| && sections[j] == y;
      RankOrder(x.kind, y.kind);
      NameTotal(x.name, y.name);
    }
  }

  lemma {:induction false} NormalInsert(s: seq<Section>, x: Section)
    ensures Normalized(Insert(s, x, (a, b) => Less(a, b))) == Insert(Normalized(s), Normal(x), (a, b) => Less(a, b))
  {
    if s == [] {
    } else {
      var front, last := s[..|s| - 1], s[|s| - 1];
      NormalInsert(front, x);
      assert Normalized(s)[..|s| - 1] == Normalized(front);
      assert Less(Normal(x), Normal(last)) == Less(x, last);
    }
  }

  /** Normalizing the alignments does not change the order. */
  lemma {:induction false} NormalSort(s: seq<Section>)
    ensures Normalized(Sort(s, (a, b) => Less(a, b))) == Prepared(s)
  {
    if s == [] {
    } else {
      var front := s[..|s| - 1];
      NormalSort(front);
      NormalInsert(Sort(front, (a, b) => Less(a, b)), s[|s| - 1]);
      assert Normalized(s)[..|s| - 1] == Normalized(front);
    }
  }

  /** Sections added in any order are laid out alike, if no two agree in kind, name and ordinal: with the same inputs to
      the layout, Build gives the same answer and the same image. */
  lemma OrderFree(a: seq<Section>, b: seq<Section>)
    requires DistinctKeys(a) && multiset(a) == multiset(b)
    ensures Prepared(a) == Prepared(b)
  {
    LessIsStrictWeak();
    DistinctSeparates(a);
    SortOrderFree(a, b, (x, y) => Less(x, y));
    NormalSort(a);
    NormalSort(b);
  }

  /** The kinds in the order in which they are laid out. */
  const KINDS := [Unknown, Code, ReadOnlyData, Data, Bss, Tls, Debug]

  predicate KindBefore(a: Kind, b: Kind) {
    exists p, q :: 0 <= p < q < |KINDS| && KINDS[p] == a && KINDS[q] == b
  }

  lemma RanksAre(a: Kind, b: Kind)
    ensures KindBefore(a, b) <==> Rank(a) < Rank(b)
  {
    assert KINDS[Rank(a)] == a && KINDS[Rank(b)] == b;
  }

  /** Byte by byte: at the first difference, or where one name ends. */
  predicate Alphabetical(a: seq<Byte>, b: seq<Byte>) {
    exists k :: 0 <= k <= |a| && DiffersAt(a, b, k)
  }

  predicate DiffersAt(a: seq<Byte>, b: seq<Byte>, k: nat)
    requires k <= |a|
  {
    k < |b| && a[..k] == b[..k] && (k == |a| || a[k] < b[k])
  }

  lemma TakeNext(a: seq<Byte>, k: nat)
    requires k < |a|
    ensures a[..k + 1] == [a[0]] + a[1..][..k] && a[..k + 1][1..] == a[1..][..k]
  {
  }

  lemma DiffersNext(a: seq<Byte>, b: seq<Byte>, k: nat)
    requires k < |a| && b != [] && a[0] == b[0]
    ensures DiffersAt(a[1..], b[1..], k) <==> DiffersAt(a, b, k + 1)
  {
    if k + 1 < |b| {
      TakeNext(a, k);
      TakeNext(b, k);
    }
  }

  lemma {:induction false} NamesAreAlphabetical(a: seq<Byte>, b: seq<Byte>)
    ensures NameLess(a, b) <==> Alphabetical(a, b)
  {
    if a == [] {
      assert DiffersAt(a, b, 0) <==> b != [];
    } else if b == [] || a[0] != b[0] {
      assert DiffersAt(a, b, 0) <==> NameLess(a, b);
      assert forall k :: 0 < k <= |a| && DiffersAt(a, b, k) ==> a[..k][0] == b[..k][0];
    } else {
      NamesAreAlphabetical(a[1..], b[1..]);
      forall k | 0 <= k < |a| ensures DiffersAt(a[1..], b[1..], k) <==> DiffersAt(a, b, k + 1) {
        DiffersNext(a, b, k);
      }
      assert !DiffersAt(a, b, 0);
      hide DiffersAt;
      if Alphabetical(a, b) {
        var k :| 0 <= k <= |a| && DiffersAt(a, b, k);
        assert DiffersAt(a[1..], b[1..], k - 1);
      }
      if Alphabetical(a[1..], b[1..]) {
        var k :| 0 <= k <= |a| - 1 && DiffersAt(a[1..], b[1..], k);
        assert DiffersAt(a, b, k + 1);
      }
    }
  }

  /** What is laid out stands in the order of the kinds; those of a kind by their names, and those of a name by their
      ordinals. */
  lemma PreparedInOrder(inputs: seq<Section>, i: nat, j: nat)
    requires i < j < |Prepared(inputs)|
    ensures var a, b := Prepared(inputs)[i], Prepared(inputs)[j];
            && (a.kind != b.kind ==> KindBefore(a.kind, b.kind))
            && (a.kind == b.kind && a.name != b.name ==> Alphabetical(a.name, b.name))
            && (a.kind == b.kind && a.name == b.name ==> a.ordinal <= b.ordinal)
  {
    PreparedIs(inputs);
    var a, b := Prepared(inputs)[i], Prepared(inputs)[j];
    assert !Less(b, a);
    hide Prepared, NameLess, Sorted, KindBefore, Rank, Alphabetical;
    RanksAre(a.kind, b.kind);
    RankOrder(a.kind, b.kind);
    NamesAreAlphabetical(a.name, b.name);
    NameTotal(a.name, b.name);
  }

  /** A normal section has an alignment, is placed where the section would be, and is otherwise the same. */
  lemma NormalIs(s: Section, at: nat)
    ensures Normal(s).alignment >= 1 && Normal(s).(alignment := s.alignment) == s
    ensures Ceiling(at, Normal(s).alignment) == Ceiling(at, s.alignment)
  {
  }

  /** What the image says of a section: its own data, with an offset at which it is aligned, and behind which the next
      one begins no earlier than it ends. */
  lemma EntryIsPlaced(sections: seq<Section>, base: nat, n: nat, i: nat)
    requires i < n <= |sections| && Fits(sections, base, n)
    ensures var e, s := Entries(sections, base, n)[i], sections[i];
            && e.name == s.name && e.kind == s.kind && e.size == s.size && e.alignment == s.alignment
            && base <= e.offset && Aligned(e.offset, e.alignment)
            && (i + 1 < n ==> e.offset + e.size <= Entries(sections, base, n)[i + 1].offset)
  {
    hide Start, Aligned;
    SectionIsPlaced(sections, base, i);
    if i + 1 < n {
      LayoutIsOrdered(sections, base, i, i + 1);
    }
  }

  /** What is laid out are the inputs with normal alignments, each once, in the order of the comparison. */
  lemma PreparedIs(inputs: seq<Section>)
    ensures multiset(Prepared(inputs)) == multiset(Normalized(inputs)) && Sorted(Prepared(inputs), (a, b) => Less(a, b))
  {
    LessIsStrictWeak();
    SortKeepsAll(Normalized(inputs), (a, b) => Less(a, b));
    SortSorts(Normalized(inputs), (a, b) => Less(a, b));
  }
}
