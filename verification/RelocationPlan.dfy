/** The olnk relocation planner: a deterministic order, and exact 64-bit results. */
module RelocationPlan {
  import opened Basics
  import opened StableSort

  type Signed = a: int | -I64 <= a < I64

  datatype Kind = NoReloc | Absolute | PcRelative | Got | Plt

  datatype Status = Applied | SkippedUnsupported | InvalidInput | Overflow

  datatype Record = Record(kind: Kind, offset: Word, addend: Signed, target: Word, ordinal: nat)

  datatype Result = Result(offset: Word, status: Status, value: Word)

  // ---------- the order ----------

  function Rank(k: Kind): nat {
    match k
    case NoReloc => 0
    case Absolute => 1
    case PcRelative => 2
    case Got => 3
    case Plt => 4
  }

  predicate Less(a: Record, b: Record) {
    if a.offset != b.offset then a.offset < b.offset
    else if a.kind != b.kind then Rank(a.kind) < Rank(b.kind)
    else a.ordinal < b.ordinal
  }

  function Ordered(records: seq<Record>): seq<Record> {
    Sort(records, (a, b) => Less(a, b))
  }

  class Planner {
    var records: seq<Record>

    constructor ()
      ensures records == []
    {
      records := [];
    }

    method Add(record: Record)
      modifies this
      ensures records == old(records) + [record]
    {
      records := records + [record];
    }

    method FinalizeOrder()
      modifies this
      ensures records == Ordered(old(records))
    {
      records := Sort(records, (a, b) => Less(a, b));
    }
  }

  lemma RankSplits(a: Kind, b: Kind)
    ensures a == b <==> Rank(a) == Rank(b)
  {
  }

  lemma LessIsStrictWeak()
    ensures StrictWeak((a, b) => Less(a, b))
  {
    forall x, y, z ensures Less(x, y) && Less(y, z) ==> Less(x, z) {
      RankSplits(x.kind, y.kind);
      RankSplits(y.kind, z.kind);
    }
    forall x, y, z ensures Less(x, z) ==> Less(x, y) || Less(y, z) {
      RankSplits(x.kind, y.kind);
      RankSplits(y.kind, z.kind);
    }
  }

  /** No two records agree in offset, kind and ordinal. */
  ghost predicate DistinctKeys(records: seq<Record>) {
    forall i, j :: 0 <= i < |records| && 0 <= j < |records| && i != j ==>
      !(records[i].offset == records[j].offset && records[i].kind == records[j].kind && records[i].ordinal == records[j].ordinal)
  }

  /** Records added in any order come out alike, if no two agree in offset, kind and ordinal; and they come out each
      once, sorted. */
  lemma OrderFree(a: seq<Record>, b: seq<Record>)
    requires DistinctKeys(a) && multiset(a) == multiset(b)
    ensures Ordered(a) == Ordered(b)
    ensures multiset(Ordered(a)) == multiset(a) && Sorted(Ordered(a), (x, y) => Less(x, y))
  {
    LessIsStrictWeak();
    SortKeepsAll(a, (x, y) => Less(x, y));
    SortSorts(a, (x, y) => Less(x, y));
    forall x, y | x in a && y in a && x != y ensures Less(x, y) || Less(y, x) {
      var i :| 0 <= i < |a| && a[i] == x;
      var j :| 0 <= j < |a| && a[j] == y;
      RankSplits(x.kind, y.kind);
    }
    SortOrderFree(a, b, (x, y) => Less(x, y));
  }

  const KINDS := [NoReloc, Absolute, PcRelative, Got, Plt]

  predicate KindBefore(a: Kind, b: Kind) {
    exists p, q :: 0 <= p < q < |KINDS| && KINDS[p] == a && KINDS[q] == b
  }

  /** They come out by their offsets; those of one offset in the order of the kinds; and those of a kind by their
      ordinals. */
  lemma OrderedByOffset(records: seq<Record>, i: nat, j: nat)
    requires i < j < |Ordered(records)|
    ensures var a, b := Ordered(records)[i], Ordered(records)[j];
            && a.offset <= b.offset
            && (a.offset == b.offset && a.kind != b.kind ==> KindBefore(a.kind, b.kind))
            && (a.offset == b.offset && a.kind == b.kind ==> a.ordinal <= b.ordinal)
  {
    LessIsStrictWeak();
    SortSorts(records, (x, y) => Less(x, y));
    var a, b := Ordered(records)[i], Ordered(records)[j];
    assert !Less(b, a);
    assert KINDS[Rank(a.kind)] == a.kind && KINDS[Rank(b.kind)] == b.kind;
    RankSplits(a.kind, b.kind);
  }

  // ---------- the results ----------

  /** The cast of the negated addend: the negation of the least one does not fit, and what it gives is left open. */
  function Magnitude(addend: Signed, ofLeast: Word): Word
    requires addend < 0
  {
    if addend == -I64 then ofLeast else -addend
  }

  /** apply_single. */
  function ApplySingle(r: Record, place: Word, ofLeast: Word): Result {
    if r.kind.NoReloc? then Result(r.offset, SkippedUnsupported, 0)
    else if r.addend >= 0 && r.target > U64 - 1 - r.addend then Result(r.offset, Overflow, 0)
    else if r.addend < 0 && r.target < Magnitude(r.addend, ofLeast) then Result(r.offset, Overflow, 0)
    else
      var value := if r.addend >= 0 then r.target + r.addend else r.target - Magnitude(r.addend, ofLeast);
      if r.kind.PcRelative? && value < place then Result(r.offset, Overflow, value)
      else Result(r.offset, Applied, if r.kind.PcRelative? then value - place else value)
  }

  /** One record of apply_relocations: the place is computed with wrap-around. */
  function Apply(r: Record, base: Word, ofLeast: Word): Result {
    var place := (base + r.offset) % U64;
    if place < base then Result(r.offset, Overflow, 0) else ApplySingle(r, place, ofLeast)
  }

  method ApplyRelocations(records: seq<Record>, base: Word, ofLeast: Word) returns (results: seq<Result>)
    ensures |results| == |records|
    ensures forall n :: 0 <= n < |records| ==> results[n] == Apply(records[n], base, ofLeast)
  {
    hide ApplySingle;
    results := [];
    for n := 0 to |records|
      invariant |results| == n
      invariant forall i :: 0 <= i < n ==> results[i] == Apply(records[i], base, ofLeast)
    {
      var place := (base + records[n].offset) % U64;
      if place < base {
        results := results + [Result(records[n].offset, Overflow, 0)];
        continue;
      }
      results := results + [ApplySingle(records[n], place, ofLeast)];
    }
  }

  /** The exact value that a record asks for. */
  function Exact(r: Record, base: Word): int {
    r.target + r.addend - (if r.kind.PcRelative? then base + r.offset else 0)
  }

  predicate IsWord(x: int) {
    0 <= x < U64
  }

  lemma PlaceWraps(base: Word, offset: Word)
    ensures (base + offset) % U64 < base <==> base + offset >= U64
    ensures base + offset < U64 ==> (base + offset) % U64 == base + offset
  {
  }

  /** A record is applied exactly if it is one that is supported and its place, its target with the addend, and for
      a pc-relative one the distance are all words; and then the result is the exact value. Otherwise it is
      skipped or reported as an overflow, with no value unless only the distance does not fit. */
  lemma AppliedIsExact(r: Record, base: Word, ofLeast: Word)
    requires r.addend > -I64
    ensures var a := Apply(r, base, ofLeast);
            && a.offset == r.offset
            && (a.status == Applied <==> !r.kind.NoReloc? && IsWord(base + r.offset) && IsWord(r.target + r.addend)
                                         && IsWord(Exact(r, base)))
            && (a.status == Applied ==> a.value == Exact(r, base))
            && (a.status == SkippedUnsupported <==> r.kind.NoReloc? && IsWord(base + r.offset))
            && (a.status == SkippedUnsupported ==> a.value == 0)
            && (a.status == Overflow ==>
                  a.value == if IsWord(base + r.offset) && IsWord(r.target + r.addend) then r.target + r.addend else 0)
            && a.status != InvalidInput
  {
    PlaceWraps(base, r.offset);
  }

  /** The negation of the least addend does not fit. Where it wraps around to itself, as in two's complement, the results
      are exact as well. */
  lemma LeastAddend(r: Record, base: Word)
    requires r.addend == -I64
    ensures var a := Apply(r, base, I64);
            && (a.status == Applied <==> !r.kind.NoReloc? && IsWord(base + r.offset) && IsWord(r.target + r.addend)
                                         && IsWord(Exact(r, base)))
            && (a.status == Applied ==> a.value == Exact(r, base))
  {
    PlaceWraps(base, r.offset);
  }
}
