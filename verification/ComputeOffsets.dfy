/** The second offset pass of olnk, over a list that is already sorted; it does not check the alignment step for
    wrap-around. */
module ComputeOffsets {
  import opened Alignment
  import opened Basics
  import opened OutputLayout

  datatype Slot = Slot(size: Word, alignment: Word, offset: Word)

  function Aligning(s: Slot): Word {
    if s.alignment == 0 then 1 else s.alignment
  }

  /** Where the pass puts slot n, and where its cursor is after n slots, in 64-bit words. */
  function Place(slots: seq<Slot>, base: Word, n: nat): Word
    requires n < |slots|
  {
    AlignUp(Cursor(slots, base, n), Aligning(slots[n]))
  }

  function Cursor(slots: seq<Slot>, base: Word, n: nat): Word
    requires n <= |slots|
  {
    if n == 0 then base else Plus(AlignUp(Cursor(slots, base, n - 1), Aligning(slots[n - 1])), slots[n - 1].size)
  }

  /** No size takes the cursor past 2^64, for the first n slots. */
  predicate SizesFit(slots: seq<Slot>, base: Word, n: nat)
    requires n <= |slots|
  {
    forall i :: 0 <= i < n ==> Cursor(slots, base, i + 1) >= Place(slots, base, i)
  }

  function Placed(slots: seq<Slot>, base: Word, n: nat): Slot
    requires n < |slots|
  {
    Slot(slots[n].size, Aligning(slots[n]), Place(slots, base, n))
  }

  /** A slot keeps its size, and its alignment, or has one of 1; without one it goes right behind the slot before it. */
  lemma SlotKeeps(slots: seq<Slot>, base: Word, n: nat)
    requires n < |slots|
    ensures var p := Placed(slots, base, n);
            && p.size == slots[n].size && p.offset == Place(slots, base, n)
            && (slots[n].alignment >= 1 ==> p.alignment == slots[n].alignment)
            && (slots[n].alignment <= 1 ==> p.alignment == 1 && p.offset == Cursor(slots, base, n))
  {
  }

  /** compute_offsets. */
  method ComputeOffsets(slots: array<Slot>, base: Word) returns (ok: bool)
    modifies slots
    ensures ok == SizesFit(old(slots[..]), base, slots.Length)
    ensures ok ==> forall n :: 0 <= n < slots.Length ==> slots[n] == Placed(old(slots[..]), base, n)
  {
    hide AlignUp, Plus;
    ghost var was := slots[..];
    var cursor := base;
    for n := 0 to slots.Length
      invariant cursor == Cursor(was, base, n) && SizesFit(was, base, n)
      invariant forall i :: 0 <= i < n ==> slots[i] == Placed(was, base, i)
      invariant forall i :: n <= i < slots.Length ==> slots[i] == was[i]
    {
      var slot := slots[n];
      if slot.alignment == 0 {
        slot := slot.(alignment := 1);
      }
      cursor := AlignUp(cursor, slot.alignment);
      slot := slot.(offset := cursor);
      slots[n] := slot;
      cursor := Plus(cursor, slot.size);
      if cursor < slot.offset {
        assert Cursor(was, base, n + 1) < Place(was, base, n);
        return false;
      }
    }
    return true;
  }

  // ---------- against the builder ----------

  /** The slots have the sizes and alignments of the sections. */
  predicate SameShape(slots: seq<Slot>, sections: seq<Section>) {
    && |slots| == |sections|
    && forall n :: 0 <= n < |slots| ==> slots[n].size == sections[n].size && slots[n].alignment == sections[n].alignment
  }

  /** No alignment takes the cursor past 2^64. */
  predicate AlignmentsFit(slots: seq<Slot>, base: Word, n: nat)
    requires n <= |slots|
  {
    forall i :: 0 <= i < n ==> Place(slots, base, i) >= Cursor(slots, base, i)
  }

  lemma AlignOne(value: Word, s: Slot)
    ensures AlignUp(value, Aligning(s)) == AlignUp(value, s.alignment)
    ensures Ceiling(value, Aligning(s)) == Ceiling(value, s.alignment)
  {
  }

  /** As long as neither step wraps, the pass follows the unbounded layout; and that is exactly as long as the layout
      ends below 2^64. */
  lemma {:induction false} Follows(slots: seq<Slot>, sections: seq<Section>, base: Word, n: nat)
    requires SameShape(slots, sections) && n <= |slots|
    ensures End(sections, base, n) < U64 <==> SizesFit(slots, base, n) && AlignmentsFit(slots, base, n)
    ensures End(sections, base, n) < U64 ==> Cursor(slots, base, n) == End(sections, base, n)
  {
    hide AlignUp, Plus, Ceiling, Aligning;
    if n == 0 {
    } else {
      Follows(slots, sections, base, n - 1);
      StepGrows(sections, base, n - 1);
      EndGrows(sections, base, n - 1, n);
      FitsGrow(slots, base, n - 1);
      var cursor, s := Cursor(slots, base, n - 1), slots[n - 1];
      AlignOne(cursor, s);
      AlignWraps(cursor, s.alignment);
      PlusIs(AlignUp(cursor, s.alignment), s.size);
    }
  }

  lemma FitsGrow(slots: seq<Slot>, base: Word, n: nat)
    requires n < |slots|
    ensures SizesFit(slots, base, n + 1) <==> SizesFit(slots, base, n) && Cursor(slots, base, n + 1) >= Place(slots, base, n)
    ensures AlignmentsFit(slots, base, n + 1) <==> AlignmentsFit(slots, base, n) && Place(slots, base, n) >= Cursor(slots, base, n)
  {
    hide Cursor, Place;
  }

  /** When the builder succeeds, so does the pass, with the same offsets. */
  lemma AgreesWithBuild(slots: seq<Slot>, sections: seq<Section>, base: Word)
    requires SameShape(slots, sections) && End(sections, base, |sections|) < U64
    ensures SizesFit(slots, base, |slots|)
    ensures forall n :: 0 <= n < |slots| ==> Place(slots, base, n) == Start(sections, base, n)
  {
    hide AlignUp, Plus, Ceiling, Aligning;
    Follows(slots, sections, base, |slots|);
    forall n | 0 <= n < |slots| ensures Place(slots, base, n) == Start(sections, base, n) {
      StepGrows(sections, base, n);
      EndGrows(sections, base, n, |sections|);
      Follows(slots, sections, base, n);
      AlignOne(Cursor(slots, base, n), slots[n]);
      AlignWraps(Cursor(slots, base, n), slots[n].alignment);
    }
  }

  /** When the pass succeeds, the builder does exactly if no alignment step wrapped around. */
  lemma MissesExactlyTheWraps(slots: seq<Slot>, sections: seq<Section>, base: Word)
    requires SameShape(slots, sections) && SizesFit(slots, base, |slots|)
    ensures End(sections, base, |sections|) < U64 <==> AlignmentsFit(slots, base, |slots|)
  {
    Follows(slots, sections, base, |slots|);
  }

  /** One that does: the pass succeeds with an offset before the base, and the builder fails. */
  lemma MissesOne(name: seq<Byte>)
    ensures var slots, base := [Slot(1, 16, 0)], U64 - 1;
            && SizesFit(slots, base, 1) && Place(slots, base, 0) < base
            && End([Section(name, Data, 1, 16, 0)], base, 1) >= U64
  {
    var slots, base := [Slot(1, 16, 0)], U64 - 1;
    assert Cursor(slots, base, 0) == base;
    assert Place(slots, base, 0) == 0;
    assert Cursor(slots, base, 1) == 1;
    assert End([Section(name, Data, 1, 16, 0)], base, 0) == base;
  }
}
