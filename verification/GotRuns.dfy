/** Whole runs of the ARC GOT allocator: the slots tile the growth of .got, and the space reserved for dynamic
    relocations suffices. */
module GotRuns {
  import opened ArcGot
  import opened Basics

  /** A slot of .got: one entry of one list. */
  datatype Slot = Slot(key: Key, kind: TlsType)

  function Words(kind: TlsType): nat {
    if kind.GotTlsGd? then 2 else 1
  }

  /** How many relocations are reserved for a slot. */
  function Reserved(info: Info, slot: Slot): nat {
    match slot.kind
    case GotNormal => if info.pic || slot.key.Global? then 1 else 0
    case GotTlsGd => 2
    case _ => 1
  }

  function ExistingFor(kind: TlsType): Existing {
    if kind.GotNormal? then TlsNone else if kind.GotTlsGd? then TlsModAndOff else TlsOff
  }

  /** The words of the first n slots. */
  function Before(order: seq<Slot>, n: nat): nat
    requires n <= |order|
  {
    if n == 0 then 0 else Before(order, n - 1) + Words(order[n - 1].kind)
  }

  function ReservedFor(info: Info, order: seq<Slot>, n: nat): nat
    requires n <= |order|
  {
    if n == 0 then 0 else ReservedFor(info, order, n - 1) + Reserved(info, order[n - 1])
  }

  // ---------- the invariant ----------

  predicate OnePerType(list: seq<Entry>) {
    forall i, j :: 0 <= i < j < |list| ==> list[i].kind != list[j].kind
  }

  /** The list of a slot's symbol has its entry, with this offset. */
  predicate Placed(s: State, slot: Slot, offset: nat) {
    exists i :: 0 <= i < |ListOf(s, slot.key)| && IsEntry(ListOf(s, slot.key)[i], slot.kind, offset)
  }

  predicate IsEntry(e: Entry, kind: TlsType, offset: nat) {
    e.kind == kind && e.offset == offset && e.existing == ExistingFor(kind)
  }

  predicate Created(s: State, slot: Slot) {
    exists i :: 0 <= i < |ListOf(s, slot.key)| && IsCreated(ListOf(s, slot.key)[i], slot.kind)
  }

  predicate IsCreated(e: Entry, kind: TlsType) {
    e.kind == kind && e.created
  }

  predicate Distinct(order: seq<Slot>) {
    forall i, j :: 0 <= i < j < |order| ==> order[i] != order[j]
  }

  ghost predicate TypesOk(s: State) {
    forall key :: OnePerType(ListOf(s, key))
  }

  ghost predicate EntriesOk(s: State, order: seq<Slot>) {
    forall key, i :: 0 <= i < |ListOf(s, key)| ==> Slot(key, ListOf(s, key)[i].kind) in order
  }

  ghost predicate OffsetsOk(base: nat, s: State, order: seq<Slot>) {
    forall n :: 0 <= n < |order| ==> Placed(s, order[n], OffsetOf(base, order, n))
  }

  function OffsetOf(base: nat, order: seq<Slot>, n: nat): nat
    requires n <= |order|
  {
    base + SLOT * Before(order, n)
  }

  /** Each list has at most one entry of a type, and its entries are the slots in the order of their allocation. */
  ghost predicate ListsOk(base: nat, s: State, order: seq<Slot>) {
    TypesOk(s) && EntriesOk(s, order) && OffsetsOk(base, s, order) && Distinct(order)
  }

  /** The slots and the reserved space are the growth of the two sections. */
  ghost predicate SizesOk(info: Info, base: nat, rbase: nat, s: State, order: seq<Slot>) {
    && s.got == OffsetOf(base, order, |order|)
    && s.rela == rbase + RELA * ReservedFor(info, order, |order|)
  }

  // ---------- reserving keeps it ----------

  /** What a reservation that succeeds does, if the list has no entry of the type yet. */
  lemma FillAdds(info: Info, s: State, key: Key, kind: TlsType, recorded: Option<Sym>)
    requires Fill(info, s, key, kind, recorded).0 && !HasType(ListOf(s, key), kind)
    ensures var r := Fill(info, s, key, kind, recorded).1;
            && !kind.GotUnknown?
            && r.got == s.got + SLOT * Words(kind)
            && r.rela == s.rela + RELA * Reserved(info, Slot(key, kind))
            && r.lists == s.lists[key := ListOf(s, key) + [Entry(kind, s.got, false, ExistingFor(kind))]]
            && r.relas == s.relas
  {
  }

  /** A global symbol that is neither dynamic nor forced to be local. */
  predicate Undecided(s: State, key: Key) {
    key.Global? && (key.id in s.syms ==> s.syms[key.id].dynindx == -1 && !s.syms[key.id].forcedLocal)
  }

  /** A request fails exactly if its type is unknown or an undecided symbol cannot be recorded, and then no word of .got is
      taken, but space for a relocation may be; if it succeeds, an undecided symbol is as it was recorded. No other changes. */
  lemma FillDecides(info: Info, s: State, key: Key, kind: TlsType, recorded: Option<Sym>)
    requires !HasType(ListOf(s, key), kind)
    ensures var (ok, t) := Fill(info, s, key, kind, recorded);
            && (ok <==> !kind.GotUnknown? && (Undecided(s, key) ==> recorded.Some?))
            && (!ok ==> t == s.(rela := s.rela + (if Reserved(info, Slot(key, kind)) > 0 && !kind.GotUnknown? then RELA else 0)))
            && (ok && Undecided(s, key) ==> t.syms == s.syms[key.id := recorded.value])
            && (ok && !Undecided(s, key) ==> t.syms == s.syms)
  {
  }

  /** A repeated request changes nothing, and every request is a repeated one from then on. */
  lemma FillOnce(info: Info, s: State, key: Key, kind: TlsType, recorded: Option<Sym>, again: Option<Sym>)
    requires Fill(info, s, key, kind, recorded).0
    ensures var t := Fill(info, s, key, kind, recorded).1;
            HasType(ListOf(t, key), kind) && Fill(info, t, key, kind, again) == (true, t)
  {
    if !HasType(ListOf(s, key), kind) {
      FillAdds(info, s, key, kind, recorded);
      var t := Fill(info, s, key, kind, recorded).1;
      assert ListOf(t, key)[|ListOf(s, key)|].kind == kind;
    }
  }

  lemma {:induction false} BeforeSame(a: seq<Slot>, b: seq<Slot>, n: nat)
    requires n <= |a| && n <= |b| && a[..n] == b[..n]
    ensures Before(a, n) == Before(b, n)
  {
    if n == 0 {
    } else {
      assert a[..n - 1] == a[..n][..n - 1] && b[..n - 1] == b[..n][..n - 1];
      assert a[n - 1] == a[..n][n - 1] && b[n - 1] == b[..n][n - 1];
      BeforeSame(a, b, n - 1);
    }
  }

  lemma {:induction false} ReservedSame(info: Info, a: seq<Slot>, b: seq<Slot>, n: nat)
    requires n <= |a| && n <= |b| && a[..n] == b[..n]
    ensures ReservedFor(info, a, n) == ReservedFor(info, b, n)
  {
    if n == 0 {
    } else {
      assert a[..n - 1] == a[..n][..n - 1] && b[..n - 1] == b[..n][..n - 1];
      assert a[n - 1] == a[..n][n - 1] && b[n - 1] == b[..n][n - 1];
      ReservedSame(info, a, b, n - 1);
    }
  }

  /** Adding a slot at the end moves no other. */
  lemma SlotAdded(info: Info, order: seq<Slot>, slot: Slot)
    ensures var more := order + [slot];
            && Before(more, |more|) == Before(order, |order|) + Words(slot.kind)
            && ReservedFor(info, more, |more|) == ReservedFor(info, order, |order|) + Reserved(info, slot)
            && forall n :: 0 <= n <= |order| ==> Before(more, n) == Before(order, n)
  {
    var more := order + [slot];
    forall n | 0 <= n <= |order| ensures Before(more, n) == Before(order, n) {
      assert more[..n] == order[..n];
      BeforeSame(more, order, n);
    }
    assert more[..|order|] == order[..|order|];
    ReservedSame(info, more, order, |order|);
  }

  lemma FillKeepsSizes(info: Info, base: nat, rbase: nat, s: State, order: seq<Slot>, key: Key, kind: TlsType,
                       recorded: Option<Sym>)
    requires SizesOk(info, base, rbase, s, order)
    requires Fill(info, s, key, kind, recorded).0 && !HasType(ListOf(s, key), kind)
    ensures SizesOk(info, base, rbase, Fill(info, s, key, kind, recorded).1, order + [Slot(key, kind)])
  {
    hide Fill, HasType, Before, ReservedFor;
    FillAdds(info, s, key, kind, recorded);
    SlotAdded(info, order, Slot(key, kind));
  }

  /** t is s with an entry added at the end of one list that had none of its type. */
  ghost predicate Added(s: State, t: State, key: Key, e: Entry) {
    && !HasType(ListOf(s, key), e.kind)
    && t.lists == s.lists[key := ListOf(s, key) + [e]]
  }

  lemma AddedLists(s: State, t: State, key: Key, e: Entry)
    requires Added(s, t, key, e)
    ensures ListOf(t, key) == ListOf(s, key) + [e]
    ensures forall k :: k != key ==> ListOf(t, k) == ListOf(s, k)
  {
  }

  lemma AddedTypes(s: State, t: State, key: Key, e: Entry)
    requires Added(s, t, key, e) && TypesOk(s)
    ensures TypesOk(t)
  {
    hide ListOf;
    AddedLists(s, t, key, e);
    forall k ensures OnePerType(ListOf(t, k)) {
      assert OnePerType(ListOf(s, k));
    }
  }

  lemma AddedEntries(s: State, t: State, key: Key, e: Entry, order: seq<Slot>)
    requires Added(s, t, key, e) && EntriesOk(s, order)
    ensures EntriesOk(t, order + [Slot(key, e.kind)])
  {
    hide ListOf, HasType;
    AddedLists(s, t, key, e);
    var more := order + [Slot(key, e.kind)];
    forall k, i | 0 <= i < |ListOf(t, k)| ensures Slot(k, ListOf(t, k)[i].kind) in more {
      if k != key || i < |ListOf(s, key)| {
        assert ListOf(t, k)[i] == ListOf(s, k)[i];
        assert Slot(k, ListOf(s, k)[i].kind) in order;
      } else {
        assert more[|order|] == Slot(key, e.kind);
      }
    }
  }

  lemma AddedOffsets(base: nat, s: State, t: State, key: Key, e: Entry, order: seq<Slot>)
    requires Added(s, t, key, e) && OffsetsOk(base, s, order)
    requires IsEntry(e, e.kind, OffsetOf(base, order, |order|))
    ensures OffsetsOk(base, t, order + [Slot(key, e.kind)])
  {
    hide ListOf, HasType, Placed, Before;
    AddedLists(s, t, key, e);
    var more := order + [Slot(key, e.kind)];
    SlotAdded(Info(false, false), order, Slot(key, e.kind));
    forall n | 0 <= n < |more| ensures Placed(t, more[n], OffsetOf(base, more, n)) {
      if n < |order| {
        assert Placed(s, order[n], OffsetOf(base, order, n));
        StillPlaced(s, t, key, order[n], OffsetOf(base, order, n));
      } else {
        LastPlaced(t, key, ListOf(s, key), e, OffsetOf(base, order, n));
      }
    }
  }

  lemma LastPlaced(t: State, key: Key, list: seq<Entry>, e: Entry, offset: nat)
    requires ListOf(t, key) == list + [e] && IsEntry(e, e.kind, offset)
    ensures Placed(t, Slot(key, e.kind), offset)
  {
    assert ListOf(t, key)[|list|] == e;
  }

  lemma AddedDistinct(base: nat, s: State, key: Key, kind: TlsType, order: seq<Slot>)
    requires OffsetsOk(base, s, order) && Distinct(order) && !HasType(ListOf(s, key), kind)
    ensures Distinct(order + [Slot(key, kind)])
  {
    hide ListOf, Before, OffsetOf;
    forall n | 0 <= n < |order| ensures order[n] != Slot(key, kind) {
      assert Placed(s, order[n], OffsetOf(base, order, n));
    }
  }

  lemma FillKeepsLists(info: Info, base: nat, s: State, order: seq<Slot>, key: Key, kind: TlsType, recorded: Option<Sym>)
    requires ListsOk(base, s, order) && s.got == OffsetOf(base, order, |order|)
    requires Fill(info, s, key, kind, recorded).0 && !HasType(ListOf(s, key), kind)
    ensures ListsOk(base, Fill(info, s, key, kind, recorded).1, order + [Slot(key, kind)])
  {
    hide Fill, OffsetOf, TypesOk, EntriesOk, OffsetsOk, Distinct, ListOf, HasType;
    FillAdds(info, s, key, kind, recorded);
    var t, e := Fill(info, s, key, kind, recorded).1, Entry(kind, s.got, false, ExistingFor(kind));
    AddedTypes(s, t, key, e);
    AddedEntries(s, t, key, e, order);
    AddedOffsets(base, s, t, key, e, order);
    AddedDistinct(base, s, key, kind, order);
  }

  lemma StillPlaced(s: State, t: State, key: Key, slot: Slot, offset: nat)
    requires Placed(s, slot, offset) && |ListOf(s, key)| <= |ListOf(t, key)|
    requires ListOf(s, key) == ListOf(t, key)[..|ListOf(s, key)|]
    requires forall k :: k != key ==> ListOf(t, k) == ListOf(s, k)
    ensures Placed(t, slot, offset)
  {
    var i :| 0 <= i < |ListOf(s, slot.key)| && IsEntry(ListOf(s, slot.key)[i], slot.kind, offset);
    assert ListOf(t, slot.key)[i] == ListOf(s, slot.key)[i];
  }

  // ---------- the slots tile ----------

  lemma {:induction false} Apart(order: seq<Slot>, m: nat, n: nat)
    requires m < n <= |order|
    ensures Before(order, m) + Words(order[m].kind) <= Before(order, n)
  {
    if m + 1 == n {
    } else {
      Apart(order, m, n - 1);
    }
  }

  /** The slot that a word belongs to. */
  lemma {:induction false} Covering(order: seq<Slot>, n: nat, w: nat) returns (m: nat)
    requires n <= |order| && w < Before(order, n)
    ensures m < n && Before(order, m) <= w < Before(order, m) + Words(order[m].kind)
  {
    if w >= Before(order, n - 1) {
      m := n - 1;
    } else {
      m := Covering(order, n - 1, w);
    }
  }

  /** The words that slot n occupies. */
  predicate Occupies(order: seq<Slot>, n: nat, w: nat)
    requires n < |order|
  {
    Before(order, n) <= w < Before(order, n) + Words(order[n].kind)
  }

  /** Every word by which .got has grown belongs to exactly one slot, and no slot reaches beyond. */
  lemma SlotsTile(order: seq<Slot>, w: nat)
    ensures w < Before(order, |order|) <==> exists n :: 0 <= n < |order| && Occupies(order, n, w)
    ensures forall m, n :: 0 <= m < |order| && 0 <= n < |order| && Occupies(order, m, w) && Occupies(order, n, w) ==> m == n
  {
    if w < Before(order, |order|) {
      var m := Covering(order, |order|, w);
      assert Occupies(order, m, w);
    }
    forall n | 0 <= n < |order| && Occupies(order, n, w) ensures w < Before(order, |order|) {
      Apart(order, n, |order|);
    }
    forall m, n | 0 <= m < n < |order| ensures !(Occupies(order, m, w) && Occupies(order, n, w)) {
      Apart(order, m, n);
    }
  }

  // ---------- emitting ----------

  /** The relocations reserved for those of the first n slots whose entries are done. */
  function UsedBy(info: Info, s: State, order: seq<Slot>, n: nat): nat
    requires n <= |order|
  {
    if n == 0 then 0 else UsedBy(info, s, order, n - 1) + (if Created(s, order[n - 1]) then Reserved(info, order[n - 1]) else 0)
  }

  lemma {:induction false} UsedIsReserved(info: Info, s: State, order: seq<Slot>, n: nat)
    requires n <= |order|
    ensures UsedBy(info, s, order, n) <= ReservedFor(info, order, n)
  {
    if n == 0 {
    } else {
      UsedIsReserved(info, s, order, n - 1);
    }
  }

  /** No more relocations than are reserved for the entries that are done. */
  ghost predicate RelasOk(info: Info, s: State, order: seq<Slot>) {
    |s.relas| <= UsedBy(info, s, order, |order|)
  }

  /** One entry gets no more relocations than are reserved for it. */
  lemma OneEntryFits(info: Info, s: State, key: Key, e: Entry)
    requires e.existing == ExistingFor(e.kind)
    ensures |Relocs(info, s, key, e)| <= if e.created then 0 else Reserved(info, Slot(key, e.kind))
    ensures e.kind.GotUnknown? || Marks(e)
  {
  }

  /** s and t have the same lists, but for the mark of one entry that is now done. */
  ghost predicate OneMarked(s: State, t: State, key: Key, i: nat) {
    && i < |ListOf(s, key)|
    && t.lists == s.lists[key := ListOf(s, key)[i := ListOf(s, key)[i].(created := true)]]
  }

  lemma MarkedCreated(s: State, t: State, key: Key, i: nat, slot: Slot)
    requires OneMarked(s, t, key, i) && OnePerType(ListOf(s, key))
    ensures Created(t, slot) <==> Created(s, slot) || slot == Slot(key, ListOf(s, key)[i].kind)
  {
    var a, b := ListOf(s, slot.key), ListOf(t, slot.key);
    assert |a| == |b|;
    if Created(s, slot) {
      var j :| 0 <= j < |a| && IsCreated(a[j], slot.kind);
      assert IsCreated(b[j], slot.kind);
    }
    if slot == Slot(key, ListOf(s, key)[i].kind) {
      assert IsCreated(b[i], slot.kind);
    }
    if Created(t, slot) && !(slot.key == key && ListOf(s, key)[i].kind == slot.kind) {
      var j :| 0 <= j < |b| && IsCreated(b[j], slot.kind);
      assert IsCreated(a[j], slot.kind);
    }
  }

  function NewlyUsed(info: Info, s: State, order: seq<Slot>, slot: Slot): nat {
    if slot in order && !Created(s, slot) then Reserved(info, slot) else 0
  }

  lemma {:induction false} UsedAfterMark(info: Info, s: State, t: State, key: Key, i: nat, order: seq<Slot>, n: nat)
    requires OneMarked(s, t, key, i) && OnePerType(ListOf(s, key)) && Distinct(order) && n <= |order|
    ensures UsedBy(info, t, order, n) == UsedBy(info, s, order, n) + NewlyUsed(info, s, order[..n], Slot(key, ListOf(s, key)[i].kind))
  {
    hide OneMarked, Created, OnePerType;
    if n == 0 {
    } else {
      UsedAfterMark(info, s, t, key, i, order, n - 1);
      MarkedCreated(s, t, key, i, order[n - 1]);
      assert order[..n] == order[..n - 1] + [order[n - 1]];
      assert order[n - 1] !in order[..n - 1];
    }
  }

  lemma {:induction false} UsedUnchanged(info: Info, s: State, t: State, order: seq<Slot>, n: nat)
    requires n <= |order| && forall slot :: Created(s, slot) <==> Created(t, slot)
    ensures UsedBy(info, t, order, n) == UsedBy(info, s, order, n)
  {
    hide Created;
    if n == 0 {
    } else {
      UsedUnchanged(info, s, t, order, n - 1);
    }
  }

  /** A reservation does not touch the marks. */
  lemma AddedCreated(s: State, t: State, key: Key, e: Entry, slot: Slot)
    requires Added(s, t, key, e) && !e.created
    ensures Created(t, slot) <==> Created(s, slot)
  {
    AddedLists(s, t, key, e);
    var a, b := ListOf(s, slot.key), ListOf(t, slot.key);
    assert forall j :: 0 <= j < |a| ==> b[j] == a[j];
  }

  lemma FillKeepsRelas(info: Info, s: State, order: seq<Slot>, key: Key, kind: TlsType, recorded: Option<Sym>)
    requires RelasOk(info, s, order)
    requires Fill(info, s, key, kind, recorded).0 && !HasType(ListOf(s, key), kind)
    ensures RelasOk(info, Fill(info, s, key, kind, recorded).1, order + [Slot(key, kind)])
  {
    hide Fill, HasType, Created, ListOf;
    FillAdds(info, s, key, kind, recorded);
    var t, more := Fill(info, s, key, kind, recorded).1, order + [Slot(key, kind)];
    forall slot ensures Created(s, slot) <==> Created(t, slot) {
      AddedCreated(s, t, key, Entry(kind, s.got, false, ExistingFor(kind)), slot);
    }
    UsedUnchanged(info, s, t, order, |order|);
    UsedSame(info, t, more, order, |order|);
  }

  lemma {:induction false} UsedSame(info: Info, s: State, a: seq<Slot>, b: seq<Slot>, n: nat)
    requires n <= |a| && n <= |b| && forall i :: 0 <= i < n ==> a[i] == b[i]
    ensures UsedBy(info, s, a, n) == UsedBy(info, s, b, n)
  {
    hide Created;
    if n == 0 {
    } else {
      UsedSame(info, s, a, b, n - 1);
    }
  }

  /** A word of slot n that a relocation may fill. */
  predicate WordOf(base: nat, order: seq<Slot>, n: nat, offset: nat)
    requires n < |order|
  {
    offset == OffsetOf(base, order, n) || (order[n].kind.GotTlsGd? && offset == OffsetOf(base, order, n) + SLOT)
  }

  ghost predicate FillsDone(base: nat, s: State, order: seq<Slot>, offset: nat) {
    exists n :: 0 <= n < |order| && Created(s, order[n]) && WordOf(base, order, n, offset)
  }

  /** Every relocation fills a word of a slot whose entry is done, and no two fill the same word. */
  ghost predicate WordsOk(base: nat, s: State, order: seq<Slot>) {
    && (forall a :: 0 <= a < |s.relas| ==> FillsDone(base, s, order, s.relas[a].offset))
    && OncePerWord(s.relas)
  }

  predicate OncePerWord(relas: seq<Rela>) {
    forall a, b :: 0 <= a < b < |relas| ==> relas[a].offset != relas[b].offset
  }

  /** The slot of an entry. */
  lemma EntryOfSlot(base: nat, s: State, order: seq<Slot>, key: Key, i: nat) returns (n: nat)
    requires ListsOk(base, s, order) && i < |ListOf(s, key)|
    ensures n < |order| && order[n] == Slot(key, ListOf(s, key)[i].kind)
    ensures IsEntry(ListOf(s, key)[i], ListOf(s, key)[i].kind, OffsetOf(base, order, n))
  {
    hide ListOf, OffsetOf;
    var e := ListOf(s, key)[i];
    assert Slot(key, e.kind) in order;
    n :| 0 <= n < |order| && order[n] == Slot(key, e.kind);
    assert Placed(s, order[n], OffsetOf(base, order, n));
    var j :| 0 <= j < |ListOf(s, key)| && IsEntry(ListOf(s, key)[j], e.kind, OffsetOf(base, order, n));
    assert OnePerType(ListOf(s, key));
  }

  lemma MarkedKeepsLists(base: nat, s: State, t: State, order: seq<Slot>, key: Key, i: nat)
    requires ListsOk(base, s, order) && OneMarked(s, t, key, i)
    ensures ListsOk(base, t, order)
  {
    MarkedLists(s, t, key, i);
    hide ListOf, OneMarked, OffsetOf, Distinct;
    forall k ensures OnePerType(ListOf(t, k)) {
      assert OnePerType(ListOf(s, k));
    }
    forall k, j | 0 <= j < |ListOf(t, k)| ensures Slot(k, ListOf(t, k)[j].kind) in order {
      assert Slot(k, ListOf(s, k)[j].kind) in order;
    }
    forall n | 0 <= n < |order| ensures Placed(t, order[n], OffsetOf(base, order, n)) {
      assert Placed(s, order[n], OffsetOf(base, order, n));
      var j :| 0 <= j < |ListOf(s, order[n].key)|
               && IsEntry(ListOf(s, order[n].key)[j], order[n].kind, OffsetOf(base, order, n));
      assert IsEntry(ListOf(t, order[n].key)[j], order[n].kind, OffsetOf(base, order, n));
    }
  }

  lemma MarkedLists(s: State, t: State, key: Key, i: nat)
    requires OneMarked(s, t, key, i)
    ensures forall k :: |ListOf(t, k)| == |ListOf(s, k)|
    ensures forall k, j {:trigger ListOf(t, k)[j]} {:trigger ListOf(s, k)[j]} :: 0 <= j < |ListOf(s, k)| ==>
              && ListOf(t, k)[j].kind == ListOf(s, k)[j].kind
              && ListOf(t, k)[j].offset == ListOf(s, k)[j].offset
              && ListOf(t, k)[j].existing == ListOf(s, k)[j].existing
  {
  }

  /** What emitting for an entry that is not done does. */
  lemma EmitOneMarks(info: Info, base: nat, s: State, order: seq<Slot>, key: Key, i: nat) returns (n: nat)
    requires ListsOk(base, s, order) && i < |ListOf(s, key)| && !ListOf(s, key)[i].created && !ListOf(s, key)[i].kind.GotUnknown?
    ensures n < |order| && order[n] == Slot(key, ListOf(s, key)[i].kind) && !Created(s, order[n])
    ensures var t := EmitOne(info, s, key, i);
            && OneMarked(s, t, key, i)
            && t.relas == s.relas + Relocs(info, s, key, ListOf(s, key)[i])
    ensures |Relocs(info, s, key, ListOf(s, key)[i])| <= Reserved(info, order[n])
    ensures NewWords(base, order, n, Relocs(info, s, key, ListOf(s, key)[i]))
  {
    hide TypesOk, EntriesOk, OffsetsOk;
    n := EntryOfSlot(base, s, order, key, i);
    OneEntryFits(info, s, key, ListOf(s, key)[i]);
    assert OnePerType(ListOf(s, key)) by { TypesAt(s, key); }
  }

  lemma TypesAt(s: State, key: Key)
    requires TypesOk(s)
    ensures OnePerType(ListOf(s, key))
  {
  }

  /** The relocations fill words of slot n, each a different one. */
  ghost predicate NewWords(base: nat, order: seq<Slot>, n: nat, relas: seq<Rela>)
    requires n < |order|
  {
    (forall a :: 0 <= a < |relas| ==> WordOf(base, order, n, relas[a].offset)) && OncePerWord(relas)
  }

  lemma WordsApart(base: nat, order: seq<Slot>, m: nat, n: nat, v: nat, w: nat)
    requires m < |order| && n < |order| && m != n && WordOf(base, order, m, v) && WordOf(base, order, n, w)
    ensures v != w
  {
    if m < n {
      Apart(order, m, n);
    } else {
      Apart(order, n, m);
    }
  }

  lemma EmitOneKeepsWords(base: nat, s: State, t: State, order: seq<Slot>, key: Key, i: nat, n: nat, relas: seq<Rela>)
    requires WordsOk(base, s, order) && OneMarked(s, t, key, i) && OnePerType(ListOf(s, key))
    requires n < |order| && order[n] == Slot(key, ListOf(s, key)[i].kind) && !Created(s, order[n])
    requires NewWords(base, order, n, relas) && t.relas == s.relas + relas
    ensures WordsOk(base, t, order)
  {
    hide OneMarked, Created, OnePerType, WordOf, ListOf;
    forall slot ensures Created(t, slot) <==> Created(s, slot) || slot == order[n] {
      MarkedCreated(s, t, key, i, slot);
    }
    forall a | 0 <= a < |t.relas| ensures FillsDone(base, t, order, t.relas[a].offset) {
      if a < |s.relas| {
        assert FillsDone(base, s, order, s.relas[a].offset);
      } else {
        assert WordOf(base, order, n, relas[a - |s.relas|].offset);
      }
    }
    forall a, b | 0 <= a < |s.relas| && 0 <= b < |relas| ensures s.relas[a].offset != relas[b].offset {
      assert FillsDone(base, s, order, s.relas[a].offset);
      var m :| 0 <= m < |order| && Created(s, order[m]) && WordOf(base, order, m, s.relas[a].offset);
      WordsApart(base, order, m, n, s.relas[a].offset, relas[b].offset);
    }
  }

  /** The whole invariant. */
  ghost predicate Inv(info: Info, base: nat, rbase: nat, s: State, order: seq<Slot>) {
    && ListsOk(base, s, order)
    && SizesOk(info, base, rbase, s, order)
    && RelasOk(info, s, order)
    && WordsOk(base, s, order)
    && (forall n :: 0 <= n < |order| ==> !order[n].kind.GotUnknown?)
  }

  lemma FillKeepsWords(info: Info, base: nat, s: State, order: seq<Slot>, key: Key, kind: TlsType, recorded: Option<Sym>)
    requires WordsOk(base, s, order)
    requires Fill(info, s, key, kind, recorded).0 && !HasType(ListOf(s, key), kind)
    ensures WordsOk(base, Fill(info, s, key, kind, recorded).1, order + [Slot(key, kind)])
  {
    hide Fill, HasType, Created, ListOf, WordOf;
    FillAdds(info, s, key, kind, recorded);
    var t, more := Fill(info, s, key, kind, recorded).1, order + [Slot(key, kind)];
    forall a | 0 <= a < |t.relas| ensures FillsDone(base, t, more, t.relas[a].offset) {
      assert FillsDone(base, s, order, s.relas[a].offset);
      var n :| 0 <= n < |order| && Created(s, order[n]) && WordOf(base, order, n, s.relas[a].offset);
      AddedCreated(s, t, key, Entry(kind, s.got, false, ExistingFor(kind)), order[n]);
      SameWord(base, order, Slot(key, kind), n, s.relas[a].offset);
      assert more[n] == order[n];
    }
  }

  lemma SameWord(base: nat, order: seq<Slot>, slot: Slot, n: nat, offset: nat)
    requires n < |order| && WordOf(base, order, n, offset)
    ensures WordOf(base, order + [slot], n, offset)
  {
    SlotAdded(Info(false, false), order, slot);
  }

  /** Reserving keeps the invariant. */
  lemma FillKeeps(info: Info, base: nat, rbase: nat, s: State, order: seq<Slot>, key: Key, kind: TlsType, recorded: Option<Sym>)
    requires Inv(info, base, rbase, s, order)
    requires Fill(info, s, key, kind, recorded).0 && !HasType(ListOf(s, key), kind)
    ensures Inv(info, base, rbase, Fill(info, s, key, kind, recorded).1, order + [Slot(key, kind)])
  {
    hide Fill, HasType, ListOf, ListsOk, RelasOk, WordsOk, OffsetOf;
    FillAdds(info, s, key, kind, recorded);
    FillKeepsLists(info, base, s, order, key, kind, recorded);
    FillKeepsSizes(info, base, rbase, s, order, key, kind, recorded);
    FillKeepsRelas(info, s, order, key, kind, recorded);
    FillKeepsWords(info, base, s, order, key, kind, recorded);
  }

  lemma EmitOneKeepsRelas(info: Info, base: nat, s: State, t: State, order: seq<Slot>, key: Key, i: nat, n: nat, relas: seq<Rela>)
    requires RelasOk(info, s, order) && OneMarked(s, t, key, i) && OnePerType(ListOf(s, key)) && Distinct(order)
    requires n < |order| && order[n] == Slot(key, ListOf(s, key)[i].kind) && !Created(s, order[n])
    requires t.relas == s.relas + relas && |relas| <= Reserved(info, order[n])
    ensures RelasOk(info, t, order)
  {
    hide OneMarked, Created, OnePerType, Distinct, Reserved, ListOf;
    UsedAfterMark(info, s, t, key, i, order, |order|);
    assert order[..|order|] == order;
  }

  /** Emitting for an entry that is done, or that needs none, changes nothing. */
  lemma EmitDone(info: Info, s: State, key: Key, i: nat)
    requires i < |ListOf(s, key)| && ListOf(s, key)[i].created
    ensures EmitOne(info, s, key, i) == s
  {
    assert ListOf(s, key)[i := ListOf(s, key)[i]] == ListOf(s, key);
  }

  /** Emitting keeps the invariant. */
  lemma EmitOneKeeps(info: Info, base: nat, rbase: nat, s: State, order: seq<Slot>, key: Key, i: nat)
    requires Inv(info, base, rbase, s, order) && i < |ListOf(s, key)|
    ensures Inv(info, base, rbase, EmitOne(info, s, key, i), order)
  {
    hide ListsOk, RelasOk, WordsOk, OffsetOf, ListOf, Relocs, Created, OneMarked, Reserved, NewWords;
    if ListOf(s, key)[i].created {
      EmitDone(info, s, key, i);
    } else {
      var n0 := EntryOfSlot(base, s, order, key, i);
      var t := EmitOne(info, s, key, i);
      var n := EmitOneMarks(info, base, s, order, key, i);
      assert OnePerType(ListOf(s, key)) && Distinct(order) by { ListsAt(base, s, order, key); }
      MarkedKeepsLists(base, s, t, order, key, i);
      EmitOneKeepsRelas(info, base, s, t, order, key, i, n, Relocs(info, s, key, ListOf(s, key)[i]));
      EmitOneKeepsWords(base, s, t, order, key, i, n, Relocs(info, s, key, ListOf(s, key)[i]));
    }
  }

  lemma ListsAt(base: nat, s: State, order: seq<Slot>, key: Key)
    requires ListsOk(base, s, order)
    ensures OnePerType(ListOf(s, key)) && Distinct(order)
  {
  }

  // ---------- runs ----------

  /** A request for a GOT entry, with what recording the symbol would give; or the dynamic relocations of a
      symbol's list. */
  datatype Event = Request(key: Key, kind: TlsType, recorded: Option<Sym>) | Finish(key: Key)

  /** One event; a request that fails stops the link. */
  function Step(info: Info, s: State, ev: Event): Option<State> {
    match ev
    case Request(key, kind, recorded) =>
      var (ok, t) := Fill(info, s, key, kind, recorded);
      if ok then Some(t) else None
    case Finish(key) => Some(Emit(info, s, key, |ListOf(s, key)|))
  }

  /** The slots after an event. */
  function SlotsAfter(s: State, order: seq<Slot>, ev: Event): seq<Slot> {
    if ev.Request? && !HasType(ListOf(s, ev.key), ev.kind) then order + [Slot(ev.key, ev.kind)] else order
  }

  function Run(info: Info, s: State, evs: seq<Event>): Option<State>
    decreases |evs|
  {
    if evs == [] then Some(s)
    else
      match Step(info, s, evs[0])
      case None => None
      case Some(t) => Run(info, t, evs[1..])
  }

  lemma {:induction false} EmitKeeps(info: Info, base: nat, rbase: nat, s: State, order: seq<Slot>, key: Key, n: nat)
    requires Inv(info, base, rbase, s, order) && n <= |ListOf(s, key)|
    ensures Inv(info, base, rbase, Emit(info, s, key, n), order)
  {
    hide Inv, EmitOne, ListOf;
    if n == 0 {
    } else {
      EmitKeeps(info, base, rbase, s, order, key, n - 1);
      EmitOneKeeps(info, base, rbase, Emit(info, s, key, n - 1), order, key, n - 1);
    }
  }

  lemma {:induction false} RunKeeps(info: Info, base: nat, rbase: nat, s: State, order: seq<Slot>, evs: seq<Event>)
    returns (slots: seq<Slot>)
    requires Inv(info, base, rbase, s, order) && Run(info, s, evs).Some?
    ensures Inv(info, base, rbase, Run(info, s, evs).value, slots)
    decreases |evs|
  {
    hide Inv, Fill, HasType, Emit, ListOf;
    slots := order;
    if evs == [] {
    } else {
      var t := Step(info, s, evs[0]).value;
      var next := SlotsAfter(s, order, evs[0]);
      match evs[0] {
        case Request(key, kind, recorded) =>
          if HasType(ListOf(s, key), kind) {
            Repeated(info, s, key, kind, recorded);
          } else {
            FillKeeps(info, base, rbase, s, order, key, kind, recorded);
          }
        case Finish(key) =>
          EmitKeeps(info, base, rbase, s, order, key, |ListOf(s, key)|);
      }
      slots := RunKeeps(info, base, rbase, t, next, evs[1..]);
    }
  }

  lemma Repeated(info: Info, s: State, key: Key, kind: TlsType, recorded: Option<Sym>)
    requires HasType(ListOf(s, key), kind)
    ensures Fill(info, s, key, kind, recorded) == (true, s)
  {
  }

  /** A list with entries belongs to a local symbol, or to one that is dynamic or forced to be local. */
  ghost predicate AllDecided(s: State) {
    forall key :: ListOf(s, key) != [] ==> !Undecided(s, key)
  }

  /** Recording a symbol leaves it dynamic or forced to be local. */
  predicate Records(evs: seq<Event>) {
    forall i :: 0 <= i < |evs| && evs[i].Request? && evs[i].recorded.Some? ==>
      evs[i].recorded.value.dynindx != -1 || evs[i].recorded.value.forcedLocal
  }

  lemma FillKeepsDecided(info: Info, s: State, key: Key, kind: TlsType, recorded: Option<Sym>)
    requires AllDecided(s) && Fill(info, s, key, kind, recorded).0
    requires recorded.Some? ==> recorded.value.dynindx != -1 || recorded.value.forcedLocal
    ensures AllDecided(Fill(info, s, key, kind, recorded).1)
  {
    var t := Fill(info, s, key, kind, recorded).1;
    if HasType(ListOf(s, key), kind) {
      Repeated(info, s, key, kind, recorded);
    } else {
      FillAdds(info, s, key, kind, recorded);
      FillDecides(info, s, key, kind, recorded);
      hide Fill, HasType;
      forall other | ListOf(t, other) != [] ensures !Undecided(t, other) {
        assert other != key ==> ListOf(s, other) == ListOf(t, other);
      }
    }
  }

  lemma {:induction false} EmitKeepsDecided(info: Info, s: State, key: Key, n: nat)
    requires AllDecided(s) && n <= |ListOf(s, key)|
    ensures AllDecided(Emit(info, s, key, n))
  {
    hide Relocs, Marks;
    if n == 0 {
    } else {
      EmitKeepsDecided(info, s, key, n - 1);
      var t, u := Emit(info, s, key, n - 1), Emit(info, s, key, n);
      forall other | ListOf(u, other) != [] ensures !Undecided(u, other) {
        assert other != key ==> ListOf(t, other) == ListOf(u, other);
      }
    }
  }

  /** Over any successful run every global symbol that has an entry is dynamic or forced to be local. */
  lemma {:induction false} RunDecides(info: Info, s: State, evs: seq<Event>)
    requires AllDecided(s) && Records(evs) && Run(info, s, evs).Some?
    ensures AllDecided(Run(info, s, evs).value)
    decreases |evs|
  {
    hide AllDecided, Fill, Emit, ListOf;
    if evs == [] {
    } else {
      match evs[0] {
        case Request(key, kind, recorded) => FillKeepsDecided(info, s, key, kind, recorded);
        case Finish(key) => EmitKeepsDecided(info, s, key, |ListOf(s, key)|);
      }
      RunDecides(info, Step(info, s, evs[0]).value, evs[1..]);
    }
  }

  /** Two entries are the same or have slots that do not meet. */
  ghost predicate SlotsApart(s: State) {
    forall key, i, other, j :: 0 <= i < |ListOf(s, key)| && 0 <= j < |ListOf(s, other)| && !(key == other && i == j) ==>
      Disjoint(ListOf(s, key)[i], ListOf(s, other)[j])
  }

  predicate Disjoint(a: Entry, b: Entry) {
    a.offset + SLOT * Words(a.kind) <= b.offset || b.offset + SLOT * Words(b.kind) <= a.offset
  }

  /** An entry whose slot has byte p. */
  ghost predicate Holds(s: State, p: nat) {
    exists key, i :: 0 <= i < |ListOf(s, key)| && HoldsByte(ListOf(s, key)[i], p)
  }

  predicate HoldsByte(e: Entry, p: nat) {
    e.offset <= p < e.offset + SLOT * Words(e.kind)
  }

  lemma EntriesApart(base: nat, s: State, order: seq<Slot>, key: Key, i: nat, other: Key, j: nat)
    requires ListsOk(base, s, order) && i < |ListOf(s, key)| && j < |ListOf(s, other)| && !(key == other && i == j)
    ensures Disjoint(ListOf(s, key)[i], ListOf(s, other)[j])
  {
    hide ListOf, Before, TypesOk, EntriesOk, OffsetsOk;
    var m := EntryOfSlot(base, s, order, key, i);
    var n := EntryOfSlot(base, s, order, other, j);
    assert OnePerType(ListOf(s, key)) by { ListsAt(base, s, order, key); }
    if m < n {
      Apart(order, m, n);
    } else if n < m {
      Apart(order, n, m);
    }
  }

  lemma ByteIsHeld(info: Info, base: nat, rbase: nat, s: State, order: seq<Slot>, p: nat)
    requires Inv(info, base, rbase, s, order)
    ensures base <= p < s.got <==> Holds(s, p)
  {
    hide ListOf, Before, RelasOk, WordsOk;
    if base <= p < s.got {
      var n := Covering(order, |order|, (p - base) / SLOT);
      assert Placed(s, order[n], OffsetOf(base, order, n));
      var i :| 0 <= i < |ListOf(s, order[n].key)| && IsEntry(ListOf(s, order[n].key)[i], order[n].kind, OffsetOf(base, order, n));
      assert HoldsByte(ListOf(s, order[n].key)[i], p);
    }
    if Holds(s, p) {
      var key, i :| 0 <= i < |ListOf(s, key)| && HoldsByte(ListOf(s, key)[i], p);
      var n := EntryOfSlot(base, s, order, key, i);
      Apart(order, n, |order|);
    }
  }

  lemma RelocationsFit(info: Info, base: nat, rbase: nat, s: State, order: seq<Slot>)
    requires Inv(info, base, rbase, s, order)
    ensures rbase + RELA * |s.relas| <= s.rela && OncePerWord(s.relas)
    ensures forall a :: 0 <= a < |s.relas| ==> base <= s.relas[a].offset && s.relas[a].offset + SLOT <= s.got
  {
    hide ListsOk, Before, ReservedFor, UsedBy, Created;
    UsedIsReserved(info, s, order, |order|);
    forall a | 0 <= a < |s.relas| ensures base <= s.relas[a].offset && s.relas[a].offset + SLOT <= s.got {
      assert FillsDone(base, s, order, s.relas[a].offset);
      var n :| 0 <= n < |order| && Created(s, order[n]) && WordOf(base, order, n, s.relas[a].offset);
      Apart(order, n, |order|);
    }
  }

  /** Over any successful run from empty lists: each list has at most one entry of a type; the slots do not meet and
      cover exactly the growth of .got; and the relocations emitted fit the space reserved, each filling
      a word of its own. */
  lemma RunsTile(info: Info, s: State, evs: seq<Event>)
    requires s.lists == map[] && s.relas == [] && Run(info, s, evs).Some?
    ensures var r := Run(info, s, evs).value;
            && (forall key :: OnePerType(ListOf(r, key)))
            && SlotsApart(r)
            && (forall p: nat :: s.got <= p < r.got <==> Holds(r, p))
            && s.rela + RELA * |r.relas| <= r.rela
            && OncePerWord(r.relas)
            && (forall a :: 0 <= a < |r.relas| ==> s.got <= r.relas[a].offset && r.relas[a].offset + SLOT <= r.got)
  {
    hide Holds, Disjoint, Run;
    assert Inv(info, s.got, s.rela, s, []);
    var slots := RunKeeps(info, s.got, s.rela, s, [], evs);
    var r := Run(info, s, evs).value;
    hide ListOf;
    forall key, i, other, j | 0 <= i < |ListOf(r, key)| && 0 <= j < |ListOf(r, other)| && !(key == other && i == j)
      ensures Disjoint(ListOf(r, key)[i], ListOf(r, other)[j])
    {
      EntriesApart(s.got, r, slots, key, i, other, j);
    }
    forall p: nat ensures s.got <= p < r.got <==> Holds(r, p) {
      ByteIsHeld(info, s.got, s.rela, r, slots, p);
    }
    RelocationsFit(info, s.got, s.rela, r, slots);
  }
}
