/** Which dynamic relocation each word of .got gets from the ARC linker: by the type of its entry, and by its symbol. */
module GotRelocs {
  import opened ArcGot
  import opened Basics
  import opened GotRuns

  // ---------- what an entry should get ----------

  /** Word w has this relocation and no other. */
  predicate Only(relas: seq<Rela>, w: nat, r: Rela) {
    r in relas && r.offset == w && forall a :: 0 <= a < |relas| && relas[a].offset == w ==> relas[a] == r
  }

  predicate NoneAt(relas: seq<Rela>, w: nat) {
    forall a :: 0 <= a < |relas| ==> relas[a].offset != w
  }

  predicate IsDynamic(s: State, key: Key) {
    key.Global? && key.id in s.syms && s.syms[key.id].dynindx != -1
  }

  /** The symbol's place in the dynamic symbol table, or 0 if it has none. */
  function IndexOf(s: State, key: Key): int {
    if IsDynamic(s, key) then s.syms[key.id].dynindx else 0
  }

  /** A symbol that position-independent output defines and binds itself. */
  predicate BindsHere(info: Info, s: State, key: Key) {
    && info.pic && key.Global? && key.id in s.syms && s.syms[key.id].defRegular
    && (info.symbolic || !IsDynamic(s, key))
  }

  /** What the words of an entry get, with the symbols as they are in s. */
  predicate Relocated(info: Info, s: State, relas: seq<Rela>, key: Key, e: Entry) {
    match e.kind
    case GotUnknown => true
    case GotNormal =>
      if BindsHere(info, s, key) then Only(relas, e.offset, Rela(e.offset, 0, Relative))
      else if IsDynamic(s, key) then Only(relas, e.offset, Rela(e.offset, IndexOf(s, key), GlobDat))
      else NoneAt(relas, e.offset)
    case GotTlsGd =>
      && Only(relas, e.offset, Rela(e.offset, IndexOf(s, key), DtpMod))
      && Only(relas, e.offset + 4, Rela(e.offset + 4, IndexOf(s, key), DtpOff))
    case GotTlsIe => Only(relas, e.offset, Rela(e.offset, IndexOf(s, key), TpOff))
    case GotTlsLe => Only(relas, e.offset, Rela(e.offset, IndexOf(s, key), DtpOff))
  }

  /** The words of an entry. */
  predicate Within(e: Entry, w: nat) {
    w == e.offset || (e.kind.GotTlsGd? && w == e.offset + 4)
  }

  // ---------- one entry ----------

  lemma OnlyNew(relas: seq<Rela>, more: seq<Rela>, r: Rela)
    requires NoneAt(relas, r.offset) && r in more && forall a :: 0 <= a < |more| && more[a].offset == r.offset ==> more[a] == r
    ensures Only(relas + more, r.offset, r)
  {
    var a :| 0 <= a < |more| && more[a] == r;
    assert (relas + more)[|relas| + a] == r;
  }

  /** Emitting for an entry whose words have no relocation yet. */
  lemma EntryRelocated(info: Info, s: State, key: Key, e: Entry)
    requires !e.created && IsEntry(e, e.kind, e.offset) && forall w: nat :: Within(e, w) ==> NoneAt(s.relas, w)
    ensures Relocated(info, s, s.relas + Relocs(info, s, key, e), key, e)
  {
    assert Within(e, e.offset) && (e.kind.GotTlsGd? ==> Within(e, e.offset + 4));
    hide NoneAt, Only;
    var more := Relocs(info, s, key, e);
    if more == [] {
      assert s.relas + more == s.relas;
    } else {
      OnlyNew(s.relas, more, more[0]);
      if |more| == 2 {
        OnlyNew(s.relas, more, more[1]);
      }
    }
  }

  /** Relocations of other words do not matter. */
  lemma StaysRelocated(info: Info, s: State, relas: seq<Rela>, more: seq<Rela>, key: Key, e: Entry)
    requires Relocated(info, s, relas, key, e)
    requires forall a :: 0 <= a < |more| ==> !Within(e, more[a].offset)
    ensures Relocated(info, s, relas + more, key, e)
  {
    var all := relas + more;
    forall a | 0 <= a < |all| ensures all[a] in relas || !Within(e, all[a].offset) {
      if a < |relas| {
        assert all[a] == relas[a];
      } else {
        assert all[a] == more[a - |relas|];
      }
    }
  }

  // ---------- a whole list ----------

  /** The words of an entry are those of its slot. */
  lemma WordsOfSlot(base: nat, s: State, order: seq<Slot>, key: Key, i: nat, n: nat, w: nat)
    requires ListsOk(base, s, order) && i < |ListOf(s, key)| && n < |order| && order[n] == Slot(key, ListOf(s, key)[i].kind)
    requires Within(ListOf(s, key)[i], w)
    ensures WordOf(base, order, n, w)
  {
    hide ListOf, OffsetOf;
    var m := EntryOfSlot(base, s, order, key, i);
    assert m == n;
  }

  lemma NotCreated(s: State, key: Key, i: nat)
    requires i < |ListOf(s, key)| && OnePerType(ListOf(s, key)) && !ListOf(s, key)[i].created
    ensures !Created(s, Slot(key, ListOf(s, key)[i].kind))
  {
  }

  /** The words of an entry that is not done have no relocation. */
  lemma WordsAreFresh(info: Info, base: nat, rbase: nat, s: State, order: seq<Slot>, key: Key, i: nat, w: nat)
    requires Inv(info, base, rbase, s, order) && i < |ListOf(s, key)| && !ListOf(s, key)[i].created
    requires Within(ListOf(s, key)[i], w)
    ensures NoneAt(s.relas, w)
  {
    var n := EntryOfSlot(base, s, order, key, i);
    TypesAt(s, key);
    NotCreated(s, key, i);
    WordsOfSlot(base, s, order, key, i, n, w);
    hide ListOf, WordOf, Created, ListsOk, SizesOk, RelasOk;
    forall a | 0 <= a < |s.relas| ensures s.relas[a].offset != w {
      assert FillsDone(base, s, order, s.relas[a].offset);
      var m :| 0 <= m < |order| && Created(s, order[m]) && WordOf(base, order, m, s.relas[a].offset);
      WordsApart(base, order, m, n, s.relas[a].offset, w);
    }
  }

  /** Emitting for one entry leaves the words of any other alone. */
  lemma OtherWords(info: Info, base: nat, rbase: nat, s: State, order: seq<Slot>, key: Key, i: nat, other: Key, j: nat)
    requires Inv(info, base, rbase, s, order) && i < |ListOf(s, key)| && !ListOf(s, key)[i].created
    requires j < |ListOf(s, other)| && !(key == other && i == j)
    ensures forall a :: 0 <= a < |Relocs(info, s, key, ListOf(s, key)[i])| ==>
              !Within(ListOf(s, other)[j], Relocs(info, s, key, ListOf(s, key)[i])[a].offset)
  {
    var relas, e := Relocs(info, s, key, ListOf(s, key)[i]), ListOf(s, other)[j];
    var n0 := EntryOfSlot(base, s, order, key, i);
    var n := EmitOneMarks(info, base, s, order, key, i);
    var m := EntryOfSlot(base, s, order, other, j);
    TypesAt(s, key);
    assert order[n] != order[m];
    hide ListOf, WordOf, Created, ListsOk, SizesOk, RelasOk, Relocs, Within, OneMarked;
    forall a | 0 <= a < |relas| ensures !Within(e, relas[a].offset) {
      if Within(e, relas[a].offset) {
        WordsOfSlot(base, s, order, other, j, m, relas[a].offset);
        WordsApart(base, order, n, m, relas[a].offset, relas[a].offset);
      }
    }
  }

  /** t is s after emitting for the first n entries of a list. */
  ghost predicate Emitted(s: State, t: State, key: Key, n: nat) {
    && t.syms == s.syms && |ListOf(t, key)| == |ListOf(s, key)|
    && (forall i :: n <= i < |ListOf(s, key)| ==> ListOf(t, key)[i] == ListOf(s, key)[i])
    && (forall i :: 0 <= i < |ListOf(s, key)| ==>
          ListOf(t, key)[i] == ListOf(s, key)[i].(created := ListOf(t, key)[i].created))
  }

  lemma EmitOneEmits(info: Info, s: State, t: State, key: Key, n: nat)
    requires n < |ListOf(s, key)| && Emitted(s, t, key, n)
    ensures Emitted(s, EmitOne(info, t, key, n), key, n + 1)
  {
    hide Relocs;
  }

  lemma {:induction false} EmitEmits(info: Info, s: State, key: Key, n: nat)
    requires n <= |ListOf(s, key)|
    ensures Emitted(s, Emit(info, s, key, n), key, n)
  {
    hide EmitOne;
    if n == 0 {
    } else {
      EmitEmits(info, s, key, n - 1);
      EmitOneEmits(info, s, Emit(info, s, key, n - 1), key, n - 1);
    }
  }

  lemma SameSymbols(info: Info, s: State, t: State, relas: seq<Rela>, key: Key, e: Entry, d: Entry)
    requires t.syms == s.syms && d == e.(created := d.created)
    ensures Relocated(info, s, relas, key, e) == Relocated(info, t, relas, key, d)
  {
  }

  /** Emitting for entry i of a list relocates it, and leaves the others as they were. */
  lemma OneRelocated(info: Info, base: nat, rbase: nat, s: State, order: seq<Slot>, key: Key, i: nat)
    requires Inv(info, base, rbase, s, order) && i < |ListOf(s, key)| && !ListOf(s, key)[i].created
    ensures EmitOne(info, s, key, i).relas == s.relas + Relocs(info, s, key, ListOf(s, key)[i])
    ensures Relocated(info, s, EmitOne(info, s, key, i).relas, key, ListOf(s, key)[i])
  {
    var e := ListOf(s, key)[i];
    var n := EntryOfSlot(base, s, order, key, i);
    forall w: nat | Within(e, w) ensures NoneAt(s.relas, w) {
      WordsAreFresh(info, base, rbase, s, order, key, i, w);
    }
    hide Inv, Relocs, ListOf, Within, NoneAt;
    EntryRelocated(info, s, key, e);
  }

  lemma NextRelocates(info: Info, base: nat, rbase: nat, s: State, t: State, order: seq<Slot>, key: Key, i: nat)
    requires Inv(info, base, rbase, t, order) && i < |ListOf(t, key)| && !ListOf(t, key)[i].created && t.syms == s.syms
    ensures Relocated(info, s, EmitOne(info, t, key, i).relas, key, ListOf(t, key)[i])
  {
    hide *;
    OneRelocated(info, base, rbase, t, order, key, i);
    SameSymbols(info, s, t, EmitOne(info, t, key, i).relas, key, ListOf(t, key)[i], ListOf(t, key)[i]);
  }

  lemma NextLeaves(info: Info, base: nat, rbase: nat, s: State, t: State, order: seq<Slot>, key: Key, i: nat,
                   other: Key, j: nat, e: Entry)
    requires Inv(info, base, rbase, t, order) && i < |ListOf(t, key)| && j < |ListOf(t, other)| && !(key == other && i == j)
    requires Relocated(info, s, t.relas, other, e) && ListOf(t, other)[j] == e.(created := ListOf(t, other)[j].created)
    ensures Relocated(info, s, EmitOne(info, t, key, i).relas, other, e)
  {
    hide *;
    if ListOf(t, key)[i].created {
      EmitDone(info, t, key, i);
    } else {
      OtherWords(info, base, rbase, t, order, key, i, other, j);
      SameWithin(e, ListOf(t, other)[j]);
      OneRelocated(info, base, rbase, t, order, key, i);
      StaysRelocated(info, s, t.relas, Relocs(info, t, key, ListOf(t, key)[i]), other, e);
    }
  }

  lemma {:induction false} EmitRelocates(info: Info, base: nat, rbase: nat, s: State, order: seq<Slot>, key: Key, n: nat, j: nat)
    requires Inv(info, base, rbase, s, order) && n <= |ListOf(s, key)| && j < n && !ListOf(s, key)[j].created
    ensures Relocated(info, s, Emit(info, s, key, n).relas, key, ListOf(s, key)[j])
  {
    hide Inv, Relocs, EmitOne, Relocated, ListOf;
    var t := Emit(info, s, key, n - 1);
    EmitKeeps(info, base, rbase, s, order, key, n - 1);
    EmitEmits(info, s, key, n - 1);
    if j == n - 1 {
      NextRelocates(info, base, rbase, s, t, order, key, j);
    } else {
      EmitRelocates(info, base, rbase, s, order, key, n - 1, j);
      NextLeaves(info, base, rbase, s, t, order, key, n - 1, key, j, ListOf(s, key)[j]);
    }
  }

  lemma SameWithin(e: Entry, d: Entry)
    requires d == e.(created := d.created)
    ensures forall w: nat :: Within(e, w) <==> Within(d, w)
  {
  }

  lemma EmitOneDone(info: Info, base: nat, rbase: nat, s: State, order: seq<Slot>, key: Key, i: nat)
    requires Inv(info, base, rbase, s, order) && i < |ListOf(s, key)|
    ensures |ListOf(EmitOne(info, s, key, i), key)| == |ListOf(s, key)| && ListOf(EmitOne(info, s, key, i), key)[i].created
  {
    var n := EntryOfSlot(base, s, order, key, i);
    hide Relocs;
  }

  /** And every entry of the list is done. */
  lemma {:induction false} EmitFinishes(info: Info, base: nat, rbase: nat, s: State, order: seq<Slot>, key: Key, n: nat, j: nat)
    requires Inv(info, base, rbase, s, order) && n <= |ListOf(s, key)| && j < n
    ensures ListOf(Emit(info, s, key, n), key)[j].created
  {
    hide Inv, Relocs, ListOf;
    var t := Emit(info, s, key, n - 1);
    EmitKeeps(info, base, rbase, s, order, key, n - 1);
    if j == n - 1 {
      EmitOneDone(info, base, rbase, t, order, key, j);
    } else {
      EmitFinishes(info, base, rbase, s, order, key, n - 1, j);
      OthersStand(info, t, key, n - 1, key, j);
    }
  }

  lemma OthersStand(info: Info, t: State, key: Key, i: nat, other: Key, j: nat)
    requires i < |ListOf(t, key)| && j < |ListOf(t, other)| && !(key == other && i == j)
    ensures var u := EmitOne(info, t, key, i); j < |ListOf(u, other)| && ListOf(u, other)[j] == ListOf(t, other)[j]
  {
    hide Relocs;
  }

  /** In any successful run from empty lists, once a list is finished each of its entries that was not done has exactly the
      relocations of its type, for its symbol as it is then; and it is done. */
  lemma FinishRelocates(info: Info, s: State, evs: seq<Event>, key: Key, j: nat)
    requires s.lists == map[] && s.relas == [] && Run(info, s, evs).Some?
    requires var r := Run(info, s, evs).value; j < |ListOf(r, key)| && !ListOf(r, key)[j].created
    ensures var r := Run(info, s, evs).value;
            var t := Emit(info, r, key, |ListOf(r, key)|);
            && Relocated(info, r, t.relas, key, ListOf(r, key)[j])
            && ListOf(t, key)[j].created
            && OncePerWord(t.relas)
  {
    assert Inv(info, s.got, s.rela, s, []);
    var slots := RunKeeps(info, s.got, s.rela, s, [], evs);
    var r := Run(info, s, evs).value;
    hide Run, ListOf, Emit, Relocated;
    EmitRelocates(info, s.got, s.rela, r, slots, key, |ListOf(r, key)|, j);
    EmitFinishes(info, s.got, s.rela, r, slots, key, |ListOf(r, key)|, j);
    EmitKeeps(info, s.got, s.rela, r, slots, key, |ListOf(r, key)|);
    hide ListsOk, SizesOk, RelasOk;
  }

  // ---------- and later ----------

  /** Entry e of a list is done, and stands where it stood. */
  predicate StandsAt(s: State, key: Key, j: nat, e: Entry) {
    j < |ListOf(s, key)| && ListOf(s, key)[j] == e && e.created
  }

  lemma {:induction false} EmitLeaves(info: Info, base: nat, rbase: nat, s: State, t: State, order: seq<Slot>, key: Key, n: nat,
                                      other: Key, j: nat, e: Entry)
    requires Inv(info, base, rbase, t, order) && n <= |ListOf(t, key)| && StandsAt(t, other, j, e)
    requires Relocated(info, s, t.relas, other, e)
    ensures StandsAt(Emit(info, t, key, n), other, j, e)
    ensures Relocated(info, s, Emit(info, t, key, n).relas, other, e)
  {
    hide Inv, EmitOne, Relocated, ListOf;
    if n == 0 {
    } else {
      var u := Emit(info, t, key, n - 1);
      EmitKeeps(info, base, rbase, t, order, key, n - 1);
      EmitLeaves(info, base, rbase, s, t, order, key, n - 1, other, j, e);
      if key == other && j == n - 1 {
        EmitDone(info, u, key, n - 1);
      } else {
        OthersStand(info, u, key, n - 1, other, j);
        NextLeaves(info, base, rbase, s, u, order, key, n - 1, other, j, e);
      }
    }
  }

  lemma RequestLeaves(info: Info, t: State, key: Key, kind: TlsType, recorded: Option<Sym>, other: Key, j: nat, e: Entry)
    requires Fill(info, t, key, kind, recorded).0 && StandsAt(t, other, j, e)
    ensures var u := Fill(info, t, key, kind, recorded).1; u.relas == t.relas && StandsAt(u, other, j, e)
  {
    if HasType(ListOf(t, key), kind) {
    } else {
      hide Fill, HasType;
      FillAdds(info, t, key, kind, recorded);
    }
  }

  /** Whatever the rest of a run does, the words of an entry that is done keep their relocations, and get no others. */
  lemma {:induction false} RunLeaves(info: Info, base: nat, rbase: nat, s: State, t: State, order: seq<Slot>, evs: seq<Event>,
                                     other: Key, j: nat, e: Entry)
    requires Inv(info, base, rbase, t, order) && Run(info, t, evs).Some? && StandsAt(t, other, j, e)
    requires Relocated(info, s, t.relas, other, e)
    ensures Relocated(info, s, Run(info, t, evs).value.relas, other, e)
    decreases |evs|
  {
    hide Inv, Fill, HasType, Emit, ListOf, Relocated, StandsAt;
    if evs == [] {
    } else {
      var u, next := Step(info, t, evs[0]).value, SlotsAfter(t, order, evs[0]);
      match evs[0] {
        case Request(key, kind, recorded) =>
          RequestLeaves(info, t, key, kind, recorded, other, j, e);
          if HasType(ListOf(t, key), kind) {
            Repeated(info, t, key, kind, recorded);
          } else {
            FillKeeps(info, base, rbase, t, order, key, kind, recorded);
          }
        case Finish(key) =>
          EmitKeeps(info, base, rbase, t, order, key, |ListOf(t, key)|);
          EmitLeaves(info, base, rbase, s, t, order, key, |ListOf(t, key)|, other, j, e);
      }
      RunLeaves(info, base, rbase, s, u, next, evs[1..], other, j, e);
    }
  }
}
