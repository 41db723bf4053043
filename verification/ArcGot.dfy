/** The GOT allocator of the ARC linker: a list of entries for each symbol, the space reserved in .got and
    .rela.got, and the dynamic relocations emitted later. */
module ArcGot {
  import opened Basics

  datatype TlsType = GotUnknown | GotNormal | GotTlsGd | GotTlsIe | GotTlsLe
  datatype Existing = TlsNone | TlsMod | TlsOff | TlsModAndOff

  datatype Entry = Entry(kind: TlsType, offset: nat, created: bool, existing: Existing)

  /** Whose list it is: a global symbol's, or that of a local symbol of an input file. */
  datatype Key = Global(id: nat) | Local(file: nat, index: nat)

  /** A global symbol: its place in the dynamic symbol table or -1, and two of its flags. */
  datatype Sym = Sym(dynindx: int, forcedLocal: bool, defRegular: bool)

  datatype RelaKind = Relative | GlobDat | DtpMod | DtpOff | TpOff

  datatype Rela = Rela(offset: nat, dynindx: int, kind: RelaKind)

  datatype Info = Info(pic: bool, symbolic: bool)

  /** The sizes of .got and .rela.got, the lists, the global symbols, and the relocations emitted. */
  datatype State = State(got: nat, rela: nat, lists: map<Key, seq<Entry>>, syms: map<nat, Sym>, relas: seq<Rela>)

  const SLOT: nat := 4
  const RELA: nat := 12

  function ListOf(s: State, key: Key): seq<Entry> {
    if key in s.lists then s.lists[key] else []
  }

  function SymOf(s: State, key: Key): Sym
    requires key.Global?
  {
    if key.id in s.syms then s.syms[key.id] else Sym(-1, false, false)
  }

  predicate HasType(list: seq<Entry>, kind: TlsType) {
    exists i :: 0 <= i < |list| && list[i].kind == kind
  }

  // ---------- reserving ----------

  /** A symbol that has to become dynamic; recording it is the linker's, and may fail or leave it as it is. */
  predicate MustRecord(s: State, key: Key) {
    key.Global? && SymOf(s, key).dynindx == -1 && !SymOf(s, key).forcedLocal
  }

  /** One reference: space for a relocation if there will be one, and a word of .got. */
  function Refer(s: State, key: Key, withRela: bool, recorded: Option<Sym>): (bool, State) {
    var t := if withRela then s.(rela := s.rela + RELA) else s;
    if MustRecord(t, key) then
      match recorded
      case None => (false, t)
      case Some(sym) => (true, t.(syms := t.syms[key.id := sym], got := t.got + SLOT))
    else (true, t.(got := t.got + SLOT))
  }

  function Append(s: State, key: Key, e: Entry): State {
    if HasType(ListOf(s, key), e.kind) then s else s.(lists := s.lists[key := ListOf(s, key) + [e]])
  }

  function Fill(info: Info, s: State, key: Key, kind: TlsType, recorded: Option<Sym>): (bool, State) {
    if HasType(ListOf(s, key), kind) then (true, s)
    else
      match kind
      case GotUnknown => (false, s)
      case GotNormal =>
        var (ok, t) := Refer(s, key, info.pic || key.Global?, recorded);
        if ok then (true, Append(t, key, Entry(kind, s.got, false, TlsNone))) else (false, t)
      case GotTlsGd =>
        var (ok, t) := Refer(s, key, true, recorded);
        if !ok then (false, t)
        else
          var (ok2, u) := Refer(t, key, true, recorded);
          if ok2 then (true, Append(u, key, Entry(kind, s.got, false, TlsModAndOff))) else (false, u)
      case _ =>
        var (ok, t) := Refer(s, key, true, recorded);
        if ok then (true, Append(t, key, Entry(kind, s.got, false, TlsOff))) else (false, t)
  }

  // ---------- emitting ----------

  /** The relocations that one entry gets. */
  function Relocs(info: Info, s: State, key: Key, e: Entry): seq<Rela> {
    if e.created then []
    else if e.kind.GotNormal? then
      if info.pic && key.Global? && (info.symbolic || SymOf(s, key).dynindx == -1) && SymOf(s, key).defRegular then
        [Rela(e.offset, 0, Relative)]
      else if key.Global? && SymOf(s, key).dynindx != -1 then [Rela(e.offset, SymOf(s, key).dynindx, GlobDat)]
      else []
    else
      var dynindx := if key.Local? || SymOf(s, key).dynindx == -1 then 0 else SymOf(s, key).dynindx;
      var both := e.existing.TlsModAndOff?;
      (if both || e.existing.TlsMod? then [Rela(e.offset, dynindx, DtpMod)] else [])
      + (if both || e.existing.TlsOff? then
           [Rela(e.offset + (if both then SLOT else 0), dynindx, if e.kind.GotTlsIe? then TpOff else DtpOff)]
         else [])
  }

  /** Whether emitting marks the entry as done. */
  predicate Marks(e: Entry) {
    e.kind.GotNormal? || !e.existing.TlsNone?
  }

  function EmitOne(info: Info, s: State, key: Key, i: nat): State
    requires i < |ListOf(s, key)|
  {
    var e := ListOf(s, key)[i];
    s.(relas := s.relas + Relocs(info, s, key, e),
       lists := s.lists[key := ListOf(s, key)[i := e.(created := e.created || Marks(e))]])
  }

  /** The first n entries of a list. */
  function Emit(info: Info, s: State, key: Key, n: nat): (r: State)
    requires n <= |ListOf(s, key)|
    ensures |ListOf(r, key)| == |ListOf(s, key)|
  {
    if n == 0 then s else EmitOne(info, Emit(info, s, key, n - 1), key, n - 1)
  }

  // ---------- the allocator ----------

  class Got {
    var got: nat
    var rela: nat
    var lists: map<Key, seq<Entry>>
    var syms: map<nat, Sym>
    var relas: seq<Rela>

    constructor (got: nat, rela: nat, syms: map<nat, Sym>)
      ensures Now() == State(got, rela, map[], syms, [])
    {
      this.got, this.rela, this.lists, this.syms, this.relas := got, rela, map[], syms, [];
    }

    function Now(): State
      reads this
    {
      State(got, rela, lists, syms, relas)
    }

    /** got_entry_for_type: the place of the entry of a type, if there is one. */
    method EntryForType(key: Key, kind: TlsType) returns (i: int)
      ensures i == -1 <==> !HasType(ListOf(Now(), key), kind)
      ensures i != -1 ==> 0 <= i < |ListOf(Now(), key)| && ListOf(Now(), key)[i].kind == kind
    {
      var list := ListOf(Now(), key);
      i := 0;
      while i < |list|
        invariant 0 <= i <= |list| && forall j :: 0 <= j < i ==> list[j].kind != kind
      {
        if list[i].kind == kind {
          return;
        }
        i := i + 1;
      }
      i := -1;
    }

    /** new_got_entry_to_list. */
    method NewEntry(key: Key, e: Entry)
      modifies this
      ensures Now() == Append(old(Now()), key, e)
    {
      var list := ListOf(Now(), key);
      for i := 0 to |list|
        invariant Now() == old(Now()) && forall j :: 0 <= j < i ==> list[j].kind != e.kind
      {
        if list[i].kind == e.kind {
          return;
        }
      }
      lists := lists[key := list + [e]];
    }

    method AddReference(key: Key, withRela: bool, recorded: Option<Sym>) returns (ok: bool)
      modifies this
      ensures (ok, Now()) == Refer(old(Now()), key, withRela, recorded)
    {
      if withRela {
        rela := rela + RELA;
      }
      if MustRecord(Now(), key) {
        if recorded.None? {
          return false;
        }
        syms := syms[key.id := recorded.value];
      }
      got := got + SLOT;
      return true;
    }

    /** arc_fill_got_info_for_reloc. */
    method FillForReloc(info: Info, key: Key, kind: TlsType, recorded: Option<Sym>) returns (ok: bool)
      modifies this
      ensures (ok, Now()) == Fill(info, old(Now()), key, kind, recorded)
    {
      var i := EntryForType(key, kind);
      if i != -1 {
        return true;
      }
      var offset := got;
      match kind {
        case GotUnknown =>
          return false;
        case GotNormal =>
          ok := AddReference(key, info.pic || key.Global?, recorded);
          if ok {
            NewEntry(key, Entry(kind, offset, false, TlsNone));
          }
        case GotTlsGd =>
          ok := AddReference(key, true, recorded);
          if ok {
            ok := AddReference(key, true, recorded);
            if ok {
              NewEntry(key, Entry(kind, offset, false, TlsModAndOff));
            }
          }
        case _ =>
          ok := AddReference(key, true, recorded);
          if ok {
            NewEntry(key, Entry(kind, offset, false, TlsOff));
          }
      }
    }

    /** create_got_dynrelocs_for_single_entry. */
    method CreateForEntry(info: Info, key: Key, i: nat)
      requires i < |ListOf(Now(), key)|
      modifies this
      ensures Now() == EmitOne(info, old(Now()), key, i)
    {
      var list := ListOf(Now(), key);
      var e := list[i];
      if e.kind.GotNormal? && !e.created {
        if info.pic && key.Global? && (info.symbolic || SymOf(Now(), key).dynindx == -1) && SymOf(Now(), key).defRegular {
          relas := relas + [Rela(e.offset, 0, Relative)];
        } else if key.Global? && SymOf(Now(), key).dynindx != -1 {
          relas := relas + [Rela(e.offset, SymOf(Now(), key).dynindx, GlobDat)];
        }
        e := e.(created := true);
      } else if !e.existing.TlsNone? && !e.created {
        var dynindx := if key.Local? || SymOf(Now(), key).dynindx == -1 then 0 else SymOf(Now(), key).dynindx;
        if e.existing.TlsModAndOff? || e.existing.TlsMod? {
          relas := relas + [Rela(e.offset, dynindx, DtpMod)];
        }
        if e.existing.TlsModAndOff? || e.existing.TlsOff? {
          relas := relas + [Rela(e.offset + (if e.existing.TlsModAndOff? then SLOT else 0), dynindx,
                                 if e.kind.GotTlsIe? then TpOff else DtpOff)];
        }
        e := e.(created := true);
      }
      lists := lists[key := list[i := e]];
    }

    /** create_got_dynrelocs_for_got_info. */
    method CreateForList(info: Info, key: Key)
      modifies this
      ensures Now() == Emit(info, old(Now()), key, |ListOf(old(Now()), key)|)
    {
      ghost var was := Now();
      for i := 0 to |ListOf(Now(), key)|
        invariant Now() == Emit(info, was, key, i)
      {
        CreateForEntry(info, key, i);
      }
    }
  }
}
