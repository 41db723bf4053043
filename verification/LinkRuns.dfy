/** Whole runs of the a.out symbol pass: input files in link order, symbols that
    belong to no input file, and symbols forced out by a relocation. */
module LinkRuns {
  import opened AoutSymbols
  import opened AoutTypes
  import opened Basics

  // ---------- symbols written outside the per-file loop ----------

  predicate OtherStripped(info: Info, name: string) {
    info.strip == StripAll || (info.strip == StripSome && name !in info.keep)
  }

  /** The record of a global symbol no input file's symbol table has put out. */
  function OtherRecord(e: Entry): Record
    requires e.kind != New && !IsLink(e)
  {
    if e.kind == Defined || e.kind == DefWeak then Record(WithExt(DefinedKind(e)), 0, 0, e.name, Address(e) % U32)
    else if e.kind == Common then Record(N_UNDF + N_EXT, 0, 0, e.name, e.size % U32)
    else if e.kind == UndefWeak then Record(N_WEAKU, 0, 0, e.name, 0)
    else Record(N_UNDF + N_EXT, 0, 0, e.name, 0)
  }

  /** kind | N_EXT. */
  function WithExt(kind: Byte): Byte {
    kind - kind % 2 + 1
  }

  /** Write out one hash entry, unless it is written or stripped. An index of -2 overrides
      stripping. */
  function WriteOther(info: Info, st: State, entry: nat): (r: State)
    requires StateOk(info.table, st) && entry < |info.table|
    requires info.table[entry].kind == Warning ==>
               info.table[entry].link < |info.table| && info.table[info.table[entry].link].kind != Warning
    ensures StateOk(info.table, r)
  {
    var warned := info.table[entry].kind == Warning;
    var h := if warned then info.table[entry].link else entry;
    var e := info.table[h];
    if (warned && e.kind == New) || st.written[h] then st
    else
      var st := st.(written := st.written[h := true]);
      if (st.indx[h] != -2 && OtherStripped(info, e.name)) || e.kind == New || e.kind == Indirect then st
      else st.(indx := st.indx[h := |st.records|],
               records := st.records + [OtherRecord(e)], owners := st.owners + [GlobalSym(h)])
  }

  /** A relocation needs the number of an entry that has none yet: force it out. */
  function Force(info: Info, st: State, h: nat): (r: State)
    requires StateOk(info.table, st) && h < |info.table| && info.table[h].kind != Warning
    ensures StateOk(info.table, r)
  {
    if st.indx[h] >= 0 then st
    else WriteOther(info, st.(indx := st.indx[h := -2], written := st.written[h := false]), h)
  }

  /** How an input file's symbol of this type is read: its section, and whether it is weak. */
  function ReadBack(kind: Byte): Option<(OutSection, bool)> {
    if TypeBits(kind) == N_TEXT || kind == N_WEAKT then Some((OutText, kind == N_WEAKT))
    else if TypeBits(kind) == N_DATA || kind == N_WEAKD then Some((OutData, kind == N_WEAKD))
    else if TypeBits(kind) == N_BSS || kind == N_WEAKB then Some((OutBss, kind == N_WEAKB))
    else if TypeBits(kind) == N_ABS || kind == N_WEAKA then Some((OutOther, kind == N_WEAKA))
    else None
  }

  /** A defined symbol written here reads back with its section and strength, unless it is weak and
      in the data or absolute section: there the external bit turns one weak type into another. */
  lemma DefinedSymbolReadsBack(e: Entry)
    requires e.kind == Defined || e.kind == DefWeak
    ensures ReadBack(OtherRecord(e).kind) == Some((e.section.out, e.kind == DefWeak))
       <==> !(e.kind == DefWeak && (e.section.out == OutData || e.section.out == OutOther))
    ensures DefinedType(N_UNDF + N_EXT, e) == OtherRecord(e).kind
  {
    match e.section.out
    case OutText =>
    case OutData =>
    case OutBss =>
    case OutOther =>
  }

  function WeakIn(out: OutSection): Entry {
    Entry("w", DefWeak, 0, 0, Placed(0, out, 0, 0), 0)
  }

  /** Weak data reads back as weak .bss, and a weak absolute symbol as weak text. */
  lemma WeakMisreads()
    ensures ReadBack(OtherRecord(WeakIn(OutData)).kind) == Some((OutBss, true))
    ensures ReadBack(OtherRecord(WeakIn(OutOther)).kind) == Some((OutText, true))
  {
  }

  // ---------- runs ----------

  datatype Event = InputFile(file: nat) | Other(entry: nat) | Forced(entry: nat)

  ghost predicate LinkOk(info: Info, rank: seq<nat>, files: seq<Input>) {
    && TableOk(info.table, rank)
    && forall f :: 0 <= f < |files| ==> InputOk(info.table, files[f])
  }

  predicate EventOk(info: Info, files: seq<Input>, ev: Event) {
    match ev
    case InputFile(f) => f < |files|
    case Other(e) => e < |info.table|
    case Forced(e) => e < |info.table| && info.table[e].kind != Warning
  }

  ghost predicate EventsOk(info: Info, files: seq<Input>, evs: seq<Event>) {
    forall k :: 0 <= k < |evs| ==> EventOk(info, files, evs[k])
  }

  ghost function FileEnd(info: Info, rank: seq<nat>, f: Input, file: nat, st: State): Pass
    requires TableOk(info.table, rank) && InputOk(info.table, f) && StateOk(info.table, st)
  {
    FileRun(info, rank, f, file, st, |f.syms|)
  }

  ghost function Apply(info: Info, rank: seq<nat>, files: seq<Input>, st: State, ev: Event): (r: State)
    requires LinkOk(info, rank, files) && StateOk(info.table, st) && EventOk(info, files, ev)
    ensures StateOk(info.table, r)
  {
    match ev
    case InputFile(f) => FileEnd(info, rank, files[f], f, st).st
    case Other(e) => WriteOther(info, st, e)
    case Forced(e) => Force(info, st, e)
  }

  function Empty(n: nat): State {
    State([], [], seq(n, _ => false), seq(n, _ => -1), map[])
  }

  ghost function Run(info: Info, rank: seq<nat>, files: seq<Input>, evs: seq<Event>): (r: State)
    requires LinkOk(info, rank, files) && EventsOk(info, files, evs)
    ensures StateOk(info.table, r)
  {
    if evs == [] then Empty(|info.table|)
    else Apply(info, rank, files, Run(info, rank, files, evs[..|evs| - 1]), evs[|evs| - 1])
  }

  // ---------- output indices ----------

  /** A global symbol's index, once not negative, is the number of its own record,
      and no other record is its. */
  ghost predicate IndicesTrue(st: State) {
    && |st.owners| == |st.records|
    && |st.written| == |st.indx|
    && (forall h :: 0 <= h < |st.indx| && st.indx[h] >= 0 ==>
          st.indx[h] < |st.owners| && st.owners[st.indx[h]] == GlobalSym(h) && st.written[h])
    && (forall k :: 0 <= k < |st.owners| && st.owners[k].GlobalSym? ==>
          st.owners[k].entry < |st.indx| && st.indx[st.owners[k].entry] == k)
  }

  /** A record is the one its owner calls for. */
  predicate Stands(info: Info, files: seq<Input>, r: Record, o: Owner) {
    match o
    case FileName(f) => f < |files| && r == FileSymbol(files[f])
    case LocalSym(f, i) =>
      && f < |files| && i < |files[f].syms|
      && r.name == files[f].syms[i].name && r.other == files[f].syms[i].other && r.desc == files[f].syms[i].desc
    case GlobalSym(h) => h < |info.table| && (info.table[h].kind == Warning || r.name == info.table[h].name)
  }

  ghost predicate RecordsTrue(info: Info, files: seq<Input>, st: State)
    requires |st.owners| == |st.records|
  {
    forall k :: 0 <= k < |st.records| ==> Stands(info, files, st.records[k], st.owners[k])
  }

  /** The map of an input file, before symbol i: a number that is not negative is the number
      of the symbol's own record, or of the record of its hash entry. */
  ghost predicate MapTrue(f: Input, file: nat, p: Pass, i: nat)
    requires |p.symbolMap| == |f.syms| == |f.hashes| && i <= |f.syms|
  {
    forall j :: 0 <= j < i && p.symbolMap[j] >= 0 ==>
      && p.symbolMap[j] < |p.st.owners|
      && (p.st.owners[p.symbolMap[j]] == LocalSym(file, j)
          || (f.hashes[j].Some? && p.st.owners[p.symbolMap[j]] == GlobalSym(f.hashes[j].value)))
  }

  ghost predicate PassTrue(info: Info, files: seq<Input>, file: nat, p: Pass, i: nat)
    requires file < |files| && PassOk(info.table, files[file], p) && InputOk(info.table, files[file])
    requires i <= |files[file].syms|
  {
    && IndicesTrue(p.st)
    && RecordsTrue(info, files, p.st)
    && MapTrue(files[file], file, p, i)
    && HashesAhead(files[file], p, i)
  }

  /** Marking and placing a symbol leaves the symbols before it alone. */
  lemma {:induction false} MarkGroupBefore(m: seq<int>, syms: seq<Nlist>, j: nat, nest: nat, t: nat)
    requires t < j <= |syms| == |m|
    ensures MarkGroup(m, syms, j, nest)[t] == m[t]
    decreases |syms| - j
  {
    if j >= |syms| {
    } else {
      if syms[j].kind == N_EINCL && nest == 0 {
      } else if syms[j].kind == N_EINCL {
        MarkGroupBefore(m, syms, j + 1, nest - 1, t);
      } else if syms[j].kind == N_BINCL {
        MarkGroupBefore(m, syms, j + 1, nest + 1, t);
      } else {
        MarkGroupBefore(if nest == 0 then m[j := -1] else m, syms, j + 1, nest, t);
      }
    }
  }

  /** Symbol i's step added a record for it: its own, or its hash entry h's. */
  ghost predicate Added(info: Info, f: Input, file: nat, p: State, q: State, i: nat, h: Option<nat>)
    requires i < |f.syms| && |p.written| == |p.indx|
  {
    && |q.records| == |p.records| + 1
    && q.records == p.records + [q.records[|p.records|]]
    && var r := q.records[|p.records|];
    if h.None? then
      && q.owners == p.owners + [LocalSym(file, i)]
      && q.written == p.written && q.indx == p.indx
      && r.name == f.syms[i].name && r.other == f.syms[i].other && r.desc == f.syms[i].desc
    else
      && h.value < |info.table| && h.value < |p.written|
      && q.owners == p.owners + [GlobalSym(h.value)]
      && q.written == p.written[h.value := true] && q.indx == p.indx[h.value := |p.records|]
      && (info.table[h.value].kind == Warning || r.name == info.table[h.value].name)
  }

  /** Symbol i's step added no record. */
  ghost predicate AddedNone(p: State, q: State, h: Option<nat>)
    requires |p.written| == |p.indx|
  {
    && q.records == p.records && q.owners == p.owners && q.indx == p.indx
    && (q.written == p.written || (h.Some? && h.value < |p.written| && q.written == p.written[h.value := true]))
  }

  lemma EnterGroupKeeps(t: seq<Entry>, f: Input, p: Pass, i: nat, name: string)
    requires PassOk(t, f, p) && i < |f.syms|
    ensures var q := EnterGroup(t, f, p, i, name).0;
            && q == p.(symbolMap := q.symbolMap, st := p.st.(includes := q.st.includes))
            && forall j :: 0 <= j <= i ==> q.symbolMap[j] == p.symbolMap[j]
  {
    forall j | 0 <= j <= i ensures MarkGroup(p.symbolMap, f.syms, i + 1, 0)[j] == p.symbolMap[j] {
      MarkGroupBefore(p.symbolMap, f.syms, i + 1, 0, j);
    }
    hide MarkGroup, GroupTotal;
  }

  lemma PlaceAdds(info: Info, f: Input, file: nat, p: Pass, i: nat, h: Option<nat>, v: Value, name: string)
    requires PassOk(info.table, f, p) && i < |f.syms| && (h.Some? ==> h.value < |info.table|)
    requires p.symbolMap[i] == -1
    requires name == (if h.Some? && info.table[h.value].kind != Warning then info.table[h.value].name else f.syms[i].name)
    ensures var q := Place(info, f, file, p, i, h, v, name);
            && q.hashes == p.hashes
            && (forall j :: 0 <= j < i ==> q.symbolMap[j] == p.symbolMap[j])
            && (if q.symbolMap[i] == -1 then h.None? && AddedNone(p.st, q.st, h)
                else q.symbolMap[i] == |p.st.records| && Added(info, f, file, p.st, q.st, i, h))
  {
    hide EnterGroup, GroupTotal;
    EnterGroupKeeps(info.table, f, p.(pass := v.pass, skipNext := v.skip, st := Number(info.table, p.st, h)), i, name);
  }

  /** What one step does, written out. */
  lemma StepAdds(info: Info, rank: seq<nat>, f: Input, file: nat, p: Pass, i: nat) returns (h: Option<nat>)
    requires TableOk(info.table, rank) && PassOk(info.table, f, p) && i < |f.syms|
    ensures h.None? || (h == p.hashes[i] && !p.st.written[h.value])
    ensures var q := Step(info, rank, f, file, p, i);
            && (forall j :: 0 <= j < i ==> q.symbolMap[j] == p.symbolMap[j])
            && (forall j :: i < j < |f.syms| ==> q.hashes[j] == p.hashes[j])
            && (|| (q.symbolMap[i] == |p.st.records| && Added(info, f, file, p.st, q.st, i, h))
                || (AddedNone(p.st, q.st, h)
                    && (q.symbolMap[i] == -1
                        || (p.hashes[i].Some? && p.st.written[p.hashes[i].value]
                            && q.symbolMap[i] == p.st.indx[p.hashes[i].value]))))
            && (AddedNone(p.st, q.st, h) && q.st.written != p.st.written ==> info.strip != StripNone)
  {
    hide Place;
    h := None;
    if p.symbolMap[i] != -1 && !p.pass && !p.skipNext {
      var y := f.syms[i];
      var m := p.symbolMap[i := -1];
      if p.hashes[i].None? {
        if !Stripped(info, y.kind, y.name) {
          PlaceAdds(info, f, file, p.(symbolMap := m), i, None, ValueOf(f, y, None), y.name);
        }
      } else if !p.st.written[p.hashes[i].value] {
        h := p.hashes[i];
        var e := info.table[h.value];
        var name := if e.kind == Warning then y.name else e.name;
        var r := Resolve(info.table, rank, h.value);
        if !Stripped(info, y.kind, name) {
          PlaceAdds(info, f, file, p.(symbolMap := m, hashes := p.hashes[i := Some(r)]), i, h,
                    ValueOf(f, y, Some(info.table[r])), name);
        }
      }
    }
    hide ValueOf;
  }

  lemma AppendRecord(info: Info, files: seq<Input>, file: nat, p: State, q: State, i: nat, h: Option<nat>)
    requires IndicesTrue(p) && RecordsTrue(info, files, p) && file < |files| && i < |files[file].syms|
    requires Added(info, files[file], file, p, q, i, h)
    requires h.Some? ==> h.value < |p.written| && !p.written[h.value]
    ensures IndicesTrue(q) && RecordsTrue(info, files, q)
  {
    forall k | 0 <= k < |q.records| ensures Stands(info, files, q.records[k], q.owners[k]) {
      assert k < |p.records| ==> q.records[k] == p.records[k] && q.owners[k] == p.owners[k];
    }
  }

  lemma StepTrue(info: Info, rank: seq<nat>, files: seq<Input>, file: nat, p: Pass, i: nat)
    requires LinkOk(info, rank, files) && file < |files| && i < |files[file].syms|
    requires PassOk(info.table, files[file], p) && PassTrue(info, files, file, p, i)
    ensures var q := Step(info, rank, files[file], file, p, i);
            && PassTrue(info, files, file, q, i + 1)
            && p.st.owners <= q.st.owners && p.st.records <= q.st.records
            && |q.st.records| <= |p.st.records| + 1
  {
    var f := files[file];
    var h := StepAdds(info, rank, f, file, p, i);
    hide Step;
    var q := Step(info, rank, f, file, p, i);
    if Added(info, f, file, p.st, q.st, i, h) {
      AppendRecord(info, files, file, p.st, q.st, i, h);
      assert q.st.owners[|p.st.records|] == if h.None? then LocalSym(file, i) else GlobalSym(h.value);
    }
    forall j | 0 <= j < i && q.symbolMap[j] >= 0
      ensures q.symbolMap[j] < |q.st.owners| && q.st.owners[q.symbolMap[j]] == p.st.owners[q.symbolMap[j]]
    {
      assert q.symbolMap[j] == p.symbolMap[j];
    }
  }

  lemma {:induction false} FileRunTrue(info: Info, rank: seq<nat>, files: seq<Input>, file: nat, st: State, i: nat)
    requires LinkOk(info, rank, files) && file < |files| && i <= |files[file].syms|
    requires StateOk(info.table, st) && IndicesTrue(st) && RecordsTrue(info, files, st)
    ensures var p := FileRun(info, rank, files[file], file, st, i);
            && PassTrue(info, files, file, p, i)
            && st.owners <= p.st.owners && st.records <= p.st.records
            && |p.st.records| <= |st.records| + i + 1
  {
    hide Step;
    if i == 0 {
    } else {
      FileRunTrue(info, rank, files, file, st, i - 1);
      StepTrue(info, rank, files, file, FileRun(info, rank, files[file], file, st, i - 1), i - 1);
    }
  }

  lemma OtherTrue(info: Info, rank: seq<nat>, files: seq<Input>, st: State, entry: nat)
    requires LinkOk(info, rank, files) && StateOk(info.table, st) && entry < |info.table|
    requires IndicesTrue(st) && RecordsTrue(info, files, st)
    ensures var q := WriteOther(info, st, entry);
            && IndicesTrue(q) && RecordsTrue(info, files, q)
            && st.owners <= q.owners && st.records <= q.records
  {
  }

  lemma ForceTrue(info: Info, rank: seq<nat>, files: seq<Input>, st: State, h: nat)
    requires LinkOk(info, rank, files) && StateOk(info.table, st) && EventOk(info, files, Forced(h))
    requires IndicesTrue(st) && RecordsTrue(info, files, st)
    ensures var q := Force(info, st, h);
            && IndicesTrue(q) && RecordsTrue(info, files, q)
            && st.owners <= q.owners && st.records <= q.records
            && (info.table[h].kind != New && !IsLink(info.table[h]) ==> q.indx[h] >= 0)
  {
    if st.indx[h] < 0 {
      OtherTrue(info, rank, files, st.(indx := st.indx[h := -2], written := st.written[h := false]), h);
    }
  }

  lemma ApplyTrue(info: Info, rank: seq<nat>, files: seq<Input>, st: State, ev: Event)
    requires LinkOk(info, rank, files) && StateOk(info.table, st) && EventOk(info, files, ev)
    requires IndicesTrue(st) && RecordsTrue(info, files, st)
    ensures var q := Apply(info, rank, files, st, ev);
            && IndicesTrue(q) && RecordsTrue(info, files, q)
            && st.owners <= q.owners && st.records <= q.records
  {
    match ev
    case InputFile(f) => FileRunTrue(info, rank, files, f, st, |files[f].syms|);
    case Other(e) => OtherTrue(info, rank, files, st, e);
    case Forced(e) => ForceTrue(info, rank, files, st, e);
  }

  /** Over every run: each hash entry has at most one record, each index that is not negative
      is the number of its entry's record, and each record belongs to what it names. */
  lemma {:induction false} IndicesAreRecordNumbers(info: Info, rank: seq<nat>, files: seq<Input>, evs: seq<Event>)
    requires LinkOk(info, rank, files) && EventsOk(info, files, evs)
    ensures IndicesTrue(Run(info, rank, files, evs)) && RecordsTrue(info, files, Run(info, rank, files, evs))
  {
    hide Apply;
    if evs == [] {
    } else {
      IndicesAreRecordNumbers(info, rank, files, evs[..|evs| - 1]);
      ApplyTrue(info, rank, files, Run(info, rank, files, evs[..|evs| - 1]), evs[|evs| - 1]);
    }
  }

  /** The map of every input file is true when the file is done, and the file has added at
      most one record more than it has symbols. */
  lemma SymbolMapIsTrue(info: Info, rank: seq<nat>, files: seq<Input>, evs: seq<Event>, file: nat)
    requires LinkOk(info, rank, files) && EventsOk(info, files, evs) && file < |files|
    ensures var st := Run(info, rank, files, evs);
            var f := files[file];
            var p := FileEnd(info, rank, f, file, st);
            && MapTrue(f, file, p, |f.syms|)
            && |p.st.records| <= |st.records| + |f.syms| + 1
            && st.records <= p.st.records
  {
    IndicesAreRecordNumbers(info, rank, files, evs);
    FileRunTrue(info, rank, files, file, Run(info, rank, files, evs), |files[file].syms|);
  }

  // ---------- nothing is lost ----------

  predicate IsReal(e: Entry) {
    e.kind != New && !IsLink(e)
  }

  /** With nothing stripped, an entry is only called written once it has a record. */
  ghost predicate WrittenMeansEmitted(info: Info, st: State)
    requires StateOk(info.table, st)
  {
    forall h :: 0 <= h < |info.table| && IsReal(info.table[h]) && st.written[h] ==> st.indx[h] >= 0
  }

  lemma {:induction false} FileRunEmits(info: Info, rank: seq<nat>, f: Input, file: nat, st: State, i: nat)
    requires TableOk(info.table, rank) && InputOk(info.table, f) && StateOk(info.table, st) && i <= |f.syms|
    requires info.strip == StripNone && WrittenMeansEmitted(info, st)
    ensures WrittenMeansEmitted(info, FileRun(info, rank, f, file, st, i).st)
  {
    hide Step;
    if i == 0 {
    } else {
      FileRunEmits(info, rank, f, file, st, i - 1);
      var h := StepAdds(info, rank, f, file, FileRun(info, rank, f, file, st, i - 1), i - 1);
    }
  }

  lemma ApplyEmits(info: Info, rank: seq<nat>, files: seq<Input>, st: State, ev: Event)
    requires LinkOk(info, rank, files) && StateOk(info.table, st) && EventOk(info, files, ev)
    requires info.strip == StripNone && WrittenMeansEmitted(info, st) && IndicesTrue(st)
    ensures var q := Apply(info, rank, files, st, ev);
            && WrittenMeansEmitted(info, q)
            && (ev.Other? && IsReal(info.table[ev.entry]) ==> q.written[ev.entry])
  {
    match ev
    case InputFile(f) => FileRunEmits(info, rank, files[f], f, st, |files[f].syms|);
    case Other(e) =>
    case Forced(e) =>
  }

  ghost predicate WrittenAll(info: Info, st: State, n: nat)
    requires StateOk(info.table, st)
  {
    forall h :: 0 <= h < n && h < |info.table| && IsReal(info.table[h]) ==> st.indx[h] >= 0
  }

  /** The walk over the whole hash table that follows the input files. */
  function Walk(n: nat): (evs: seq<Event>)
    ensures |evs| == n && forall k :: 0 <= k < n ==> evs[k] == Other(k)
  {
    seq(n, k requires k >= 0 => Other(k))
  }

  /** The walk at the end may follow any events. */
  lemma WalkIsOk(info: Info, files: seq<Input>, evs: seq<Event>, n: nat)
    requires EventsOk(info, files, evs) && n <= |info.table|
    ensures EventsOk(info, files, evs + Walk(n))
  {
    var all := evs + Walk(n);
    forall k | 0 <= k < |all| ensures EventOk(info, files, all[k]) {
      assert k >= |evs| ==> all[k] == Other(k - |evs|);
    }
  }

  lemma {:induction false} WalkEmits(info: Info, rank: seq<nat>, files: seq<Input>, evs: seq<Event>, n: nat)
    requires LinkOk(info, rank, files) && EventsOk(info, files, evs) && n <= |info.table|
    requires info.strip == StripNone
    ensures EventsOk(info, files, evs + Walk(n))
    ensures var st := Run(info, rank, files, evs + Walk(n));
            WrittenMeansEmitted(info, st) && WrittenAll(info, st, n)
  {
    hide Apply;
    var all := evs + Walk(n);
    if all == [] {
    } else {
      var last := all[|all| - 1];
      if n > 0 {
        assert all[..|all| - 1] == evs + Walk(n - 1);
        WalkEmits(info, rank, files, evs, n - 1);
        assert last == Other(n - 1);
      } else {
        assert all == evs;
        assert evs[..|evs| - 1] + Walk(0) == evs[..|evs| - 1];
        WalkEmits(info, rank, files, evs[..|evs| - 1], 0);
      }
      var st := Run(info, rank, files, all[..|all| - 1]);
      IndicesAreRecordNumbers(info, rank, files, all[..|all| - 1]);
      ApplyEmits(info, rank, files, st, last);
      ApplyKeepsIndices(info, rank, files, st, last);
    }
  }

  lemma ApplyKeepsIndices(info: Info, rank: seq<nat>, files: seq<Input>, st: State, ev: Event)
    requires LinkOk(info, rank, files) && StateOk(info.table, st) && EventOk(info, files, ev)
    requires IndicesTrue(st)
    ensures forall h :: 0 <= h < |info.table| && st.indx[h] >= 0 ==> Apply(info, rank, files, st, ev).indx[h] == st.indx[h]
  {
    match ev
    case InputFile(f) => FileRunKeepsIndices(info, rank, files, f, st, |files[f].syms|);
    case Other(e) =>
    case Forced(e) =>
  }

  lemma StepKeepsIndices(info: Info, rank: seq<nat>, f: Input, file: nat, p: Pass, i: nat)
    requires TableOk(info.table, rank) && PassOk(info.table, f, p) && i < |f.syms| && IndicesTrue(p.st)
    ensures var q := Step(info, rank, f, file, p, i).st;
            && IndicesTrue(q)
            && forall h :: 0 <= h < |info.table| && p.st.indx[h] >= 0 ==> q.indx[h] == p.st.indx[h]
  {
    var h := StepAdds(info, rank, f, file, p, i);
    hide Step;
  }

  lemma {:induction false} FileRunKeepsIndices(info: Info, rank: seq<nat>, files: seq<Input>, file: nat, st: State, i: nat)
    requires LinkOk(info, rank, files) && StateOk(info.table, st) && file < |files| && i <= |files[file].syms|
    requires IndicesTrue(st)
    ensures var q := FileRun(info, rank, files[file], file, st, i).st;
            && IndicesTrue(q)
            && forall h :: 0 <= h < |info.table| && st.indx[h] >= 0 ==> q.indx[h] == st.indx[h]
  {
    hide Step;
    if i == 0 {
    } else {
      FileRunKeepsIndices(info, rank, files, file, st, i - 1);
      StepKeepsIndices(info, rank, files[file], file, FileRun(info, rank, files[file], file, st, i - 1), i - 1);
    }
  }

  /** With nothing stripped, after the final walk every real hash entry has exactly one record. */
  lemma EverySymbolOnce(info: Info, rank: seq<nat>, files: seq<Input>, evs: seq<Event>, h: nat)
    requires LinkOk(info, rank, files) && EventsOk(info, files, evs)
    requires info.strip == StripNone && h < |info.table| && IsReal(info.table[h])
    ensures EventsOk(info, files, evs + Walk(|info.table|))
    ensures var st := Run(info, rank, files, evs + Walk(|info.table|));
            && 0 <= st.indx[h] < |st.records|
            && st.records[st.indx[h]].name == info.table[h].name
            && forall k :: 0 <= k < |st.owners| ==> (st.owners[k] == GlobalSym(h) <==> k == st.indx[h])
  {
    WalkEmits(info, rank, files, evs, |info.table|);
    IndicesAreRecordNumbers(info, rank, files, evs + Walk(|info.table|));
    hide Run;
    var st := Run(info, rank, files, evs + Walk(|info.table|));
    assert Stands(info, files, st.records[st.indx[h]], st.owners[st.indx[h]]);
  }

  // ---------- which records are local symbols' ----------

  /** The records that a file's first i symbols have added for local symbols are those that the map gives. */
  ghost predicate LocalsMapped(file: nat, p: Pass, from: nat, i: nat) {
    forall k :: from <= k < |p.st.owners| && p.st.owners[k].LocalSym? ==> MappedTo(file, p, p.st.owners[k], k, i)
  }

  predicate MappedTo(file: nat, p: Pass, o: Owner, k: nat, i: nat)
    requires o.LocalSym?
  {
    o.file == file && o.index < i && o.index < |p.symbolMap| && p.symbolMap[o.index] == k
  }

  lemma StepMapsLocals(info: Info, rank: seq<nat>, f: Input, file: nat, p: Pass, from: nat, i: nat)
    requires TableOk(info.table, rank) && PassOk(info.table, f, p) && i < |f.syms|
    requires from <= |p.st.owners| && LocalsMapped(file, p, from, i)
    ensures from <= |Step(info, rank, f, file, p, i).st.owners|
    ensures LocalsMapped(file, Step(info, rank, f, file, p, i), from, i + 1)
  {
    hide Step, TableOk;
    var h := StepAdds(info, rank, f, file, p, i);
    var q := Step(info, rank, f, file, p, i);
    forall k | from <= k < |q.st.owners| && q.st.owners[k].LocalSym? ensures MappedTo(file, q, q.st.owners[k], k, i + 1) {
      if k < |p.st.owners| {
        assert MappedTo(file, p, p.st.owners[k], k, i);
      }
    }
  }

  lemma {:induction false} LocalsAreMapped(info: Info, rank: seq<nat>, f: Input, file: nat, st: State, i: nat)
    requires TableOk(info.table, rank) && InputOk(info.table, f) && StateOk(info.table, st) && i <= |f.syms|
    ensures |st.owners| <= |FileRun(info, rank, f, file, st, i).st.owners|
    ensures LocalsMapped(file, FileRun(info, rank, f, file, st, i), |st.owners|, i)
  {
    hide Step, TableOk, LocalsMapped;
    if i == 0 {
      StartMapsNone(info, f, file, st);
    } else {
      LocalsAreMapped(info, rank, f, file, st, i - 1);
      StepMapsLocals(info, rank, f, file, FileRun(info, rank, f, file, st, i - 1), |st.owners|, i - 1);
    }
  }

  lemma StartMapsNone(info: Info, f: Input, file: nat, st: State)
    requires InputOk(info.table, f) && StateOk(info.table, st)
    ensures |st.owners| <= |Start(info, f, file, st).st.owners|
    ensures LocalsMapped(file, Start(info, f, file, st), |st.owners|, 0)
  {
  }
}
