/** Header groups over whole links: which groups the output keeps, what it leaves out, and when it nests. */
module GroupRuns {
  import opened AoutSymbols
  import opened AoutTypes
  import opened Basics
  import opened HeaderGroups
  import opened LinkRuns
  import opened GroupSteps
  import opened SymbolRecords

  /** Input files with nothing stripped and no stab discarded. */
  ghost predicate RunOk(info: Info, rank: seq<nat>, files: seq<Input>, evs: seq<Event>) {
    && LinkOk(info, rank, files)
    && EventsOk(info, files, evs)
    && forall f :: 0 <= f < |files| ==> Plain(info, files[f])
  }

  /** The keys of the groups that the files of a run have entered. */
  ghost function History(info: Info, rank: seq<nat>, files: seq<Input>, evs: seq<Event>): set<Key>
    requires RunOk(info, rank, files, evs)
    decreases evs, 0
  {
    if evs == [] then {}
    else
      var before := evs[..|evs| - 1];
      match evs[|evs| - 1]
      case InputFile(f) => History(info, rank, files, before) + KeysBefore(Next(info, rank, files, before, f), |files[f].syms|)
      case _ => History(info, rank, files, before)
  }

  /** File f, put through after a run. */
  ghost function Next(info: Info, rank: seq<nat>, files: seq<Input>, evs: seq<Event>, f: nat): (c: Passage)
    requires RunOk(info, rank, files, evs) && f < |files|
    ensures c.info == info && c.rank == rank && c.f == files[f] && c.file == f
    ensures c.st == Run(info, rank, files, evs) && c.hist == History(info, rank, files, evs)
    ensures MissedIs(c, |files[f].syms|)
    decreases evs, 1
  {
    var c := Passage(info, rank, files[f], f, Run(info, rank, files, evs), History(info, rank, files, evs), {});
    SettledIsRight(c);
    Settled(c)
  }

  /** The table of headers knows the groups that were entered. */
  lemma {:induction false} HistoryIsKnown(info: Info, rank: seq<nat>, files: seq<Input>, evs: seq<Event>)
    requires RunOk(info, rank, files, evs)
    ensures Knows(Run(info, rank, files, evs).includes, History(info, rank, files, evs))
  {
    hide FileRun, WriteOther, Plain;
    if evs == [] {
    } else {
      var before := evs[..|evs| - 1];
      HistoryIsKnown(info, rank, files, before);
      match evs[|evs| - 1]
      case InputFile(f) =>
        var c := Next(info, rank, files, before, f);
        FileFacts(c, |c.f.syms|);
      case Other(e) => OtherAddsNone(info, Run(info, rank, files, before), e);
      case Forced(e) => OtherAddsNone(info, Forcing(Run(info, rank, files, before), e), e);
    }
  }

  function Forcing(st: State, e: nat): State
    requires e < |st.indx| == |st.written|
  {
    st.(indx := st.indx[e := -2], written := st.written[e := false])
  }

  /** A symbol written outside the files is no bracket. */
  lemma OtherAddsNone(info: Info, st: State, e: nat)
    requires StateOk(info.table, st) && e < |info.table|
    requires info.table[e].kind == Warning ==>
               info.table[e].link < |info.table| && info.table[info.table[e].link].kind != Warning
    ensures WriteOther(info, st, e).includes == st.includes
    ensures RecordsAfter(st.records, WriteOther(info, st, e).records, 0)
  {
    assert !IsStab(WithExt(DefinedKind(info.table[e])));
  }

  lemma NextIsOk(info: Info, rank: seq<nat>, files: seq<Input>, evs: seq<Event>, f: nat)
    requires RunOk(info, rank, files, evs) && f < |files|
    ensures PassageOk(Next(info, rank, files, evs, f))
  {
    hide Knows, Run, History, Next;
    HistoryIsKnown(info, rank, files, evs);
  }

  // ---------- what goes ----------

  /** No record that the file adds is for a local symbol that a repeated group drops. */
  ghost predicate NoneDropped(c: Passage, p: Pass, from: nat) {
    forall k :: from <= k < |p.st.owners| && p.st.owners[k].LocalSym? ==>
      p.st.owners[k].index < |c.f.syms| && !Dropped(c, p.st.owners[k].index)
  }

  /** In any run, for any file that comes next: a group that is entered keeps its opening symbol iff no group entered
      before it, in this file or an earlier one, has the same name and total; a symbol, local or global, that sits directly in
      or closes a repeated group is left out, and no record is written for it; and of the other local symbols exactly
      those are left out that are discarded or skipped. */
  lemma RepeatedGroupsGo(info: Info, rank: seq<nat>, files: seq<Input>, evs: seq<Event>, f: nat)
    requires RunOk(info, rank, files, evs) && f < |files|
    ensures var c := Next(info, rank, files, evs, f);
            && PassageOk(c) && MissedIs(c, |c.f.syms|)
            && var p := PassAt(c, |c.f.syms|);
               && GroupsDone(c, p.symbolMap, p.st.records, |c.f.syms|)
               && LeftOutBehind(c, p.symbolMap, |c.f.syms|)
               && NoneDropped(c, p, |c.st.owners|)
  {
    NextIsOk(info, rank, files, evs, f);
    var c := Next(info, rank, files, evs, f);
    FileFacts(c, |c.f.syms|);
    LocalsAreMapped(info, rank, c.f, f, c.st, |c.f.syms|);
    hide Run, FileRun, Plain, Knows, Dropped, GroupsDone, History, TableOk, Next, Lost, WrittenIs, FlagsAre, MarkedAhead;
    var p := PassAt(c, |c.f.syms|);
    forall k | |c.st.owners| <= k < |p.st.owners| && p.st.owners[k].LocalSym?
      ensures p.st.owners[k].index < |c.f.syms| && !Dropped(c, p.st.owners[k].index)
    {
      assert MappedTo(f, p, p.st.owners[k], k, |c.f.syms|);
      assert LeftOutIs(c, p.symbolMap[p.st.owners[k].index], p.st.owners[k].index);
    }
  }

  // ---------- what the local symbols say ----------

  /** Of the symbols before i without a hash entry, each that is neither dropped nor lost has a record: unchanged if a
      flag was set before it, and else with its type and its place in its section. */
  ghost predicate LocalsSay(c: Passage, p: Pass, i: nat)
    requires PassageOk(c) && PassOk(c.info.table, c.f, p) && i <= |c.f.syms|
  {
    forall j :: 0 <= j < i && c.f.hashes[j].None? && !Dropped(c, j) && !Lost(c, j) ==>
      LocalSaysAt(c, p.st.records, p.symbolMap[j], j)
  }

  ghost predicate LocalSaysAt(c: Passage, rs: seq<Record>, k: int, j: nat)
    requires j < |c.f.syms| == |c.f.hashes|
  {
    && 0 <= k < |rs|
    && (if Flagged(c, j) then Unchanged(c.f.syms[j], rs[k]) else LocalSays(c.f, c.f.syms[j], rs[k]))
  }

  lemma OneLocalSays(c: Passage, p: Pass, i: nat)
    requires PassageOk(c) && PassOk(c.info.table, c.f, p) && i < |c.f.syms| && RunFacts(c, p, i)
    requires c.f.hashes[i].None? && !Dropped(c, i) && !Lost(c, i)
    ensures LocalSaysAt(c, StepOf(c, p, i).st.records, StepOf(c, p, i).symbolMap[i], i)
  {
    var y := c.f.syms[i];
    DroppedIsMarked(c, p.symbolMap, i);
    if Flagged(c, i) {
      FlaggedStep(c, p, i);
      StaysUnchanged(y, MakeRecord(y, y.kind, y.name, y.value));
    } else {
      LocalStepSays(c.info, c.rank, c.f, c.file, p, i);
      ModesKeep(c.info, y, y.name);
    }
    hide Step, LocalSays, Unchanged, Dropped, Flagged, MarkedAhead, WrittenIs, LeftOutBehind, GroupsDone, Knows, HasType;
  }

  lemma StepLocals(c: Passage, p: Pass, i: nat)
    requires PassageOk(c) && PassOk(c.info.table, c.f, p) && i < |c.f.syms| && RunFacts(c, p, i)
    requires LocalsSay(c, p, i)
    ensures LocalsSay(c, StepOf(c, p, i), i + 1)
  {
    hide Step, RunFacts, LocalSays, Unchanged, Dropped, Flagged, Lost, TableOk;
    var h := StepAdds(c.info, c.rank, c.f, c.file, p, i);
    var q := StepOf(c, p, i);
    assert p.st.records <= q.st.records;
    if c.f.hashes[i].None? && !Dropped(c, i) && !Lost(c, i) {
      OneLocalSays(c, p, i);
    }
    forall j | 0 <= j < i && c.f.hashes[j].None? && !Dropped(c, j) && !Lost(c, j)
      ensures LocalSaysAt(c, q.st.records, q.symbolMap[j], j)
    {
      assert LocalSaysAt(c, p.st.records, p.symbolMap[j], j);
    }
  }

  lemma {:induction false} FileLocals(c: Passage, i: nat)
    requires PassageOk(c) && i <= |c.f.syms| && MissedIs(c, i)
    ensures LocalsSay(c, PassAt(c, i), i)
  {
    hide Step, Start, RunFacts, LocalSaysAt, Dropped, Flagged, Lost;
    if i == 0 {
    } else {
      FileLocals(c, i - 1);
      FileFacts(c, i - 1);
      StepLocals(c, PassAt(c, i - 1), i - 1);
    }
  }

  /** In any run, so do the local symbols of any file that comes next. */
  lemma LocalsSayInRuns(info: Info, rank: seq<nat>, files: seq<Input>, evs: seq<Event>, f: nat)
    requires RunOk(info, rank, files, evs) && f < |files|
    ensures var c := Next(info, rank, files, evs, f);
            PassageOk(c) && LocalsSay(c, PassAt(c, |c.f.syms|), |c.f.syms|)
  {
    NextIsOk(info, rank, files, evs, f);
    hide Next;
    FileLocals(Next(info, rank, files, evs, f), |files[f].syms|);
  }

  // ---------- when every group counts ----------

  /** The keys of all groups of the files of a run. */
  function AllKeys(files: seq<Input>, evs: seq<Event>): set<Key> {
    if evs == [] then {}
    else
      var ev := evs[|evs| - 1];
      AllKeys(files, evs[..|evs| - 1]) + (if ev.InputFile? && ev.file < |files| then Keys(files[ev.file]) else {})
  }

  function Keys(f: Input): set<Key> {
    set g | 0 <= g < |f.syms| && f.syms[g].kind == N_BINCL :: GroupKey(f, g)
  }

  /** File f, put through after a run all of whose groups are known, with none missed. */
  ghost function Ideal(info: Info, rank: seq<nat>, files: seq<Input>, evs: seq<Event>, f: nat): (c: Passage)
    requires RunOk(info, rank, files, evs) && f < |files|
    ensures c.f == files[f]
  {
    Passage(info, rank, files[f], f, Run(info, rank, files, evs), AllKeys(files, evs), {})
  }

  /** All groups so far are known, and the file's are dealt with as they should, after every symbol. */
  ghost predicate FileTrue(c: Passage) {
    PassageOk(c) && forall j :: 0 <= j <= |c.f.syms| ==> RunFacts(c, PassAt(c, j), j)
  }

  /** So are the groups of every file of a run. */
  ghost predicate RunTrue(info: Info, rank: seq<nat>, files: seq<Input>, evs: seq<Event>)
    requires RunOk(info, rank, files, evs)
  {
    if evs == [] then true
    else
      var before := evs[..|evs| - 1];
      && RunTrue(info, rank, files, before)
      && match evs[|evs| - 1]
         case InputFile(f) => FileTrue(Ideal(info, rank, files, before, f))
         case _ => true
  }

  /** No opening symbol of a file of the run comes right after a symbol that has it passed through or skipped. */
  ghost predicate RunEnters(info: Info, rank: seq<nat>, files: seq<Input>, evs: seq<Event>)
    requires RunOk(info, rank, files, evs)
  {
    if evs == [] then true
    else
      var before := evs[..|evs| - 1];
      && RunEnters(info, rank, files, before)
      && match evs[|evs| - 1]
         case InputFile(f) => AllEntered(Ideal(info, rank, files, before, f), |files[f].syms|)
         case _ => true
  }

  lemma KeysAreAll(c: Passage)
    requires c.missed == {}
    ensures KeysBefore(c, |c.f.syms|) == Keys(c.f)
  {
  }

  /** Then the groups entered are all there are. */
  lemma {:induction false} HistoryIsAll(info: Info, rank: seq<nat>, files: seq<Input>, evs: seq<Event>)
    requires RunOk(info, rank, files, evs) && RunEnters(info, rank, files, evs)
    ensures History(info, rank, files, evs) == AllKeys(files, evs)
  {
    hide Run, Plain, AllEntered;
    if evs == [] {
    } else {
      var before := evs[..|evs| - 1];
      HistoryIsAll(info, rank, files, before);
      match evs[|evs| - 1]
      case InputFile(f) =>
        var c := Next(info, rank, files, before, f);
        NoneMissed(Ideal(info, rank, files, before, f), |files[f].syms|);
        KeysAreAll(c);
      case _ =>
    }
  }

  /** Over any run, the groups of every file are all remembered, replaced if repeated, and all that repeated ones drop is left
      out, if and only if no file has an opening symbol right after a symbol that has it passed through or skipped. */
  lemma {:induction false} GroupsAreTrueInRuns(info: Info, rank: seq<nat>, files: seq<Input>, evs: seq<Event>)
    requires RunOk(info, rank, files, evs)
    ensures RunTrue(info, rank, files, evs) <==> RunEnters(info, rank, files, evs)
  {
    hide Run, History, Plain, RunFacts, AllEntered, Knows;
    if evs == [] {
    } else {
      var before := evs[..|evs| - 1];
      GroupsAreTrueInRuns(info, rank, files, before);
      if RunEnters(info, rank, files, before) {
        HistoryIsAll(info, rank, files, before);
        HistoryIsKnown(info, rank, files, before);
        match evs[|evs| - 1]
        case InputFile(f) => GroupsAreTrue(Ideal(info, rank, files, before, f), |files[f].syms|);
        case _ =>
      }
    }
  }

  // ---------- when the output nests ----------

  /** The nesting depth after a run, from the levels of its files; -1 once it was negative. */
  ghost function RunDepth(info: Info, rank: seq<nat>, files: seq<Input>, evs: seq<Event>): int
    requires RunOk(info, rank, files, evs)
  {
    if evs == [] then 0
    else
      var before := evs[..|evs| - 1];
      var d := RunDepth(info, rank, files, before);
      match evs[|evs| - 1]
      case InputFile(f) =>
        NextIsOk(info, rank, files, before, f);
        var c := Next(info, rank, files, before, f);
        if Stays(c, d, |c.f.syms|) then d + Level(c, |c.f.syms|) else -1
      case _ => d
  }

  /** For any files, nested or not, this is the depth of the output. */
  lemma {:induction false} OutputDepthOfRuns(info: Info, rank: seq<nat>, files: seq<Input>, evs: seq<Event>)
    requires RunOk(info, rank, files, evs)
    ensures Depth(OutputKinds(Run(info, rank, files, evs).records)) == RunDepth(info, rank, files, evs)
  {
    hide FileRun, WriteOther, Plain, Stays, Level, Next;
    if evs == [] {
    } else {
      var before := evs[..|evs| - 1];
      var st := Run(info, rank, files, before);
      OutputDepthOfRuns(info, rank, files, before);
      match evs[|evs| - 1]
      case InputFile(f) =>
        NextIsOk(info, rank, files, before, f);
        OutputDepth(Next(info, rank, files, before, f), |files[f].syms|);
      case Other(e) =>
        OtherKeepsDepth(info, st, e);
      case Forced(e) =>
        OtherKeepsDepth(info, Forcing(st, e), e);
    }
  }

  lemma OtherKeepsDepth(info: Info, st: State, e: nat)
    requires StateOk(info.table, st) && e < |info.table|
    requires info.table[e].kind == Warning ==>
               info.table[e].link < |info.table| && info.table[info.table[e].link].kind != Warning
    ensures Depth(OutputKinds(WriteOther(info, st, e).records)) == Depth(OutputKinds(st.records))
  {
    hide WriteOther;
    OtherAddsNone(info, st, e);
    DepthAfter(st.records, WriteOther(info, st, e).records, 0);
    NotBelow(OutputKinds(st.records));
  }

  ghost predicate AllNested(files: seq<Input>) {
    forall f :: 0 <= f < |files| ==> WellNested(InputKinds(files[f].syms, |files[f].syms|))
  }

  /** No file of the run has a symbol of this type skipped. */
  ghost predicate RunSkipsNone(info: Info, rank: seq<nat>, files: seq<Input>, evs: seq<Event>, kind: Byte)
    requires RunOk(info, rank, files, evs)
  {
    if evs == [] then true
    else
      var before := evs[..|evs| - 1];
      && RunSkipsNone(info, rank, files, before, kind)
      && match evs[|evs| - 1]
         case InputFile(f) =>
           NextIsOk(info, rank, files, before, f);
           NoneSkipped(Next(info, rank, files, before, f), kind, |files[f].syms|)
         case _ => true
  }

  /** If every input file's groups nest and no opening symbol is skipped, the groups of the output nest if and only if no
      closing symbol is skipped; and the output never closes more than it opens. */
  lemma {:induction false} OutputGroupsNest(info: Info, rank: seq<nat>, files: seq<Input>, evs: seq<Event>)
    requires RunOk(info, rank, files, evs) && AllNested(files)
    requires RunSkipsNone(info, rank, files, evs, N_BINCL)
    ensures Depth(OutputKinds(Run(info, rank, files, evs).records)) >= 0
    ensures WellNested(OutputKinds(Run(info, rank, files, evs).records)) <==> RunSkipsNone(info, rank, files, evs, N_EINCL)
  {
    hide FileRun, WriteOther, Plain, Next, NoneSkipped, SkippedCloses;
    if evs == [] {
    } else {
      var before := evs[..|evs| - 1];
      var st := Run(info, rank, files, before);
      OutputGroupsNest(info, rank, files, before);
      match evs[|evs| - 1]
      case InputFile(f) =>
        NextIsOk(info, rank, files, before, f);
        var c := Next(info, rank, files, before, f);
        FileNests(c);
        OnlyClosesSkipped(c, |c.f.syms|);
      case Other(e) =>
        OtherKeepsDepth(info, st, e);
      case Forced(e) =>
        OtherKeepsDepth(info, Forcing(st, e), e);
    }
  }
}
