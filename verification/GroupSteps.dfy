/** One input file with stabs groups: when a symbol is passed through or skipped because of the one before it, which
    groups are entered, which symbols repeated groups drop, and which brackets are written. */
module GroupSteps {
  import opened AoutSymbols
  import opened AoutTypes
  import opened Basics
  import opened HeaderGroups

  /** An input file that is put through after state st. hist are the groups that the table of headers knows then; missed
      are the opening symbols in this file that do not enter a group. */
  datatype Passage = Passage(info: Info, rank: seq<nat>, f: Input, file: nat, st: State, hist: set<Key>, missed: set<nat>)

  /** Stabs are not global symbols: no input file has them in the hash table. */
  predicate StabsAreLocal(f: Input)
    requires |f.hashes| == |f.syms|
  {
    forall i :: 0 <= i < |f.syms| && IsStab(f.syms[i].kind) ==> f.hashes[i].None?
  }

  /** Nothing is stripped, and no stab is discarded. */
  predicate Plain(info: Info, f: Input) {
    && info.strip == StripNone
    && info.discard != DiscardAll
    && InputOk(info.table, f)
    && StabsAreLocal(f)
  }

  ghost predicate PassageOk(c: Passage) {
    && TableOk(c.info.table, c.rank)
    && StateOk(c.info.table, c.st)
    && Plain(c.info, c.f)
    && Knows(c.st.includes, c.hist)
  }

  // ---------- which symbols are dropped ----------

  /** The keys of the groups entered before symbol i. */
  function KeysBefore(c: Passage, i: nat): set<Key>
    requires i <= |c.f.syms|
  {
    set g | 0 <= g < i && c.f.syms[g].kind == N_BINCL && g !in c.missed :: GroupKey(c.f, g)
  }

  /** Group g is entered, and has the name and total of an earlier one, in a file before or in this one. */
  predicate Repeated(c: Passage, g: nat)
    requires g < |c.f.syms|
  {
    c.f.syms[g].kind == N_BINCL && g !in c.missed && GroupKey(c.f, g) in c.hist + KeysBefore(c, g)
  }

  /** Symbol j sits directly in a repeated group, or closes it. */
  predicate Dropped(c: Passage, j: nat)
    requires j < |c.f.syms|
  {
    var s := Open(c.f.syms, j);
    s != [] && c.f.syms[j].kind != N_BINCL && Repeated(c, s[|s| - 1])
  }

  // ---------- which symbols are passed through or skipped ----------

  /** Before symbol i a flag is set: the symbol before it is indirect or a warning, and is neither dropped nor discarded nor
      itself passed through or skipped. */
  predicate Flagged(c: Passage, i: nat)
    requires i <= |c.f.syms| == |c.f.hashes|
  {
    && i > 0
    && !Flagged(c, i - 1)
    && Passes(c.f.syms[i - 1].kind)
    && !(c.f.hashes[i - 1].None? && Discarded(c.info, c.f.syms[i - 1]))
    && !Dropped(c, i - 1)
  }

  /** Symbol j comes to its hash entry h. */
  predicate Reaches(c: Passage, j: nat, h: nat)
    requires j < |c.f.syms| == |c.f.hashes|
  {
    c.f.hashes[j] == Some(h) && !Dropped(c, j) && !Flagged(c, j)
  }

  /** Entry h is written before symbol i: in what was put through before the file, or by one of its symbols. */
  predicate WrittenBefore(c: Passage, i: nat, h: nat)
    requires i <= |c.f.syms| == |c.f.hashes| && h < |c.st.written|
  {
    c.st.written[h] || exists j :: 0 <= j < i && Reaches(c, j, h)
  }

  predicate IsDefinition(e: Entry) {
    e.kind == Defined || e.kind == DefWeak || e.kind == Common
  }

  /** An indirect symbol whose entry turned out to be a definition. */
  ghost predicate Resolved(c: Passage, kind: Byte, h: nat)
    requires TableOk(c.info.table, c.rank) && h < |c.info.table|
  {
    TypeBits(kind) == N_INDR && IsDefinition(c.info.table[Resolve(c.info.table, c.rank, h)])
  }

  /** The flag that symbol j sets is the one that makes the next symbol go: its hash entry is written already, or it is
      indirect no more. */
  ghost predicate Skips(c: Passage, j: nat)
    requires PassageOk(c) && j < |c.f.syms|
  {
    c.f.hashes[j].Some?
    && (WrittenBefore(c, j, c.f.hashes[j].value) || Resolved(c, c.f.syms[j].kind, c.f.hashes[j].value))
  }

  ghost predicate Skipped(c: Passage, i: nat)
    requires PassageOk(c) && i <= |c.f.syms|
  {
    Flagged(c, i) && Skips(c, i - 1)
  }

  /** A symbol after one that passes is dropped with it. */
  lemma FlaggedIsKept(c: Passage, i: nat)
    requires i < |c.f.syms| == |c.f.hashes| && Flagged(c, i)
    ensures !Dropped(c, i)
  {
  }

  // ---------- the state before a symbol ----------

  /** What a group's opening symbol becomes. */
  function GroupRecord(c: Passage, g: nat): Record
    requires g < |c.f.syms|
  {
    MakeRecord(c.f.syms[g], if Repeated(c, g) then N_EXCL else N_BINCL, c.f.syms[g].name, GroupTotal(c.f.syms, g))
  }

  ghost predicate FlagsAre(c: Passage, p: Pass, i: nat)
    requires PassageOk(c) && i <= |c.f.syms|
  {
    && !(p.pass && p.skipNext)
    && (p.pass || p.skipNext <==> Flagged(c, i))
    && (p.skipNext <==> Skipped(c, i))
  }

  ghost predicate WrittenIs(c: Passage, written: seq<bool>, i: nat)
    requires PassageOk(c) && i <= |c.f.syms| && |written| == |c.st.written|
  {
    forall h :: 0 <= h < |written| ==> (written[h] <==> WrittenBefore(c, i, h))
  }

  /** The symbols from i on are marked iff a group entered so far drops them. */
  ghost predicate MarkedAhead(c: Passage, m: seq<int>, i: nat)
    requires |m| == |c.f.syms|
  {
    forall j :: i <= j < |c.f.syms| ==> m[j] == if Dropped(c, j) && Innermost(c.f, j) < i then -1 else 0
  }

  /** Symbol j is left out although no repeated group drops it. */
  ghost predicate Lost(c: Passage, j: nat)
    requires PassageOk(c) && j < |c.f.syms|
  {
    if Flagged(c, j) then Skipped(c, j) else !IsSet(c.f.syms[j].kind) && Discarded(c.info, c.f.syms[j])
  }

  /** x is a map entry for symbol j that says whether it is left out: what a repeated group drops is, local or global, and
      of the other local symbols exactly those that are lost. */
  ghost predicate LeftOutIs(c: Passage, x: int, j: nat)
    requires PassageOk(c) && j < |c.f.syms|
  {
    && (Dropped(c, j) ==> x == -1)
    && (c.f.hashes[j].None? ==> (x == -1 <==> Dropped(c, j) || Lost(c, j)))
  }

  ghost predicate LeftOutBehind(c: Passage, m: seq<int>, i: nat)
    requires PassageOk(c) && |m| == |c.f.syms| && i <= |c.f.syms|
  {
    forall j :: 0 <= j < i ==> LeftOutIs(c, m[j], j)
  }

  /** Each group entered has the record that it calls for. */
  ghost predicate GroupsDone(c: Passage, m: seq<int>, rs: seq<Record>, i: nat)
    requires |m| == |c.f.syms| && i <= |c.f.syms|
  {
    forall g :: 0 <= g < i && c.f.syms[g].kind == N_BINCL && g !in c.missed ==>
      0 <= m[g] < |rs| && rs[m[g]] == GroupRecord(c, g)
  }

  /** The facts that hold before symbol i. */
  ghost predicate RunFacts(c: Passage, p: Pass, i: nat)
    requires PassageOk(c) && PassOk(c.info.table, c.f, p) && i <= |c.f.syms|
  {
    && FlagsAre(c, p, i)
    && WrittenIs(c, p.st.written, i)
    && HashesAhead(c.f, p, i)
    && Knows(p.st.includes, c.hist + KeysBefore(c, i))
    && MarkedAhead(c, p.symbolMap, i)
    && LeftOutBehind(c, p.symbolMap, i)
    && GroupsDone(c, p.symbolMap, p.st.records, i)
  }

  ghost function StepOf(c: Passage, p: Pass, i: nat): (q: Pass)
    requires PassageOk(c) && PassOk(c.info.table, c.f, p) && i < |c.f.syms|
    ensures PassOk(c.info.table, c.f, q)
  {
    Step(c.info, c.rank, c.f, c.file, p, i)
  }

  ghost function PassAt(c: Passage, i: nat): (p: Pass)
    requires PassageOk(c) && i <= |c.f.syms|
    ensures PassOk(c.info.table, c.f, p)
  {
    FileRun(c.info, c.rank, c.f, c.file, c.st, i)
  }

  /** Of the first n symbols, the opening ones that enter no group are exactly those that are passed through or skipped. */
  ghost predicate MissedIs(c: Passage, n: nat)
    requires n <= |c.f.syms| == |c.f.hashes|
  {
    forall g :: 0 <= g < n && c.f.syms[g].kind == N_BINCL ==> (g in c.missed <==> Flagged(c, g))
  }

  // ---------- one step, case by case ----------

  lemma DroppedIsMarked(c: Passage, m: seq<int>, i: nat)
    requires i < |c.f.syms| == |m| && MarkedAhead(c, m, i)
    ensures m[i] == if Dropped(c, i) then -1 else 0
  {
    if Open(c.f.syms, i) != [] {
      InnermostBefore(c.f, i);
    }
  }

  /** A flagged symbol is passed through unchanged, or skipped. */
  lemma FlaggedStep(c: Passage, p: Pass, i: nat)
    requires PassageOk(c) && PassOk(c.info.table, c.f, p) && i < |c.f.syms|
    requires p.symbolMap[i] != -1 && !(p.pass && p.skipNext) && (p.pass || p.skipNext)
    ensures var y, q := c.f.syms[i], StepOf(c, p, i);
            && !q.pass && !q.skipNext && q.hashes == p.hashes
            && q.st.includes == p.st.includes && q.st.written == p.st.written
            && (if p.pass then
                  q.st.records == p.st.records + [MakeRecord(y, y.kind, y.name, y.value)]
                  && q.symbolMap == p.symbolMap[i := |p.st.records|]
                else q.st.records == p.st.records && q.symbolMap == p.symbolMap[i := -1])
  {
  }

  /** A symbol without a hash entry that is not an opening one. */
  lemma LocalStep(c: Passage, p: Pass, i: nat)
    requires PassageOk(c) && PassOk(c.info.table, c.f, p) && i < |c.f.syms|
    requires p.symbolMap[i] != -1 && !p.pass && !p.skipNext && p.hashes[i].None? && c.f.syms[i].kind != N_BINCL
    ensures var y, q := c.f.syms[i], StepOf(c, p, i);
            && q.hashes == p.hashes && q.st.includes == p.st.includes && q.st.written == p.st.written
            && !q.skipNext && (q.pass <==> Passes(y.kind) && !Discarded(c.info, y))
            && (if !IsSet(y.kind) && Discarded(c.info, y) then
                  q.st.records == p.st.records && q.symbolMap == p.symbolMap[i := -1]
                else q.symbolMap == p.symbolMap[i := |p.st.records|]
                     && |q.st.records| == |p.st.records| + 1 && q.st.records[..|p.st.records|] == p.st.records
                     && q.st.records[|p.st.records|].kind == y.kind)
  {
    LocalValue(c.f, c.f.syms[i]);
    hide ValueOf;
  }

  lemma LocalValue(f: Input, y: Nlist)
    ensures var v := ValueOf(f, y, None); v.kind == y.kind && !v.skip && (v.pass <==> Passes(y.kind))
    ensures Passes(y.kind) ==> !IsSet(y.kind)
  {
  }

  /** A symbol with a hash entry: no stab. */
  lemma GlobalStep(c: Passage, p: Pass, i: nat)
    requires PassageOk(c) && PassOk(c.info.table, c.f, p) && i < |c.f.syms|
    requires p.symbolMap[i] != -1 && !p.pass && !p.skipNext && p.hashes[i].Some? && !IsStab(c.f.syms[i].kind)
    ensures var y, q, h := c.f.syms[i], StepOf(c, p, i), p.hashes[i].value;
            && q.hashes == p.hashes[i := q.hashes[i]] && q.st.includes == p.st.includes
            && q.st.written == p.st.written[h := true]
            && !(q.pass && q.skipNext) && (q.pass || q.skipNext <==> Passes(y.kind))
            && (q.skipNext <==> Passes(y.kind) && (p.st.written[h] || Resolved(c, y.kind, h)))
            && q.symbolMap == p.symbolMap[i := q.symbolMap[i]]
            && (q.st.records == p.st.records
                || (|q.st.records| == |p.st.records| + 1 && q.st.records[..|p.st.records|] == p.st.records
                    && !IsBracket(q.st.records[|p.st.records|].kind)))
  {
    var y, h := c.f.syms[i], p.hashes[i].value;
    var r := c.info.table[Resolve(c.info.table, c.rank, h)];
    GlobalValue(c.f, y, r);
    hide ValueOf, Resolve;
  }

  lemma GlobalValue(f: Input, y: Nlist, e: Entry)
    requires !IsStab(y.kind)
    ensures var v := ValueOf(f, y, Some(e));
            && !(v.pass && v.skip) && (v.pass || v.skip <==> Passes(y.kind))
            && (v.skip <==> TypeBits(y.kind) == N_INDR && IsDefinition(e))
            && !IsBracket(v.kind)
  {
    NoNewBracket(f, y, Some(e));
  }

  /** A group's opening symbol, entered. */
  lemma GroupStep(c: Passage, p: Pass, i: nat)
    requires PassageOk(c) && PassOk(c.info.table, c.f, p) && i < |c.f.syms|
    requires c.f.syms[i].kind == N_BINCL && p.hashes[i].None?
    requires p.symbolMap[i] != -1 && !p.pass && !p.skipNext
    ensures var q := StepOf(c, p, i);
            var (name, total) := GroupKey(c.f, i);
            var seen := Totals(p.st.includes, name);
            var m := p.symbolMap[i := -1];
            && !q.pass && !q.skipNext && q.hashes == p.hashes && q.st.written == p.st.written
            && q.symbolMap == (if total in seen then MarkGroup(m, c.f.syms, i + 1, 0) else m)[i := |p.st.records|]
            && q.st.includes == (if total in seen then p.st.includes else p.st.includes[name := [total] + seen])
            && q.st.records == p.st.records
                             + [MakeRecord(c.f.syms[i], if total in seen then N_EXCL else N_BINCL, name, total)]
  {
    BracketValue(c.f, c.f.syms[i]);
  }

  // ---------- every step keeps the facts ----------

  lemma WrittenNext(c: Passage, i: nat, h: nat)
    requires i < |c.f.syms| == |c.f.hashes| && h < |c.st.written|
    ensures WrittenBefore(c, i + 1, h) <==> WrittenBefore(c, i, h) || Reaches(c, i, h)
  {
  }

  lemma WrittenKept(c: Passage, was: seq<bool>, now: seq<bool>, i: nat)
    requires PassageOk(c) && i < |c.f.syms| && |was| == |now| == |c.st.written| && WrittenIs(c, was, i)
    requires forall h :: 0 <= h < |now| ==> (now[h] <==> was[h] || Reaches(c, i, h))
    ensures WrittenIs(c, now, i + 1)
  {
    forall h | 0 <= h < |now| ensures now[h] <==> WrittenBefore(c, i + 1, h) {
      WrittenNext(c, i, h);
    }
  }

  lemma KeysBeforeNext(c: Passage, i: nat)
    requires i < |c.f.syms|
    ensures KeysBefore(c, i + 1)
         == KeysBefore(c, i) + (if c.f.syms[i].kind == N_BINCL && i !in c.missed then {GroupKey(c.f, i)} else {})
  {
  }

  lemma MapFacts(c: Passage, m: seq<int>, x: int, rs: seq<Record>, rs': seq<Record>, i: nat)
    requires PassageOk(c) && i < |c.f.syms| == |m| && (c.f.syms[i].kind == N_BINCL ==> i in c.missed)
    requires MarkedAhead(c, m, i) && LeftOutBehind(c, m, i) && GroupsDone(c, m, rs, i)
    requires LeftOutIs(c, x, i)
    requires rs <= rs'
    ensures MarkedAhead(c, m[i := x], i + 1)
    ensures LeftOutBehind(c, m[i := x], i + 1)
    ensures GroupsDone(c, m[i := x], rs', i + 1)
  {
    hide GroupRecord, PassageOk, LeftOutIs;
    forall j | i + 1 <= j < |c.f.syms|
      ensures Dropped(c, j) && Innermost(c.f, j) < i + 1 ==> Innermost(c.f, j) < i
    {
      if Open(c.f.syms, j) != [] {
        InnermostBefore(c.f, j);
      }
    }
    hide Dropped, Innermost;
  }

  /** A step that enters no group keeps the facts, if it leaves the flags, the written entries and its own map entry
      right. */
  lemma OtherFacts(c: Passage, p: Pass, q: Pass, i: nat)
    requires PassageOk(c) && PassOk(c.info.table, c.f, p) && PassOk(c.info.table, c.f, q) && i < |c.f.syms|
    requires RunFacts(c, p, i) && (c.f.syms[i].kind == N_BINCL ==> i in c.missed)
    requires q.st.includes == p.st.includes && q.symbolMap == p.symbolMap[i := q.symbolMap[i]]
    requires p.st.records <= q.st.records && HashesAhead(c.f, q, i + 1)
    requires FlagsAre(c, q, i + 1) && WrittenIs(c, q.st.written, i + 1) && LeftOutIs(c, q.symbolMap[i], i)
    ensures RunFacts(c, q, i + 1)
  {
    hide FlagsAre, WrittenIs, LeftOutIs, MarkedAhead, LeftOutBehind, GroupsDone, KeysBefore, PassageOk, Knows;
    KeysBeforeNext(c, i);
    assert c.hist + KeysBefore(c, i + 1) == c.hist + KeysBefore(c, i);
    MapFacts(c, p.symbolMap, q.symbolMap[i], p.st.records, q.st.records, i);
  }

  lemma DroppedFacts(c: Passage, p: Pass, i: nat)
    requires PassageOk(c) && PassOk(c.info.table, c.f, p) && i < |c.f.syms|
    requires RunFacts(c, p, i) && Dropped(c, i)
    ensures StepOf(c, p, i) == p && RunFacts(c, p, i + 1)
  {
    DroppedIsMarked(c, p.symbolMap, i);
    assert StepOf(c, p, i) == p;
    assert !Flagged(c, i) by {
      if Flagged(c, i) {
        FlaggedIsKept(c, i);
      }
    }
    WrittenKept(c, p.st.written, p.st.written, i);
    hide Step, WrittenIs, MarkedAhead, LeftOutBehind, GroupsDone, Knows, KeysBefore;
    OtherFacts(c, p, p, i);
  }

  lemma FlaggedFacts(c: Passage, p: Pass, i: nat)
    requires PassageOk(c) && PassOk(c.info.table, c.f, p) && i < |c.f.syms|
    requires RunFacts(c, p, i) && Flagged(c, i) && (c.f.syms[i].kind == N_BINCL ==> i in c.missed)
    ensures RunFacts(c, StepOf(c, p, i), i + 1)
  {
    FlaggedIsKept(c, i);
    DroppedIsMarked(c, p.symbolMap, i);
    FlaggedStep(c, p, i);
    var q := StepOf(c, p, i);
    WrittenKept(c, p.st.written, q.st.written, i);
    hide StepOf, WrittenIs, MarkedAhead, LeftOutBehind, GroupsDone, Knows, KeysBefore, Dropped, Skips;
    OtherFacts(c, p, q, i);
  }

  lemma LocalFacts(c: Passage, p: Pass, i: nat)
    requires PassageOk(c) && PassOk(c.info.table, c.f, p) && i < |c.f.syms|
    requires RunFacts(c, p, i) && !Flagged(c, i) && !Dropped(c, i)
    requires c.f.hashes[i].None? && c.f.syms[i].kind != N_BINCL
    ensures RunFacts(c, StepOf(c, p, i), i + 1)
  {
    DroppedIsMarked(c, p.symbolMap, i);
    LocalStep(c, p, i);
    LocalValue(c.f, c.f.syms[i]);
    var q := StepOf(c, p, i);
    WrittenKept(c, p.st.written, q.st.written, i);
    hide StepOf, WrittenIs, MarkedAhead, LeftOutBehind, GroupsDone, Knows, KeysBefore, Dropped, ValueOf, IsSet, Passes, Discarded;
    OtherFacts(c, p, q, i);
  }

  lemma GlobalFacts(c: Passage, p: Pass, i: nat)
    requires PassageOk(c) && PassOk(c.info.table, c.f, p) && i < |c.f.syms|
    requires RunFacts(c, p, i) && !Flagged(c, i) && !Dropped(c, i)
    requires c.f.hashes[i].Some? && c.f.syms[i].kind != N_BINCL
    ensures RunFacts(c, StepOf(c, p, i), i + 1)
  {
    DroppedIsMarked(c, p.symbolMap, i);
    GlobalStep(c, p, i);
    var q := StepOf(c, p, i);
    WrittenKept(c, p.st.written, q.st.written, i);
    hide StepOf, MarkedAhead, LeftOutBehind, GroupsDone, Knows, KeysBefore, Dropped, Passes, Discarded, Resolved, WrittenBefore;
    OtherFacts(c, p, q, i);
  }

  // ---------- entering a group ----------

  /** Meeting group i gives it record n, marks the symbols it drops, and changes nothing before it. */
  lemma GroupMarks(c: Passage, m: seq<int>, i: nat, n: nat) returns (r: seq<int>)
    requires i < |c.f.syms| == |m| && c.f.syms[i].kind == N_BINCL && MarkedAhead(c, m, i)
    ensures r == (if Repeated(c, i) then MarkGroup(m[i := -1], c.f.syms, i + 1, 0) else m[i := -1])[i := n]
    ensures MarkedAhead(c, r, i + 1)
    ensures r[i] == n && forall j :: 0 <= j < i ==> r[j] == m[j]
  {
    MarksAreTheGroup(m[i := -1], c.f.syms, i);
    var marked := MarkGroup(m[i := -1], c.f.syms, i + 1, 0);
    r := (if Repeated(c, i) then marked else m[i := -1])[i := n];
    forall j | 0 <= j < i ensures marked[j] == m[j] {
      assert marked[j] == m[i := -1][j];
    }
    forall j | i + 1 <= j < |c.f.syms|
      ensures r[j] == if Dropped(c, j) && Innermost(c.f, j) < i + 1 then -1 else 0
    {
      assert InGroup(c.f.syms, i, j) ==> Innermost(c.f, j) == i;
    }
  }

  lemma GroupsDoneMore(c: Passage, m: seq<int>, r: seq<int>, rs: seq<Record>, i: nat)
    requires i < |c.f.syms| == |m| == |r| && c.f.syms[i].kind == N_BINCL && GroupsDone(c, m, rs, i)
    requires r[i] == |rs| && forall j :: 0 <= j < i ==> r[j] == m[j]
    ensures GroupsDone(c, r, rs + [GroupRecord(c, i)], i + 1)
  {
    hide GroupRecord;
  }

  lemma LeftOutMore(c: Passage, m: seq<int>, r: seq<int>, i: nat)
    requires PassageOk(c) && i < |c.f.syms| == |m| == |r| && c.f.syms[i].kind == N_BINCL && !Flagged(c, i)
    requires LeftOutBehind(c, m, i)
    requires r[i] >= 0 && forall j :: 0 <= j < i ==> r[j] == m[j]
    ensures LeftOutBehind(c, r, i + 1)
  {
    BracketValue(c.f, c.f.syms[i]);
    assert LeftOutIs(c, r[i], i);
    hide LeftOutIs;
  }

  /** An opening symbol sets no flag, and has no hash entry. */
  lemma GroupFlags(c: Passage, q: Pass, i: nat)
    requires PassageOk(c) && i < |c.f.syms| && c.f.syms[i].kind == N_BINCL && !q.pass && !q.skipNext
    ensures FlagsAre(c, q, i + 1)
  {
    hide Dropped, Skips;
  }

  lemma NoneReached(c: Passage, i: nat)
    requires PassageOk(c) && i < |c.f.syms| && c.f.syms[i].kind == N_BINCL
    ensures c.f.hashes[i].None? && forall h :: !Reaches(c, i, h)
  {
    BracketValue(c.f, c.f.syms[i]);
    hide Dropped, Flagged;
  }

  lemma GroupFacts(c: Passage, p: Pass, q: Pass, i: nat)
    requires PassageOk(c) && PassOk(c.info.table, c.f, p) && PassOk(c.info.table, c.f, q) && i < |c.f.syms|
    requires RunFacts(c, p, i) && c.f.syms[i].kind == N_BINCL && !Flagged(c, i)
    requires !q.pass && !q.skipNext && q.hashes == p.hashes && q.st.written == p.st.written
    requires Knows(q.st.includes, c.hist + KeysBefore(c, i + 1))
    requires q.st.records == p.st.records + [GroupRecord(c, i)]
    requires q.symbolMap == (if Repeated(c, i) then MarkGroup(p.symbolMap[i := -1], c.f.syms, i + 1, 0)
                             else p.symbolMap[i := -1])[i := |p.st.records|]
    ensures RunFacts(c, q, i + 1)
  {
    hide MarkGroup, GroupSum, Open, Repeated, GroupsDone, LeftOutBehind, MarkedAhead, WrittenIs, Knows, FlagsAre, Reaches,
         Flagged;
    NoneReached(c, i);
    WrittenKept(c, p.st.written, q.st.written, i);
    GroupFlags(c, q, i);
    var r := GroupMarks(c, p.symbolMap, i, |p.st.records|);
    GroupsDoneMore(c, p.symbolMap, r, p.st.records, i);
    LeftOutMore(c, p.symbolMap, r, i);
  }

  lemma StepGroup(c: Passage, p: Pass, i: nat)
    requires PassageOk(c) && PassOk(c.info.table, c.f, p) && i < |c.f.syms|
    requires RunFacts(c, p, i) && c.f.syms[i].kind == N_BINCL && !Flagged(c, i) && i !in c.missed
    ensures RunFacts(c, StepOf(c, p, i), i + 1)
    ensures StepOf(c, p, i).st.records == p.st.records + [GroupRecord(c, i)]
  {
    DroppedIsMarked(c, p.symbolMap, i);
    BracketValue(c.f, c.f.syms[i]);
    GroupStep(c, p, i);
    hide StepOf, MarkGroup, GroupSum, Open, WrittenIs, MarkedAhead, LeftOutBehind, GroupsDone;
    KeysBeforeNext(c, i);
    var (name, total) := GroupKey(c.f, i);
    assert Repeated(c, i) <==> total in Totals(p.st.includes, name);
    KnowsMore(p.st.includes, c.hist + KeysBefore(c, i), name, total);
    assert c.hist + KeysBefore(c, i) + {(name, total)} == c.hist + KeysBefore(c, i + 1);
    GroupFacts(c, p, StepOf(c, p, i), i);
  }

  /** One turn of the loop at any symbol but an opening one that is flagged and taken for entered, or entered and not
      taken so. */
  lemma StepFacts(c: Passage, p: Pass, i: nat)
    requires PassageOk(c) && PassOk(c.info.table, c.f, p) && i < |c.f.syms|
    requires RunFacts(c, p, i) && (c.f.syms[i].kind == N_BINCL ==> (i in c.missed <==> Flagged(c, i)))
    ensures RunFacts(c, StepOf(c, p, i), i + 1)
  {
    hide StepOf, RunFacts;
    if Flagged(c, i) {
      FlaggedFacts(c, p, i);
    } else if Dropped(c, i) {
      DroppedFacts(c, p, i);
    } else if c.f.syms[i].kind == N_BINCL {
      StepGroup(c, p, i);
    } else if c.f.hashes[i].None? {
      LocalFacts(c, p, i);
    } else {
      GlobalFacts(c, p, i);
    }
  }

  // ---------- one file ----------

  lemma FactsAtStart(c: Passage)
    requires PassageOk(c)
    ensures RunFacts(c, PassAt(c, 0), 0)
  {
    assert c.hist + KeysBefore(c, 0) == c.hist;
  }

  /** Over any input file the facts hold after every symbol, once the right opening symbols are taken to be missed. */
  lemma {:induction false} FileFacts(c: Passage, i: nat)
    requires PassageOk(c) && i <= |c.f.syms| && MissedIs(c, i)
    ensures RunFacts(c, PassAt(c, i), i)
  {
    hide Step, Start, RunFacts;
    if i == 0 {
      FactsAtStart(c);
    } else {
      FileFacts(c, i - 1);
      StepFacts(c, PassAt(c, i - 1), i - 1);
    }
  }

  // ---------- the opening symbols that a file misses ----------

  function MissedBefore(c: Passage, i: nat): set<nat>
    requires i <= |c.f.syms| == |c.f.hashes|
  {
    if i == 0 then {}
    else
      var m := MissedBefore(c, i - 1);
      if c.f.syms[i - 1].kind == N_BINCL && Flagged(c.(missed := m), i - 1) then m + {i - 1} else m
  }

  /** The passage with those symbols missed that the file makes it miss. */
  function Settled(c: Passage): Passage
    requires |c.f.hashes| == |c.f.syms|
  {
    c.(missed := MissedBefore(c, |c.f.syms|))
  }

  predicate SameBefore(m: set<nat>, r: set<nat>, i: nat) {
    forall g: nat :: g < i ==> (g in m <==> g in r)
  }

  /** What is missed from symbol i on has no part in the flag before it. */
  lemma {:induction false} FlaggedBy(c: Passage, m: set<nat>, r: set<nat>, i: nat)
    requires i <= |c.f.syms| == |c.f.hashes| && SameBefore(m, r, i)
    ensures Flagged(c.(missed := m), i) == Flagged(c.(missed := r), i)
  {
    if i == 0 {
    } else {
      FlaggedBy(c, m, r, i - 1);
      DroppedBy(c, m, r, i - 1);
      hide Dropped;
    }
  }

  lemma DroppedBy(c: Passage, m: set<nat>, r: set<nat>, j: nat)
    requires j < |c.f.syms| && SameBefore(m, r, j)
    ensures Dropped(c.(missed := m), j) == Dropped(c.(missed := r), j)
  {
    var s := Open(c.f.syms, j);
    if s != [] {
      var g := s[|s| - 1];
      assert KeysBefore(c.(missed := m), g) == KeysBefore(c.(missed := r), g);
    }
  }

  lemma {:induction false} MissedUpTo(c: Passage, i: nat)
    requires i <= |c.f.syms| == |c.f.hashes|
    ensures MissedIs(c.(missed := MissedBefore(c, i)), i) && forall g :: g in MissedBefore(c, i) ==> g < i
  {
    hide Flagged;
    if i == 0 {
    } else {
      MissedUpTo(c, i - 1);
      var m, r := MissedBefore(c, i - 1), MissedBefore(c, i);
      forall g | 0 <= g < i && c.f.syms[g].kind == N_BINCL ensures g in r <==> Flagged(c.(missed := r), g) {
        FlaggedBy(c, m, r, g);
      }
    }
  }

  lemma SettledIsRight(c: Passage)
    requires |c.f.hashes| == |c.f.syms|
    ensures MissedIs(Settled(c), |c.f.syms|)
  {
    MissedUpTo(c, |c.f.syms|);
  }

  // ---------- when every group is entered ----------

  /** No opening symbol among the first n is passed through or skipped. */
  predicate AllEntered(c: Passage, n: nat)
    requires n <= |c.f.syms| == |c.f.hashes|
  {
    forall g :: 0 <= g < n && c.f.syms[g].kind == N_BINCL ==> !Flagged(c, g)
  }

  /** Then none is missed. */
  lemma {:induction false} NoneMissed(c: Passage, i: nat)
    requires i <= |c.f.syms| == |c.f.hashes| && AllEntered(c.(missed := {}), i)
    ensures MissedBefore(c, i) == {}
  {
    if i == 0 {
    } else {
      NoneMissed(c, i - 1);
    }
  }

  /** An opening symbol that is passed through or skipped is not what its group calls for. */
  lemma FlaggedBreaks(c: Passage, p: Pass, i: nat)
    requires PassageOk(c) && PassOk(c.info.table, c.f, p) && i < |c.f.syms|
    requires RunFacts(c, p, i) && c.f.syms[i].kind == N_BINCL && Flagged(c, i) && i !in c.missed
    ensures !RunFacts(c, StepOf(c, p, i), i + 1)
  {
    DroppedIsMarked(c, p.symbolMap, i);
    FlaggedStep(c, p, i);
    KeysBeforeNext(c, i);
    hide StepOf, FlagsAre, WrittenIs, MarkedAhead, LeftOutBehind, HashesAhead, KeysBefore;
    var (name, total) := GroupKey(c.f, i);
    var q := StepOf(c, p, i);
    assert (name, total) in c.hist + KeysBefore(c, i + 1);
    if Repeated(c, i) {
      assert !GroupsDone(c, q.symbolMap, q.st.records, i + 1);
    } else {
      assert total !in Totals(p.st.includes, name);
      assert !Knows(q.st.includes, c.hist + KeysBefore(c, i + 1));
    }
  }

  /** The groups of a file are all remembered, replaced if repeated, and all that repeated ones drop is left out, after
      every symbol, if and only if no opening symbol comes right after a symbol that has it passed through or skipped. */
  lemma {:induction false} GroupsAreTrue(c: Passage, n: nat)
    requires PassageOk(c) && c.missed == {} && n <= |c.f.syms|
    ensures (forall j :: 0 <= j <= n ==> RunFacts(c, PassAt(c, j), j)) <==> AllEntered(c, n)
  {
    hide RunFacts, Flagged;
    if n == 0 {
      FactsAtStart(c);
    } else {
      GroupsAreTrue(c, n - 1);
      if AllEntered(c, n) {
        FileFacts(c, n);
      } else if AllEntered(c, n - 1) {
        FileFacts(c, n - 1);
        FlaggedBreaks(c, PassAt(c, n - 1), n - 1);
        assert !RunFacts(c, PassAt(c, n), n);
      }
    }
  }

  // ---------- how the output nests ----------

  /** What symbol i adds to the nesting depth of the output. */
  ghost function Change(c: Passage, i: nat): int
    requires PassageOk(c) && i < |c.f.syms|
  {
    if Dropped(c, i) || Skipped(c, i) then 0
    else if c.f.syms[i].kind == N_BINCL then (if Repeated(c, i) then 0 else 1)
    else if c.f.syms[i].kind == N_EINCL then -1
    else 0
  }

  ghost function Level(c: Passage, i: nat): int
    requires PassageOk(c) && i <= |c.f.syms|
  {
    if i == 0 then 0 else Level(c, i - 1) + Change(c, i - 1)
  }

  /** The depth, begun at d, is never negative up to symbol i. */
  ghost predicate Stays(c: Passage, d: int, i: nat)
    requires PassageOk(c) && i <= |c.f.syms|
  {
    forall j :: 0 <= j <= i ==> d + Level(c, j) >= 0
  }

  /** At most one record is added, and it is a bracket just as the change in depth says. */
  predicate RecordsAfter(was: seq<Record>, now: seq<Record>, change: int) {
    || (now == was && change == 0)
    || (|now| == |was| + 1 && now[..|was|] == was
        && (if change == 1 then now[|was|].kind == N_BINCL
            else if change == -1 then now[|was|].kind == N_EINCL
            else change == 0 && !IsBracket(now[|was|].kind)))
  }

  lemma DepthAfter(was: seq<Record>, now: seq<Record>, change: int)
    requires RecordsAfter(was, now, change)
    ensures Depth(OutputKinds(now)) == if Depth(OutputKinds(was)) < 0 then -1 else Depth(OutputKinds(was)) + change
  {
    if now != was {
      assert now == was + [now[|was|]];
      OutputKindsAppend(was, now[|was|]);
    } else {
      NotBelow(OutputKinds(was));
    }
  }

  lemma NotBelow(kinds: seq<Byte>)
    ensures Depth(kinds) >= -1
  {
  }

  lemma StepRecords(c: Passage, p: Pass, i: nat)
    requires PassageOk(c) && PassOk(c.info.table, c.f, p) && i < |c.f.syms|
    requires RunFacts(c, p, i) && (c.f.syms[i].kind == N_BINCL ==> (i in c.missed <==> Flagged(c, i)))
    ensures RecordsAfter(p.st.records, StepOf(c, p, i).st.records, Change(c, i))
  {
    DroppedIsMarked(c, p.symbolMap, i);
    if IsBracket(c.f.syms[i].kind) {
      BracketValue(c.f, c.f.syms[i]);
    }
    if Flagged(c, i) {
      FlaggedIsKept(c, i);
      FlaggedStep(c, p, i);
    } else if Dropped(c, i) {
      DroppedFacts(c, p, i);
    } else if c.f.syms[i].kind == N_BINCL {
      StepGroup(c, p, i);
    } else if c.f.hashes[i].None? {
      LocalStep(c, p, i);
    } else {
      GlobalStep(c, p, i);
    }
    hide Step, Dropped, Skips, WrittenIs, MarkedAhead, LeftOutBehind, GroupsDone, Knows, Flagged;
  }

  /** The depth of the output after symbol i, for any input file: the level, unless it was negative before. */
  lemma {:induction false} OutputDepth(c: Passage, i: nat)
    requires PassageOk(c) && i <= |c.f.syms| && MissedIs(c, i)
    ensures var d := Depth(OutputKinds(c.st.records));
            Depth(OutputKinds(PassAt(c, i).st.records)) == if Stays(c, d, i) then d + Level(c, i) else -1
  {
    hide Step, Start, RunFacts, Change, OutputKinds, Depth, PassageOk;
    if i == 0 {
      OutputStart(c);
      NotBelow(OutputKinds(c.st.records));
    } else {
      OutputDepth(c, i - 1);
      FileFacts(c, i - 1);
      StepRecords(c, PassAt(c, i - 1), i - 1);
      DepthAfter(PassAt(c, i - 1).st.records, PassAt(c, i).st.records, Change(c, i - 1));
    }
  }

  lemma OutputStart(c: Passage)
    requires PassageOk(c)
    ensures Depth(OutputKinds(PassAt(c, 0).st.records)) == Depth(OutputKinds(c.st.records))
  {
    NotBelow(OutputKinds(c.st.records));
    OutputKindsAppend(c.st.records, FileSymbol(c.f));
  }

  // ---------- files that nest ----------

  /** How many of the groups of a stack keep their opening symbol, as far as they are not skipped. */
  function KeptCount(c: Passage, s: seq<nat>): nat
    requires forall k :: 0 <= k < |s| ==> s[k] < |c.f.syms|
  {
    if s == [] then 0 else KeptCount(c, s[..|s| - 1]) + (if Repeated(c, s[|s| - 1]) then 0 else 1)
  }

  lemma KeptCountPush(c: Passage, s: seq<nat>, g: nat)
    requires g < |c.f.syms| && forall k :: 0 <= k < |s| ==> s[k] < |c.f.syms|
    ensures KeptCount(c, s + [g]) == KeptCount(c, s) + (if Repeated(c, g) then 0 else 1)
  {
    assert (s + [g])[..|s|] == s;
  }

  /** How many more closing than opening symbols are skipped before symbol i. */
  ghost function SkippedCloses(c: Passage, i: nat): int
    requires PassageOk(c) && i <= |c.f.syms|
  {
    if i == 0 then 0
    else SkippedCloses(c, i - 1)
         + (if !Skipped(c, i - 1) then 0
            else if c.f.syms[i - 1].kind == N_EINCL then 1
            else if c.f.syms[i - 1].kind == N_BINCL then -1
            else 0)
  }

  lemma LevelStep(c: Passage, i: nat)
    requires PassageOk(c) && i < |c.f.syms|
    requires c.f.syms[i].kind == N_BINCL ==> (i in c.missed <==> Flagged(c, i))
    requires c.f.syms[i].kind == N_EINCL ==> Open(c.f.syms, i) != []
    ensures Change(c, i)
         == KeptCount(c, Open(c.f.syms, i + 1)) - KeptCount(c, Open(c.f.syms, i))
            + SkippedCloses(c, i + 1) - SkippedCloses(c, i)
  {
    if Flagged(c, i) {
      FlaggedIsKept(c, i);
    }
    hide Flagged, Skips, KeysBefore, PassageOk;
    if c.f.syms[i].kind == N_BINCL {
      KeptCountPush(c, Open(c.f.syms, i), i);
    }
  }

  /** In a file that nests, the level is the number of open groups that were kept, and what skipped brackets add. */
  lemma {:induction false} LevelIs(c: Passage, i: nat)
    requires PassageOk(c) && i <= |c.f.syms| && MissedIs(c, i) && Depth(InputKinds(c.f.syms, i)) >= 0
    ensures Level(c, i) == KeptCount(c, Open(c.f.syms, i)) + SkippedCloses(c, i)
  {
    hide Change, PassageOk, Flagged;
    if i == 0 {
    } else {
      NeverNegative(c.f.syms, i - 1, i);
      LevelIs(c, i - 1);
      DepthOfOpen(c.f.syms, i - 1);
      assert InputKinds(c.f.syms, i)[..i - 1] == InputKinds(c.f.syms, i - 1);
      hide Open, KeptCount, SkippedCloses;
      LevelStep(c, i - 1);
    }
  }

  /** No symbol of this type is skipped among the first n. */
  ghost predicate NoneSkipped(c: Passage, kind: Byte, n: nat)
    requires PassageOk(c) && n <= |c.f.syms|
  {
    forall i :: 0 <= i < n && c.f.syms[i].kind == kind ==> !Skipped(c, i)
  }

  lemma {:induction false} OnlyClosesSkipped(c: Passage, i: nat)
    requires PassageOk(c) && i <= |c.f.syms| && NoneSkipped(c, N_BINCL, i)
    ensures SkippedCloses(c, i) >= 0
    ensures SkippedCloses(c, i) == 0 <==> NoneSkipped(c, N_EINCL, i)
  {
    hide Skipped, PassageOk;
    if i == 0 {
    } else {
      OnlyClosesSkipped(c, i - 1);
    }
  }

  /** Of a file that nests and has no opening symbol skipped, the output is as much deeper in the end as there are
      closing symbols skipped. */
  lemma FileNests(c: Passage)
    requires PassageOk(c) && MissedIs(c, |c.f.syms|) && WellNested(InputKinds(c.f.syms, |c.f.syms|))
    requires NoneSkipped(c, N_BINCL, |c.f.syms|) && Depth(OutputKinds(c.st.records)) >= 0
    ensures Depth(OutputKinds(PassAt(c, |c.f.syms|).st.records))
         == Depth(OutputKinds(c.st.records)) + SkippedCloses(c, |c.f.syms|)
  {
    hide Level, SkippedCloses, PassageOk, FileRun, Flagged, Skipped, PassAt;
    var n, d := |c.f.syms|, Depth(OutputKinds(c.st.records));
    forall j | 0 <= j <= n ensures d + Level(c, j) >= 0 {
      NeverNegative(c.f.syms, j, n);
      LevelIs(c, j);
      OnlyClosesSkipped(c, j);
    }
    LevelIs(c, n);
    DepthOfOpen(c.f.syms, n);
    OutputDepth(c, n);
  }

  // ---------- files in which it goes wrong ----------

  const INDIRECT: Nlist := Nlist(N_INDR + N_EXT, 0, 0, "a", 0, false)
  const TAKEN_FOR_ONE: Nlist := Nlist(0x2a, 0, 0, "main", 0, false)
  const OPENING: Nlist := Nlist(N_BINCL, 0, 0, "h", 0, false)
  const CLOSING: Nlist := Nlist(N_EINCL, 0, 0, "", 0, false)

  /** Symbol a is indirect to b, which is defined. */
  const TWO: Info :=
    Info(StripNone, DiscardNone, {}, false,
         [Entry("a", Indirect, 1, 0, ABS_SECTION, 0), Entry("b", Defined, 0, 0, ABS_SECTION, 0)])

  /** A file of three symbols, of which the indirect ones have the first hash entry. */
  function Three(syms: seq<Nlist>, st: State, missed: set<nat>): Passage
    requires |syms| == 3
  {
    var h := (y: Nlist) => if y == INDIRECT then Some(0) else None;
    Passage(TWO, [1, 0], Input("f", syms, [h(syms[0]), h(syms[1]), h(syms[2])], ABS_SECTION, ABS_SECTION, ABS_SECTION), 0,
            st, {}, missed)
  }

  lemma ThreeIsOk(syms: seq<Nlist>, st: State, missed: set<nat>)
    requires |syms| == 3 && forall i :: 0 <= i < 3 ==> syms[i] in [INDIRECT, TAKEN_FOR_ONE, OPENING, CLOSING]
    requires StateOk(TWO.table, st) && Knows(st.includes, {})
    ensures PassageOk(Three(syms, st, missed))
  {
    hide Knows;
  }

  /** The indirect symbol has the next one skipped, since b is defined. */
  lemma IndirectSkips(c: Passage, j: nat)
    requires PassageOk(c) && c.info == TWO && c.rank == [1, 0] && j < |c.f.syms|
    requires c.f.syms[j] == INDIRECT && c.f.hashes[j] == Some(0)
    ensures Skips(c, j)
  {
    hide WrittenBefore;
    assert Resolve(TWO.table, [1, 0], 1) == 1;
  }

  lemma LevelOfThree(c: Passage)
    requires PassageOk(c) && |c.f.syms| == 3
    ensures Level(c, 3) == Change(c, 0) + Change(c, 1) + Change(c, 2)
  {
    hide Change, PassageOk;
    assert Level(c, 1) == Change(c, 0);
    assert Level(c, 2) == Level(c, 1) + Change(c, 1);
  }

  /** An opening symbol right after it is skipped, and its closing one written. */
  lemma OpeningIsLost(st: State)
    requires StateOk(TWO.table, st) && Knows(st.includes, {}) && WellNested(OutputKinds(st.records))
    ensures var c := Three([INDIRECT, OPENING, CLOSING], st, {1});
            && PassageOk(c) && MissedIs(c, 3) && WellNested(InputKinds(c.f.syms, 3))
            && Depth(OutputKinds(PassAt(c, 3).st.records)) < 0
  {
    var c := Three([INDIRECT, OPENING, CLOSING], st, {1});
    ThreeIsOk(c.f.syms, st, {1});
    KindsNest(c.f.syms);
    IndirectSkips(c, 0);
    LostFlags(c);
    hide Flagged, Skips, PassageOk;
    assert Change(c, 0) == 0 && Change(c, 1) == 0 && Change(c, 2) == -1;
    LevelOfThree(c);
    OutputDepth(c, 3);
  }

  lemma LostFlags(c: Passage)
    requires c.f.syms == [INDIRECT, OPENING, CLOSING] && |c.f.hashes| == 3 && c.f.hashes[0].Some?
    ensures Flagged(c, 1) && !Flagged(c, 0) && !Flagged(c, 2)
  {
  }

  lemma KindsNest(syms: seq<Nlist>)
    requires |syms| == 3
    requires syms == [INDIRECT, OPENING, CLOSING] || syms == [OPENING, INDIRECT, CLOSING]
    ensures WellNested(InputKinds(syms, 3))
  {
    assert InputKinds(syms, 3)[..2] == InputKinds(syms, 2);
    assert InputKinds(syms, 2)[..1] == InputKinds(syms, 1);
    assert InputKinds(syms, 1)[..0] == [];
    assert Depth(InputKinds(syms, 1)) == if syms[0] == OPENING then 1 else 0;
    assert Depth(InputKinds(syms, 2)) == 1;
  }

  /** A closing symbol right after it is skipped, and its opening one written. */
  lemma ClosingIsLost(st: State)
    requires StateOk(TWO.table, st) && Knows(st.includes, {}) && WellNested(OutputKinds(st.records))
    ensures var c := Three([OPENING, INDIRECT, CLOSING], st, {});
            && PassageOk(c) && AllEntered(c, 3) && WellNested(InputKinds(c.f.syms, 3))
            && Depth(OutputKinds(PassAt(c, 3).st.records)) == 1
  {
    var c := Three([OPENING, INDIRECT, CLOSING], st, {});
    ThreeIsOk(c.f.syms, st, {});
    KindsNest(c.f.syms);
    NewGroup(c);
    IndirectSkips(c, 1);
    hide Flagged, Skips, PassageOk, Repeated;
    LevelOfThree(c);
    OutputDepth(c, 3);
  }

  lemma NewGroup(c: Passage)
    requires c.f.syms == [OPENING, INDIRECT, CLOSING] && |c.f.hashes| == 3 && c.f.hashes[1].Some? && c.hist == {}
    ensures !Repeated(c, 0) && !Dropped(c, 1) && !Dropped(c, 2) && !Dropped(c, 0)
    ensures !Flagged(c, 0) && !Flagged(c, 1) && Flagged(c, 2)
  {
    assert KeysBefore(c, 0) == {};
  }

  /** An opening symbol right after a stab that is taken for an indirect symbol is passed through, and its group
      forgotten. */
  lemma GroupIsForgotten(st: State)
    requires StateOk(TWO.table, st) && Knows(st.includes, {})
    ensures var c := Three([TAKEN_FOR_ONE, OPENING, CLOSING], st, {1});
            PassageOk(c) && MissedIs(c, 3) && Knows(PassAt(c, 3).st.includes, {})
  {
    var c := Three([TAKEN_FOR_ONE, OPENING, CLOSING], st, {1});
    ThreeIsOk(c.f.syms, st, {1});
    assert Flagged(c, 1);
    hide Flagged, PassageOk;
    FileFacts(c, 3);
    assert KeysBefore(c, 3) == {};
    assert c.hist + KeysBefore(c, 3) == {};
  }
}
