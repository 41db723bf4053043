/** The a.out final link as it runs: buffers that are reused for every input file, an output
    file written at moving offsets, and counters. Its methods refine the runs of LinkRuns. */
module FinalLink {
  import opened AoutSymbols
  import opened AoutTypes
  import opened Basics
  import opened LinkRuns

  /** The size of a symbol record in the output file. */
  const EXTERNAL_NLIST_SIZE: nat := 12

  lemma ModStep(a: int, b: int)
    ensures (a % U64 + b) % U64 == (a + b) % U64
  {
  }

  /** The scan that adds up a header's total. */
  method HeaderTotal(syms: seq<Nlist>, i: nat) returns (val: int)
    requires i < |syms|
    ensures val == GroupTotal(syms, i)
  {
    val := 0;
    var nest := 0;
    var j := i + 1;
    while j < |syms|
      invariant i < j <= |syms| && nest >= 0
      invariant (val + GroupSum(syms, j, nest)) % U64 == GroupTotal(syms, i)
      invariant 0 <= val < U64
    {
      if syms[j].kind == N_EINCL {
        if nest == 0 {
          return;
        }
        nest := nest - 1;
      } else if syms[j].kind == N_BINCL {
        nest := nest + 1;
      } else if nest == 0 {
        val := AddName(val, syms[j].name, GroupSum(syms, j + 1, nest));
      }
      j := j + 1;
    }
  }

  /** Step over the digits from k on. */
  method PastDigits(s: string, k: nat) returns (m: nat)
    requires k <= |s|
    ensures k <= m <= |s| && s[m..] == SkipDigits(s[k..])
  {
    m := k;
    while m < |s| && IsDigit(s[m])
      invariant k <= m <= |s| && SkipDigits(s[m..]) == SkipDigits(s[k..])
    {
      assert s[m..][1..] == s[m + 1..];
      m := m + 1;
    }
  }

  /** The scan of one name, which steps over the digits after an open parenthesis. */
  method AddName(start: int, s: string, ghost rest: int) returns (val: int)
    requires 0 <= start < U64
    ensures 0 <= val < U64
    ensures (val + rest) % U64 == (start + NameSum(s) + rest) % U64
  {
    hide CharValue, IsDigit, SkipDigits;
    val := start;
    var k := 0;
    assert s[0..] == s;
    while k < |s|
      invariant 0 <= k <= |s| && 0 <= val < U64
      invariant (val + NameSum(s[k..]) + rest) % U64 == (start + NameSum(s) + rest) % U64
    {
      assert s[k..][1..] == s[k + 1..];
      var next := k + 1;
      if s[k] == '(' {
        next := PastDigits(s, k + 1);
      }
      ModStep(val + CharValue(s[k]), NameSum(s[next..]) + rest);
      val := (val + CharValue(s[k])) % U64;
      k := next;
    }
  }

  class Linker {
    const info: Info
    ghost const rank: seq<nat>
    const symStart: nat
    const outputSyms: array<Record>
    const symbolMap: array<int>

    // The output file: the records at their byte positions, the position to write next,
    // and the count of all records, those still in the buffer included.
    var file: map<nat, Record>
    var symoff: nat
    var count: nat
    var outsym: nat

    // The hash table's changing parts, and the header files met.
    var written: seq<bool>
    var indx: seq<int>
    var includes: map<string, seq<int>>
    ghost var owners: seq<Owner>

    // The loop over one input file.
    var hashes: seq<Option<nat>>
    var pass: bool
    var skipNext: bool

    ghost predicate Valid()
      reads this
    {
      && TableOk(info.table, rank)
      && |written| == |indx| == |info.table|
      && |owners| == count
      && outsym <= count && outsym <= outputSyms.Length
      && symoff == symStart + (count - outsym) * EXTERNAL_NLIST_SIZE
      && forall k :: 0 <= k < count - outsym ==> Position(k) in file
    }

    /** Where record k belongs. */
    ghost function Position(k: nat): nat {
      symStart + k * EXTERNAL_NLIST_SIZE
    }

    /** Each has its bytes to itself. */
    lemma RecordsApart(j: nat, k: nat)
      requires j < k
      ensures symStart <= Position(j) && Position(j) + EXTERNAL_NLIST_SIZE <= Position(k)
    {
    }

    /** The records that are in the file already. */
    ghost function Flushed(): (rs: seq<Record>)
      requires Valid()
      reads this
      ensures |rs| == count - outsym
    {
      seq(count - outsym, k requires Valid() && 0 <= k < count - outsym reads this => file[Position(k)])
    }

    ghost function Abstract(): (st: State)
      requires Valid()
      reads this, outputSyms
      ensures StateOk(info.table, st) && |st.records| == count
    {
      State(Flushed() + outputSyms[..outsym], owners, written, indx, includes)
    }

    ghost function Current(n: nat): Pass
      requires Valid() && n <= symbolMap.Length
      reads this, outputSyms, symbolMap
    {
      Pass(Abstract(), symbolMap[..n], hashes, pass, skipNext)
    }

    constructor (info: Info, ghost rank: seq<nat>, symStart: nat, maxSymCount: nat)
      requires TableOk(info.table, rank)
      ensures Valid() && outsym == 0
      ensures this.info == info && this.rank == rank
      ensures Abstract() == Empty(|info.table|)
      ensures outputSyms.Length == maxSymCount + 1 && symbolMap.Length == maxSymCount
      ensures fresh(outputSyms) && fresh(symbolMap)
    {
      this.info := info;
      this.rank := rank;
      this.symStart := symStart;
      outputSyms := new Record[maxSymCount + 1];
      symbolMap := new int[maxSymCount];
      file, symoff, count, outsym := map[], symStart, 0, 0;
      written := seq(|info.table|, _ => false);
      indx := seq(|info.table|, _ => -1);
      includes, owners := map[], [];
      hashes, pass, skipNext := [], false, false;
    }

    /** Put one record into the buffer. */
    method Buffer(r: Record, ghost o: Owner)
      requires Valid() && outsym < outputSyms.Length
      modifies this`outsym, this`count, this`owners, outputSyms
      ensures Valid() && outsym == old(outsym) + 1
      ensures Abstract() == old(Abstract()).(records := old(Abstract()).records + [r],
                                             owners := old(Abstract()).owners + [o])
    {
      ghost var before := outputSyms[..outsym];
      outputSyms[outsym] := r;
      outsym, count, owners := outsym + 1, count + 1, owners + [o];
      assert outputSyms[..outsym] == before + [r];
      assert Flushed() == old(Flushed());
    }

    /** Mark the symbols of a repeated header as left out. */
    method MarkDuplicates(syms: seq<Nlist>, i: nat)
      requires i < |syms| <= symbolMap.Length
      modifies symbolMap
      ensures symbolMap[..|syms|] == MarkGroup(old(symbolMap[..|syms|]), syms, i + 1, 0)
    {
      ghost var n := |syms|;
      var nest := 0;
      var j := i + 1;
      while j < |syms|
        invariant i < j <= |syms| && nest >= 0
        invariant MarkGroup(symbolMap[..n], syms, j, nest) == MarkGroup(old(symbolMap[..n]), syms, i + 1, 0)
      {
        if syms[j].kind == N_EINCL {
          if nest == 0 {
            ghost var m := symbolMap[..n];
            symbolMap[j] := -1;
            assert symbolMap[..n] == m[j := -1];
            return;
          }
          nest := nest - 1;
        } else if syms[j].kind == N_BINCL {
          nest := nest + 1;
        } else if nest == 0 {
          ghost var m := symbolMap[..n];
          symbolMap[j] := -1;
          assert symbolMap[..n] == m[j := -1];
        }
        j := j + 1;
      }
    }

    /** Follow indirect and warning entries to the base symbol. */
    method BaseSymbol(h: nat) returns (r: nat)
      requires TableOk(info.table, rank) && h < |info.table|
      ensures r == Resolve(info.table, rank, h)
    {
      r := h;
      while IsLink(info.table[r])
        invariant r < |info.table| && Resolve(info.table, rank, r) == Resolve(info.table, rank, h)
        decreases rank[r]
      {
        r := info.table[r].link;
      }
    }

    /** The scans at a header's opening symbol. */
    method EnterHeader(f: Input, i: nat, name: string) returns (kind: Byte, val: int)
      requires Valid() && i < |f.syms| <= symbolMap.Length
      requires PassOk(info.table, f, Current(|f.syms|))
      modifies this`includes, symbolMap
      ensures Valid() && val == GroupTotal(f.syms, i)
      ensures (Current(|f.syms|), kind) == EnterGroup(info.table, f, old(Current(|f.syms|)), i, name)
    {
      val := HeaderTotal(f.syms, i);
      if val in Totals(includes, name) {
        kind := N_EXCL;
        MarkDuplicates(f.syms, i);
      } else {
        kind := N_BINCL;
        includes := includes[name := [val] + Totals(includes, name)];
      }
      assert Flushed() == old(Flushed());
    }

    /** Put a symbol's record into the buffer and its number into the map. */
    method EmitSymbol(n: nat, i: nat, r: Record, ghost o: Owner)
      requires Valid() && i < n <= symbolMap.Length && outsym < outputSyms.Length
      modifies this`outsym, this`count, this`owners, outputSyms, symbolMap
      ensures Valid() && outsym == old(outsym) + 1
      ensures Current(n) == Emit(old(Current(n)), i, r, o)
    {
      ghost var m := symbolMap[..n];
      symbolMap[i] := count;
      assert symbolMap[..n] == m[i := count];
      assert Abstract() == old(Abstract());
      Buffer(r, o);
    }

    /** Number a symbol that is kept, treat header groups, and put its record into the buffer. */
    method KeepSymbol(f: Input, ghost fileNo: nat, i: nat, h: Option<nat>, v: Value, name: string, outName: string)
      requires Valid() && i < |f.syms| <= symbolMap.Length && outsym < outputSyms.Length
      requires PassOk(info.table, f, Current(|f.syms|)) && (h.Some? ==> h.value < |info.table|)
      modifies this, outputSyms, symbolMap
      ensures Valid() && file == old(file) && symoff == old(symoff) && outsym == old(outsym) + 1
      ensures Current(|f.syms|) == Keep(info, f, fileNo, old(Current(|f.syms|)), i, h, v, name, outName)
    {
      hide GroupSum, GroupTotal, MarkGroup, EnterGroup, Emit, MakeRecord, TableOk;
      if h.Some? {
        written, indx := written[h.value := true], indx[h.value := count];
      }
      assert Flushed() == old(Flushed());
      ghost var owner := if h.None? then LocalSym(fileNo, i) else GlobalSym(h.value);
      if v.kind == N_BINCL {
        var kind, val := EnterHeader(f, i, name);
        EmitSymbol(|f.syms|, i, MakeRecord(f.syms[i], kind, outName, val), owner);
      } else {
        EmitSymbol(|f.syms|, i, MakeRecord(f.syms[i], v.kind, outName, v.value), owner);
      }
    }

    /** The tail of the loop body. */
    method PlaceSymbol(f: Input, ghost fileNo: nat, i: nat, h: Option<nat>, v: Value, name: string)
      requires Valid() && i < |f.syms| <= symbolMap.Length && outsym < outputSyms.Length
      requires PassOk(info.table, f, Current(|f.syms|)) && (h.Some? ==> h.value < |info.table|)
      modifies this, outputSyms, symbolMap
      ensures Valid() && file == old(file) && symoff == old(symoff) && outsym <= old(outsym) + 1
      ensures Current(|f.syms|) == Place(info, f, fileNo, old(Current(|f.syms|)), i, h, v, name)
    {
      hide Keep;
      pass, skipNext := v.pass, v.skip;
      assert Flushed() == old(Flushed());
      if h.None? && !IsSet(v.kind) && Discarded(info, f.syms[i]) {
        pass := false;
        assert Flushed() == old(Flushed());
      } else {
        var outName := if !info.keepMemory && h.Some? then info.table[h.value].name else name;
        KeepSymbol(f, fileNo, i, h, v, name, outName);
      }
    }

    /** One turn of the loop over the symbols of an input file. */
    method WriteSymbol(f: Input, ghost fileNo: nat, i: nat)
      requires Valid() && i < |f.syms| <= symbolMap.Length && outsym < outputSyms.Length
      requires PassOk(info.table, f, Current(|f.syms|))
      modifies this, outputSyms, symbolMap
      ensures Valid() && file == old(file) && symoff == old(symoff) && outsym <= old(outsym) + 1
      ensures Current(|f.syms|) == Step(info, rank, f, fileNo, old(Current(|f.syms|)), i)
    {
      hide Place, ValueOf;
      if symbolMap[i] == -1 {
        return;
      }
      var n := |f.syms|;
      ghost var m := symbolMap[..n];
      symbolMap[i] := -1;
      assert symbolMap[..n] == m[i := -1];
      var y := f.syms[i];
      if pass {
        pass := false;
        assert Flushed() == old(Flushed());
        EmitSymbol(n, i, MakeRecord(y, y.kind, y.name, y.value), LocalSym(fileNo, i));
      } else if skipNext {
        skipNext := false;
        assert Flushed() == old(Flushed());
      } else {
        assert Flushed() == old(Flushed());
        if hashes[i].Some? {
          WriteGlobal(f, fileNo, i);
        } else if !Stripped(info, y.kind, y.name) {
          PlaceSymbol(f, fileNo, i, None, ValueOf(f, y, None), y.name);
        }
      }
    }

    /** The loop body for a symbol with a hash entry. */
    method WriteGlobal(f: Input, ghost fileNo: nat, i: nat)
      requires Valid() && i < |f.syms| <= symbolMap.Length && outsym < outputSyms.Length
      requires PassOk(info.table, f, Current(|f.syms|)) && hashes[i].Some?
      modifies this, outputSyms, symbolMap
      ensures Valid() && file == old(file) && symoff == old(symoff) && outsym <= old(outsym) + 1
      ensures Current(|f.syms|) == StepGlobal(info, rank, f, fileNo, old(Current(|f.syms|)), i)
    {
      hide Place, ValueOf, Stripped, TypeBits;
      ghost var n := |f.syms|;
      ghost var m := symbolMap[..n];
      var y := f.syms[i];
      var h := hashes[i].value;
      var e := info.table[h];
      var name := if e.kind == Warning then y.name else e.name;
      var hresolve := BaseSymbol(h);
      hashes := hashes[i := Some(hresolve)];
      assert Flushed() == old(Flushed());
      if written[h] {
        skipNext := TypeBits(y.kind) == N_INDR || y.kind == N_WARNING;
        symbolMap[i] := indx[h];
        assert symbolMap[..n] == m[i := indx[h]];
      } else if Stripped(info, y.kind, name) {
        written := written[h := true];
      } else {
        PlaceSymbol(f, fileNo, i, Some(h), ValueOf(f, y, Some(info.table[hresolve])), name);
      }
      assert Flushed() == old(Flushed());
    }

    /** The loop over one input file's symbols, and the write of what it buffered. */
    method WriteSymbols(f: Input, ghost fileNo: nat)
      requires Valid() && outsym == 0 && InputOk(info.table, f)
      requires |f.syms| <= symbolMap.Length && |f.syms| < outputSyms.Length
      modifies this, outputSyms, symbolMap
      ensures Valid() && outsym == 0
      ensures Current(|f.syms|) == FileEnd(info, rank, f, fileNo, old(Abstract()))
    {
      hide Step, Start;
      ghost var st := Abstract();
      StartFile(f, fileNo);
      for i := 0 to |f.syms|
        invariant Valid() && outsym <= i + 1
        invariant Current(|f.syms|) == FileRun(info, rank, f, fileNo, st, i)
      {
        WriteSymbol(f, fileNo, i);
      }
      Flush();
    }

    /** Before the loop: the symbol that names the file, and an all-zero map. */
    method StartFile(f: Input, ghost fileNo: nat)
      requires Valid() && outsym == 0 && InputOk(info.table, f)
      requires |f.syms| <= symbolMap.Length && 0 < outputSyms.Length
      modifies this, outputSyms, symbolMap
      ensures Valid() && outsym <= 1
      ensures Current(|f.syms|) == Start(info, f, fileNo, old(Abstract()))
    {
      hide TableOk;
      if HasFileSymbol(info, f) {
        Buffer(FileSymbol(f), FileName(fileNo));
      }
      hide HasFileSymbol, FileSymbol;
      hashes, pass, skipNext := f.hashes, false, false;
      ClearMap(|f.syms|);
    }

    method ClearMap(n: nat)
      requires n <= symbolMap.Length
      modifies symbolMap
      ensures symbolMap[..n] == seq(n, _ => 0)
    {
      for j := 0 to n
        invariant symbolMap[..j] == seq(j, _ => 0)
      {
        ghost var m := symbolMap[..j];
        symbolMap[j] := 0;
        assert symbolMap[..j + 1] == m + [0];
      }
    }

    /** Write the buffered records at the current position. */
    method Flush()
      requires Valid()
      modifies this`file, this`symoff, this`outsym
      ensures Valid() && outsym == 0 && Abstract() == old(Abstract())
    {
      ghost var done := count - outsym;
      for k := 0 to outsym
        invariant Valid() && outsym == old(outsym) && symoff == old(symoff)
        invariant forall j :: 0 <= j < done ==> file[Position(j)] == old(file)[Position(j)]
        invariant forall j :: done <= j < done + k ==> Position(j) in file && file[Position(j)] == outputSyms[j - done]
      {
        assert symoff + k * EXTERNAL_NLIST_SIZE == Position(done + k);
        file := file[symoff + k * EXTERNAL_NLIST_SIZE := outputSyms[k]];
      }
      symoff := symoff + outsym * EXTERNAL_NLIST_SIZE;
      outsym := 0;
      assert Flushed() == old(Flushed() + outputSyms[..outsym]);
      assert outputSyms[..0] == [];
    }

    /** Write one record straight to the file. */
    method WriteRecord(r: Record, ghost o: Owner)
      requires Valid() && outsym == 0
      modifies this`file, this`symoff, this`count, this`owners
      ensures Valid() && outsym == 0
      ensures Abstract() == old(Abstract()).(records := old(Abstract()).records + [r],
                                             owners := old(Abstract()).owners + [o])
    {
      file := file[symoff := r];
      symoff, count, owners := symoff + EXTERNAL_NLIST_SIZE, count + 1, owners + [o];
      assert Flushed() == old(Flushed()) + [r];
    }

    /** Write out a symbol no input file has put out. */
    method WriteOtherSymbol(entry: nat)
      requires Valid() && outsym == 0 && entry < |info.table|
      modifies this`file, this`symoff, this`count, this`owners, this`written, this`indx
      ensures Valid() && outsym == 0
      ensures Abstract() == WriteOther(info, old(Abstract()), entry)
    {
      hide OtherRecord;
      var h := entry;
      if info.table[h].kind == Warning {
        h := info.table[h].link;
        if info.table[h].kind == New {
          return;
        }
      }
      var e := info.table[h];
      if written[h] {
        return;
      }
      written := written[h := true];
      assert Flushed() == old(Flushed());
      if indx[h] != -2 && OtherStripped(info, e.name) {
        return;
      }
      if e.kind == New || e.kind == Indirect {
        return;
      }
      var number := count;
      WriteRecord(OtherRecord(e), GlobalSym(h));
      ghost var now := Flushed();
      indx := indx[h := number];
      assert Flushed() == now;
    }

    /** Give a hash entry a record because a relocation needs its number. */
    method ForceSymbol(h: nat)
      requires Valid() && outsym == 0 && h < |info.table| && info.table[h].kind != Warning
      modifies this`file, this`symoff, this`count, this`owners, this`written, this`indx
      ensures Valid() && outsym == 0
      ensures Abstract() == Force(info, old(Abstract()), h)
    {
      if indx[h] < 0 {
        indx := indx[h := -2];
        written := written[h := false];
        assert Flushed() == old(Flushed());
        WriteOtherSymbol(h);
      }
    }

    /** The map has room for every file's symbols, and the buffer for one record more. */
    ghost predicate BuffersFit(files: seq<Input>) {
      forall f :: 0 <= f < |files| ==> |files[f].syms| <= symbolMap.Length < outputSyms.Length
    }

    /** One event of a link. */
    method Handle(files: seq<Input>, ev: Event)
      requires Valid() && outsym == 0 && LinkOk(info, rank, files) && EventOk(info, files, ev)
      requires BuffersFit(files)
      modifies this, outputSyms, symbolMap
      ensures Valid() && outsym == 0
      ensures Abstract() == Apply(info, rank, files, old(Abstract()), ev)
    {
      hide FileRun, WriteOther, Force;
      match ev {
        case InputFile(f) => WriteSymbols(files[f], f);
        case Other(e) => WriteOtherSymbol(e);
        case Forced(e) => ForceSymbol(e);
      }
    }

    /** Some more events, after those in done. */
    method HandleAll(files: seq<Input>, ghost done: seq<Event>, evs: seq<Event>)
      requires Valid() && outsym == 0
      requires LinkOk(info, rank, files) && EventsOk(info, files, done + evs)
      requires EventsOk(info, files, done) && Abstract() == Run(info, rank, files, done)
      requires BuffersFit(files)
      modifies this, outputSyms, symbolMap
      ensures Valid() && outsym == 0 && Abstract() == Run(info, rank, files, done + evs)
    {
      hide Apply, TableOk, Linker.BuffersFit;
      ghost var all := done + evs;
      assert all[..|done|] == done;
      for k := 0 to |evs|
        invariant Valid() && outsym == 0
        invariant Abstract() == Run(info, rank, files, all[..|done| + k])
      {
        assert all[..|done| + k + 1][..|done| + k] == all[..|done| + k] && all[|done| + k] == evs[k];
        Handle(files, evs[k]);
      }
      assert all[..|all|] == all;
    }

    /** The symbol side of a whole link: the events in order, then the walk over the table. */
    method LinkAll(files: seq<Input>, evs: seq<Event>)
      requires Valid() && outsym == 0 && Abstract() == Empty(|info.table|)
      requires LinkOk(info, rank, files) && EventsOk(info, files, evs)
      requires BuffersFit(files)
      modifies this, outputSyms, symbolMap
      ensures Valid() && outsym == 0
      ensures EventsOk(info, files, evs + Walk(|info.table|))
      ensures Abstract() == Run(info, rank, files, evs + Walk(|info.table|))
      ensures IndicesTrue(Abstract()) && RecordsTrue(info, files, Abstract())
    {
      hide Apply, TableOk, IndicesTrue, RecordsTrue, EventsOk, Linker.BuffersFit;
      WalkIsOk(info, files, evs, |info.table|);
      assert [] + evs == evs;
      NoEvents(info, files);
      HandleAll(files, [], evs);
      HandleAll(files, evs, Walk(|info.table|));
      IndicesAreRecordNumbers(info, rank, files, evs + Walk(|info.table|));
    }
  }

  lemma NoEvents(info: Info, files: seq<Input>)
    ensures EventsOk(info, files, [])
  {
  }

  /** The most symbols any input file has. */
  method MaxSymCount(files: seq<Input>) returns (max: nat)
    ensures forall f :: 0 <= f < |files| ==> |files[f].syms| <= max
    ensures max == 0 || exists f :: 0 <= f < |files| && |files[f].syms| == max
  {
    max := 0;
    for f := 0 to |files|
      invariant forall g :: 0 <= g < f ==> |files[g].syms| <= max
      invariant max == 0 || exists g :: 0 <= g < f && |files[g].syms| == max
    {
      if |files[f].syms| > max {
        max := |files[f].syms|;
      }
    }
  }

  /** The link: buffers of the largest file's size, and one record more, are enough for all files. */
  method Link(info: Info, ghost rank: seq<nat>, symStart: nat, files: seq<Input>, evs: seq<Event>) returns (l: Linker)
    requires LinkOk(info, rank, files) && EventsOk(info, files, evs)
    ensures l.Valid() && l.info == info && l.outsym == 0
    ensures EventsOk(info, files, evs + Walk(|info.table|))
    ensures l.Abstract() == Run(info, rank, files, evs + Walk(|info.table|))
    ensures IndicesTrue(l.Abstract()) && RecordsTrue(info, files, l.Abstract())
  {
    hide Run;
    var max := MaxSymCount(files);
    l := new Linker(info, rank, symStart, max);
    l.LinkAll(files, evs);
  }
}
