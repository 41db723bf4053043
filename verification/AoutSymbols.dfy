/** The symbol pass of the a.out final link, as a state machine over values.

    A link keeps one growing list of output records, and per global symbol a
    written flag and an output index; one input file adds a symbol map. Step is
    one turn of the per-symbol loop, FileRun one input file. */
module AoutSymbols {
  import opened AoutTypes
  import opened Basics

  /** kind & N_TYPE: bits 1 to 4. */
  function TypeBits(kind: Byte): Byte {
    kind % 0x20 - kind % 2
  }

  /** kind & N_STAB is not zero: one of the bits 5 to 7 is set. */
  predicate IsStab(kind: Byte) {
    kind >= 0x20
  }

  /** kind & ~N_TYPE | d, for a d of at most five bits. */
  function WithType(kind: Byte, d: Byte): (r: Byte)
    requires d < 0x20
  {
    kind - kind % 0x20 + d - d % 2 + (if kind % 2 == 1 || d % 2 == 1 then 1 else 0)
  }

  datatype Strip = StripNone | StripDebugger | StripSome | StripAll
  datatype Discard = DiscardNone | DiscardSecMerge | DiscardL | DiscardAll

  /** Which of the output file's sections a section was placed in. */
  datatype OutSection = OutText | OutData | OutBss | OutOther

  /** A section together with its place in the output. */
  datatype Placed = Placed(vma: int, out: OutSection, outVma: int, outOffset: int)

  const ABS_SECTION: Placed := Placed(0, OutOther, 0, 0)

  datatype HashKind = New | Undefined | UndefWeak | Defined | DefWeak | Common | Indirect | Warning

  /** One entry of the linker hash table. The link pass changes only its written flag
      and its index, which the states below carry. */
  datatype Entry = Entry(name: string, kind: HashKind, link: nat, value: int, section: Placed, size: int)

  datatype Nlist = Nlist(kind: Byte, other: Byte, desc: int, name: string, value: int, localLabel: bool)

  datatype Input = Input(filename: string, syms: seq<Nlist>, hashes: seq<Option<nat>>,
                         text: Placed, data: Placed, bss: Placed)

  datatype Info = Info(strip: Strip, discard: Discard, keep: set<string>, keepMemory: bool, table: seq<Entry>)

  datatype Record = Record(kind: Byte, other: Byte, desc: int, name: string, value: int)

  /** What an output record stands for. */
  datatype Owner = FileName(file: nat) | LocalSym(file: nat, index: nat) | GlobalSym(entry: nat)

  datatype State = State(records: seq<Record>, owners: seq<Owner>,
                         written: seq<bool>, indx: seq<int>, includes: map<string, seq<int>>)

  /** The state inside one input file's loop. */
  datatype Pass = Pass(st: State, symbolMap: seq<int>, hashes: seq<Option<nat>>, pass: bool, skipNext: bool)

  // ---------- well-formed inputs ----------

  predicate IsLink(e: Entry) {
    e.kind == Indirect || e.kind == Warning
  }

  /** Chains of indirect and warning entries stay in the table and end; a warning
      stands directly before its symbol. rank counts the links still to follow. */
  ghost predicate TableOk(t: seq<Entry>, rank: seq<nat>) {
    && |rank| == |t|
    && forall e :: 0 <= e < |t| && IsLink(t[e]) ==>
         && t[e].link < |t|
         && rank[t[e].link] < rank[e]
         && (t[e].kind == Warning ==> t[t[e].link].kind != Warning)
  }

  predicate InputOk(t: seq<Entry>, f: Input) {
    && |f.hashes| == |f.syms|
    && forall i :: 0 <= i < |f.hashes| && f.hashes[i].Some? ==> f.hashes[i].value < |t|
  }

  ghost predicate StateOk(t: seq<Entry>, st: State) {
    |st.owners| == |st.records| && |st.written| == |t| && |st.indx| == |t|
  }

  ghost predicate PassOk(t: seq<Entry>, f: Input, p: Pass) {
    && StateOk(t, p.st)
    && |p.symbolMap| == |f.syms|
    && |p.hashes| == |f.syms|
    && forall i :: 0 <= i < |p.hashes| && p.hashes[i].Some? ==> p.hashes[i].value < |t|
  }

  /** Later symbols still have their own hash entry. */
  ghost predicate HashesAhead(f: Input, p: Pass, i: nat)
    requires |p.hashes| == |f.syms| == |f.hashes|
  {
    forall j :: i <= j < |f.syms| ==> p.hashes[j] == f.hashes[j]
  }

  // ---------- the pieces of one step ----------

  /** The base symbol behind a chain of indirect and warning entries. */
  ghost function Resolve(t: seq<Entry>, rank: seq<nat>, e: nat): (r: nat)
    requires TableOk(t, rank) && e < |t|
    ensures r < |t| && !IsLink(t[r])
    decreases rank[e]
  {
    if IsLink(t[e]) then Resolve(t, rank, t[e].link) else e
  }

  predicate Stripped(info: Info, kind: Byte, name: string) {
    match info.strip
    case StripNone => false
    case StripDebugger => IsStab(kind)
    case StripSome => name !in info.keep
    case StripAll => true
  }

  predicate IsSet(kind: Byte) {
    var k := TypeBits(kind);
    k == N_SETT || k == N_SETD || k == N_SETB || k == N_SETA
  }

  predicate Discarded(info: Info, y: Nlist) {
    match info.discard
    case DiscardNone => false
    case DiscardSecMerge => false
    case DiscardL => !IsStab(y.kind) && y.localLabel
    case DiscardAll => true
  }

  datatype Value = Value(kind: Byte, value: int, pass: bool, skip: bool)

  /** Where a value of a section ends up. */
  function Moved(s: Placed, value: int): int {
    s.outVma + s.outOffset + (value - s.vma)
  }

  /** Where a defined global symbol ends up. */
  function Address(e: Entry): int {
    e.value + e.section.outVma + e.section.outOffset
  }

  /** The output type of a defined global symbol, without its other bits. */
  function DefinedKind(e: Entry): (d: Byte)
    ensures d < 0x20
  {
    match e.section.out
    case OutText => if e.kind == Defined then N_TEXT else N_WEAKT
    case OutData => if e.kind == Defined then N_DATA else N_WEAKD
    case OutBss => if e.kind == Defined then N_BSS else N_WEAKB
    case OutOther => if e.kind == Defined then N_ABS else N_WEAKA
  }

  /** The type and value of a symbol that reaches the value computation; r is
      the entry behind its hash entry, if it has one. */
  function ValueOf(f: Input, y: Nlist, r: Option<Entry>): Value {
    var k := TypeBits(y.kind);
    if k == N_TEXT || y.kind == N_WEAKT then Value(y.kind, Moved(f.text, y.value), false, false)
    else if k == N_DATA || y.kind == N_WEAKD then Value(y.kind, Moved(f.data, y.value), false, false)
    else if k == N_BSS || y.kind == N_WEAKB then Value(y.kind, Moved(f.bss, y.value), false, false)
    else if k == N_ABS || y.kind == N_WEAKA then Value(y.kind, Moved(ABS_SECTION, y.value), false, false)
    else if (k == N_INDR && (r.None? || r.value.kind !in {Defined, DefWeak, Common})) || y.kind == N_WARNING then
      Value(y.kind, y.value, true, false)
    else if IsStab(y.kind) then Value(y.kind, y.value, false, false)
    else
      var skip := k == N_INDR;
      match r
      case None =>
        if k == N_SETT then Value(y.kind, Moved(f.text, y.value), false, skip)
        else if k == N_SETD then Value(y.kind, Moved(f.data, y.value), false, skip)
        else if k == N_SETB then Value(y.kind, Moved(f.bss, y.value), false, skip)
        else if k == N_SETA then Value(y.kind, Moved(ABS_SECTION, y.value), false, skip)
        else Value(y.kind, 0, false, skip)
      case Some(e) =>
        match e.kind
        case Defined => Value(DefinedType(y.kind, e), Address(e), false, skip)
        case DefWeak => Value(DefinedType(y.kind, e), Address(e), false, skip)
        case Common => Value(y.kind, e.size, false, skip)
        case UndefWeak => Value(N_WEAKU, 0, false, skip)
        case _ => Value(y.kind, 0, false, skip)
  }

  function DefinedType(kind: Byte, e: Entry): Byte {
    var k := if kind == N_SETT || kind == N_SETD || kind == N_SETB || kind == N_SETA then kind + N_EXT else kind;
    WithType(k, DefinedKind(e))
  }

  // ---------- header groups ----------

  /** A plain char is signed on the hosts the linker is built for. */
  function CharValue(c: char): int {
    var v := c as int % 256;
    if v < 128 then v else v - 256
  }

  function SkipDigits(s: string): (r: string)
    ensures |r| <= |s|
  {
    if s != "" && IsDigit(s[0]) then SkipDigits(s[1..]) else s
  }

  /** What one name adds to a header's total: its characters, less the digits
      that follow an open parenthesis. */
  function NameSum(s: string): int
    decreases |s|
  {
    if s == "" then 0
    else CharValue(s[0]) + NameSum(if s[0] == '(' then SkipDigits(s[1..]) else s[1..])
  }

  /** The total of the names at nesting 0 from symbol j to the end of the group. */
  function GroupSum(syms: seq<Nlist>, j: nat, nest: nat): int
    requires j <= |syms|
    decreases |syms| - j
  {
    if j == |syms| then 0
    else if syms[j].kind == N_EINCL then (if nest == 0 then 0 else GroupSum(syms, j + 1, nest - 1))
    else if syms[j].kind == N_BINCL then GroupSum(syms, j + 1, nest + 1)
    else (if nest == 0 then NameSum(syms[j].name) else 0) + GroupSum(syms, j + 1, nest)
  }

  function GroupTotal(syms: seq<Nlist>, i: nat): int
    requires i < |syms|
  {
    GroupSum(syms, i + 1, 0) % U64
  }

  /** Mark the symbols at nesting 0 from symbol j on, and the end of the group. */
  function MarkGroup(m: seq<int>, syms: seq<Nlist>, j: nat, nest: nat): (r: seq<int>)
    requires j <= |syms| == |m|
    ensures |r| == |m|
    decreases |syms| - j
  {
    if j == |syms| then m
    else if syms[j].kind == N_EINCL then
      (if nest == 0 then m[j := -1] else MarkGroup(m, syms, j + 1, nest - 1))
    else if syms[j].kind == N_BINCL then MarkGroup(m, syms, j + 1, nest + 1)
    else MarkGroup(if nest == 0 then m[j := -1] else m, syms, j + 1, nest)
  }

  function Totals(includes: map<string, seq<int>>, name: string): seq<int> {
    if name in includes then includes[name] else []
  }

  // ---------- one step, one file ----------

  /** Append a record and give symbol i its number. */
  function Emit(p: Pass, i: nat, r: Record, o: Owner): Pass
    requires i < |p.symbolMap|
  {
    p.(symbolMap := p.symbolMap[i := |p.st.records|],
       st := p.st.(records := p.st.records + [r], owners := p.st.owners + [o]))
  }

  function MakeRecord(y: Nlist, kind: Byte, name: string, value: int): Record {
    Record(kind, y.other, y.desc, name, value % U32)
  }

  /** Meeting the opening symbol of a header group: the type it is written with. A group
      met before becomes N_EXCL and its symbols are marked; a new one is remembered. */
  function EnterGroup(t: seq<Entry>, f: Input, p: Pass, i: nat, name: string): (r: (Pass, Byte))
    requires PassOk(t, f, p) && i < |f.syms|
    ensures PassOk(t, f, r.0)
  {
    var total := GroupTotal(f.syms, i);
    var seen := Totals(p.st.includes, name);
    if total in seen then (p.(symbolMap := MarkGroup(p.symbolMap, f.syms, i + 1, 0)), N_EXCL)
    else (p.(st := p.st.(includes := p.st.includes[name := [total] + seen])), N_BINCL)
  }

  /** A hash entry gets the number of the record about to be added. */
  function Number(t: seq<Entry>, st: State, h: Option<nat>): (r: State)
    requires StateOk(t, st) && (h.Some? ==> h.value < |t|)
    ensures StateOk(t, r)
  {
    if h.None? then st
    else st.(written := st.written[h.value := true], indx := st.indx[h.value := |st.records|])
  }

  /** Number and write a symbol that is kept, under the name outName. */
  function Keep(info: Info, f: Input, file: nat, p: Pass, i: nat, h: Option<nat>, v: Value, name: string, outName: string): (q: Pass)
    requires PassOk(info.table, f, p) && i < |f.syms| && (h.Some? ==> h.value < |info.table|)
    ensures PassOk(info.table, f, q)
  {
    var p := p.(st := Number(info.table, p.st, h));
    var owner := if h.None? then LocalSym(file, i) else GlobalSym(h.value);
    if v.kind == N_BINCL then
      var (p, kind) := EnterGroup(info.table, f, p, i, name);
      Emit(p, i, MakeRecord(f.syms[i], kind, outName, GroupTotal(f.syms, i)), owner)
    else
      Emit(p, i, MakeRecord(f.syms[i], v.kind, outName, v.value), owner)
  }

  /** The tail of a step, from the discard test on. v is the symbol's type and value,
      name the name it is looked up under. */
  function Place(info: Info, f: Input, file: nat, p: Pass, i: nat, h: Option<nat>, v: Value, name: string): (q: Pass)
    requires PassOk(info.table, f, p) && i < |f.syms| && (h.Some? ==> h.value < |info.table|)
    ensures PassOk(info.table, f, q)
  {
    var p := p.(pass := v.pass, skipNext := v.skip);
    if h.None? && !IsSet(v.kind) && Discarded(info, f.syms[i]) then p.(pass := false)
    else
      Keep(info, f, file, p, i, h, v, name,
           if !info.keepMemory && h.Some? then info.table[h.value].name else name)
  }

  /** A step at a symbol with a hash entry, which neither passes through nor is skipped. */
  ghost function StepGlobal(info: Info, rank: seq<nat>, f: Input, file: nat, p: Pass, i: nat): (q: Pass)
    requires TableOk(info.table, rank) && PassOk(info.table, f, p) && i < |f.syms| && p.hashes[i].Some?
    ensures PassOk(info.table, f, q)
  {
    var y := f.syms[i];
    var h := p.hashes[i];
    var e := info.table[h.value];
    var name := if e.kind == Warning then y.name else e.name;
    var r := Resolve(info.table, rank, h.value);
    var p := p.(hashes := p.hashes[i := Some(r)]);
    if p.st.written[h.value] then
      p.(skipNext := TypeBits(y.kind) == N_INDR || y.kind == N_WARNING,
         symbolMap := p.symbolMap[i := p.st.indx[h.value]])
    else if Stripped(info, y.kind, name) then
      p.(st := p.st.(written := p.st.written[h.value := true]))
    else Place(info, f, file, p, i, h, ValueOf(f, y, Some(info.table[r])), name)
  }

  ghost function Step(info: Info, rank: seq<nat>, f: Input, file: nat, p: Pass, i: nat): (q: Pass)
    requires TableOk(info.table, rank) && PassOk(info.table, f, p) && i < |f.syms|
    ensures PassOk(info.table, f, q)
  {
    if p.symbolMap[i] == -1 then p
    else
      var y := f.syms[i];
      var p := p.(symbolMap := p.symbolMap[i := -1]);
      if p.pass then
        Emit(p.(pass := false), i, MakeRecord(y, y.kind, y.name, y.value), LocalSym(file, i))
      else if p.skipNext then p.(skipNext := false)
      else if p.hashes[i].Some? then StepGlobal(info, rank, f, file, p, i)
      else if Stripped(info, y.kind, y.name) then p
      else Place(info, f, file, p, i, None, ValueOf(f, y, None), y.name)
  }

  /** The symbol that names an input file, unless such symbols are dropped. */
  predicate HasFileSymbol(info: Info, f: Input) {
    info.strip != StripAll && (info.strip != StripSome || f.filename in info.keep) && info.discard != DiscardAll
  }

  function FileSymbol(f: Input): Record {
    Record(N_TEXT, 0, 0, f.filename, (f.text.outVma + f.text.outOffset) % U32)
  }

  function Start(info: Info, f: Input, file: nat, st: State): (p: Pass)
    requires InputOk(info.table, f) && StateOk(info.table, st)
    ensures PassOk(info.table, f, p)
  {
    var st := if HasFileSymbol(info, f)
              then st.(records := st.records + [FileSymbol(f)], owners := st.owners + [FileName(file)])
              else st;
    Pass(st, seq(|f.syms|, _ => 0), f.hashes, false, false)
  }

  /** The loop of one input file, after its first i symbols. */
  ghost function FileRun(info: Info, rank: seq<nat>, f: Input, file: nat, st: State, i: nat): (p: Pass)
    requires TableOk(info.table, rank) && InputOk(info.table, f) && StateOk(info.table, st) && i <= |f.syms|
    ensures PassOk(info.table, f, p)
  {
    if i == 0 then Start(info, f, file, st)
    else Step(info, rank, f, file, FileRun(info, rank, f, file, st, i - 1), i - 1)
  }
}
