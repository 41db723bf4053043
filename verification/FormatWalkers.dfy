/** The two walks over an error message's format: the first collects the arguments' types
    and fetches them, the second prints and reads them back. */
module FormatWalkers {
  import opened Basics

  datatype ArgType = Bad | Int | Long | LongLong | Double | LongDouble | Ptr

  /** One read of an argument: which one, and through which union member. */
  datatype Use = Use(index: nat, member: ArgType)

  const MAX_ARGS: nat := 9

  /** How a walk ends: normally, by abort, or by running off the end of the format;
      uses are the reads up to there. */
  datatype Walk = Done(uses: seq<Use>) | Aborted(uses: seq<Use>) | Overrun(uses: seq<Use>)

  datatype Conversion = Conversion(next: nat, uses: seq<Use>) | NoConversion | OffTheEnd

  // ---------- the grammar both walks follow ----------

  /** The format as C sees it, with its terminator. */
  function At(fmt: string, p: nat): char {
    if p < |fmt| then fmt[p] else '\0'
  }

  predicate IsFlag(c: char) {
    c == '-' || c == '+' || c == ' ' || c == '#' || c == '0' || c == '\'' || c == 'I'
  }

  predicate IsLength(c: char) {
    c == 'h' || c == 'l' || c == 'L'
  }

  lemma LettersAre(c: char)
    ensures IsFlag(c) <==> c in "-+ #0'I"
    ensures IsLength(c) <==> c in "hlL"
  {
  }

  /** A positional parameter such as 3$ at p. */
  function Positional(fmt: string, p: nat): bool {
    At(fmt, p) != '0' && IsDigit(At(fmt, p)) && At(fmt, p + 1) == '$'
  }

  function PositionalIndex(fmt: string, p: nat): nat
    requires Positional(fmt, p)
  {
    At(fmt, p) as int - '1' as int
  }

  /** strchr finds the terminator too, so flags at the end of the format run past it:
      |fmt| + 1 stands for that. */
  function SkipFlags(fmt: string, p: nat): (r: nat)
    requires p <= |fmt|
    ensures p <= r <= |fmt| + 1 && r != |fmt|
    decreases |fmt| - p
  {
    if p == |fmt| then |fmt| + 1
    else if IsFlag(fmt[p]) then SkipFlags(fmt, p + 1)
    else p
  }

  function SkipDigits(fmt: string, p: nat): (r: nat)
    requires p <= |fmt|
    ensures p <= r <= |fmt|
    decreases |fmt| - p
  {
    if p < |fmt| && IsDigit(fmt[p]) then SkipDigits(fmt, p + 1) else p
  }

  datatype Field = Field(next: nat, uses: seq<Use>)

  /** A width or precision at p: a star that takes an int argument, or digits. */
  function NumberField(fmt: string, p: nat, count: nat): (r: Field)
    requires p <= |fmt|
    ensures p <= r.next <= |fmt| && |r.uses| <= 1
  {
    if At(fmt, p) == '*' then
      if Positional(fmt, p + 1) then Field(p + 3, [Use(PositionalIndex(fmt, p + 1), Int)])
      else Field(p + 1, [Use(count, Int)])
    else Field(SkipDigits(fmt, p), [])
  }

  function PrecisionField(fmt: string, p: nat, count: nat): (r: Field)
    requires p <= |fmt|
    ensures p <= r.next <= |fmt| && |r.uses| <= 1
  {
    if At(fmt, p) == '.' then NumberField(fmt, p + 1, count) else Field(p, [])
  }

  datatype Length = Length(next: nat, short: bool, wide: nat)

  /** The length modifiers from p on. At the terminator the walks abort: next is |fmt| then. */
  function Modifiers(fmt: string, p: nat, short: bool, wide: nat): (r: Length)
    requires p <= |fmt|
    ensures p <= r.next <= |fmt|
    decreases |fmt| - p
  {
    match At(fmt, p)
    case 'h' => Modifiers(fmt, p + 1, true, wide)
    case 'l' => Modifiers(fmt, p + 1, short, wide + 1)
    case 'L' => Modifiers(fmt, p + 1, short, 2)
    case _ => Length(p, short, wide)
  }

  /** The union member of a conversion; Bad for an unknown one. */
  function Member(c: char, short: bool, wide: nat): ArgType {
    if c == 'd' || c == 'i' || c == 'o' || c == 'u' || c == 'x' || c == 'X' || c == 'c' then
      if short || wide == 0 then Int else if wide == 1 then Long else LongLong
    else if c == 'f' || c == 'e' || c == 'E' || c == 'g' || c == 'G' then (if wide == 0 then Double else LongDouble)
    else if c == 's' || c == 'p' then Ptr
    else Bad
  }

  predicate AreLengths(s: string) {
    forall i :: 0 <= i < |s| ==> s[i] == 'h' || s[i] == 'l' || s[i] == 'L'
  }

  /** The type of the argument that C's printf takes for modifiers m and letter c: an integer with h, or without a
      modifier, is an int, with l alone a long, and else a long long; a floating-point number with any l or L is a long
      double, and else a double; strings and pointers are pointers. */
  predicate Takes(m: string, c: char, t: ArgType) {
    && c in "diouxXcfeEgGsp"
    && (c in "diouxXc" ==> t == if 'h' in m || m == "" then Int else if m == "l" then Long else LongLong)
    && (c in "feEgG" ==> t == if 'l' in m || 'L' in m then LongDouble else Double)
    && (c in "sp" ==> t == Ptr)
  }

  lemma TakesOne(m: string, c: char, t: ArgType, u: ArgType)
    requires Takes(m, c, t) && Takes(m, c, u)
    ensures t == u && t != Bad
  {
  }

  /** The usual ones. */
  const TABLE: map<string, ArgType> :=
    map["d" := Int, "hd" := Int, "ld" := Long, "lld" := LongLong, "c" := Int, "u" := Int, "lx" := Long, "llX" := LongLong,
        "f" := Double, "g" := Double, "Lf" := LongDouble, "s" := Ptr, "p" := Ptr]

  lemma TableHolds(letters: string)
    requires letters in TABLE
    ensures letters != "" && Takes(letters[..|letters| - 1], letters[|letters| - 1], TABLE[letters])
  {
    var m := letters[..|letters| - 1];
    assert "hd"[..1] == "h" && "ld"[..1] == "l" && "lld"[..2] == "ll" && "lx"[..1] == "l" && "llX"[..2] == "ll"
           && "Lf"[..1] == "L";
  }

  /** %pA and %pB are one character longer. */
  function AfterConversion(fmt: string, p: nat): nat {
    if At(fmt, p) == 'p' && (At(fmt, p + 1) == 'A' || At(fmt, p + 1) == 'B') then p + 2 else p + 1
  }

  predicate HasLong(m: string) {
    'l' in m || 'L' in m
  }

  /** What the modifiers from p on say, after short and wide. */
  lemma {:induction false} ModifiersAre(fmt: string, p: nat, short: bool, wide: nat)
    requires p <= |fmt|
    ensures var l := Modifiers(fmt, p, short, wide);
            var m := fmt[p..l.next];
            && (forall i :: 0 <= i < |m| ==> m[i] == 'h' || m[i] == 'l' || m[i] == 'L')
            && (l.short <==> short || 'h' in m)
            && (l.wide == 0 <==> wide == 0 && !HasLong(m))
            && (wide > 0 ==> (l.wide == 1 <==> wide == 1 && !HasLong(m)))
            && (wide == 0 && 'h' !in m ==> (l.wide == 1 <==> m == "l"))
    decreases |fmt| - p
  {
    if p < |fmt| && IsLength(fmt[p]) {
      var c := fmt[p];
      var short', wide' := short || c == 'h', if c == 'l' then wide + 1 else if c == 'L' then 2 else wide;
      ModifiersAre(fmt, p + 1, short', wide');
      var l := Modifiers(fmt, p + 1, short', wide');
      assert Modifiers(fmt, p, short, wide) == l;
      var m, rest := fmt[p..l.next], fmt[p + 1..l.next];
      assert m == [c] + rest;
      NoLengths(rest);
    } else {
      assert Modifiers(fmt, p, short, wide) == Length(p, short, wide);
      assert fmt[p..p] == "";
    }
  }

  lemma NoLengths(m: string)
    requires forall i :: 0 <= i < |m| ==> m[i] == 'h' || m[i] == 'l' || m[i] == 'L'
    ensures m == "" <==> 'h' !in m && !HasLong(m)
  {
    if m != "" {
      assert m[0] in m;
    }
  }

  /** The letters of a conversion take an argument of the type that its member has, or of none if it has none. */
  lemma LettersTake(fmt: string, p: nat)
    requires p <= |fmt|
    ensures var l := Modifiers(fmt, p, false, 0);
            var m := fmt[p..l.next];
            && (forall i :: 0 <= i < |m| ==> m[i] == 'h' || m[i] == 'l' || m[i] == 'L')
            && (l.next < |fmt| ==>
                  && (Member(fmt[l.next], l.short, l.wide) == Bad <==> fmt[l.next] !in "diouxXcfeEgGsp")
                  && (Member(fmt[l.next], l.short, l.wide) != Bad ==>
                        Takes(m, fmt[l.next], Member(fmt[l.next], l.short, l.wide))))
  {
    ModifiersAre(fmt, p, false, 0);
    var l := Modifiers(fmt, p, false, 0);
    hide Modifiers;
    NoLengths(fmt[p..l.next]);
  }

  /** Width and precision together. */
  function Stars(fmt: string, p: nat, count: nat): (r: Field)
    requires p <= |fmt|
    ensures p <= r.next <= |fmt|
  {
    var width := NumberField(fmt, p, count);
    var precision := PrecisionField(fmt, width.next, count + |width.uses|);
    Field(precision.next, width.uses + precision.uses)
  }

  /** The rest of a conversion from its length modifiers on. Its own argument comes last; index is the
      positional one, if it has one. */
  function Tail(fmt: string, p: nat, index: Option<nat>, count: nat, stars: seq<Use>): (r: Conversion)
    requires p <= |fmt|
    ensures r.Conversion? ==> p < r.next <= |fmt| && |r.uses| == |stars| + 1 && stars <= r.uses
    ensures !r.OffTheEnd?
  {
    var length := Modifiers(fmt, p, false, 0);
    var member := Member(At(fmt, length.next), length.short, length.wide);
    if length.next == |fmt| || member == Bad then NoConversion
    else
      Conversion(AfterConversion(fmt, length.next),
                 stars + [Use(if index.Some? then index.value else count + |stars|, member)])
  }

  /** The conversion whose percent sign is just before p, when count arguments are used up. */
  function ConversionAt(fmt: string, p: nat, count: nat): (r: Conversion)
    requires p <= |fmt|
    ensures r.Conversion? ==> p < r.next <= |fmt| && |r.uses| >= 1
  {
    var positional := Positional(fmt, p);
    var flags := SkipFlags(fmt, if positional then p + 2 else p);
    if flags > |fmt| then OffTheEnd
    else
      var stars := Stars(fmt, flags, count);
      Tail(fmt, stars.next, if positional then Some(PositionalIndex(fmt, p)) else None, count, stars.uses)
  }

  function NextPercent(fmt: string, p: nat): (r: nat)
    requires p <= |fmt|
    ensures p <= r <= |fmt|
    decreases |fmt| - p
  {
    if p < |fmt| && fmt[p] != '%' then NextPercent(fmt, p + 1) else p
  }

  /** The walk over a format from p on, after the reads in uses. */
  function WalkFrom(fmt: string, p: nat, uses: seq<Use>): Walk
    requires p <= |fmt|
    decreases |fmt| - p
  {
    if p == |fmt| then Done(uses)
    else if fmt[p] != '%' then WalkFrom(fmt, NextPercent(fmt, p + 1), uses)
    else if At(fmt, p + 1) == '%' then WalkFrom(fmt, p + 2, uses)
    else
      match ConversionAt(fmt, p + 1, |uses|)
      case NoConversion => Aborted(uses)
      case OffTheEnd => Overrun(uses)
      case Conversion(next, more) => WalkFrom(fmt, next, uses + more)
  }

  // ---------- the walks ----------

  method Flags(fmt: string, start: nat) returns (p: nat)
    requires start <= |fmt|
    ensures p == SkipFlags(fmt, start)
  {
    p := start;
    while p < |fmt| && IsFlag(fmt[p])
      invariant start <= p <= |fmt| && SkipFlags(fmt, p) == SkipFlags(fmt, start)
    {
      p := p + 1;
    }
    if p == |fmt| {
      p := p + 1;
    }
  }

  method Digits(fmt: string, start: nat) returns (p: nat)
    requires start <= |fmt|
    ensures p == SkipDigits(fmt, start)
  {
    p := start;
    while IsDigit(At(fmt, p))
      invariant start <= p <= |fmt| && SkipDigits(fmt, p) == SkipDigits(fmt, start)
      decreases |fmt| - p
    {
      p := p + 1;
    }
  }

  method Lengths(fmt: string, start: nat) returns (p: nat, short: bool, wide: nat)
    requires start <= |fmt|
    ensures Length(p, short, wide) == Modifiers(fmt, start, false, 0)
  {
    p, short, wide := start, false, 0;
    while IsLength(At(fmt, p))
      invariant start <= p <= |fmt|
      invariant Modifiers(fmt, p, short, wide) == Modifiers(fmt, start, false, 0)
      decreases |fmt| - p
    {
      assert p < |fmt|;
      match At(fmt, p) {
        case 'h' => short := true;
        case 'l' => wide := wide + 1;
        case _ => wide := 2;
      }
      p := p + 1;
    }
  }

  /** strchr, which both walks call for the next percent sign. */
  method Percent(fmt: string, start: nat) returns (p: nat)
    requires start <= |fmt|
    ensures p == NextPercent(fmt, start)
  {
    p := start;
    while p < |fmt| && fmt[p] != '%'
      invariant start <= p <= |fmt| && NextPercent(fmt, p) == NextPercent(fmt, start)
    {
      p := p + 1;
    }
  }

  /** The types the uses leave behind, later ones over earlier ones. */
  function Types(uses: seq<Use>): (t: seq<ArgType>)
    requires forall k :: 0 <= k < |uses| ==> uses[k].index < MAX_ARGS
    ensures |t| == MAX_ARGS
  {
    if uses == [] then seq(MAX_ARGS, _ => Bad)
    else
      var last := uses[|uses| - 1];
      Types(uses[..|uses| - 1])[last.index := last.member]
  }

  predicate InRange(uses: seq<Use>) {
    forall k :: 0 <= k < |uses| ==> uses[k].index < MAX_ARGS
  }

  lemma InRangeWith(uses: seq<Use>, u: Use)
    requires InRange(uses)
    ensures InRange(uses + [u]) <==> u.index < MAX_ARGS
  {
    assert (uses + [u])[|uses|] == u;
  }

  /** How the first walk ends: the arguments fetched with these types, an abort, or a walk outside the
      format or the argument table, which C leaves undefined. */
  datatype ScanResult = Fetched(types: seq<ArgType>, count: nat) | ScanAborted | Undefined

  function ScanOutcome(w: Walk): ScanResult {
    if !InRange(w.uses) || w.Aborted? then ScanAborted
    else if w.Overrun? then Undefined
    else FetchOutcome(Types(w.uses), |w.uses|)
  }

  /** The loop that fetches the arguments in order, by their types. */
  function FetchOutcome(types: seq<ArgType>, count: nat): ScanResult
    requires |types| == MAX_ARGS
  {
    if exists i :: 0 <= i < count && i < MAX_ARGS && types[i] == Bad then ScanAborted
    else if count > MAX_ARGS then Undefined
    else Fetched(types, count)
  }

  // ---------- the first walk ----------

  /** A width or precision in the first walk: a star notes an int argument. */
  method ScanNumber(fmt: string, start: nat, types: array<ArgType>, count: nat, ghost uses: seq<Use>)
    returns (ok: bool, p: nat, n: nat)
    requires start <= |fmt| && types.Length == MAX_ARGS && InRange(uses) && types[..] == Types(uses)
    modifies types
    ensures ok <==> InRange(uses + NumberField(fmt, start, count).uses)
    ensures ok ==> var f := NumberField(fmt, start, count);
                   p == f.next && n == count + |f.uses| && types[..] == Types(uses + f.uses)
  {
    p, n := start, count;
    if At(fmt, p) == '*' {
      p := p + 1;
      var index := n;
      if Positional(fmt, p) {
        index := PositionalIndex(fmt, p);
        p := p + 2;
      }
      ok := index < MAX_ARGS;
      InRangeWith(uses, Use(index, Int));
      if ok {
        NoteType(types, index, Int, uses);
        n := n + 1;
      }
    } else {
      p := Digits(fmt, p);
      ok := true;
      assert uses + [] == uses;
    }
  }

  method NoteType(types: array<ArgType>, index: nat, member: ArgType, ghost uses: seq<Use>)
    requires types.Length == MAX_ARGS && InRange(uses) && types[..] == Types(uses) && index < MAX_ARGS
    modifies types
    ensures types[..] == Types(uses + [Use(index, member)])
  {
    ghost var was := types[..];
    types[index] := member;
    assert types[..] == was[index := member];
    assert (uses + [Use(index, member)])[..|uses|] == uses;
  }

  datatype Turn = Next | Stop | Lost

  /** Width and precision in the first walk. */
  method ScanStars(fmt: string, start: nat, types: array<ArgType>, count: nat, ghost uses: seq<Use>)
    returns (ok: bool, p: nat, n: nat)
    requires start <= |fmt| && types.Length == MAX_ARGS && InRange(uses) && types[..] == Types(uses)
    modifies types
    ensures ok <==> InRange(uses + Stars(fmt, start, count).uses)
    ensures ok ==> var f := Stars(fmt, start, count);
                   p == f.next && n == count + |f.uses| && types[..] == Types(uses + f.uses)
  {
    ghost var width := NumberField(fmt, start, count);
    ok, p, n := ScanNumber(fmt, start, types, count, uses);
    ghost var all := Stars(fmt, start, count).uses;
    if !ok {
      OutOfRangeStays(uses, width.uses, all);
      return false, 0, 0;
    }
    ghost var precision := PrecisionField(fmt, p, n);
    assert uses + all == uses + width.uses + precision.uses;
    if At(fmt, p) == '.' {
      ok, p, n := ScanNumber(fmt, p + 1, types, n, uses + width.uses);
    } else {
      assert uses + width.uses + [] == uses + width.uses;
    }
  }

  /** The rest of a conversion in the first walk. */
  method ScanTail(fmt: string, start: nat, types: array<ArgType>, argNo: Option<nat>, ghost uses: seq<Use>,
                  ghost stars: seq<Use>, ghost count: nat, n: nat) returns (ok: bool, p: nat)
    requires start <= |fmt| && types.Length == MAX_ARGS && InRange(uses + stars) && types[..] == Types(uses + stars)
    requires n == count + |stars|
    modifies types
    ensures var c := Tail(fmt, start, argNo, count, stars);
            if ok then c.Conversion? && p == c.next && InRange(uses + c.uses) && types[..] == Types(uses + c.uses)
            else c.NoConversion? || !InRange(uses + c.uses)
  {
    hide Modifiers, Member, AfterConversion, Types;
    var short, wide;
    p, short, wide := Lengths(fmt, start);
    if p == |fmt| {
      return false, 0;
    }
    var member := Member(At(fmt, p), short, wide);
    if member == Bad {
      return false, 0;
    }
    var index := if argNo.None? then n else argNo.value;
    p := AfterConversion(fmt, p);
    ghost var u := Use(index, member);
    assert uses + stars + [u] == uses + (stars + [u]);
    if index >= MAX_ARGS {
      assert (uses + (stars + [u]))[|uses| + |stars|] == u;
      return false, 0;
    }
    NoteType(types, index, member, uses + stars);
    ok := true;
  }

  /** One conversion of the first walk. */
  method ScanConversion(fmt: string, start: nat, types: array<ArgType>, ghost uses: seq<Use>, count: nat)
    returns (turn: Turn, p: nat, n: nat)
    requires start <= |fmt| && types.Length == MAX_ARGS
    requires InRange(uses) && types[..] == Types(uses) && count == |uses|
    modifies types
    ensures var c := ConversionAt(fmt, start, count);
            match turn
            case Lost => c.OffTheEnd?
            case Stop => c.NoConversion? || (c.Conversion? && !InRange(uses + c.uses))
            case Next => c.Conversion? && p == c.next && n == |uses + c.uses|
                         && InRange(uses + c.uses) && types[..] == Types(uses + c.uses)
  {
    hide SkipFlags, Stars, Tail, Types;
    p := start;
    var argNo := None;
    if Positional(fmt, p) {
      argNo := Some(PositionalIndex(fmt, p));
      p := p + 2;
    }
    p := Flags(fmt, p);
    if p > |fmt| {
      return Lost, 0, 0;
    }
    ghost var stars := Stars(fmt, p, count);
    ghost var c := ConversionAt(fmt, start, count);
    var ok;
    ok, p, n := ScanStars(fmt, p, types, count, uses);
    if !ok {
      if c.Conversion? {
        OutOfRangeStays(uses, stars.uses, c.uses);
      }
      return Stop, 0, 0;
    }
    ok, p := ScanTail(fmt, p, types, argNo, uses, stars.uses, count, n);
    return if ok then Next else Stop, p, n + 1;
  }

  lemma OutOfRangeStays(uses: seq<Use>, first: seq<Use>, all: seq<Use>)
    requires !InRange(uses + first) && first <= all
    ensures !InRange(uses + all)
  {
    var k :| 0 <= k < |uses + first| && (uses + first)[k].index >= MAX_ARGS;
    assert (uses + all)[k] == (uses + first)[k];
  }

  /** A conversion that stops the first walk decides its outcome. */
  lemma ScanStops(fmt: string, p: nat, uses: seq<Use>)
    requires p < |fmt| && fmt[p] == '%' && At(fmt, p + 1) != '%' && InRange(uses)
    ensures var c := ConversionAt(fmt, p + 1, |uses|);
            var outcome := ScanOutcome(WalkFrom(fmt, p, uses));
            && (c.OffTheEnd? ==> outcome == Undefined)
            && (c.NoConversion? ==> outcome == ScanAborted)
            && (c.Conversion? && !InRange(uses + c.uses) ==> outcome == ScanAborted)
  {
    var c := ConversionAt(fmt, p + 1, |uses|);
    hide ConversionAt;
    if c.Conversion? {
      UsesStay(fmt, c.next, uses + c.uses);
    }
  }

  /** The first walk over a whole format. */
  method Scan(fmt: string) returns (r: ScanResult)
    ensures r == ScanOutcome(WalkFrom(fmt, 0, []))
  {
    ghost var goal := WalkFrom(fmt, 0, []);
    var types := new ArgType[MAX_ARGS](_ => Bad);
    ghost var uses: seq<Use> := [];
    assert types[..] == Types(uses) && InRange(uses);
    var p, count := 0, 0;
    hide ConversionAt, Types, InRange, FetchOutcome, NextPercent, At;
    while p < |fmt|
      invariant p <= |fmt| && count == |uses| && InRange(uses) && types[..] == Types(uses)
      invariant WalkFrom(fmt, p, uses) == goal
    {
      if fmt[p] != '%' {
        p := Percent(fmt, p + 1);
      } else if At(fmt, p + 1) == '%' {
        p := p + 2;
      } else {
        ScanStops(fmt, p, uses);
        ghost var c := ConversionAt(fmt, p + 1, count);
        var turn;
        turn, p, count := ScanConversion(fmt, p + 1, types, uses, count);
        match turn {
          case Lost => return Undefined;
          case Stop => return ScanAborted;
          case Next => uses := uses + c.uses;
        }
      }
    }
    r := Fetch(types, count);
  }

  /** What a walk has read it has read for good. */
  lemma {:induction false} UsesStay(fmt: string, p: nat, uses: seq<Use>)
    requires p <= |fmt|
    ensures uses <= WalkFrom(fmt, p, uses).uses
    ensures !InRange(uses) ==> !InRange(WalkFrom(fmt, p, uses).uses)
    decreases |fmt| - p
  {
    if p == |fmt| {
    } else if fmt[p] != '%' {
      UsesStay(fmt, NextPercent(fmt, p + 1), uses);
    } else if At(fmt, p + 1) == '%' {
      UsesStay(fmt, p + 2, uses);
    } else {
      var c := ConversionAt(fmt, p + 1, |uses|);
      if c.Conversion? {
        UsesStay(fmt, c.next, uses + c.uses);
      }
    }
    var all := WalkFrom(fmt, p, uses).uses;
    if !InRange(uses) {
      var k :| 0 <= k < |uses| && uses[k].index >= MAX_ARGS;
      assert all[k] == uses[k];
    }
  }

  /** The loop that fetches the arguments. */
  method Fetch(types: array<ArgType>, count: nat) returns (r: ScanResult)
    requires types.Length == MAX_ARGS
    ensures r == FetchOutcome(types[..], count)
  {
    for i := 0 to count
      invariant i <= MAX_ARGS && forall j :: 0 <= j < i ==> types[j] != Bad
    {
      if i == MAX_ARGS {
        return Undefined;
      }
      if types[i] == Bad {
        assert types[..][i] == Bad;
        return ScanAborted;
      }
    }
    r := Fetched(types[..], count);
  }

  // ---------- each argument is read once ----------

  function Indices(uses: seq<Use>): (r: seq<nat>)
    ensures |r| == |uses|
  {
    seq(|uses|, k requires 0 <= k < |uses| => uses[k].index)
  }

  /** A list of n numbers that has every number below n has each exactly once. */
  lemma {:induction false} Pigeonhole(s: seq<nat>, n: nat)
    requires |s| == n && forall i: nat :: i < n ==> i in s
    ensures forall k :: 0 <= k < n ==> s[k] < n
    ensures forall k, l :: 0 <= k < l < n ==> s[k] != s[l]
  {
    if n == 0 {
    } else {
      assert n - 1 in s;
      var k :| 0 <= k < n && s[k] == n - 1;
      var t := s[..k] + s[k + 1..];
      forall i: nat | i < n - 1 ensures i in t {
        assert i in s;
        var j :| 0 <= j < n && s[j] == i;
        assert t[if j < k then j else j - 1] == i;
      }
      Pigeonhole(t, n - 1);
      forall j | 0 <= j < n && j != k ensures s[j] < n - 1 {
        assert t[if j < k then j else j - 1] == s[j];
      }
      forall j, l | 0 <= j < l < n ensures s[j] != s[l] {
        if j != k && l != k {
          assert t[if j < k then j else j - 1] == s[j] && t[if l < k then l else l - 1] == s[l];
        }
      }
    }
  }

  /** A type that is not Bad was left there by a use, and by the last one of its index. */
  lemma {:induction false} TypesAreUsed(uses: seq<Use>, i: nat)
    requires InRange(uses) && i < MAX_ARGS
    ensures Types(uses)[i] != Bad ==> exists k :: 0 <= k < |uses| && uses[k] == Use(i, Types(uses)[i])
    ensures (forall k :: 0 <= k < |uses| ==> uses[k].index != i) ==> Types(uses)[i] == Bad
  {
    if uses == [] {
    } else {
      TypesAreUsed(uses[..|uses| - 1], i);
    }
  }

  /** If the first walk fetches n arguments, the reads use the indices 0 to n - 1, each exactly
      once, and each through the union member the first walk filled. */
  lemma EachArgumentOnce(fmt: string, types: seq<ArgType>, n: nat)
    requires ScanOutcome(WalkFrom(fmt, 0, [])) == Fetched(types, n)
    ensures var w := WalkFrom(fmt, 0, []);
            && w.Done? && n == |w.uses| <= MAX_ARGS == |types|
            && Readable(types, w.uses)
            && (forall k :: 0 <= k < n ==> w.uses[k].index < n)
            && (forall i: nat :: i < n ==> i in Indices(w.uses))
            && (forall k, l :: 0 <= k < l < n ==> w.uses[k].index != w.uses[l].index)
  {
    var uses := WalkFrom(fmt, 0, []).uses;
    hide WalkFrom;
    forall i: nat | i < n ensures i in Indices(uses) {
      TypesAreUsed(uses, i);
      var k :| 0 <= k < |uses| && uses[k] == Use(i, types[i]);
      assert Indices(uses)[k] == i;
    }
    Pigeonhole(Indices(uses), n);
    hide Types;
    forall k, l | 0 <= k < l < n ensures uses[k].index != uses[l].index {
      assert Indices(uses)[k] != Indices(uses)[l];
    }
    forall k | 0 <= k < n ensures uses[k].index < n && types[uses[k].index] == uses[k].member {
      var i := Indices(uses)[k];
      TypesAreUsed(uses, i);
      var l :| 0 <= l < n && uses[l] == Use(i, types[i]);
      assert Indices(uses)[l] == i;
    }
  }

  predicate Readable(args: seq<ArgType>, uses: seq<Use>) {
    forall k :: 0 <= k < |uses| ==> uses[k].index < |args| && args[uses[k].index] == uses[k].member
  }

  predicate NoneBad(uses: seq<Use>) {
    forall k :: 0 <= k < |uses| ==> uses[k].member != Bad
  }

  lemma {:induction false} ReadsAreTyped(fmt: string, p: nat, uses: seq<Use>)
    requires p <= |fmt| && NoneBad(uses)
    ensures NoneBad(WalkFrom(fmt, p, uses).uses)
    decreases |fmt| - p
  {
    if p == |fmt| {
    } else if fmt[p] != '%' {
      ReadsAreTyped(fmt, NextPercent(fmt, p + 1), uses);
    } else if At(fmt, p + 1) == '%' {
      ReadsAreTyped(fmt, p + 2, uses);
    } else {
      var c := ConversionAt(fmt, p + 1, |uses|);
      if c.Conversion? {
        ReadsAreTyped(fmt, c.next, uses + c.uses);
      }
    }
  }

  lemma {:induction false} UsedIsTyped(uses: seq<Use>, k: nat)
    requires InRange(uses) && NoneBad(uses) && k < |uses|
    ensures Types(uses)[uses[k].index] != Bad
  {
    if k == |uses| - 1 {
    } else {
      UsedIsTyped(uses[..|uses| - 1], k);
    }
  }

  /** The first walk fetches the arguments exactly when the format is complete, calls for at most nine
      reads, and leaves no index below their number out. */
  lemma FetchesExactly(fmt: string)
    ensures var w := WalkFrom(fmt, 0, []);
            ScanOutcome(w).Fetched?
            <==> w.Done? && |w.uses| <= MAX_ARGS && forall i: nat :: i < |w.uses| ==> i in Indices(w.uses)
  {
    var w := WalkFrom(fmt, 0, []);
    if ScanOutcome(w).Fetched? {
      EachArgumentOnce(fmt, ScanOutcome(w).types, ScanOutcome(w).count);
    } else if w.Done? && |w.uses| <= MAX_ARGS && forall i: nat :: i < |w.uses| ==> i in Indices(w.uses) {
      ReadsAreTyped(fmt, 0, []);
      Pigeonhole(Indices(w.uses), |w.uses|);
      forall k | 0 <= k < |w.uses| ensures w.uses[k].index < MAX_ARGS {
        assert w.uses[k].index == Indices(w.uses)[k];
      }
      var i :| 0 <= i < |w.uses| && i < MAX_ARGS && Types(w.uses)[i] == Bad;
      assert i in Indices(w.uses);
      var k :| 0 <= k < |w.uses| && Indices(w.uses)[k] == i;
      UsedIsTyped(w.uses, k);
    }
  }

  // ---------- the types of the arguments ----------

  /** A star takes an int; letters take what C's printf takes for them. */
  predicate CallTakes(call: string, t: ArgType) {
    if call == "*" then t == Int
    else call != "" && AreLengths(call[..|call| - 1]) && Takes(call[..|call| - 1], call[|call| - 1], t)
  }

  /** The stars of a conversion, and its modifiers with its letter. */
  function CallsAt(fmt: string, p: nat): (calls: seq<string>)
    requires p <= |fmt|
  {
    var flags := SkipFlags(fmt, if Positional(fmt, p) then p + 2 else p);
    if flags > |fmt| then []
    else
      var stars := Stars(fmt, flags, 0);
      var d := Modifiers(fmt, stars.next, false, 0).next;
      seq(|stars.uses|, _ => "*") + (if d < |fmt| then [fmt[stars.next..d + 1]] else [])
  }

  /** What is called for from p on, in order. */
  function Calls(fmt: string, p: nat): seq<string>
    requires p <= |fmt|
    decreases |fmt| - p
  {
    if p == |fmt| then []
    else if fmt[p] != '%' then Calls(fmt, NextPercent(fmt, p + 1))
    else if At(fmt, p + 1) == '%' then Calls(fmt, p + 2)
    else
      match ConversionAt(fmt, p + 1, 0)
      case Conversion(next, _) => CallsAt(fmt, p + 1) + Calls(fmt, next)
      case _ => []
  }

  predicate AllTake(calls: seq<string>, uses: seq<Use>) {
    |calls| == |uses| && forall k :: 0 <= k < |calls| ==> CallTakes(calls[k], uses[k].member)
  }

  /** The number of arguments before a conversion only moves its natural indices. */
  lemma CountMoves(fmt: string, p: nat, count: nat)
    requires p <= |fmt|
    ensures ConversionAt(fmt, p, count).Conversion? <==> ConversionAt(fmt, p, 0).Conversion?
    ensures ConversionAt(fmt, p, count).Conversion? ==> ConversionAt(fmt, p, count).next == ConversionAt(fmt, p, 0).next
  {
    var positional := Positional(fmt, p);
    var flags := SkipFlags(fmt, if positional then p + 2 else p);
    if flags <= |fmt| {
      StarsMove(fmt, flags, count);
      hide Stars;
    }
    hide SkipFlags, Member, Modifiers;
  }

  lemma StarsMove(fmt: string, p: nat, count: nat)
    requires p <= |fmt|
    ensures Stars(fmt, p, count).next == Stars(fmt, p, 0).next
    ensures |Stars(fmt, p, count).uses| == |Stars(fmt, p, 0).uses|
    ensures forall k :: 0 <= k < |Stars(fmt, p, count).uses| ==> Stars(fmt, p, count).uses[k].member == Int
  {
  }

  lemma ConversionTakes(fmt: string, p: nat, count: nat)
    requires p <= |fmt| && ConversionAt(fmt, p, count).Conversion?
    ensures AllTake(CallsAt(fmt, p), ConversionAt(fmt, p, count).uses)
  {
    hide SkipFlags, Stars, Takes, Member, Modifiers, AreLengths, Positional, AfterConversion, CallTakes;
    var flags := SkipFlags(fmt, if Positional(fmt, p) then p + 2 else p);
    StarsMove(fmt, flags, count);
    StarIsCalled();
    var q := Stars(fmt, flags, count).next;
    var l := Modifiers(fmt, q, false, 0);
    TakesLetters(fmt, q, l.next, l.short, l.wide);
    LettersCall(fmt, q, l.next, Member(fmt[l.next], l.short, l.wide));
  }

  lemma StarIsCalled()
    ensures CallTakes("*", Int)
  {
  }

  lemma LettersCall(fmt: string, q: nat, d: nat, t: ArgType)
    requires q <= d < |fmt| && AreLengths(fmt[q..d]) && Takes(fmt[q..d], fmt[d], t)
    ensures CallTakes(fmt[q..d + 1], t)
  {
    var call := fmt[q..d + 1];
    assert call[..|call| - 1] == fmt[q..d] && call[|call| - 1] == fmt[d];
  }

  lemma AllTakeMore(a: seq<string>, u: seq<Use>, b: seq<string>, w: seq<Use>)
    requires AllTake(a, u) && AllTake(b, w)
    ensures AllTake(a + b, u + w)
  {
    hide CallTakes;
    var calls, uses := a + b, u + w;
    forall k | 0 <= k < |calls| ensures CallTakes(calls[k], uses[k].member) {
      if k < |a| {
        assert calls[k] == a[k] && uses[k] == u[k];
      } else {
        assert calls[k] == b[k - |a|] && uses[k] == w[k - |a|];
      }
    }
  }

  /** Every read of a walk that ends well is of the type that is called for. */
  lemma {:induction false} WalkTakes(fmt: string, p: nat, uses: seq<Use>, calls: seq<string>)
    requires p <= |fmt| && WalkFrom(fmt, p, uses).Done? && AllTake(calls, uses)
    ensures AllTake(calls + Calls(fmt, p), WalkFrom(fmt, p, uses).uses)
    decreases |fmt| - p
  {
    hide AllTake, ConversionAt, CallsAt;
    if p == |fmt| {
      assert calls + [] == calls;
    } else if fmt[p] != '%' {
      WalkTakes(fmt, NextPercent(fmt, p + 1), uses, calls);
    } else if At(fmt, p + 1) == '%' {
      WalkTakes(fmt, p + 2, uses, calls);
    } else {
      var c := ConversionAt(fmt, p + 1, |uses|);
      CountMoves(fmt, p + 1, |uses|);
      ConversionTakes(fmt, p + 1, |uses|);
      AllTakeMore(calls, uses, CallsAt(fmt, p + 1), c.uses);
      WalkTakes(fmt, c.next, uses + c.uses, calls + CallsAt(fmt, p + 1));
      assert calls + CallsAt(fmt, p + 1) + Calls(fmt, c.next) == calls + (CallsAt(fmt, p + 1) + Calls(fmt, c.next));
    }
  }

  /** So if the first walk fetches the arguments, each is fetched as what the format calls for, star by star and letter by
      letter. */
  lemma FetchedAsCalled(fmt: string, types: seq<ArgType>, n: nat)
    requires ScanOutcome(WalkFrom(fmt, 0, [])) == Fetched(types, n)
    ensures var uses := WalkFrom(fmt, 0, []).uses;
            && |Calls(fmt, 0)| == n == |uses|
            && forall k :: 0 <= k < n ==>
                 uses[k].index < |types| && CallTakes(Calls(fmt, 0)[k], types[uses[k].index])
  {
    EachArgumentOnce(fmt, types, n);
    WalkTakes(fmt, 0, [], []);
    hide WalkFrom, Calls, CallTakes;
    assert [] + Calls(fmt, 0) == Calls(fmt, 0);
  }

  // ---------- formats in use ----------

  lemma SecondArgument()
    ensures ConversionAt("%2$s%1$ld", 1, 0) == Conversion(4, [Use(1, Ptr)])
  {
    var fmt := "%2$s%1$ld";
    assert SkipFlags(fmt, 3) == 3 && SkipDigits(fmt, 3) == 3 && Modifiers(fmt, 3, false, 0) == Length(3, false, 0);
  }

  lemma FirstArgument()
    ensures ConversionAt("%2$s%1$ld", 5, 1) == Conversion(9, [Use(0, Long)])
  {
    var fmt := "%2$s%1$ld";
    assert SkipFlags(fmt, 7) == 7 && SkipDigits(fmt, 7) == 7;
    assert Modifiers(fmt, 8, false, 1) == Length(8, false, 1);
  }

  lemma PositionalWalk()
    ensures WalkFrom("%2$s%1$ld", 0, []) == Done([Use(1, Ptr), Use(0, Long)])
  {
    hide ConversionAt;
    var fmt := "%2$s%1$ld";
    SecondArgument();
    FirstArgument();
    assert WalkFrom(fmt, 9, [Use(1, Ptr)] + [Use(0, Long)]) == Done([Use(1, Ptr), Use(0, Long)]);
    assert WalkFrom(fmt, 4, [] + [Use(1, Ptr)]) == Done([Use(1, Ptr), Use(0, Long)]);
  }

  lemma StarredWalk()
    ensures WalkFrom("%-*.3lld", 0, []) == Done([Use(0, Int), Use(1, LongLong)])
  {
    var fmt := "%-*.3lld";
    assert SkipFlags(fmt, 2) == 2 && SkipFlags(fmt, 1) == 2;
    assert SkipDigits(fmt, 5) == 5 && SkipDigits(fmt, 4) == 5;
    assert Modifiers(fmt, 7, false, 2) == Length(7, false, 2) && Modifiers(fmt, 6, false, 1) == Length(7, false, 2);
    assert Stars(fmt, 2, 0) == Field(5, [Use(0, Int)]);
    assert ConversionAt(fmt, 1, 0) == Conversion(8, [Use(0, Int), Use(1, LongLong)]);
    assert WalkFrom(fmt, 8, [] + [Use(0, Int), Use(1, LongLong)]) == Done([Use(0, Int), Use(1, LongLong)]);
  }

  lemma PercentWalk()
    ensures WalkFrom("a%%%pB", 0, []) == Done([Use(0, Ptr)])
  {
    var fmt := "a%%%pB";
    assert SkipFlags(fmt, 4) == 4 && SkipDigits(fmt, 4) == 4 && Modifiers(fmt, 4, false, 0) == Length(4, false, 0);
    assert ConversionAt(fmt, 4, 0) == Conversion(6, [Use(0, Ptr)]);
    assert NextPercent(fmt, 1) == 1;
    assert WalkFrom(fmt, 6, [] + [Use(0, Ptr)]) == Done([Use(0, Ptr)]);
    assert WalkFrom(fmt, 3, []) == Done([Use(0, Ptr)]);
    assert WalkFrom(fmt, 1, []) == Done([Use(0, Ptr)]);
  }

  // ---------- the second walk ----------

  /** Reading a union member is sound only if it is the one that was filled. */
  method Read(args: seq<ArgType>, index: nat, member: ArgType) returns (u: Use)
    requires index < |args| && args[index] == member
    ensures u == Use(index, member)
  {
    u := Use(index, member);
  }

  predicate AreFlags(s: string) {
    forall i :: 0 <= i < |s| ==> IsFlag(s[i])
  }

  predicate AreDigits(s: string) {
    forall i :: 0 <= i < |s| ==> IsDigit(s[i])
  }

  predicate IsPrecision(s: string) {
    s == "" || (s[0] == '.' && AreDigits(s[1..]))
  }

  /** The second walk copies the flags into the specifier. */
  method CopyFlags(fmt: string, start: nat) returns (p: nat, text: string)
    requires start <= |fmt| && SkipFlags(fmt, start) <= |fmt|
    ensures p == SkipFlags(fmt, start) && AreFlags(text)
  {
    p, text := start, "";
    while IsFlag(fmt[p])
      invariant start <= p < |fmt| && SkipFlags(fmt, p) == SkipFlags(fmt, start)
      invariant AreFlags(text)
      decreases |fmt| - p
    {
      text := text + [fmt[p]];
      p := p + 1;
    }
  }

  method CopyDigits(fmt: string, start: nat) returns (p: nat, text: string)
    requires start <= |fmt|
    ensures p == SkipDigits(fmt, start) && AreDigits(text)
  {
    p, text := start, "";
    while IsDigit(At(fmt, p))
      invariant start <= p <= |fmt| && SkipDigits(fmt, p) == SkipDigits(fmt, start)
      invariant AreDigits(text)
      decreases |fmt| - p
    {
      text := text + [fmt[p]];
      p := p + 1;
    }
  }

  /** The length modifiers and the conversion letter, copied into the specifier. */
  method CopyLetters(fmt: string, start: nat) returns (p: nat, short: bool, wide: nat, text: string)
    requires start <= |fmt| && Modifiers(fmt, start, false, 0).next < |fmt|
    ensures p < |fmt| && Length(p, short, wide) == Modifiers(fmt, start, false, 0) && text == fmt[start..p + 1]
  {
    p, short, wide, text := start, false, 0, "";
    while IsLength(fmt[p])
      invariant start <= p < |fmt| && text == fmt[start..p]
      invariant Modifiers(fmt, p, short, wide) == Modifiers(fmt, start, false, 0)
      decreases |fmt| - p
    {
      if fmt[p] == 'h' {
        short := true;
      } else if fmt[p] == 'l' {
        wide := wide + 1;
      } else {
        wide := 2;
      }
      text := text + [fmt[p]];
      p := p + 1;
    }
    text := text + [fmt[p]];
  }

  /** What sprintf makes of each argument taken as a width or precision. */
  predicate AreNumerals(numerals: seq<string>, args: seq<ArgType>) {
    |numerals| == |args| && forall i :: 0 <= i < |numerals| ==> AreDigits(numerals[i])
  }

  /** A width or precision in the second walk: a star reads its argument and puts it down in digits. */
  method PrintNumber(fmt: string, start: nat, args: seq<ArgType>, numerals: seq<string>, count: nat)
    returns (p: nat, uses: seq<Use>, text: string)
    requires start <= |fmt| && Readable(args, NumberField(fmt, start, count).uses) && AreNumerals(numerals, args)
    ensures NumberField(fmt, start, count) == Field(p, uses) && AreDigits(text)
  {
    p, uses := start, [];
    if At(fmt, p) == '*' {
      p := p + 1;
      var index := count;
      if Positional(fmt, p) {
        index := PositionalIndex(fmt, p);
        p := p + 2;
      }
      assert NumberField(fmt, start, count).uses[0] == Use(index, Int);
      var u := Read(args, index, Int);
      uses := [u];
      text := numerals[index];
    } else {
      p, text := CopyDigits(fmt, p);
    }
  }

  /** Width and precision in the second walk. */
  method PrintStars(fmt: string, start: nat, args: seq<ArgType>, numerals: seq<string>, count: nat)
    returns (p: nat, uses: seq<Use>, width: string, precision: string)
    requires start <= |fmt| && Readable(args, Stars(fmt, start, count).uses) && AreNumerals(numerals, args)
    ensures Stars(fmt, start, count) == Field(p, uses) && AreDigits(width) && IsPrecision(precision)
  {
    hide NumberField, AreDigits;
    ghost var all := Stars(fmt, start, count).uses;
    ghost var first := NumberField(fmt, start, count).uses;
    assert forall k :: 0 <= k < |first| ==> first[k] == all[k];
    p, uses, width := PrintNumber(fmt, start, args, numerals, count);
    if At(fmt, p) == '.' {
      ghost var second := NumberField(fmt, p + 1, count + |uses|).uses;
      assert forall k :: 0 <= k < |second| ==> second[k] == all[|first| + k];
      var more, digits;
      p, more, digits := PrintNumber(fmt, p + 1, args, numerals, count + |uses|);
      uses := uses + more;
      precision := "." + digits;
      assert precision[1..] == digits;
    } else {
      assert uses + [] == uses;
      precision := "";
    }
  }

  /** The argument of a conversion in the second walk, with the union member its own switch picks. */
  method PrintArgument(conversion: char, short: bool, wide: nat, args: seq<ArgType>, index: nat) returns (u: Use)
    requires Member(conversion, short, wide) != Bad
    requires index < |args| && args[index] == Member(conversion, short, wide)
    ensures u == Use(index, Member(conversion, short, wide))
  {
    match conversion {
      case 'd' | 'i' | 'o' | 'u' | 'x' | 'X' | 'c' =>
        if short {
          u := Read(args, index, Int);
        } else if wide == 0 {
          u := Read(args, index, Int);
        } else if wide == 1 {
          u := Read(args, index, Long);
        } else {
          u := Read(args, index, LongLong);
        }
      case 'f' | 'e' | 'E' | 'g' | 'G' =>
        if wide == 0 {
          u := Read(args, index, Double);
        } else {
          u := Read(args, index, LongDouble);
        }
      case _ =>
        u := Read(args, index, Ptr);
    }
  }

  // ---------- the specifier the second walk hands on ----------

  /** A call of the C library's printf: a specifier, and the one value that goes with it. */
  datatype Printed = Printed(specifier: string, value: Use)

  /** Everything between the percent sign and the length modifiers: flags, digits and the period. */
  predicate AreNumbers(s: string) {
    forall i :: 0 <= i < |s| ==> IsFlag(s[i]) || IsDigit(s[i]) || s[i] == '.'
  }

  /** The specifier has nothing but numbers before its modifiers and letter, and these take an argument of type t. */
  predicate AsksFor(s: string, t: ArgType) {
    exists k :: 1 <= k < |s| && AreNumbers(s[1..k]) && AreLengths(s[k..|s| - 1]) && Takes(s[k..|s| - 1], s[|s| - 1], t)
  }

  /** The specifier is one conversion, and takes an argument of the type of the value's own member. */
  predicate Matches(c: Printed) {
    && |c.specifier| > 0 && c.specifier[0] == '%'
    && ConversionAt(c.specifier, 1, 0) == Conversion(|c.specifier|, [Use(0, c.value.member)])
    && AsksFor(c.specifier, c.value.member)
  }

  /** A width that begins with zeros is read as flags in part. */
  lemma {:induction false} FlagsThenDigits(s: string, p: nat, a: nat, b: nat)
    requires p <= a <= b < |s|
    requires (forall i :: p <= i < a ==> IsFlag(s[i])) && (forall i :: a <= i < b ==> IsDigit(s[i])) && !IsFlag(s[b])
    ensures a <= SkipFlags(s, p) <= b
    decreases b - p
  {
    if p == b {
    } else if p < a {
      FlagsThenDigits(s, p + 1, a, b);
    } else if IsFlag(s[p]) {
      FlagsThenDigits(s, p + 1, p + 1, b);
    }
  }

  lemma {:induction false} DigitsUpTo(s: string, p: nat, b: nat)
    requires p <= b < |s| && (forall i :: p <= i < b ==> IsDigit(s[i])) && !IsDigit(s[b])
    ensures SkipDigits(s, p) == b
    decreases b - p
  {
    if p == b {
    } else {
      DigitsUpTo(s, p + 1, b);
    }
  }

  /** Modifiers copied elsewhere are the same modifiers. */
  lemma {:induction false} ModifiersCopied(fmt: string, p: nat, s: string, q: nat, short: bool, wide: nat, n: nat)
    requires p <= |fmt| && Modifiers(fmt, p, short, wide).next == p + n < |fmt|
    requires q + n < |s| && s[q..q + n + 1] == fmt[p..p + n + 1]
    ensures Modifiers(s, q, short, wide) == Modifiers(fmt, p, short, wide).(next := q + n)
    decreases n
  {
    assert s[q..q + n + 1][0] == s[q] && fmt[p..p + n + 1][0] == fmt[p];
    if n == 0 {
    } else {
      assert s[q + 1..q + n + 1] == s[q..q + n + 1][1..] && fmt[p + 1..p + n + 1] == fmt[p..p + n + 1][1..];
      ModifiersCopied(fmt, p + 1, s, q + 1, short || fmt[p] == 'h',
                      if fmt[p] == 'l' then wide + 1 else if fmt[p] == 'L' then 2 else wide, n - 1);
    }
  }

  /** Where the parts of a specifier end: the flags at a, the width at b, the precision at c. */
  ghost predicate Parts(s: string, a: nat, b: nat, c: nat) {
    && 1 <= a <= b <= c < |s|
    && (forall i :: 1 <= i < a ==> IsFlag(s[i]))
    && (forall i :: a <= i < b ==> IsDigit(s[i]))
    && (b < c ==> s[b] == '.' && forall i :: b < i < c ==> IsDigit(s[i]))
    && s[c] != '.' && Ends(s[c])
  }

  /** No part before the modifiers goes on with this character. */
  predicate Ends(c: char) {
    !IsFlag(c) && !IsDigit(c) && c != '*' && c != '$'
  }

  lemma NumbersParse(s: string, a: nat, b: nat, c: nat)
    requires Parts(s, a, b, c)
    ensures !Positional(s, 1) && SkipFlags(s, 1) <= b && Stars(s, SkipFlags(s, 1), 0) == Field(c, [])
  {
    FlagsThenDigits(s, 1, a, b);
    var r := SkipFlags(s, 1);
    hide SkipFlags;
    DigitsUpTo(s, r, b);
    if b < c {
      DigitsUpTo(s, b + 1, c);
    }
    hide SkipDigits;
  }

  lemma LettersEnd(fmt: string, q: nat, short: bool, wide: nat)
    requires q <= |fmt|
    requires var l := Modifiers(fmt, q, false, 0); l.next < |fmt| && Member(fmt[l.next], short, wide) != Bad
    ensures fmt[q] != '.' && Ends(fmt[q])
  {
  }

  lemma AreParts(flags: string, width: string, precision: string, letters: string)
    requires AreFlags(flags) && AreDigits(width) && IsPrecision(precision)
    requires letters != "" && letters[0] != '.' && Ends(letters[0])
    ensures var s := "%" + flags + width + precision + letters;
            var b := 1 + |flags| + |width|;
            Parts(s, 1 + |flags|, b, b + |precision|)
  {
    hide Ends, IsFlag, IsDigit;
  }

  /** The specifier put together from its parts calls for one argument, of the member the format's own
      letters stand for. */
  lemma SpecifierMatches(fmt: string, q: nat, d: nat, short: bool, wide: nat, flags: string, width: string,
                         precision: string, value: Use)
    requires q <= d < |fmt| && Modifiers(fmt, q, false, 0) == Length(d, short, wide)
    requires Member(fmt[d], short, wide) == value.member != Bad
    requires AreFlags(flags) && AreDigits(width) && IsPrecision(precision)
    ensures Matches(Printed("%" + flags + width + precision + fmt[q..d + 1], value))
  {
    var letters := fmt[q..d + 1];
    LettersEnd(fmt, q, short, wide);
    AreParts(flags, width, precision, letters);
    var s := "%" + flags + width + precision + letters;
    var b := 1 + |flags| + |width|;
    LettersMatch(s, fmt, 1 + |flags|, b, b + |precision|, q, d, short, wide, value);
  }

  lemma LettersMatch(s: string, fmt: string, a: nat, b: nat, c: nat, q: nat, d: nat, short: bool, wide: nat, value: Use)
    requires q <= d < |fmt| && Modifiers(fmt, q, false, 0) == Length(d, short, wide)
    requires Member(fmt[d], short, wide) == value.member != Bad
    requires Parts(s, a, b, c) && s[c..] == fmt[q..d + 1] && s[0] == '%'
    ensures Matches(Printed(s, value))
  {
    hide Parts, SkipFlags, Stars, Member, AsksFor, Takes, Positional, AreLengths;
    TakesLetters(fmt, q, d, short, wide);
    LettersAskFor(s, fmt, a, b, c, q, d, value.member);
    NumbersParse(s, a, b, c);
    ModifiersCopied(fmt, q, s, c, false, 0, d - q);
  }

  lemma TakesLetters(fmt: string, q: nat, d: nat, short: bool, wide: nat)
    requires q <= d < |fmt| && Modifiers(fmt, q, false, 0) == Length(d, short, wide) && Member(fmt[d], short, wide) != Bad
    ensures AreLengths(fmt[q..d]) && Takes(fmt[q..d], fmt[d], Member(fmt[d], short, wide))
  {
    LettersTake(fmt, q);
    hide Modifiers, Member, Takes;
  }

  lemma LettersAskFor(s: string, fmt: string, a: nat, b: nat, c: nat, q: nat, d: nat, t: ArgType)
    requires q <= d < |fmt| && Parts(s, a, b, c) && s[c..] == fmt[q..d + 1]
    requires AreLengths(fmt[q..d]) && Takes(fmt[q..d], fmt[d], t)
    ensures AsksFor(s, t)
  {
    hide Takes, AreLengths;
    assert s[c..|s| - 1] == s[c..][..d - q] == fmt[q..d];
    assert s[|s| - 1] == s[c..][d - q] == fmt[d];
    forall i | 0 <= i < c - 1 ensures IsFlag(s[1..c][i]) || IsDigit(s[1..c][i]) || s[1..c][i] == '.' {
      assert s[1..c][i] == s[i + 1];
    }
    assert AreNumbers(s[1..c]);
  }

  /** One conversion of the second walk. */
  method PrintConversion(fmt: string, start: nat, args: seq<ArgType>, numerals: seq<string>, count: nat)
    returns (p: nat, uses: seq<Use>, printed: Printed)
    requires start <= |fmt| && ConversionAt(fmt, start, count).Conversion?
    requires Readable(args, ConversionAt(fmt, start, count).uses) && AreNumerals(numerals, args)
    ensures ConversionAt(fmt, start, count) == Conversion(p, uses)
    ensures uses != [] && printed.value == uses[|uses| - 1] && Matches(printed)
  {
    hide SkipFlags, Stars, Member, Modifiers, AreFlags, AreDigits, IsPrecision, Matches;
    ghost var c := ConversionAt(fmt, start, count);
    p := start;
    var argNo := None;
    if Positional(fmt, p) {
      argNo := Some(PositionalIndex(fmt, p));
      p := p + 2;
    }
    var flags;
    p, flags := CopyFlags(fmt, p);
    ghost var stars := Stars(fmt, p, count);
    assert forall k :: 0 <= k < |stars.uses| ==> stars.uses[k] == c.uses[k];
    var width, precision;
    p, uses, width, precision := PrintStars(fmt, p, args, numerals, count);
    assert c == Tail(fmt, p, argNo, count, uses);
    ghost var q := p;
    var short, wide, letters;
    p, short, wide, letters := CopyLetters(fmt, p);
    var conversion := fmt[p];
    var index := if argNo.None? then count + |uses| else argNo.value;
    assert c.uses[|uses|] == Use(index, Member(conversion, short, wide));
    var u := PrintArgument(conversion, short, wide, args, index);
    printed := Printed("%" + flags + width + precision + letters, u);
    SpecifierMatches(fmt, q, p, short, wide, flags, width, precision, u);
    p := p + 1;
    if conversion == 'p' && (At(fmt, p) == 'A' || At(fmt, p) == 'B') {
      p := p + 1;
    }
    uses := uses + [u];
  }

  /** The reads of the next conversion are among those of the whole walk. */
  lemma NextIsReadable(fmt: string, p: nat, uses: seq<Use>, args: seq<ArgType>)
    requires p < |fmt| && fmt[p] == '%' && At(fmt, p + 1) != '%'
    requires WalkFrom(fmt, p, uses).Done? && Readable(args, WalkFrom(fmt, p, uses).uses)
    ensures ConversionAt(fmt, p + 1, |uses|).Conversion?
    ensures Readable(args, ConversionAt(fmt, p + 1, |uses|).uses)
  {
    var c := ConversionAt(fmt, p + 1, |uses|);
    hide ConversionAt;
    UsesStay(fmt, c.next, uses + c.uses);
    var all := WalkFrom(fmt, p, uses).uses;
    forall k | 0 <= k < |c.uses| ensures c.uses[k] == all[|uses| + k] {
      assert c.uses[k] == (uses + c.uses)[|uses| + k];
    }
  }

  /** The second walk, on the arguments the first walk fetched: every read is of a filled argument through
      its own member, the reads are those of the first walk, and each specifier fits its value. */
  method Print(fmt: string, args: seq<ArgType>, numerals: seq<string>, ghost n: nat)
    returns (uses: seq<Use>, printed: seq<Printed>)
    requires ScanOutcome(WalkFrom(fmt, 0, [])) == Fetched(args, n) && AreNumerals(numerals, args)
    ensures WalkFrom(fmt, 0, []) == Done(uses) && |uses| == n
    ensures forall k :: 0 <= k < |printed| ==> printed[k].value in uses && Matches(printed[k])
  {
    ghost var goal := WalkFrom(fmt, 0, []);
    assert goal.Done? && |goal.uses| == n && Readable(args, goal.uses) by { EachArgumentOnce(fmt, args, n); }
    hide ConversionAt, Types, Readable, Matches, AreNumerals;
    uses, printed := [], [];
    var p := 0;
    while p < |fmt|
      invariant p <= |fmt|
      invariant WalkFrom(fmt, p, uses) == goal
      invariant forall k :: 0 <= k < |printed| ==> printed[k].value in uses && Matches(printed[k])
      decreases |fmt| - p
    {
      if fmt[p] != '%' {
        p := Percent(fmt, p + 1);
      } else if At(fmt, p + 1) == '%' {
        p := p + 2;
      } else {
        NextIsReadable(fmt, p, uses, args);
        var more, call;
        p, more, call := PrintConversion(fmt, p + 1, args, numerals, |uses|);
        assert call.value in more;
        uses, printed := uses + more, printed + [call];
      }
    }
  }
}
