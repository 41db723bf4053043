/** The symbol map of an archive: which symbols go in, where it says their members are, and its
    three formats, BSD, COFF and 64-bit. */
module ArchiveMap {
  import opened ArchiveBytes
  import opened ArchiveMembers

  // ---------- what goes into the map ----------

  /** Where a symbol is: in the common section, nowhere, or in any other section. */
  datatype Home = CommonSection | UndefinedSection | OtherSection

  /** A symbol of a member, with the flags that make it one for other files. */
  datatype Symbol = Symbol(name: Bytes, global: bool, weak: bool, indirect: bool, unique: bool, home: Home)

  /** A member as the map sees it: its file name, and its symbols if it is an object that has some. */
  datatype Source = Source(path: Bytes, symbols: seq<Symbol>)

  /** A symbol of the map and the number of its member. */
  datatype Entry = Entry(name: Bytes, member: nat)

  const SYMDEF: Bytes := [0x5f, 0x5f, 0x2e, 0x53, 0x59, 0x4d, 0x44, 0x45, 0x46]

  predicate Wanted(s: Symbol) {
    (s.global || s.weak || s.indirect || s.unique || s.home.CommonSection?) && !s.home.UndefinedSection?
  }

  /** How many old maps the archive begins with. */
  function OldMaps(sources: seq<Source>): (n: nat)
    ensures n <= |sources| && (forall i :: 0 <= i < n ==> sources[i].path == SYMDEF)
    ensures n < |sources| ==> sources[n].path != SYMDEF
  {
    if sources != [] && sources[0].path == SYMDEF then 1 + OldMaps(sources[1..]) else 0
  }

  function EntriesOf(symbols: seq<Symbol>, n: nat, member: nat): seq<Entry>
    requires n <= |symbols|
  {
    if n == 0 then []
    else EntriesOf(symbols, n - 1, member)
         + (if Wanted(symbols[n - 1]) then [Entry(symbols[n - 1].name, member)] else [])
  }

  function Collected(sources: seq<Source>, n: nat): seq<Entry>
    requires n <= |sources|
  {
    if n == 0 then [] else Collected(sources, n - 1) + EntriesOf(sources[n - 1].symbols, |sources[n - 1].symbols|, n - 1)
  }

  /** The names of a map, each with its terminator. */
  function Strings(entries: seq<Entry>): Bytes {
    if entries == [] then [] else Strings(entries[..|entries| - 1]) + entries[|entries| - 1].name + [NUL]
  }

  lemma StringsGrow(entries: seq<Entry>, e: Entry)
    ensures Strings(entries + [e]) == Strings(entries) + e.name + [NUL]
  {
    assert (entries + [e])[..|entries|] == entries;
  }

  /** Drop the old maps from the front of the archive, and collect the symbols of the rest. */
  method ComputeMap(sources: seq<Source>) returns (dropped: nat, entries: seq<Entry>, stridx: nat)
    ensures dropped == OldMaps(sources)
    ensures entries == Collected(sources[dropped..], |sources| - dropped)
    ensures stridx == |Strings(entries)|
  {
    hide Wanted;
    dropped := 0;
    while dropped < |sources| && sources[dropped].path == SYMDEF
      invariant dropped <= |sources| && OldMaps(sources) == dropped + OldMaps(sources[dropped..])
    {
      assert sources[dropped..][1..] == sources[dropped + 1..];
      dropped := dropped + 1;
    }
    entries, stridx := [], 0;
    var rest := sources[dropped..];
    for j := 0 to |rest|
      invariant entries == Collected(rest, j) && stridx == |Strings(entries)|
    {
      var symbols := rest[j].symbols;
      for i := 0 to |symbols|
        invariant entries == Collected(rest, j) + EntriesOf(symbols, i, j) && stridx == |Strings(entries)|
      {
        if Wanted(symbols[i]) {
          StringsGrow(entries, Entry(symbols[i].name, j));
          entries := entries + [Entry(symbols[i].name, j)];
          stridx := stridx + |symbols[i].name| + 1;
        }
      }
    }
  }

  /** Entries come in the order of their members. */
  predicate Ordered(entries: seq<Entry>, members: nat) {
    && (forall k :: 0 <= k < |entries| ==> entries[k].member < members)
    && (forall j, k :: 0 <= j <= k < |entries| ==> entries[j].member <= entries[k].member)
  }

  lemma {:induction false} EntriesOfIs(symbols: seq<Symbol>, n: nat, member: nat, e: Entry)
    requires n <= |symbols|
    ensures e in EntriesOf(symbols, n, member) <==>
              e.member == member && exists i :: 0 <= i < n && Wanted(symbols[i]) && symbols[i].name == e.name
  {
    if n == 0 {
    } else {
      EntriesOfIs(symbols, n - 1, member, e);
    }
  }

  /** Some symbol of this name is a common one, or is in another section and meant for other files. */
  predicate Exports(symbols: seq<Symbol>, name: Bytes) {
    || (exists i :: 0 <= i < |symbols| && symbols[i].name == name && symbols[i].home == CommonSection)
    || (exists i :: 0 <= i < |symbols| && symbols[i].name == name && symbols[i].home == OtherSection
                    && (symbols[i].global || symbols[i].weak || symbols[i].indirect || symbols[i].unique))
  }

  /** The map has a name for a member exactly if the member exports it. */
  lemma {:induction false} MapIsExports(sources: seq<Source>, n: nat, e: Entry)
    requires n <= |sources|
    ensures e in Collected(sources, n) <==> e.member < n && Exports(sources[e.member].symbols, e.name)
  {
    if n == 0 {
    } else {
      MapIsExports(sources, n - 1, e);
      EntriesOfIs(sources[n - 1].symbols, |sources[n - 1].symbols|, n - 1, e);
    }
  }

  /** So references to symbols defined elsewhere are not listed, nor are symbols of a member's own. */
  lemma NoReferenceIsListed(sources: seq<Source>, member: nat, name: Bytes)
    requires member < |sources|
    requires forall i :: 0 <= i < |sources[member].symbols| && sources[member].symbols[i].name == name ==>
               var s := sources[member].symbols[i];
               s.home == UndefinedSection || (s.home == OtherSection && !s.global && !s.weak && !s.indirect && !s.unique)
    ensures Entry(name, member) !in Collected(sources, |sources|)
  {
    MapIsExports(sources, |sources|, Entry(name, member));
    hide Collected;
  }

  lemma {:induction false} OfOneMember(symbols: seq<Symbol>, n: nat, member: nat)
    requires n <= |symbols|
    ensures forall e :: e in EntriesOf(symbols, n, member) ==> e.member == member
  {
    if n == 0 {
    } else {
      OfOneMember(symbols, n - 1, member);
    }
  }

  lemma OrderedMore(a: seq<Entry>, b: seq<Entry>, n: nat)
    requires Ordered(a, n) && forall e :: e in b ==> e.member == n
    ensures Ordered(a + b, n + 1)
  {
    assert forall k :: 0 <= k < |b| ==> b[k] in b;
  }

  lemma {:induction false} MapIsOrdered(sources: seq<Source>, n: nat)
    requires n <= |sources|
    ensures Ordered(Collected(sources, n), n)
  {
    hide Ordered, EntriesOf;
    if n == 0 {
      NoneIsOrdered();
    } else {
      var symbols := sources[n - 1].symbols;
      MapIsOrdered(sources, n - 1);
      OfOneMember(symbols, |symbols|, n - 1);
      OrderedMore(Collected(sources, n - 1), EntriesOf(symbols, |symbols|, n - 1), n - 1);
    }
  }

  lemma NoneIsOrdered()
    ensures Ordered([], 0)
  {
  }

  // ---------- where it says the members are ----------

  datatype Kind = Bsd | Coff | Irix

  /** From the header of a member to where each map writer expects the next one. */
  function Next(kind: Kind, thin: bool, m: Member, p: nat): nat
    requires MemberOk(m)
  {
    match kind
    case Bsd =>
      var q := p + |m.contents| + Extra(m) + AR_HDR;
      q + Padding(q)
    case Coff =>
      var q := p + AR_HDR + |m.contents|;
      if thin then p + AR_HDR else q + Padding(q)
    case Irix =>
      var q := p + AR_HDR + (if thin then 0 else |m.contents|);
      q + Padding(q)
  }

  function Offset(kind: Kind, thin: bool, ms: seq<Member>, first: nat, k: nat): nat
    requires AllWritable(ms) && k <= |ms|
  {
    if k == 0 then first else Next(kind, thin, ms[k - 1], Offset(kind, thin, ms, first, k - 1))
  }

  /** The bytes that the COFF and 64-bit writers leave out of account: names after headers. */
  function ExtraSum(ms: seq<Member>, k: nat): nat
    requires AllWritable(ms) && k <= |ms|
  {
    if k == 0 then 0 else ExtraSum(ms, k - 1) + Extra(ms[k - 1])
  }

  /** The bytes that the BSD writer counts though a thin archive does not hold them. */
  function ContentsSum(ms: seq<Member>, k: nat): nat
    requires k <= |ms|
  {
    if k == 0 then 0 else ContentsSum(ms, k - 1) + |ms[k - 1].contents| + Padding(|ms[k - 1].contents|)
  }

  lemma PaddingAfterEven(a: nat, n: nat)
    requires Even(a)
    ensures Padding(a + n) == Padding(n)
  {
  }

  /** One member: what each writer adds, against the bytes the member takes. */
  lemma NextAgainstBytes(kind: Kind, thin: bool, m: Member, p: nat)
    requires Writable(m) && Even(p)
    ensures Even(Next(kind, thin, m, p))
    ensures kind.Bsd? && !thin ==> Next(kind, thin, m, p) == p + |MemberBytes(m, thin)|
    ensures kind.Bsd? && thin ==> Next(kind, thin, m, p) == p + |MemberBytes(m, thin)| + |m.contents| + Padding(|m.contents|)
    ensures !kind.Bsd? ==> Next(kind, thin, m, p) + Extra(m) == p + |MemberBytes(m, thin)|
  {
    hide Even, Padding, Extra, MemberBytes, HeaderBytes, SizeFits;
    EvenLength(m, thin);
    EvenNumbers();
    PaddedIsEven(|m.contents|);
    EvenSum(p, AR_HDR);
    EvenSum(p, AR_HDR + Extra(m));
    EvenSum(p + AR_HDR, |m.contents| + Padding(|m.contents|));
    EvenSum(p + (AR_HDR + Extra(m)), |m.contents| + Padding(|m.contents|));
    PaddingAfterEven(p + AR_HDR, |m.contents|);
    PaddingAfterEven(p + AR_HDR, 0);
    PaddingAfterEven(p + (AR_HDR + Extra(m)), |m.contents|);
    assert Padding(0) == 0 by { PaddingOfZero(); }
    assert p + |m.contents| + Extra(m) + AR_HDR == p + (AR_HDR + Extra(m)) + |m.contents|;
  }

  lemma PaddingOfZero()
    ensures Padding(0) == 0
  {
  }

  /** How far each map's offset of a member is from the place where the member is written. */
  lemma {:induction false} OffsetAgainstPosition(kind: Kind, thin: bool, ms: seq<Member>, first: nat, k: nat)
    requires AllWritable(ms) && k <= |ms| && Even(first)
    ensures Even(Offset(kind, thin, ms, first, k))
    ensures kind.Bsd? ==> (Offset(kind, thin, ms, first, k)
                           == Position(ms, thin, first, k) + (if thin then ContentsSum(ms, k) else 0))
    ensures !kind.Bsd? ==> Offset(kind, thin, ms, first, k) + ExtraSum(ms, k) == Position(ms, thin, first, k)
  {
    hide Even, Padding, Extra, MemberBytes, Writable, Next;
    if k == 0 {
    } else {
      OffsetAgainstPosition(kind, thin, ms, first, k - 1);
      NextAgainstBytes(kind, thin, ms[k - 1], Offset(kind, thin, ms, first, k - 1));
    }
  }

  /** The offset of a member is the place of its header, exactly if: for the BSD map, the archive is not thin or all
      members before are empty; for the others, no name follows a header before it. */
  lemma OffsetIsPosition(kind: Kind, thin: bool, ms: seq<Member>, first: nat, k: nat)
    requires AllWritable(ms) && k <= |ms| && Even(first)
    ensures Offset(kind, thin, ms, first, k) == Position(ms, thin, first, k)
       <==> if kind.Bsd? then !thin || (forall j :: 0 <= j < k ==> ms[j].contents == [])
            else forall j :: 0 <= j < k ==> Extra(ms[j]) == 0
  {
    hide Even, Extra, Padding, Writable, Offset, Position, Next;
    OffsetAgainstPosition(kind, thin, ms, first, k);
    ContentsSumIsZero(ms, k);
    ExtraSumIsZero(ms, k);
  }

  lemma {:induction false} ContentsSumIsZero(ms: seq<Member>, k: nat)
    requires k <= |ms|
    ensures ContentsSum(ms, k) == 0 <==> forall j :: 0 <= j < k ==> ms[j].contents == []
  {
    if k == 0 {
    } else {
      ContentsSumIsZero(ms, k - 1);
    }
  }

  lemma {:induction false} ExtraSumIsZero(ms: seq<Member>, k: nat)
    requires AllWritable(ms) && k <= |ms|
    ensures ExtraSum(ms, k) == 0 <==> forall j :: 0 <= j < k ==> Extra(ms[j]) == 0
  {
    hide Extra, Writable;
    if k == 0 {
    } else {
      ExtraSumIsZero(ms, k - 1);
    }
  }

  /** A member whose name goes after its header, and one with two bytes. */
  const NAME_AFTER: Member :=
    Member([HASH, ZERO + 1, SLASH, ZERO + 4] + Repeat(SPACE, 12), Repeat(SPACE, AR_MIDDLE), Repeat(ZERO, 4), [])

  const TWO_BYTES: Member :=
    Member([ZERO, SLASH] + Repeat(SPACE, 14), Repeat(SPACE, AR_MIDDLE), [ZERO], [ZERO, ZERO])

  /** Behind the first, COFF and 64-bit maps point too early. */
  lemma MissesNameAfter(kind: Kind)
    requires !kind.Bsd?
    ensures AllWritable([NAME_AFTER])
    ensures Offset(kind, false, [NAME_AFTER], 8, 1) == 68 && Position([NAME_AFTER], false, 8, 1) == 72
  {
    var ms := [NAME_AFTER];
    assert Extra(NAME_AFTER) == 4 && |Decimal(4)| == 1;
    assert Offset(kind, false, ms, 8, 0) == 8 && Position(ms, false, 8, 0) == 8;
    assert |MemberBytes(NAME_AFTER, false)| == 64;
  }

  /** Behind the second in a thin archive, BSD maps point too late. */
  lemma MissesThin()
    ensures AllWritable([TWO_BYTES])
    ensures Offset(Bsd, true, [TWO_BYTES], 8, 1) == 70 && Position([TWO_BYTES], true, 8, 1) == 68
  {
    var ms := [TWO_BYTES];
    assert Extra(TWO_BYTES) == 0 && |Decimal(2)| == 1;
    assert Offset(Bsd, true, ms, 8, 0) == 8 && Position(ms, true, 8, 0) == 8;
    assert |MemberBytes(TWO_BYTES, true)| == 60;
  }
}
