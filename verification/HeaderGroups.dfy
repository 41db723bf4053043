/** Header groups of stabs symbols: what the scan-ahead loops select, how groups are told apart, and when
    brackets nest. */
module HeaderGroups {
  import opened AoutSymbols
  import opened AoutTypes
  import opened Basics

  // ---------- which symbols belong to a group ----------

  /** The groups open just before symbol j, innermost last. */
  function Open(syms: seq<Nlist>, j: nat): (s: seq<nat>)
    requires j <= |syms|
    ensures forall k :: 0 <= k < |s| ==> s[k] < j
  {
    if j == 0 then []
    else
      var s := Open(syms, j - 1);
      if syms[j - 1].kind == N_BINCL then s + [j - 1]
      else if syms[j - 1].kind == N_EINCL && s != [] then s[..|s| - 1]
      else s
  }

  lemma {:induction false} OpenIsAscending(syms: seq<Nlist>, j: nat)
    requires j <= |syms|
    ensures forall k, l :: 0 <= k < l < |Open(syms, j)| ==> Open(syms, j)[k] < Open(syms, j)[l]
    ensures forall k :: 0 <= k < |Open(syms, j)| ==> syms[Open(syms, j)[k]].kind == N_BINCL
  {
    if j == 0 {
    } else {
      OpenIsAscending(syms, j - 1);
    }
  }

  /** Symbol j sits directly in group g, or closes it. */
  predicate InGroup(syms: seq<Nlist>, g: nat, j: nat)
    requires j < |syms|
  {
    var s := Open(syms, j);
    s != [] && s[|s| - 1] == g && syms[j].kind != N_BINCL
  }

  lemma {:induction false} ClosedStaysClosed(syms: seq<Nlist>, g: nat, j: nat, t: nat)
    requires g < j <= t <= |syms| && g !in Open(syms, j)
    ensures g !in Open(syms, t)
  {
    if j == t {
    } else {
      ClosedStaysClosed(syms, g, j, t - 1);
    }
  }

  /** The scan at symbol j with nest groups of its own open above group g. */
  ghost predicate Scanning(syms: seq<Nlist>, g: nat, j: nat, nest: nat) {
    && g < j <= |syms|
    && |Open(syms, j)| > nest
    && Open(syms, j)[|Open(syms, j)| - 1 - nest] == g
  }

  /** The scan ends at the symbol that closes the group. */
  lemma MarkEnd(m: seq<int>, syms: seq<Nlist>, g: nat, j: nat)
    requires |m| == |syms| && j < |syms| && Scanning(syms, g, j, 0) && syms[j].kind == N_EINCL
    ensures forall t :: 0 <= t < |m| ==> m[j := -1][t] == if j <= t && InGroup(syms, g, t) then -1 else m[t]
  {
    OpenIsAscending(syms, j);
    assert InGroup(syms, g, j);
    forall t | j < t < |syms| ensures !InGroup(syms, g, t) {
      ClosedStaysClosed(syms, g, j + 1, t);
    }
  }

  /** The scan's nesting after symbol j, when the scan goes on. */
  function NestAfter(syms: seq<Nlist>, j: nat, nest: nat): nat
    requires j < |syms| && !(syms[j].kind == N_EINCL && nest == 0)
  {
    if syms[j].kind == N_EINCL then nest - 1 else if syms[j].kind == N_BINCL then nest + 1 else nest
  }

  lemma ScanStep(syms: seq<Nlist>, g: nat, j: nat, nest: nat)
    requires j < |syms| && Scanning(syms, g, j, nest) && !(syms[j].kind == N_EINCL && nest == 0)
    ensures Scanning(syms, g, j + 1, NestAfter(syms, j, nest))
    ensures InGroup(syms, g, j) <==> syms[j].kind != N_EINCL && syms[j].kind != N_BINCL && nest == 0
  {
    OpenIsAscending(syms, j);
  }

  lemma {:induction false} MarkScan(m: seq<int>, syms: seq<Nlist>, g: nat, j: nat, nest: nat)
    requires |m| == |syms| && Scanning(syms, g, j, nest)
    ensures forall t :: 0 <= t < |m| ==>
              MarkGroup(m, syms, j, nest)[t] == if j <= t && InGroup(syms, g, t) then -1 else m[t]
    decreases |syms| - j
  {
    hide Open, InGroup;
    if j == |syms| {
    } else if syms[j].kind == N_EINCL && nest == 0 {
      MarkEnd(m, syms, g, j);
    } else {
      ScanStep(syms, g, j, nest);
      hide Scanning;
      MarkScan(if InGroup(syms, g, j) then m[j := -1] else m, syms, g, j + 1, NestAfter(syms, j, nest));
    }
  }

  /** The marking loop marks exactly the symbols that sit directly in the group or close it. */
  lemma MarksAreTheGroup(m: seq<int>, syms: seq<Nlist>, g: nat)
    requires |m| == |syms| && g < |syms| && syms[g].kind == N_BINCL
    ensures forall t :: 0 <= t < |m| ==>
              MarkGroup(m, syms, g + 1, 0)[t] == if g < t && InGroup(syms, g, t) then -1 else m[t]
  {
    MarkScan(m, syms, g, g + 1, 0);
  }

  /** The names of a group's own symbols, summed over the file from symbol j on. */
  function MemberSum(syms: seq<Nlist>, g: nat, j: nat): int
    requires j <= |syms|
    decreases |syms| - j
  {
    if j == |syms| then 0
    else (if InGroup(syms, g, j) && syms[j].kind != N_EINCL then NameSum(syms[j].name) else 0)
         + MemberSum(syms, g, j + 1)
  }

  lemma {:induction false} NoMembersLeft(syms: seq<Nlist>, g: nat, j: nat)
    requires g < j <= |syms| && g !in Open(syms, j)
    ensures MemberSum(syms, g, j) == 0
    decreases |syms| - j
  {
    if j >= |syms| {
    } else {
      NoMembersLeft(syms, g, j + 1);
    }
  }

  lemma {:induction false} SumScan(syms: seq<Nlist>, g: nat, j: nat, nest: nat)
    requires Scanning(syms, g, j, nest)
    ensures GroupSum(syms, j, nest) == MemberSum(syms, g, j)
    decreases |syms| - j
  {
    if j == |syms| {
    } else if syms[j].kind == N_EINCL && nest == 0 {
      OpenIsAscending(syms, j);
      NoMembersLeft(syms, g, j + 1);
    } else {
      ScanStep(syms, g, j, nest);
      SumScan(syms, g, j + 1, NestAfter(syms, j, nest));
    }
  }

  /** The total of a group adds up exactly the symbols that replacing it would drop,
      except for its closing symbol. */
  lemma TotalIsOverTheGroup(syms: seq<Nlist>, g: nat)
    requires g < |syms| && syms[g].kind == N_BINCL
    ensures GroupTotal(syms, g) == MemberSum(syms, g, g + 1) % U64
  {
    SumScan(syms, g, g + 1, 0);
  }

  // ---------- file numbers do not count ----------

  /** Character k belongs to a run of digits that starts right after an open parenthesis. */
  predicate FileNumberAt(s: string, k: nat)
    requires k < |s|
  {
    k > 0 && IsDigit(s[k]) && (s[k - 1] == '(' || FileNumberAt(s, k - 1))
  }

  function CountedSum(s: string, k: nat): int
    requires k <= |s|
    decreases |s| - k
  {
    if k == |s| then 0
    else (if FileNumberAt(s, k) then 0 else CharValue(s[k])) + CountedSum(s, k + 1)
  }

  lemma {:induction false} SkipsFileNumber(s: string, k: nat) returns (e: nat)
    requires 0 < k <= |s|
    requires s[k - 1] == '(' || FileNumberAt(s, k - 1)
    ensures k <= e <= |s| && SkipDigits(s[k..]) == s[e..]
    ensures CountedSum(s, k) == CountedSum(s, e)
    ensures e == |s| || !FileNumberAt(s, e)
    decreases |s| - k
  {
    if k < |s| && IsDigit(s[k]) {
      assert s[k..][1..] == s[k + 1..];
      e := SkipsFileNumber(s, k + 1);
    } else {
      e := k;
    }
  }

  lemma {:induction false} NameSumFrom(s: string, k: nat)
    requires k <= |s| && (k == |s| || !FileNumberAt(s, k))
    ensures NameSum(s[k..]) == CountedSum(s, k)
    decreases |s| - k
  {
    if k >= |s| {
    } else {
      assert s[k..][1..] == s[k + 1..];
      if s[k] == '(' {
        var e := SkipsFileNumber(s, k + 1);
        NameSumFrom(s, e);
      } else {
        assert k + 1 < |s| ==> !FileNumberAt(s, k + 1);
        NameSumFrom(s, k + 1);
      }
    }
  }

  /** A character counts as a signed byte. */
  lemma CharIsSigned(c: char)
    ensures -128 <= CharValue(c) < 128 && (CharValue(c) - c as int) % 256 == 0
  {
    var n := c as int;
    assert n == n / 256 * 256 + n % 256;
  }

  /** The total of a name leaves out exactly the file numbers. */
  lemma TotalIgnoresFileNumbers(s: string)
    ensures NameSum(s) == CountedSum(s, 0)
  {
    assert s[0..] == s;
    NameSumFrom(s, 0);
  }

  // ---------- repeated groups ----------

  type Key = (string, int)

  function GroupKey(f: Input, g: nat): Key
    requires g < |f.syms|
  {
    (f.syms[g].name, GroupTotal(f.syms, g))
  }

  /** The includes table holds exactly the groups met so far. */
  ghost predicate Knows(includes: map<string, seq<int>>, hist: set<Key>) {
    forall name, total :: (name, total) in hist <==> total in Totals(includes, name)
  }

  predicate IsBracket(kind: Byte) {
    kind == N_BINCL || kind == N_EINCL
  }

  /** An indirect or warning symbol, or a stab that is taken for one: the next symbol may be passed through
      unchanged, or skipped. */
  predicate Passes(kind: Byte) {
    TypeBits(kind) == N_INDR || kind == N_WARNING
  }

  // ---------- nesting ----------

  /** How many groups are open after these symbol types; -1 once a group was closed
      that was never opened. */
  function Depth(kinds: seq<Byte>): int {
    if kinds == [] then 0
    else
      var d := Depth(kinds[..|kinds| - 1]);
      var k := kinds[|kinds| - 1];
      if d < 0 then -1
      else if k == N_BINCL then d + 1
      else if k == N_EINCL then d - 1
      else d
  }

  function InputKinds(syms: seq<Nlist>, i: nat): seq<Byte>
    requires i <= |syms|
  {
    seq(i, k requires 0 <= k < |syms| => syms[k].kind)
  }

  function OutputKinds(rs: seq<Record>): seq<Byte> {
    seq(|rs|, k requires 0 <= k < |rs| => rs[k].kind)
  }

  predicate WellNested(kinds: seq<Byte>) {
    Depth(kinds) == 0
  }

  lemma OutputKindsAppend(rs: seq<Record>, r: Record)
    ensures OutputKinds(rs + [r]) == OutputKinds(rs) + [r.kind]
    ensures OutputKinds(rs + [r])[..|rs|] == OutputKinds(rs)
  {
  }

  lemma {:induction false} DepthOfOpen(syms: seq<Nlist>, i: nat)
    requires i <= |syms|
    ensures Depth(InputKinds(syms, i)) >= 0 ==> |Open(syms, i)| == Depth(InputKinds(syms, i))
  {
    if i == 0 {
    } else {
      DepthOfOpen(syms, i - 1);
      assert InputKinds(syms, i)[..i - 1] == InputKinds(syms, i - 1);
    }
  }

  lemma {:induction false} NeverNegative(syms: seq<Nlist>, i: nat, n: nat)
    requires i <= n <= |syms| && Depth(InputKinds(syms, n)) >= 0
    ensures Depth(InputKinds(syms, i)) >= 0
    decreases n - i
  {
    if i == n {
    } else {
      assert InputKinds(syms, n)[..n - 1] == InputKinds(syms, n - 1);
      NeverNegative(syms, i, n - 1);
    }
  }

  function Innermost(f: Input, j: nat): nat
    requires j < |f.syms|
  {
    var s := Open(f.syms, j);
    if s == [] then 0 else s[|s| - 1]
  }

  lemma BracketValue(f: Input, y: Nlist)
    requires IsBracket(y.kind)
    ensures var v := ValueOf(f, y, None); v.kind == y.kind && !v.pass && !v.skip
    ensures !IsSet(y.kind) && IsStab(y.kind)
  {
  }

  /** A symbol that is not a bracket does not become one. */
  lemma NoNewBracket(f: Input, y: Nlist, r: Option<Entry>)
    requires !IsBracket(y.kind)
    ensures !IsBracket(ValueOf(f, y, r).kind)
  {
    assert r.Some? && !IsStab(y.kind) ==> !IsStab(DefinedType(y.kind, r.value));
  }

  lemma InnermostBefore(f: Input, j: nat)
    requires j < |f.syms| && Open(f.syms, j) != []
    ensures Innermost(f, j) < j && f.syms[Innermost(f, j)].kind == N_BINCL
  {
    OpenIsAscending(f.syms, j);
  }

  lemma KnowsMore(includes: map<string, seq<int>>, hist: set<Key>, name: string, total: int)
    requires Knows(includes, hist)
    ensures Knows(if total in Totals(includes, name) then includes
                  else includes[name := [total] + Totals(includes, name)], hist + {(name, total)})
  {
    var r := if total in Totals(includes, name) then includes
             else includes[name := [total] + Totals(includes, name)];
    forall n, t ensures (n, t) in hist + {(name, total)} <==> t in Totals(r, n) {
      assert (n, t) in hist <==> t in Totals(includes, n);
    }
  }
}
