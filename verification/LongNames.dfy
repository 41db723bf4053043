/** The table of long member names: built in two passes over the members, cleaned up in
    place when it is read, and indexed from the member headers. */
module LongNames {
  import opened ArchiveBytes
  import opened Basics

  /** A member as the writer sees it: the path that is compared with the one before (that of the
      containing archive when a thin archive flattens one), the name to store, and its
      place in a containing archive. */
  datatype Member = Member(path: Bytes, normal: Bytes, origin: nat)

  /** The archive being written: maxName is what fits in a header, traditional cuts longer names. */
  datatype Format = Format(thin: bool, trailingSlash: bool, maxName: nat, traditional: bool, padChar: Byte)

  function EntryBytes(fmt: Format, normal: Bytes): Bytes {
    normal + (if fmt.trailingSlash then [SLASH] else []) + [NEWLINE]
  }

  // ---------- the first pass: how long the table is ----------

  /** What the first pass adds for member k. */
  function Counted(fmt: Format, ms: seq<Member>, k: nat): nat
    requires k < |ms|
  {
    if fmt.thin then
      if k > 0 && ms[k - 1].path == ms[k].path then 0 else |EntryBytes(fmt, ms[k].normal)|
    else
      if |ms[k].normal| > fmt.maxName && !fmt.traditional then |EntryBytes(fmt, ms[k].normal)| else 0
  }

  function Total(fmt: Format, ms: seq<Member>, n: nat): nat
    requires n <= |ms|
  {
    if n == 0 then 0 else Total(fmt, ms, n - 1) + Counted(fmt, ms, n - 1)
  }

  method TableLength(fmt: Format, ms: seq<Member>) returns (total: nat)
    ensures total == Total(fmt, ms, |ms|)
  {
    total := 0;
    var last: Option<Bytes> := None;
    for k := 0 to |ms|
      invariant total == Total(fmt, ms, k)
      invariant fmt.thin ==> last == if k == 0 then None else Some(ms[k - 1].path)
    {
      var m := ms[k];
      if fmt.thin {
        if last.None? || last.value != m.path {
          last := Some(m.path);
          total := total + |m.normal| + 1;
          if fmt.trailingSlash {
            total := total + 1;
          }
        }
      } else {
        var thisLength := |m.normal|;
        if thisLength > fmt.maxName && fmt.traditional {
          thisLength := fmt.maxName;
        }
        if thisLength > fmt.maxName {
          total := total + thisLength + 1;
          if fmt.trailingSlash {
            total := total + 1;
          }
        }
      }
    }
  }

  // ---------- the second pass: the table and the headers' names ----------

  /** Member k gets an entry of its own in the second pass. */
  predicate HasEntry(fmt: Format, ms: seq<Member>, k: nat)
    requires k < |ms|
  {
    if fmt.thin then !(k > 0 && ms[k - 1].path == ms[k].path) else |ms[k].normal| > fmt.maxName
  }

  function Table(fmt: Format, ms: seq<Member>, n: nat): Bytes
    requires n <= |ms|
  {
    if n == 0 then []
    else Table(fmt, ms, n - 1) + (if HasEntry(fmt, ms, n - 1) then EntryBytes(fmt, ms[n - 1].normal) else [])
  }

  /** The member whose entry member k uses. */
  function EntryOf(fmt: Format, ms: seq<Member>, k: nat): (e: nat)
    requires k < |ms|
    ensures e <= k
  {
    if k > 0 && fmt.thin && ms[k - 1].path == ms[k].path then EntryOf(fmt, ms, k - 1) else k
  }

  /** Text in a field of n bytes: cut to it, or padded with spaces. */
  function SpacePad(text: Bytes, n: nat): (r: Bytes)
    ensures |r| == n
  {
    if |text| < n then text + Repeat(SPACE, n - |text|) else text[..n]
  }

  /** The text that points to a table entry; for a member of a flattened archive it also gives the
      place of the member's header there. */
  function IndexText(fmt: Format, index: nat, origin: nat): Bytes {
    Decimal(index) + (if fmt.thin && origin > 0 then [COLON] + SignedDecimal(origin - AR_HDR) else [])
  }

  function SignedDecimal(n: int): Bytes {
    if n < 0 then [MINUS] + Decimal(-n) else Decimal(n)
  }

  function NameField(fmt: Format, index: nat, origin: nat): (r: Bytes)
    requires 1 <= fmt.maxName <= AR_NAME
    ensures |r| == AR_NAME
  {
    [fmt.padChar] + SpacePad(IndexText(fmt, index, origin), fmt.maxName - 1) + Repeat(SPACE, AR_NAME - fmt.maxName)
  }

  /** Member k's header points into the table. */
  predicate Stored(fmt: Format, ms: seq<Member>, k: nat)
    requires k < |ms|
  {
    fmt.thin || |ms[k].normal| > fmt.maxName
  }

  function FieldOf(fmt: Format, ms: seq<Member>, k: nat): Bytes
    requires k < |ms| && 1 <= fmt.maxName <= AR_NAME
  {
    NameField(fmt, |Table(fmt, ms, EntryOf(fmt, ms, k))|, ms[k].origin)
  }

  lemma FieldIs(fmt: Format, ms: seq<Member>, k: nat)
    requires k < |ms| && 1 <= fmt.maxName <= AR_NAME
    ensures FieldOf(fmt, ms, k) == NameField(fmt, |Table(fmt, ms, EntryOf(fmt, ms, k))|, ms[k].origin)
  {
  }

  method CopyInto(a: array<Byte>, at: nat, bs: Bytes)
    requires at + |bs| <= a.Length
    modifies a
    ensures a[..at + |bs|] == old(a[..at]) + bs
  {
    for i := 0 to |bs|
      invariant a[..at + i] == old(a[..at]) + bs[..i]
    {
      a[at + i] := bs[i];
    }
  }

  /** Write the table into a buffer of the length the first pass found, and the headers' names. */
  method FillTable(fmt: Format, ms: seq<Member>, table: array<Byte>, fields: array<Bytes>)
    requires 1 <= fmt.maxName <= AR_NAME
    requires table.Length == |Table(fmt, ms, |ms|)| && fields.Length == |ms|
    modifies table, fields
    ensures table[..] == Table(fmt, ms, |ms|)
    ensures forall k :: 0 <= k < |ms| ==>
              fields[k] == if Stored(fmt, ms, k) then FieldOf(fmt, ms, k) else old(fields[k])
  {
    hide NameField, EntryBytes, FieldOf;
    var p: nat := 0;
    var last: Option<Bytes> := None;
    var lastOffset: nat := 0;
    for k := 0 to |ms|
      invariant p <= table.Length && table[..p] == Table(fmt, ms, k)
      invariant fmt.thin ==> last == if k == 0 then None else Some(ms[k - 1].path)
      invariant fmt.thin && k > 0 ==> lastOffset == |Table(fmt, ms, EntryOf(fmt, ms, k - 1))|
      invariant forall j :: 0 <= j < k ==> fields[j] == if Stored(fmt, ms, j) then FieldOf(fmt, ms, j) else old(fields[j])
      invariant forall j :: k <= j < |ms| ==> fields[j] == old(fields[j])
    {
      TableGrows(fmt, ms, k + 1, |ms|);
      var m := ms[k];
      if |m.normal| > fmt.maxName || fmt.thin {
        var offset;
        if fmt.thin && last.Some? && last.value == m.path {
          offset := lastOffset;
        } else {
          last := Some(m.path);
          offset := p;
          lastOffset := p;
          CopyInto(table, p, EntryBytes(fmt, m.normal));
          p := p + |EntryBytes(fmt, m.normal)|;
        }
        assert NameField(fmt, offset, m.origin) == FieldOf(fmt, ms, k) by { FieldIs(fmt, ms, k); }
        fields[k] := NameField(fmt, offset, m.origin);
      }
    }
    assert table[..p] == table[..];
  }

  lemma {:induction false} TableGrows(fmt: Format, ms: seq<Member>, j: nat, n: nat)
    requires j <= n <= |ms|
    ensures |Table(fmt, ms, j)| <= |Table(fmt, ms, n)| && Table(fmt, ms, n)[..|Table(fmt, ms, j)|] == Table(fmt, ms, j)
  {
    if j == n {
    } else {
      TableGrows(fmt, ms, j, n - 1);
    }
  }

  /** Whenever there is a table at all, the second pass fills exactly what the first counted. */
  lemma {:induction false} PassesAgree(fmt: Format, ms: seq<Member>, n: nat)
    requires n <= |ms|
    ensures if fmt.traditional && !fmt.thin then Total(fmt, ms, n) == 0
            else |Table(fmt, ms, n)| == Total(fmt, ms, n)
  {
    if n == 0 {
    } else {
      PassesAgree(fmt, ms, n - 1);
    }
  }

  // ---------- reading ----------

  predicate IsSlash(b: Byte) {
    b == SLASH || b == BACKSLASH
  }

  /** Byte i of the table after the clean-up: newlines end names, a slash before a newline ends them
      instead, and backslashes become slashes. */
  function CleanByte(t: Bytes, i: nat): Byte
    requires i < |t|
  {
    if t[i] == NEWLINE then (if i > 0 && IsSlash(t[i - 1]) then NEWLINE else NUL)
    else if IsSlash(t[i]) then (if i + 1 < |t| && t[i + 1] == NEWLINE then NUL else SLASH)
    else t[i]
  }

  function Clean(t: Bytes): (r: Bytes)
    ensures |r| == |t|
  {
    seq(|t|, i requires 0 <= i < |t| => CleanByte(t, i))
  }

  /** The clean-up loop, in place. */
  method CleanUp(names: array<Byte>)
    modifies names
    ensures names[..] == Clean(old(names[..]))
  {
    ghost var t := names[..];
    for i := 0 to names.Length
      invariant forall j :: i <= j < |t| ==> names[j] == t[j]
      invariant forall j :: 0 <= j < i - 1 ==> names[j] == CleanByte(t, j)
      invariant i > 0 ==> names[i - 1] == if IsSlash(t[i - 1]) then SLASH else CleanByte(t, i - 1)
    {
      if names[i] == NEWLINE {
        if i > 0 && names[i - 1] == SLASH {
          names[i - 1] := NUL;
        } else {
          names[i] := NUL;
        }
      }
      if names[i] == BACKSLASH {
        names[i] := SLASH;
      }
    }
  }

  /** The name at an index of the table: the C string there. */
  function NameAt(names: Bytes, index: nat): Bytes
    requires index <= |names|
  {
    CString(names[index..])
  }

  predicate IsSpace(b: Byte) {
    b == SPACE || 9 <= b <= 13
  }

  function SkipSpace(s: Bytes): (r: Bytes)
    ensures |r| <= |s|
  {
    if s != [] && IsSpace(s[0]) then SkipSpace(s[1..]) else s
  }

  /** strtol: the number, and what follows it. */
  function Strtol(s: Bytes): (int, Bytes) {
    var t := SkipSpace(s);
    var sign := t != [] && (t[0] == MINUS || t[0] == PLUS);
    var u := if sign then t[1..] else t;
    if DigitCount(u) == 0 then (0, s)
    else
      var n: int := Number(u);
      (if sign && t[0] == MINUS then -n else n, u[DigitCount(u)..])
  }

  /** The numbers that strtol takes without an error. */
  predicate InLong(n: int) {
    -I64 <= n < I64
  }

  /** Blanks are the six that isspace() knows in the C locale. */
  lemma BlanksAre(b: Byte)
    ensures IsSpace(b) <==> b in [0x20, 0x09, 0x0a, 0x0b, 0x0c, 0x0d]
  {
  }

  /** The numbers of a long are those that 64 bits of two's complement leave as they are. */
  lemma LongIs(n: int)
    ensures InLong(n) <==> (n + I64) % U64 - I64 == n
  {
    assert n + I64 == (n + I64) / U64 * U64 + (n + I64) % U64;
  }

  /** get_extended_arelt_filename: the name that a header points to, and the place it gives. Its numbers are read from the
      second byte on, to wherever their digits end. */
  function Extended(thin: bool, names: Bytes, header: Bytes): Option<(Bytes, int)>
    requires header != []
  {
    var (index, rest) := Strtol(header[1..]);
    if !InLong(index) || index < 0 || index >= |names| then None
    else
      var origin := if thin && rest != [] && rest[0] == COLON then Strtol(rest[1..]).0 else 0;
      if InLong(origin) then Some((NameAt(names, index), origin)) else None
  }

  /** A header whose number is not a place in the table has no name. */
  lemma IndexOutside(thin: bool, names: Bytes, header: Bytes, index: nat, rest: Bytes)
    requires header != [] && header[1..] == Decimal(index) + rest && (rest == [] || !IsDigitByte(rest[0]))
    requires index >= |names|
    ensures Extended(thin, names, header) == None
  {
    hide Decimal, NameAt;
    DecimalReadsBack(index, rest);
    assert IsDigitByte(header[1..][0]);
  }

  // ---------- what is written reads back ----------

  /** The names that survive the table. */
  predicate Printable(fmt: Format, name: Bytes) {
    && NEWLINE !in name
    && BACKSLASH !in name
    && (fmt.trailingSlash || name == [] || name[|name| - 1] != SLASH)
  }

  lemma {:induction false} CStringUpTo(s: Bytes, n: nat)
    requires n < |s| && s[n] == NUL && NulFree(s[..n])
    ensures CString(s) == s[..n]
  {
    if n == 0 {
    } else {
      assert s[0] == s[..n][0];
      assert s[1..][..n - 1] == s[..n][1..];
      CStringUpTo(s[1..], n - 1);
    }
  }

  /** The table t holds the entry of a name at p. */
  ghost predicate HoldsEntry(fmt: Format, t: Bytes, p: nat, name: Bytes) {
    && p + |name| + (if fmt.trailingSlash then 1 else 0) < |t|
    && t[p..p + |name|] == name
    && t[p + |name|] == (if fmt.trailingSlash then SLASH else NEWLINE)
    && (fmt.trailingSlash ==> t[p + |name| + 1] == NEWLINE)
    && (p > 0 ==> t[p - 1] == NEWLINE)
  }

  lemma EntryIsHeld(fmt: Format, pre: Bytes, name: Bytes, post: Bytes)
    requires pre == [] || pre[|pre| - 1] == NEWLINE
    ensures HoldsEntry(fmt, pre + EntryBytes(fmt, name) + post, |pre|, name)
  {
    var t := pre + EntryBytes(fmt, name) + post;
    assert t[|pre|..|pre| + |name|] == name;
  }

  lemma PrintableReadsBack(fmt: Format, t: Bytes, p: nat, name: Bytes)
    requires HoldsEntry(fmt, t, p, name) && NulFree(name) && Printable(fmt, name)
    ensures NameAt(Clean(t), p) == name
  {
    var s := Clean(t)[p..];
    forall i | 0 <= i < |name| ensures s[i] == name[i] {
      assert t[p + i] == t[p..p + |name|][i] == name[i] && name[i] in name;
      if i + 1 < |name| {
        assert t[p + i + 1] == t[p..p + |name|][i + 1] == name[i + 1] && name[i + 1] in name;
      }
    }
    assert s[..|name|] == name;
    assert s[|name|] == NUL by {
      assert s[|name|] == CleanByte(t, p + |name|);
      assert name != [] ==> t[p + |name| - 1] == t[p..p + |name|][|name| - 1];
    }
    CStringUpTo(s, |name|);
  }

  /** Where the clean-up spoils a name that is not printable. */
  lemma SpoiltAt(fmt: Format, t: Bytes, p: nat, name: Bytes) returns (j: nat)
    requires HoldsEntry(fmt, t, p, name) && NulFree(name) && !Printable(fmt, name)
    ensures j < |name| && CleanByte(t, p + j) != name[j]
  {
    assert forall i :: 0 <= i < |name| ==> t[p + i] == t[p..p + |name|][i] == name[i];
    if NEWLINE in name {
      var i :| 0 <= i < |name| && name[i] == NEWLINE;
      j := if CleanByte(t, p + i) == NEWLINE then i - 1 else i;
    } else if BACKSLASH in name {
      j :| 0 <= j < |name| && name[j] == BACKSLASH;
    } else {
      j := |name| - 1;
    }
  }

  lemma UnprintableDoesNot(fmt: Format, t: Bytes, p: nat, name: Bytes)
    requires HoldsEntry(fmt, t, p, name) && NulFree(name) && !Printable(fmt, name)
    ensures NameAt(Clean(t), p) != name
  {
    var j := SpoiltAt(fmt, t, p, name);
    hide HoldsEntry, Printable;
    var r := NameAt(Clean(t), p);
    if j < |r| {
      assert r[j] == Clean(t)[p..][j] == CleanByte(t, p + j);
    }
  }

  /** An entry of the table, cleaned up, is its name exactly if the name is printable. */
  lemma EntryReadsBack(fmt: Format, pre: Bytes, name: Bytes, post: Bytes)
    requires NulFree(name) && (pre == [] || pre[|pre| - 1] == NEWLINE)
    ensures NameAt(Clean(pre + EntryBytes(fmt, name) + post), |pre|) == name <==> Printable(fmt, name)
  {
    var t := pre + EntryBytes(fmt, name) + post;
    EntryIsHeld(fmt, pre, name, post);
    if Printable(fmt, name) {
      PrintableReadsBack(fmt, t, |pre|, name);
    } else {
      UnprintableDoesNot(fmt, t, |pre|, name);
    }
  }

  lemma {:induction false} TableEnds(fmt: Format, ms: seq<Member>, n: nat)
    requires n <= |ms|
    ensures var t := Table(fmt, ms, n); t == [] || t[|t| - 1] == NEWLINE
  {
    if n == 0 {
    } else {
      TableEnds(fmt, ms, n - 1);
    }
  }

  lemma {:induction false} EntryHas(fmt: Format, ms: seq<Member>, k: nat)
    requires k < |ms| && Stored(fmt, ms, k)
    ensures HasEntry(fmt, ms, EntryOf(fmt, ms, k)) && Stored(fmt, ms, EntryOf(fmt, ms, k))
    ensures ms[EntryOf(fmt, ms, k)].path == ms[k].path || EntryOf(fmt, ms, k) == k
  {
    if EntryOf(fmt, ms, k) == k {
    } else {
      EntryHas(fmt, ms, k - 1);
    }
  }

  /** The index fits the field and leaves room for a colon and a place of two characters. */
  predicate IndexFits(fmt: Format, index: nat) {
    1 <= fmt.maxName <= AR_NAME && |Decimal(index)| <= fmt.maxName - 4
  }

  /** The header has this text after its first byte, and no digit after it. */
  predicate Spells(header: Bytes, text: Bytes) {
    && 1 + |text| <= |header| && header[1..1 + |text|] == text
    && (|header| == 1 + |text| || !IsDigitByte(header[1 + |text|]))
  }

  /** Index and place stand in the header, where next is what follows the field. */
  predicate PlaceReads(fmt: Format, index: nat, origin: nat, next: Bytes)
    requires 1 <= fmt.maxName <= AR_NAME
  {
    fmt.thin && origin > 0 ==> Spells(NameField(fmt, index, origin) + next, IndexText(fmt, index, origin))
  }

  /** The number in the place's stead, with all digits that come after, is one that strtol takes. */
  predicate Opens(fmt: Format, index: nat, origin: nat, next: Bytes)
    requires IndexFits(fmt, index)
  {
    fmt.thin && origin > 0 ==> InLong(Strtol((NameField(fmt, index, origin) + next)[2 + |Decimal(index)|..]).0)
  }

  /** The place and a space after it, or before it is cut, are within the field. */
  predicate HasRoom(fmt: Format, index: nat, origin: nat) {
    fmt.maxName < AR_NAME || |IndexText(fmt, index, origin)| < AR_NAME - 1
  }

  lemma StrtolOfDecimal(n: nat, rest: Bytes)
    requires rest == [] || !IsDigitByte(rest[0])
    ensures Strtol(Decimal(n) + rest) == (n, rest)
  {
    var s := Decimal(n) + rest;
    assert IsDigitByte(s[0]);
    assert SkipSpace(s) == s;
    DecimalReadsBack(n, rest);
    assert s[|Decimal(n)|..] == rest;
  }

  lemma StrtolOfSigned(n: int, rest: Bytes)
    requires rest == [] || !IsDigitByte(rest[0])
    ensures Strtol(SignedDecimal(n) + rest) == (n, rest)
  {
    if n >= 0 {
      StrtolOfDecimal(n, rest);
    } else {
      var s := SignedDecimal(n) + rest;
      assert s[0] == MINUS && SkipSpace(s) == s;
      assert s[1..] == Decimal(-n) + rest;
      DecimalReadsBack(-n, rest);
      assert s[1..][|Decimal(-n)|..] == rest;
    }
  }

  /** The front of a decimal number is a smaller one. */
  lemma {:induction false} DecimalPrefix(n: nat, k: nat) returns (m: nat)
    requires 1 <= k <= |Decimal(n)|
    ensures Decimal(n)[..k] == Decimal(m) && (n > 0 ==> m > 0) && m <= n && (k < |Decimal(n)| ==> m < n)
  {
    if k == |Decimal(n)| {
      m := n;
    } else {
      m := DecimalPrefix(n / 10, k);
    }
  }

  lemma {:induction false} LeadingOver(a: Bytes, b: Bytes, acc: nat)
    requires forall i :: 0 <= i < |a| ==> IsDigitByte(a[i])
    ensures Leading(a + b, acc) == Leading(b, Leading(a, acc))
  {
    if a == [] {
      assert a + b == b;
    } else {
      assert (a + b)[1..] == a[1..] + b;
      LeadingOver(a[1..], b, 10 * acc + (a[0] - ZERO));
    }
  }

  /** Digits that do not begin with a zero are those of the number they spell. */
  lemma {:induction false} DigitsAre(ds: Bytes)
    requires ds != [] && ds[0] != ZERO && forall i :: 0 <= i < |ds| ==> IsDigitByte(ds[i])
    ensures Number(ds) > 0 && Decimal(Number(ds)) == ds
  {
    if |ds| == 1 {
      assert ds == [ds[0]] && ds[1..] == [];
      assert Leading([], ds[0] - ZERO) == ds[0] - ZERO;
    } else {
      var front, last := ds[..|ds| - 1], ds[|ds| - 1..];
      DigitsAre(front);
      assert front + last == ds && last[1..] == [];
      LeadingOver(front, last, 0);
      assert Number(ds) == 10 * Number(front) + (last[0] - ZERO);
    }
  }

  lemma {:induction false} CountedDigits(s: Bytes)
    ensures forall i :: 0 <= i < DigitCount(s) ==> IsDigitByte(s[i])
    ensures DigitCount(s) == |s| || !IsDigitByte(s[DigitCount(s)])
  {
    if s == [] || !IsDigitByte(s[0]) {
    } else {
      CountedDigits(s[1..]);
    }
  }

  lemma {:induction false} NumberStops(s: Bytes)
    ensures Number(s) == Number(s[..DigitCount(s)])
  {
    CountedDigits(s);
    var ds, rest := s[..DigitCount(s)], s[DigitCount(s)..];
    assert ds + rest == s;
    LeadingOver(ds, rest, 0);
  }

  /** s spells n, and has no more digits. */
  predicate HasDigitsOf(s: Bytes, n: nat) {
    Decimal(n) <= s && (|s| == |Decimal(n)| || !IsDigitByte(s[|Decimal(n)|]))
  }

  lemma SpelledReads(s: Bytes, n: nat)
    requires HasDigitsOf(s, n)
    ensures Number(s) == n
  {
    hide Decimal, Number;
    var rest := s[|Decimal(n)|..];
    assert s == Decimal(n) + rest;
    DecimalReadsBack(n, rest);
  }

  lemma ReadsSpelled(s: Bytes)
    requires s != [] && IsDigitByte(s[0]) && s[0] != ZERO
    ensures DigitCount(s) > 0 && HasDigitsOf(s, Number(s))
  {
    hide Decimal, Number;
    CountedDigits(s);
    NumberStops(s);
    DigitsAre(s[..DigitCount(s)]);
  }

  /** Text that begins with a digit other than zero reads as n exactly if it has n's digits and no more. */
  lemma ReadsAs(s: Bytes, n: nat)
    requires s != [] && IsDigitByte(s[0]) && s[0] != ZERO
    ensures DigitCount(s) > 0 && (Number(s) == n <==> HasDigitsOf(s, n))
  {
    hide HasDigitsOf, Number, DigitCount;
    ReadsSpelled(s);
    if HasDigitsOf(s, n) {
      SpelledReads(s, n);
    }
  }

  lemma {:induction false} NoLeadingZero(n: nat)
    ensures n > 0 ==> Decimal(n)[0] != ZERO
  {
    if n < 10 {
    } else {
      NoLeadingZero(n / 10);
    }
  }

  /** Text that begins like a number reads as it exactly if it spells it out and has no more digits. */
  lemma SpelledNumber(n: int, k: nat, s: Bytes)
    requires 1 <= k <= |SignedDecimal(n)| && k <= |s| && s[..k] == SignedDecimal(n)[..k]
    requires n < 0 ==> k >= 2
    requires n == 0 ==> |s| == 1 || !IsDigitByte(s[1])
    ensures Strtol(s).0 == n
       <==> SignedDecimal(n) <= s && (|s| == |SignedDecimal(n)| || !IsDigitByte(s[|SignedDecimal(n)|]))
  {
    var t := SignedDecimal(n);
    assert s[0] == s[..k][0] == t[0];
    if n > 0 {
      NoLeadingZero(n);
      assert SkipSpace(s) == s;
      ReadsAs(s, n);
    } else if n == 0 {
      assert s == t + s[1..];
      StrtolOfSigned(0, s[1..]);
    } else {
      NoLeadingZero(-n);
      assert s[1] == s[..k][1] == t[1];
      assert SkipSpace(s) == s;
      ReadsAs(s[1..], -n);
      assert t <= s <==> Decimal(-n) <= s[1..];
    }
  }

  // ---------- what a field reads as ----------

  /** The text that a header begins with after its first byte, once cut to the field. */
  lemma FieldBegins(fmt: Format, index: nat, origin: nat, next: Bytes)
    requires IndexFits(fmt, index)
    ensures var h, text := NameField(fmt, index, origin) + next, IndexText(fmt, index, origin);
            var w := if |text| < fmt.maxName - 1 then |text| else fmt.maxName - 1;
            && |h| >= AR_NAME && h[1..1 + w] == text[..w]
            && (w < AR_NAME - 1 ==> h[1 + w] == SPACE)
  {
    hide Decimal, SignedDecimal, IndexText;
  }

  /** Without a place, the index reads back. */
  lemma PlainFieldReads(fmt: Format, names: Bytes, index: nat, origin: nat, next: Bytes)
    requires IndexFits(fmt, index) && index < |names| && !(fmt.thin && origin > 0)
    ensures Extended(fmt.thin, names, NameField(fmt, index, origin) + next) == Some((NameAt(names, index), 0))
  {
    hide NameAt, Strtol, Decimal, SignedDecimal, NameField;
    IndexIsLong(fmt, index);
    FieldBegins(fmt, index, origin, next);
    var h := NameField(fmt, index, origin) + next;
    var text := IndexText(fmt, index, origin);
    var rest := h[1 + |text|..];
    assert h[1..] == Decimal(index) + rest;
    StrtolOfDecimal(index, rest);
  }

  lemma TextIs(fmt: Format, index: nat, origin: nat)
    requires fmt.thin && origin > 0
    ensures IndexText(fmt, index, origin) == Decimal(index) + ([COLON] + SignedDecimal(origin - AR_HDR))
  {
    hide Decimal, SignedDecimal;
  }

  /** With one, what is left of it comes after the index and a colon. */
  lemma PlaceText(fmt: Format, index: nat, origin: nat, next: Bytes) returns (s: Bytes, k: nat)
    requires IndexFits(fmt, index) && fmt.thin && origin > 0
    ensures var n, h := origin - AR_HDR, NameField(fmt, index, origin) + next;
            && |h| >= AR_NAME && h[1..] == Decimal(index) + ([COLON] + s) && s == h[2 + |Decimal(index)|..]
            && 1 <= k <= |SignedDecimal(n)| && k <= |s| && s[..k] == SignedDecimal(n)[..k] && (n < 0 ==> k >= 2)
            && (HasRoom(fmt, index, origin) ==> k < |s| && s[k] == SPACE)
            && (n == 0 ==> |s| == 1 || !IsDigitByte(s[1]))
  {
    hide NameField, Decimal, IndexText, SignedDecimal;
    FieldBegins(fmt, index, origin, next);
    TextIs(fmt, index, origin);
    var h, d, t := NameField(fmt, index, origin) + next, Decimal(index), SignedDecimal(origin - AR_HDR);
    var w := if |d| + 1 + |t| < fmt.maxName - 1 then |d| + 1 + |t| else fmt.maxName - 1;
    k := w - |d| - 1;
    s := h[2 + |d|..];
    SplitAt(h, d, t, w);
    SignedBegins(origin - AR_HDR);
    assert k < |s| ==> s[k] == h[1 + w];
    assert |s| > 1 ==> s[1] == h[3 + |d|];
  }

  lemma SplitAt(h: Bytes, d: Bytes, t: Bytes, w: nat)
    requires |d| + 1 <= w <= |d| + 1 + |t| && 1 + w <= |h| && h[1..1 + w] == (d + ([COLON] + t))[..w]
    ensures h[1..] == d + ([COLON] + h[2 + |d|..])
    ensures h[2 + |d|..][..w - |d| - 1] == t[..w - |d| - 1]
  {
    var k := w - |d| - 1;
    assert (d + ([COLON] + t))[..w] == d + ([COLON] + t[..k]);
    forall i | 0 <= i < w ensures h[1..][i] == (d + ([COLON] + t[..k]))[i] {
      assert h[1..1 + w][i] == h[1..][i];
    }
    forall i | 0 <= i < k ensures h[2 + |d|..][i] == t[i] {
      assert h[1..][|d| + 1 + i] == h[2 + |d|..][i];
    }
  }

  lemma SignedBegins(n: int)
    ensures |SignedDecimal(n)| >= 1 && (n < 0 ==> |SignedDecimal(n)| >= 2) && (n == 0 ==> |SignedDecimal(n)| == 1)
  {
  }

  lemma PlacedReads(names: Bytes, h: Bytes, index: nat, s: Bytes)
    requires h != [] && h[1..] == Decimal(index) + ([COLON] + s) && index < |names| && InLong(index)
    ensures Extended(true, names, h) == if InLong(Strtol(s).0) then Some((NameAt(names, index), Strtol(s).0)) else None
  {
    hide NameAt, Strtol, Decimal;
    StrtolOfDecimal(index, [COLON] + s);
    assert ([COLON] + s)[1..] == s;
  }

  lemma IndexIsLong(fmt: Format, index: nat)
    requires IndexFits(fmt, index)
    ensures InLong(index)
  {
    DecimalFits(index, 12);
    assert Pow10(4) == 10000 && Pow10(8) == 10000 * Pow10(4) && Pow10(12) == 10000 * Pow10(8);
  }

  lemma ByteBehind(d: Bytes, u: Bytes, k: nat)
    requires k < |u|
    ensures (d + u)[|d| + k] == u[k]
  {
  }

  lemma PrefixBehind(d: Bytes, v: Bytes, u: Bytes)
    ensures d + v <= d + u <==> v <= u
  {
    assert d + v <= d + u ==> (d + u)[|d|..][..|v|] == (d + u)[..|d + v|][|d|..] == (d + v)[|d|..];
    assert (d + u)[|d|..] == u && (d + v)[|d|..] == v;
    assert v <= u ==> (d + u)[..|d + v|] == d + u[..|v|];
  }

  lemma SpellsIff(h: Bytes, d: Bytes, t: Bytes, s: Bytes)
    requires h != [] && h[1..] == d + ([COLON] + s)
    ensures Spells(h, d + ([COLON] + t)) <==> t <= s && (|s| == |t| || !IsDigitByte(s[|t|]))
  {
    var text := d + ([COLON] + t);
    assert |h| == 2 + |d| + |s|;
    PrefixBehind(d, [COLON] + t, [COLON] + s);
    PrefixBehind([COLON], t, s);
    assert 1 + |text| <= |h| ==> h[1..1 + |text|] == h[1..][..|text|];
    if |s| > |t| {
      ByteBehind(d, [COLON] + s, 1 + |t|);
      assert h[1 + |text|] == h[1..][|d| + (1 + |t|)];
    }
  }

  /** What is left of a number, with a space after it, is no larger. */
  lemma CutInLong(n: int, k: nat, s: Bytes)
    requires 1 <= k <= |SignedDecimal(n)| && k < |s| && s[..k] == SignedDecimal(n)[..k] && s[k] == SPACE
    requires (n < 0 ==> k >= 2) && InLong(n)
    ensures InLong(Strtol(s).0)
  {
    var rest := s[k..];
    assert s == s[..k] + rest;
    if n >= 0 {
      var m := DecimalPrefix(n, k);
      StrtolOfDecimal(m, rest);
    } else {
      var m := DecimalPrefix(-n, k - 1);
      var r: int := m;
      assert SignedDecimal(n)[..k] == SignedDecimal(-r);
      StrtolOfSigned(-r, rest);
    }
  }

  /** Where the field has room, the header opens. */
  lemma RoomOpens(fmt: Format, index: nat, origin: nat, next: Bytes)
    requires IndexFits(fmt, index) && origin < I64 && HasRoom(fmt, index, origin)
    ensures Opens(fmt, index, origin, next)
  {
    hide Decimal, SignedDecimal, NameField, Strtol, IndexText, HasRoom;
    if fmt.thin && origin > 0 {
      var s, k := PlaceText(fmt, index, origin, next);
      CutInLong(origin - AR_HDR, k, s);
    }
  }

  /** A header opens exactly if its numbers are ones that strtol takes; then its field reads back as the index that was put
      into it; and as the place too exactly if the header spells both. */
  lemma FieldReadsBack(fmt: Format, names: Bytes, index: nat, origin: nat, next: Bytes)
    requires IndexFits(fmt, index) && index < |names| && origin < I64
    ensures var r := Extended(fmt.thin, names, NameField(fmt, index, origin) + next);
            && (r.Some? ==> r.value.0 == NameAt(names, index))
            && (r == Some((NameAt(names, index), if fmt.thin && origin > 0 then origin - AR_HDR else 0))
                <==> PlaceReads(fmt, index, origin, next))
            && (r.Some? <==> Opens(fmt, index, origin, next))
  {
    hide NameAt, Extended, Decimal, SignedDecimal, NameField, Strtol, IndexText;
    if fmt.thin && origin > 0 {
      var s, k := PlaceText(fmt, index, origin, next);
      var t := SignedDecimal(origin - AR_HDR);
      IndexIsLong(fmt, index);
      PlacedReads(names, NameField(fmt, index, origin) + next, index, s);
      SpelledNumber(origin - AR_HDR, k, s);
      TextIs(fmt, index, origin);
      SpellsIff(NameField(fmt, index, origin) + next, Decimal(index), t, s);
    } else {
      PlainFieldReads(fmt, names, index, origin, next);
    }
  }

  /** In a field of less than 16 bytes that is so if the text fits. In one of 16 the text may also end with the field,
      where no digit follows, and what is cut may happen to follow. */
  lemma PlaceReadsIff(fmt: Format, index: nat, origin: nat, next: Bytes)
    requires IndexFits(fmt, index) && fmt.thin && origin > 0
    ensures var n := |IndexText(fmt, index, origin)|;
            && (fmt.maxName < AR_NAME ==> (PlaceReads(fmt, index, origin, next) <==> n <= fmt.maxName - 1))
            && (n < fmt.maxName - 1 ==> PlaceReads(fmt, index, origin, next))
            && (fmt.maxName == AR_NAME && n == AR_NAME - 1 ==>
                  (PlaceReads(fmt, index, origin, next) <==> next == [] || !IsDigitByte(next[0])))
  {
    hide NameField, Decimal, SignedDecimal;
    FieldBegins(fmt, index, origin, next);
    var h, text := NameField(fmt, index, origin) + next, IndexText(fmt, index, origin);
    if |text| > fmt.maxName - 1 && fmt.maxName < AR_NAME {
      TextHasNoSpace(fmt, index, origin);
      NotSpelled(h, text, fmt.maxName - 1);
    }
  }

  lemma NotSpelled(h: Bytes, text: Bytes, i: nat)
    requires i < |text| && 1 + i < |h| && h[1 + i] != text[i]
    ensures !Spells(h, text)
  {
    if 1 + |text| <= |h| {
      assert h[1..1 + |text|][i] == h[1 + i];
    }
  }

  lemma TextHasNoSpace(fmt: Format, index: nat, origin: nat)
    ensures SPACE !in IndexText(fmt, index, origin)
  {
    hide Decimal;
    var d := Decimal(index);
    assert forall i :: 0 <= i < |d| ==> IsDigitByte(d[i]);
    assert SPACE !in d;
    SignedHasNoSpace(origin - AR_HDR);
  }

  lemma SignedHasNoSpace(n: int)
    ensures SPACE !in SignedDecimal(n)
  {
    hide Decimal;
    var d := Decimal(if n < 0 then -n else n);
    assert forall i :: 0 <= i < |d| ==> IsDigitByte(d[i]);
  }

  /** Paths determine the names stored for them. */
  predicate NamesFollowPaths(ms: seq<Member>) {
    forall i, j :: 0 <= i < |ms| && 0 <= j < |ms| && ms[i].path == ms[j].path ==> ms[i].normal == ms[j].normal
  }

  /** An entry with what comes before and after it. */
  lemma TableAround(fmt: Format, ms: seq<Member>, e: nat, padding: Bytes) returns (post: Bytes)
    requires e < |ms| && HasEntry(fmt, ms, e)
    ensures Table(fmt, ms, |ms|) + padding == Table(fmt, ms, e) + EntryBytes(fmt, ms[e].normal) + post
    ensures |EntryBytes(fmt, ms[e].normal)| > 0
    ensures var pre := Table(fmt, ms, e); pre == [] || pre[|pre| - 1] == NEWLINE
  {
    TableEnds(fmt, ms, e);
    TableGrows(fmt, ms, e + 1, |ms|);
    hide Table, HasEntry;
    var all, upTo := Table(fmt, ms, |ms|), Table(fmt, ms, e + 1);
    post := all[|upTo|..] + padding;
    assert all + padding == upTo + post;
  }

  lemma SameName(fmt: Format, ms: seq<Member>, k: nat)
    requires k < |ms| && Stored(fmt, ms, k) && NamesFollowPaths(ms)
    ensures ms[EntryOf(fmt, ms, k)].normal == ms[k].normal
  {
    EntryHas(fmt, ms, k);
  }

  /** Where a member's entry is in the table. */
  function TableIndex(fmt: Format, ms: seq<Member>, k: nat): nat
    requires k < |ms|
  {
    |Table(fmt, ms, EntryOf(fmt, ms, k))|
  }

  /** What the reader makes of a member's header, where next comes after the field. */
  function HeaderRead(fmt: Format, ms: seq<Member>, k: nat, padding: Bytes, next: Bytes): Option<(Bytes, int)>
    requires k < |ms| && 1 <= fmt.maxName <= AR_NAME
  {
    Extended(fmt.thin, Clean(Table(fmt, ms, |ms|) + padding), FieldOf(fmt, ms, k) + next)
  }

  lemma HeaderReadIs(fmt: Format, ms: seq<Member>, k: nat, padding: Bytes, next: Bytes)
    requires k < |ms| && 1 <= fmt.maxName <= AR_NAME
    ensures HeaderRead(fmt, ms, k, padding, next)
         == Extended(fmt.thin, Clean(Table(fmt, ms, |ms|) + padding),
                     NameField(fmt, TableIndex(fmt, ms, k), ms[k].origin) + next)
  {
    hide Extended, Clean, Table, NameField, EntryOf;
  }

  /** The entry reads back. */
  lemma EntryInTable(fmt: Format, ms: seq<Member>, k: nat, padding: Bytes)
    requires k < |ms| && Stored(fmt, ms, k) && NamesFollowPaths(ms) && NulFree(ms[k].normal)
    ensures TableIndex(fmt, ms, k) < |Clean(Table(fmt, ms, |ms|) + padding)|
    ensures NameAt(Clean(Table(fmt, ms, |ms|) + padding), TableIndex(fmt, ms, k)) == ms[k].normal
       <==> Printable(fmt, ms[k].normal)
  {
    hide Table, EntryBytes, Clean, NameAt, Printable, NulFree, NamesFollowPaths, Stored, HasEntry, EntryOf;
    var e := EntryOf(fmt, ms, k);
    EntryHas(fmt, ms, k);
    SameName(fmt, ms, k);
    var post := TableAround(fmt, ms, e, padding);
    EntryReadsBack(fmt, Table(fmt, ms, e), ms[e].normal, post);
  }

  /** A member's header opens exactly if its numbers are ones that strtol takes. Then it leads back to its name through the
      table as read, with whatever padding follows it, exactly if the name is printable; and to its place in a containing
      archive, exactly if the header spells it. */
  lemma LongNamesReadBack(fmt: Format, ms: seq<Member>, k: nat, padding: Bytes, next: Bytes)
    requires k < |ms| && Stored(fmt, ms, k) && NamesFollowPaths(ms) && NulFree(ms[k].normal)
    requires IndexFits(fmt, TableIndex(fmt, ms, k)) && ms[k].origin < I64
    ensures var r := HeaderRead(fmt, ms, k, padding, next);
            && (r.Some? <==> Opens(fmt, TableIndex(fmt, ms, k), ms[k].origin, next))
            && (r.Some? ==> (r.value.0 == ms[k].normal <==> Printable(fmt, ms[k].normal)))
            && (r.Some? && r.value.1 == (if fmt.thin && ms[k].origin > 0 then ms[k].origin - AR_HDR else 0)
                <==> PlaceReads(fmt, TableIndex(fmt, ms, k), ms[k].origin, next))
  {
    hide HeaderRead, TableIndex, Table, Clean, NameAt, Extended, NameField, Printable, NulFree, Opens, PlaceReads, Stored,
         NamesFollowPaths;
    EntryInTable(fmt, ms, k, padding);
    HeaderReadIs(fmt, ms, k, padding, next);
    FieldReadsBack(fmt, Clean(Table(fmt, ms, |ms|) + padding), TableIndex(fmt, ms, k), ms[k].origin, next);
  }

  lemma PowersOf10()
    ensures Pow10(3) == 1000 && Pow10(4) == 10000 && Pow10(9) == 1000000000 && Pow10(10) == 10000000000
  {
    assert Pow10(7) == 1000 * Pow10(4);
  }

  /** Behind a table index of four digits, the place 12345678901 of a nested archive's member is cut. */
  lemma PlaceIsCut(next: Bytes)
    ensures var fmt := Format(true, true, 15, false, SLASH);
            IndexFits(fmt, 1234) && !PlaceReads(fmt, 1234, 12345678961, next)
  {
    hide Decimal;
    DecimalFits(1234, 3);
    DecimalFits(1234, 4);
    DecimalFits(12345678901, 10);
    PowersOf10();
    PlaceReadsIff(Format(true, true, 15, false, SLASH), 1234, 12345678961, next);
  }

  /** In a field of 16 bytes, the place 1234567890 fills it, and runs on into a date. */
  lemma PlaceRunsOn(next: Bytes)
    requires next != [] && IsDigitByte(next[0])
    ensures var fmt := Format(true, true, 16, false, SLASH);
            IndexFits(fmt, 1234) && !PlaceReads(fmt, 1234, 1234567950, next)
  {
    hide Decimal;
    DecimalFits(1234, 3);
    DecimalFits(1234, 4);
    DecimalFits(1234567890, 9);
    DecimalFits(1234567890, 10);
    PowersOf10();
    PlaceReadsIff(Format(true, true, 16, false, SLASH), 1234, 1234567950, next);
  }
}
