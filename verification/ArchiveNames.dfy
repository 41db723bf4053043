/** The name field of a member's header: how a name is cut and padded to fit, when it goes after the header
    instead, and which names read back. */
module ArchiveNames {
  import opened ArchiveBytes
  import opened Basics
  import opened ArchiveMembers
  import opened ArchiveReader
  import LongNames

  /** How a target fits a name into the field. */
  datatype Style = Keep | Bsd | Gnu

  const DOT: Byte := 0x2e
  const LETTER_O: Byte := 0x6f

  predicate FormatOk(fmt: LongNames.Format) {
    2 <= fmt.maxName <= AR_NAME && (fmt.padChar == SLASH || fmt.padChar == SPACE)
  }

  /** bs copied over the front of a field. */
  function Over(bs: Bytes, field: Bytes): (r: Bytes)
    requires |bs| <= |field|
    ensures |r| == |field|
  {
    bs + field[|bs|..]
  }

  // ---------- fitting a name into the field ----------

  function BsdName(fmt: LongNames.Format, name: Bytes, field: Bytes): (r: Bytes)
    requires FormatOk(fmt) && |field| == AR_NAME
    ensures |r| == AR_NAME
  {
    if |name| < fmt.maxName then Over(name + [fmt.padChar], field)
    else Over(name[..fmt.maxName], field)
  }

  function GnuName(fmt: LongNames.Format, name: Bytes, field: Bytes): (r: Bytes)
    requires FormatOk(fmt) && |field| == AR_NAME
    ensures |r| == AR_NAME
  {
    var n := |name|;
    var shown := if n <= fmt.maxName then name
                 else if name[n - 2] == DOT && name[n - 1] == LETTER_O then name[..fmt.maxName - 2] + [DOT, LETTER_O]
                 else name[..fmt.maxName];
    if |shown| < AR_NAME then Over(shown + [fmt.padChar], field) else shown
  }

  function FittedName(style: Style, fmt: LongNames.Format, name: Bytes, field: Bytes): (r: Bytes)
    requires FormatOk(fmt) && |field| == AR_NAME
    ensures |r| == AR_NAME
  {
    match style
    case Bsd => BsdName(fmt, name, field)
    case Gnu => GnuName(fmt, name, field)
    case Keep =>
      if fmt.traditional then BsdName(fmt, name, field)
      else if |name| > fmt.maxName then field
      else if |name| < AR_NAME then Over(name + [fmt.padChar], field)
      else name
  }

  predicate IsObjectName(name: Bytes) {
    |name| >= 2 && name[|name| - 2..] == [DOT, LETTER_O]
  }

  /** The field begins with bs, and goes on with the pad character; nothing else is written. */
  predicate ShowsPadded(fmt: LongNames.Format, bs: Bytes, field: Bytes, r: Bytes) {
    && |bs| < |r| == |field|
    && r[..|bs|] == bs && r[|bs|] == fmt.padChar && r[|bs| + 1..] == field[|bs| + 1..]
  }

  lemma Shows(fmt: LongNames.Format, bs: Bytes, field: Bytes)
    requires |bs| < |field|
    ensures ShowsPadded(fmt, bs, field, Over(bs + [fmt.padChar], field))
  {
  }

  lemma ShowsAll(bs: Bytes, field: Bytes)
    requires |bs| <= |field|
    ensures Over(bs, field)[..|bs|] == bs && Over(bs, field)[|bs|..] == field[|bs|..]
  {
  }

  /** A name cut by GNU: its front, with its own .o if it has one. */
  lemma CutShows(fmt: LongNames.Format, name: Bytes)
    requires FormatOk(fmt) && |name| > fmt.maxName
    ensures var n, max := |name|, fmt.maxName;
            var shown := if name[n - 2] == DOT && name[n - 1] == LETTER_O then name[..max - 2] + [DOT, LETTER_O] else name[..max];
            && |shown| == max && shown[..max] == shown && shown[..max - 2] == name[..max - 2]
            && (if IsObjectName(name) then IsObjectName(shown) else shown == name[..max])
  {
    assert name[|name| - 2..] == [name[|name| - 2], name[|name| - 1]];
  }

  lemma GnuCutPadded(fmt: LongNames.Format, name: Bytes, field: Bytes)
    requires FormatOk(fmt) && |field| == AR_NAME && |name| > fmt.maxName && fmt.maxName < AR_NAME
    ensures var r, n, max := GnuName(fmt, name, field), |name|, fmt.maxName;
            && r[..max] == (if name[n - 2] == DOT && name[n - 1] == LETTER_O then name[..max - 2] + [DOT, LETTER_O] else name[..max])
            && r[..max - 2] == name[..max - 2]
            && ShowsPadded(fmt, r[..max], field, r)
  {
    var n, max := |name|, fmt.maxName;
    var shown := if name[n - 2] == DOT && name[n - 1] == LETTER_O then name[..max - 2] + [DOT, LETTER_O] else name[..max];
    Shows(fmt, shown, field);
    assert GnuName(fmt, name, field)[..max] == shown;
  }

  /** What a field shows in each style. Names shorter than the target's maximum are padded in all of them. BSD cuts a longer
      name and one of that length and does not pad it; GNU pads as long as there is room, and keeps the .o of a name it
      cuts; the third leaves a name that is too long to the table. */
  lemma FieldShows(style: Style, fmt: LongNames.Format, name: Bytes, field: Bytes)
    requires FormatOk(fmt) && |field| == AR_NAME
    ensures var r := FittedName(style, fmt, name, field);
            && (|name| < fmt.maxName ==> ShowsPadded(fmt, name, field, r))
            && (|name| >= fmt.maxName && (style == Bsd || (style == Keep && fmt.traditional)) ==>
                  r[..fmt.maxName] == name[..fmt.maxName] && r[fmt.maxName..] == field[fmt.maxName..])
            && (|name| == fmt.maxName && (style == Gnu || (style == Keep && !fmt.traditional)) ==>
                  if fmt.maxName < AR_NAME then ShowsPadded(fmt, name, field, r) else r == name)
            && (|name| > fmt.maxName && style == Gnu ==>
                  && r[..fmt.maxName - 2] == name[..fmt.maxName - 2]
                  && (if IsObjectName(name) then IsObjectName(r[..fmt.maxName]) else r[..fmt.maxName] == name[..fmt.maxName])
                  && (fmt.maxName < AR_NAME ==> ShowsPadded(fmt, r[..fmt.maxName], field, r)))
            && (|name| > fmt.maxName && style == Keep && !fmt.traditional ==> r == field)
  {
    hide Over, ShowsPadded, IsObjectName;
    var max, r := fmt.maxName, FittedName(style, fmt, name, field);
    if |name| < AR_NAME {
      Shows(fmt, name, field);
    }
    if |name| >= max {
      ShowsAll(name[..max], field);
    }
    if |name| > max && style == Gnu {
      CutShows(fmt, name);
      if max < AR_NAME {
        GnuCutPadded(fmt, name, field);
      }
    }
  }

  /** memcpy to the front of a field. */
  method CopyName(bs: Bytes, field: array<Byte>)
    requires |bs| <= field.Length
    modifies field
    ensures field[..] == Over(bs, old(field[..]))
  {
    for i := 0 to |bs|
      invariant forall j :: 0 <= j < i ==> field[j] == bs[j]
      invariant forall j :: i <= j < field.Length ==> field[j] == old(field[j])
    {
      field[i] := bs[i];
    }
  }

  lemma OverThenPad(bs: Bytes, field: Bytes, pad: Byte)
    requires |bs| < |field|
    ensures Over(bs, field)[|bs| := pad] == Over(bs + [pad], field)
  {
  }

  method TruncateBsd(fmt: LongNames.Format, name: Bytes, field: array<Byte>)
    requires FormatOk(fmt) && field.Length == AR_NAME
    modifies field
    ensures field[..] == BsdName(fmt, name, old(field[..]))
  {
    ghost var was := field[..];
    var length := |name|;
    if length <= fmt.maxName {
      CopyName(name, field);
    } else {
      CopyName(name[..fmt.maxName], field);
      length := fmt.maxName;
    }
    if length < fmt.maxName {
      OverThenPad(name, was, fmt.padChar);
      field[length] := fmt.padChar;
    } else {
      assert |name| == fmt.maxName ==> name[..fmt.maxName] == name;
    }
  }

  method TruncateGnu(fmt: LongNames.Format, name: Bytes, field: array<Byte>)
    requires FormatOk(fmt) && field.Length == AR_NAME
    modifies field
    ensures field[..] == GnuName(fmt, name, old(field[..]))
  {
    ghost var was := field[..];
    var length := |name|;
    ghost var shown := name;
    if length <= fmt.maxName {
      CopyName(name, field);
    } else {
      CopyName(name[..fmt.maxName], field);
      shown := name[..fmt.maxName];
      if name[length - 2] == DOT && name[length - 1] == LETTER_O {
        field[fmt.maxName - 2] := DOT;
        field[fmt.maxName - 1] := LETTER_O;
        shown := name[..fmt.maxName - 2] + [DOT, LETTER_O];
      }
      length := fmt.maxName;
    }
    assert field[..] == Over(shown, was);
    if length < AR_NAME {
      OverThenPad(shown, was, fmt.padChar);
      field[length] := fmt.padChar;
    }
  }

  method TruncateName(style: Style, fmt: LongNames.Format, name: Bytes, field: array<Byte>)
    requires FormatOk(fmt) && field.Length == AR_NAME
    modifies field
    ensures field[..] == FittedName(style, fmt, name, old(field[..]))
  {
    ghost var was := field[..];
    match style {
      case Bsd => TruncateBsd(fmt, name, field);
      case Gnu => TruncateGnu(fmt, name, field);
      case Keep =>
        if fmt.traditional {
          TruncateBsd(fmt, name, field);
        } else {
          var length := |name|;
          if length <= fmt.maxName {
            CopyName(name, field);
          }
          if length < fmt.maxName || (length == fmt.maxName && length < AR_NAME) {
            OverThenPad(name, was, fmt.padChar);
            field[length] := fmt.padChar;
          }
        }
    }
  }

  // ---------- putting a short name right ----------

  /** A name that stays in its field, cut to it in the traditional format. */
  function Shown(fmt: LongNames.Format, name: Bytes): (r: Bytes)
    requires FormatOk(fmt)
    ensures |r| <= fmt.maxName
  {
    if |name| > fmt.maxName then name[..fmt.maxName] else name
  }

  function Righted(fmt: LongNames.Format, shown: Bytes, field: Bytes): (r: Bytes)
    requires FormatOk(fmt) && |field| == AR_NAME && |shown| <= fmt.maxName
    ensures |r| == AR_NAME
  {
    if |shown| < AR_NAME then Over(shown + [fmt.padChar], field) else shown
  }

  /** What the first pass over the members does for a name that needs no entry in the table: a field that does not show
      it is put right. */
  method RightField(fmt: LongNames.Format, name: Bytes, field: array<Byte>)
    requires FormatOk(fmt) && field.Length == AR_NAME
    modifies field
    ensures field[..] == Righted(fmt, Shown(fmt, name), old(field[..]))
  {
    ghost var was := field[..];
    var length := if |name| > fmt.maxName then fmt.maxName else |name|;
    var shown := name[..length];
    assert shown == Shown(fmt, name);
    if shown != field[..length] || (length < AR_NAME && field[length] != fmt.padChar) {
      CopyName(shown, field);
      if length < fmt.maxName || (length == fmt.maxName && length < AR_NAME) {
        OverThenPad(shown, was, fmt.padChar);
        field[length] := fmt.padChar;
      }
    } else {
      assert was[..length] + was[length..] == was;
    }
  }

  /** The field of a new member with a name that needs no entry in the table. */
  function ShortField(fmt: LongNames.Format, name: Bytes): (r: Bytes)
    requires FormatOk(fmt)
    ensures |r| == AR_NAME
  {
    Righted(fmt, Shown(fmt, name), Repeat(SPACE, AR_NAME))
  }

  /** However the name was fitted in first, the pass leaves the same field, if the name fits it or is cut in the
      traditional format. */
  lemma AnyStyleIsRighted(style: Style, fmt: LongNames.Format, name: Bytes)
    requires FormatOk(fmt)
    ensures Righted(fmt, Shown(fmt, name), FittedName(style, fmt, name, Repeat(SPACE, AR_NAME))) == ShortField(fmt, name)
  {
  }

  // ---------- names after the header ----------

  /** BSD 4.4: a name that is too long or has a space goes after the header. */
  predicate GoesAfter(maxName: nat, name: Bytes) {
    |name| > maxName || SPACE in name
  }

  function NumberText(n: nat): Bytes {
    [HASH, ZERO + 1, SLASH] + Decimal(n)
  }

  function NumberedField(maxName: nat, name: Bytes, field: Bytes): (r: Bytes)
    requires maxName <= AR_NAME == |field|
    ensures |r| == AR_NAME
  {
    Over(LongNames.SpacePad(NumberText(PaddedLength(|name|)), maxName), field)
  }

  /** The loop over the members that sets the fields of names that go after their headers. */
  method NumberNames(maxName: nat, names: seq<Bytes>, fields: array<Bytes>)
    requires maxName <= AR_NAME && |names| == fields.Length
    requires forall k :: 0 <= k < fields.Length ==> |fields[k]| == AR_NAME
    modifies fields
    ensures forall k :: 0 <= k < |names| ==>
              fields[k] == if GoesAfter(maxName, names[k]) then NumberedField(maxName, names[k], old(fields[k]))
                           else old(fields[k])
  {
    hide NumberedField;
    for k := 0 to |names|
      invariant forall j :: 0 <= j < k ==>
                  fields[j] == if GoesAfter(maxName, names[j]) then NumberedField(maxName, names[j], old(fields[j]))
                               else old(fields[j])
      invariant forall j :: k <= j < |names| ==> fields[j] == old(fields[j])
    {
      var hasSpace := false;
      for len := 0 to |names[k]|
        invariant hasSpace <==> SPACE in names[k][..len]
      {
        if names[k][len] == SPACE {
          hasSpace := true;
        }
      }
      assert names[k][..|names[k]|] == names[k];
      if |names[k]| > maxName || hasSpace {
        fields[k] := NumberedField(maxName, names[k], fields[k]);
      }
    }
  }

  /** Such a field announces the padded length, as long as its digits fit. */
  lemma NumberReadsBack(maxName: nat, name: Bytes, field: Bytes)
    requires |NumberText(PaddedLength(|name|))| <= maxName <= AR_NAME == |field|
    requires maxName == |NumberText(PaddedLength(|name|))| && maxName < AR_NAME ==> !IsDigitByte(field[maxName])
    ensures IsBsd44(NumberedField(maxName, name, field))
    ensures Number(NumberedField(maxName, name, field)[3..]) == PaddedLength(|name|)
  {
    hide PaddedLength, Decimal;
    var n := PaddedLength(|name|);
    var r := NumberedField(maxName, name, field);
    var rest := Repeat(SPACE, maxName - |NumberText(n)|) + field[maxName..];
    assert r == NumberText(n) + rest;
    assert r[3..] == Decimal(n) + rest;
    assert IsDigitByte(Decimal(n)[0]) && r[3] == Decimal(n)[0];
    DecimalReadsBack(n, rest);
  }

  // ---------- which short names read back ----------

  lemma {:induction false} FindAt(s: Bytes, b: Byte, i: nat)
    requires i <= |s| && b !in s[..i] && (i < |s| ==> s[i] == b)
    ensures FindByte(s, b) == i
  {
    if s == [] || i == 0 {
    } else {
      assert s[0] == s[..i][0];
      assert s[1..][..i - 1] == s[..i][1..];
      FindAt(s[1..], b, i - 1);
    }
  }

  lemma {:induction false} FoundWithin(s: Bytes, b: Byte, n: nat)
    requires n <= |s| && b in s[..n]
    ensures FindByte(s, b) < n
  {
    if s[0] == b {
    } else {
      assert s[..n] == [s[0]] + s[1..][..n - 1];
      FoundWithin(s[1..], b, n - 1);
    }
  }

  /** The names that a field shows so that they can be told from what follows. */
  predicate ShortOk(fmt: LongNames.Format, shown: Bytes) {
    SLASH !in shown && (SPACE !in shown || (fmt.padChar == SLASH && |shown| < fmt.maxName))
  }

  lemma ShortFront(fmt: LongNames.Format, shown: Bytes)
    requires FormatOk(fmt) && |shown| <= fmt.maxName
    ensures ShortField(fmt, shown)[..fmt.maxName]
         == shown + (if |shown| < fmt.maxName then [fmt.padChar] + Repeat(SPACE, fmt.maxName - |shown| - 1) else [])
  {
  }

  /** The end of a name in a field: with a slash or a space inside, it is cut there. */
  lemma ShortNameIs(fmt: LongNames.Format, shown: Bytes, s: Bytes)
    requires FormatOk(fmt) && |shown| <= fmt.maxName && NulFree(shown)
    requires s == shown + (if |shown| < fmt.maxName then [fmt.padChar] + Repeat(SPACE, fmt.maxName - |shown| - 1) else [])
    ensures ShortName(s) == shown <==> ShortOk(fmt, shown)
  {
    var n := |shown|;
    assert shown == s[..n];
    assert NUL !in s;
    assert s[..|s|] == s;
    FindAt(s, NUL, |s|);
    if SLASH in shown {
      FoundWithin(s, SLASH, n);
    } else if fmt.padChar == SLASH && n < fmt.maxName {
      FindAt(s, SLASH, n);
    } else {
      FindAt(s, SLASH, |s|);
      if SPACE in shown {
        FoundWithin(s, SPACE, n);
      } else {
        FindAt(s, SPACE, n);
      }
    }
  }

  /** A short name reads back from its field if and only if it has no slash, and no space either unless the padding is a
      slash and there is room for it. */
  lemma ShortNameReadsBack(fmt: LongNames.Format, shown: Bytes)
    requires FormatOk(fmt) && |shown| <= fmt.maxName && NulFree(shown)
    ensures ShortName(ShortField(fmt, shown)[..fmt.maxName]) == shown <==> ShortOk(fmt, shown)
  {
    hide ShortField, ShortName, ShortOk;
    ShortFront(fmt, shown);
    ShortNameIs(fmt, shown, ShortField(fmt, shown)[..fmt.maxName]);
  }

  /** Padded with spaces, a name of three characters with a space in the middle does not read back. */
  lemma SpaceIsCut()
    ensures var fmt, name := LongNames.Format(false, false, AR_NAME, false, SPACE), [ZERO, SPACE, ZERO];
            ShortName(ShortField(fmt, name)[..fmt.maxName]) != name
  {
    hide ShortField, ShortName;
    var name := [ZERO, SPACE, ZERO];
    assert name[1] in name;
    ShortNameReadsBack(LongNames.Format(false, false, AR_NAME, false, SPACE), name);
  }

  /** Which names go after the header: of those without a slash, exactly the ones that would not come back from the field
      of a BSD target. */
  lemma OthersWouldBeCut(fmt: LongNames.Format, name: Bytes)
    requires FormatOk(fmt) && fmt.padChar == SPACE && NulFree(name) && SLASH !in name
    ensures GoesAfter(fmt.maxName, name) <==> ShortName(BsdName(fmt, name, Repeat(SPACE, AR_NAME))[..fmt.maxName]) != name
  {
    var s := BsdName(fmt, name, Repeat(SPACE, AR_NAME))[..fmt.maxName];
    assert |ShortName(s)| <= fmt.maxName;
    hide ShortName;
    if |name| <= fmt.maxName {
      assert s == name + (if |name| < fmt.maxName then [SPACE] + Repeat(SPACE, fmt.maxName - |name| - 1) else []);
      ShortNameIs(fmt, name, s);
    }
  }

  /** Such a field never looks like one whose name goes after the header, nor, unless the name is empty, like an
      index into the table. */
  lemma ShortFieldIsPlain(fmt: LongNames.Format, shown: Bytes, rd: Reader)
    requires FormatOk(fmt) && |shown| <= fmt.maxName && ShortOk(fmt, shown) && shown != [] && rd.maxName == fmt.maxName
    ensures !IsBsd44(ShortField(fmt, shown)) && !PointsToTable(rd, ShortField(fmt, shown))
  {
    var field := ShortField(fmt, shown);
    assert forall i :: 0 <= i < |shown| ==> field[i] == shown[i];
    assert field[0] == shown[0] && shown[0] in shown;
    assert |shown| > 2 ==> field[2] in shown;
    if field[0] == SPACE {
      assert field[..fmt.maxName][|shown|] == SLASH;
    }
  }
}
