/** The relocation loop over one input section: rewriting every record for a relocatable
    link, or patching every record's place for a final link. */
module SectionRelocs {
  import opened AoutSymbols
  import opened Basics
  import opened LinkRuns
  import opened FinalLink
  import opened AoutRelocate

  /** What a final link did for one record. */
  datatype Patch = Patch(place: int, value: int)

  /** The output number for a symbol with map entry m and hash entry h. A symbol the symbol pass
      left out is forced out if it is global, and unattached if not. */
  function NewIndex(info: Info, st: State, m: int, h: Option<nat>): (r: (State, int))
    requires StateOk(info.table, st)
    requires h.Some? ==> h.value < |info.table| && info.table[h.value].kind != Warning
    ensures StateOk(info.table, r.0)
  {
    if m != -1 then (st, m)
    else if h.Some? then (Force(info, st, h.value), Force(info, st, h.value).indx[h.value])
    else (st, 0)
  }

  /** A record holds 24 bits of index. */
  function Cut(index: int): nat {
    index % 0x100_0000
  }

  lemma CutIs(index: int)
    ensures 0 <= Cut(index) < 0x100_0000 && (0 <= index < 0x100_0000 ==> Cut(index) == index)
    ensures (Cut(index) - index) % 0x100_0000 == 0
  {
    assert index == index / 0x100_0000 * 0x100_0000 + index % 0x100_0000;
  }

  predicate RelocOk(v: View, m: seq<int>, rel: ExtReloc) {
    && Sound(v, rel)
    && (rel.extern ==>
          && rel.index < |v.hashes| && rel.index < |m|
          && (v.hashes[rel.index].Some? ==>
                && v.hashes[rel.index].value < |v.table|
                && v.table[v.hashes[rel.index].value].kind != Warning))
  }

  predicate RelocsOk(v: View, m: seq<int>, rels: seq<ExtReloc>) {
    forall k :: 0 <= k < |rels| ==> RelocOk(v, m, rels[k])
  }

  function RewriteOne(info: Info, v: View, s: Placed, m: seq<int>, st: State, rel: ExtReloc): (r: (State, ExtReloc))
    requires v.table == info.table && StateOk(info.table, st) && RelocOk(v, m, rel)
    ensures StateOk(info.table, r.0)
  {
    if rel.extern && Known(v, rel).None? then
      var (st, n) := NewIndex(info, st, m[rel.index], v.hashes[rel.index]);
      (st, Rewritten(v, s, rel, Cut(n)))
    else (st, Rewritten(v, s, rel, 0))
  }

  function RewriteAll(info: Info, v: View, s: Placed, m: seq<int>, st: State, rels: seq<ExtReloc>)
    : (r: (State, seq<ExtReloc>))
    requires v.table == info.table && StateOk(info.table, st) && RelocsOk(v, m, rels)
    ensures StateOk(info.table, r.0) && |r.1| == |rels|
  {
    if rels == [] then (st, [])
    else
      var (st, done) := RewriteAll(info, v, s, m, st, rels[..|rels| - 1]);
      var (st, rel) := RewriteOne(info, v, s, m, st, rels[|rels| - 1]);
      (st, done + [rel])
  }

  lemma RewriteAllNext(info: Info, v: View, s: Placed, m: seq<int>, st: State, rels: seq<ExtReloc>, rel: ExtReloc)
    requires v.table == info.table && StateOk(info.table, st) && RelocsOk(v, m, rels + [rel])
    ensures RelocsOk(v, m, rels) && RelocOk(v, m, rel)
    ensures var (mid, done) := RewriteAll(info, v, s, m, st, rels);
            var (end, r) := RewriteOne(info, v, s, m, mid, rel);
            RewriteAll(info, v, s, m, st, rels + [rel]) == (end, done + [r])
  {
    hide RewriteOne, RelocOk;
    assert forall k :: 0 <= k < |rels| ==> (rels + [rel])[k] == rels[k];
    assert (rels + [rel])[|rels|] == rel;
    assert (rels + [rel])[..|rels|] == rels;
  }

  function Patches(v: View, s: Placed, rels: seq<ExtReloc>): (r: seq<Patch>)
    requires forall k :: 0 <= k < |rels| ==> Sound(v, rels[k])
    ensures |r| == |rels|
  {
    seq(|rels|, k requires 0 <= k < |rels| => Patch(FinalPlace(s, rels[k]), FinalValue(v, s, rels[k])))
  }

  // ---------- the loops ----------

  /** Find the output number of a symbol, forcing it out if need be. */
  method NumberOf(l: Linker, m: int, h: Option<nat>) returns (index: int)
    requires l.Valid() && l.outsym == 0
    requires h.Some? ==> h.value < |l.info.table| && l.info.table[h.value].kind != Warning
    modifies l`file, l`symoff, l`count, l`owners, l`written, l`indx
    ensures l.Valid() && l.outsym == 0
    ensures (l.Abstract(), index) == NewIndex(l.info, old(l.Abstract()), m, h)
  {
    hide Force;
    index := m;
    if index == -1 {
      if h.Some? {
        l.ForceSymbol(h.value);
        index := l.indx[h.value];
      } else {
        index := 0;
      }
    }
  }

  /** The relocatable branch of the loop body. */
  method RewriteRecord(l: Linker, v: View, s: Placed, n: nat, rel: ExtReloc) returns (r: ExtReloc)
    requires l.Valid() && l.outsym == 0 && n <= l.symbolMap.Length
    requires v.table == l.info.table && RelocOk(v, l.symbolMap[..n], rel)
    modifies l`file, l`symoff, l`count, l`owners, l`written, l`indx
    ensures l.Valid() && l.outsym == 0
    ensures (l.Abstract(), r) == RewriteOne(l.info, v, s, l.symbolMap[..n], old(l.Abstract()), rel)
  {
    hide NewIndex, Rewritten;
    var index := 0;
    if rel.extern && Known(v, rel).None? {
      index := NumberOf(l, l.symbolMap[rel.index], v.hashes[rel.index]);
    }
    r := Rewritten(v, s, rel, Cut(index));
  }

  /** The loop of a relocatable link: records are rewritten in place, and symbols they need are
      forced out through the linker. */
  method RewriteSection(l: Linker, v: View, s: Placed, rels: array<ExtReloc>, n: nat)
    requires l.Valid() && l.outsym == 0 && n <= l.symbolMap.Length
    requires v.table == l.info.table && RelocsOk(v, l.symbolMap[..n], rels[..])
    modifies l`file, l`symoff, l`count, l`owners, l`written, l`indx, rels
    ensures l.Valid() && l.outsym == 0
    ensures (l.Abstract(), rels[..])
         == RewriteAll(l.info, v, s, l.symbolMap[..n], old(l.Abstract()), old(rels[..]))
  {
    hide RewriteOne, RelocOk;
    ghost var m := l.symbolMap[..n];
    ghost var was := rels[..];
    for k := 0 to rels.Length
      invariant l.Valid() && l.outsym == 0
      invariant rels[k..] == was[k..]
      invariant (l.Abstract(), rels[..k]) == RewriteAll(l.info, v, s, m, old(l.Abstract()), was[..k])
    {
      ghost var done := rels[..k];
      assert rels[k] == was[k] && was[..k + 1] == was[..k] + [was[k]];
      RewriteAllNext(l.info, v, s, m, old(l.Abstract()), was[..k], was[k]);
      var r := RewriteRecord(l, v, s, n, rels[k]);
      rels[k] := r;
      assert rels[..k + 1] == done + [r];
    }
    assert was[..rels.Length] == was && rels[..rels.Length] == rels[..];
  }

  /** The final branch of the loop body. */
  method PatchRecord(v: View, s: Placed, rel: ExtReloc) returns (patch: Patch)
    requires Sound(v, rel)
    ensures patch == Patch(FinalPlace(s, rel), FinalValue(v, s, rel))
  {
    var relocation;
    if rel.extern {
      var known := Known(v, rel);
      relocation := if known.Some? then Address(known.value) else 0;
    } else {
      relocation := Shift(SectionAt(v, rel.index).value);
      if rel.howto.pcRelative {
        relocation := relocation + s.vma;
      }
    }
    relocation := relocation + rel.addend;
    if rel.howto.pcRelative {
      relocation := relocation - Home(s);
      if rel.howto.pcrelOffset {
        relocation := relocation - rel.address;
      }
    }
    patch := Patch(FinalPlace(s, rel), relocation % U32);
  }

  /** The loop of a final link. */
  method PatchSection(v: View, s: Placed, rels: seq<ExtReloc>) returns (patches: seq<Patch>)
    requires forall k :: 0 <= k < |rels| ==> Sound(v, rels[k])
    ensures patches == Patches(v, s, rels)
  {
    hide FinalPlace, FinalValue, Sound;
    patches := [];
    for k := 0 to |rels|
      invariant patches == Patches(v, s, rels[..k])
    {
      var patch := PatchRecord(v, s, rels[k]);
      patches := patches + [patch];
      assert rels[..k + 1][..k] == rels[..k];
    }
    assert rels[..|rels|] == rels;
  }

  // ---------- whole sections ----------

  /** Every record's target goes to the same final place either way, however its number changed. */
  ghost predicate AllConsistent(v1: View, v2: View, direct: View, rels: seq<ExtReloc>, out: seq<ExtReloc>)
    requires |rels| == |out| && forall k :: 0 <= k < |rels| ==> Sound(v1, rels[k])
  {
    forall k :: 0 <= k < |rels| ==> TargetConsistent(v1, v2, direct, rels[k], out[k].index)
  }

  lemma RewrittenKeeps(v: View, s: Placed, rel: ExtReloc, n: nat)
    requires Sound(v, rel)
    ensures Rewritten(v, s, rel, Rewritten(v, s, rel, n).index) == Rewritten(v, s, rel, n)
  {
    hide Shift, Address, Known, SectionAt;
  }

  lemma RewriteOneIs(info: Info, v: View, s: Placed, m: seq<int>, st: State, rel: ExtReloc)
    requires v.table == info.table && StateOk(info.table, st) && RelocOk(v, m, rel)
    ensures var r := RewriteOne(info, v, s, m, st, rel).1;
            r == Rewritten(v, s, rel, r.index)
  {
    hide NewIndex;
    if rel.extern && Known(v, rel).None? {
      RewrittenKeeps(v, s, rel, Cut(NewIndex(info, st, m[rel.index], v.hashes[rel.index]).1));
    } else {
      RewrittenKeeps(v, s, rel, 0);
    }
    hide Rewritten;
  }

  lemma {:induction false} RewriteAllEach(info: Info, v: View, s: Placed, m: seq<int>, st: State, rels: seq<ExtReloc>)
    requires v.table == info.table && StateOk(info.table, st) && RelocsOk(v, m, rels)
    ensures var out := RewriteAll(info, v, s, m, st, rels).1;
            forall k :: 0 <= k < |rels| ==> out[k] == Rewritten(v, s, rels[k], out[k].index)
  {
    hide RewriteOne, Rewritten, Sound;
    if rels == [] {
    } else {
      RewriteAllEach(info, v, s, m, st, rels[..|rels| - 1]);
      RewriteOneIs(info, v, s, m, RewriteAll(info, v, s, m, st, rels[..|rels| - 1]).0, rels[|rels| - 1]);
    }
  }

  /** A section put through a relocatable link and then a final one gets the patches of one direct
      final link iff every one of its records survives. */
  lemma SectionsAgree(info: Info, v1: View, s1: Placed, v2: View, s2: Placed, direct: View, sd: Placed,
                      m: seq<int>, st: State, rels: seq<ExtReloc>)
    requires v1.table == info.table && StateOk(info.table, st) && RelocsOk(v1, m, rels)
    requires Consistent(s1, s2, sd)
    requires AllConsistent(v1, v2, direct, rels, RewriteAll(info, v1, s1, m, st, rels).1)
    ensures var out := RewriteAll(info, v1, s1, m, st, rels).1;
            && (forall k :: 0 <= k < |rels| ==> Sound(v2, out[k]) && Sound(direct, rels[k]))
            && (Patches(v2, s2, out) == Patches(direct, sd, rels)
                <==> forall k :: 0 <= k < |rels| ==> Survives(v1, s1, rels[k]))
  {
    var out := RewriteAll(info, v1, s1, m, st, rels).1;
    RewriteAllEach(info, v1, s1, m, st, rels);
    hide RewriteAll, Survives, Rewritten, FinalValue, FinalPlace;
    forall k | 0 <= k < |rels|
      ensures Sound(v2, out[k]) && Sound(direct, rels[k])
      ensures FinalPlace(s2, out[k]) == FinalPlace(sd, rels[k])
      ensures FinalValue(v2, s2, out[k]) == FinalValue(direct, sd, rels[k]) <==> Survives(v1, s1, rels[k])
    {
      TwoLinksAreOne(v1, s1, v2, s2, direct, sd, rels[k], out[k].index);
    }
    var a, b := Patches(v2, s2, out), Patches(direct, sd, rels);
    if a == b {
      forall k | 0 <= k < |rels| ensures Survives(v1, s1, rels[k]) {
        assert a[k] == b[k];
      }
    }
  }

  // ---------- rewritten indices ----------

  /** A record that stays against a symbol gets the number of that symbol's record, or of the
      record of its hash entry; only a local symbol that was left out is unattached. */
  lemma NewIndexIsTrue(info: Info, rank: seq<nat>, files: seq<Input>, file: nat, p: Pass, st: State, i: nat)
    requires LinkOk(info, rank, files) && file < |files| && i < |files[file].syms|
    requires PassOk(info.table, files[file], p) && MapTrue(files[file], file, p, |files[file].syms|)
    requires StateOk(info.table, st) && IndicesTrue(st) && RecordsTrue(info, files, st) && p.st.owners <= st.owners
    requires p.symbolMap[i] >= -1
    requires p.hashes[i].Some? ==> IsReal(info.table[p.hashes[i].value])
    ensures var f := files[file];
            var h := p.hashes[i];
            var (q, n) := NewIndex(info, st, p.symbolMap[i], h);
            && IndicesTrue(q) && RecordsTrue(info, files, q) && st.owners <= q.owners
            && (if p.symbolMap[i] == -1 && h.None? then n == 0
                else
                  && 0 <= n < |q.owners|
                  && (q.owners[n] == LocalSym(file, i)
                      || (f.hashes[i].Some? && q.owners[n] == GlobalSym(f.hashes[i].value))
                      || (h.Some? && q.owners[n] == GlobalSym(h.value))))
  {
    if p.symbolMap[i] == -1 && p.hashes[i].Some? {
      ForceTrue(info, rank, files, st, p.hashes[i].value);
    }
  }
}
