/** The doubly linked section lists of BFDs, and the test whether a section was removed from one,
    which looks at pointers that removal leaves behind. */
module SectionList {

  class Section {
    var next: Section?
    var prev: Section?
    // The BFD whose list the section is on now.
    ghost var home: Bfd?

    constructor ()
      ensures home == null
    {
      next, prev, home := null, null, null;
    }
  }

  ghost function Some(s: Section?): set<Section> {
    if s == null then {} else {s}
  }

  ghost function Without(list: seq<Section>, k: nat): seq<Section>
    requires k < |list|
  {
    list[..k] + list[k + 1..]
  }

  ghost function With(list: seq<Section>, k: nat, s: Section): seq<Section>
    requires k <= |list|
  {
    list[..k] + [s] + list[k..]
  }

  ghost predicate Distinct(list: seq<Section>) {
    forall i, j :: 0 <= i < j < |list| ==> list[i] != list[j]
  }

  lemma WithoutFacts(list: seq<Section>, k: nat)
    requires k < |list| && Distinct(list)
    ensures Distinct(Without(list, k))
    ensures |Without(list, k)| == |list| - 1
    ensures forall i :: 0 <= i < |list| - 1 ==> Without(list, k)[i] == list[if i < k then i else i + 1]
    ensures forall t :: t in Without(list, k) <==> t in list && t != list[k]
  {
    forall t | t in list && t != list[k] ensures t in Without(list, k) {
      var i :| 0 <= i < |list| && list[i] == t;
      assert Without(list, k)[if i < k then i else i - 1] == t;
    }
  }

  lemma WithFacts(list: seq<Section>, k: nat, s: Section)
    requires k <= |list| && Distinct(list) && s !in list
    ensures Distinct(With(list, k, s))
    ensures |With(list, k, s)| == |list| + 1
    ensures With(list, k, s)[k] == s
    ensures forall i {:trigger With(list, k, s)[i]} :: 0 <= i < k ==> With(list, k, s)[i] == list[i]
    ensures forall i {:trigger With(list, k, s)[i]} :: k < i <= |list| ==> With(list, k, s)[i] == list[i - 1]
    ensures forall t :: t in With(list, k, s) <==> t in list || t == s
  {
    assert With(list, k, s)[k] == s;
    forall t | t in list ensures t in With(list, k, s) {
      var i :| 0 <= i < |list| && list[i] == t;
      assert With(list, k, s)[if i < k then i else i + 1] == t;
    }
  }

  class Bfd {
    var sections: Section?
    var sectionLast: Section?
    ghost var list: seq<Section>

    constructor ()
      ensures list == [] && Linked()
    {
      sections, sectionLast, list := null, null, [];
    }

    /** The pointers run through the list in both directions. */
    ghost predicate Linked()
      reads this, list
    {
      && sections == (if list == [] then null else list[0])
      && sectionLast == (if list == [] then null else list[|list| - 1])
      && (list != [] ==> list[0].prev == null && list[|list| - 1].next == null)
      && (forall i, j {:trigger list[i], list[j]} :: 0 <= i < |list| && 0 <= j < |list| && j == i + 1 ==>
            list[i].next == list[j] && list[j].prev == list[i])
      && Distinct(list)
    }

    lemma Neighbours(k: nat)
      requires Linked() && k < |list|
      ensures list[k].next == (if k + 1 < |list| then list[k + 1] else null)
      ensures list[k].prev == (if k > 0 then list[k - 1] else null)
      ensures list[k].next != list[k] && list[k].prev != list[k]
    {
      assert k + 1 < |list| ==> list[k].next == list[k + 1];
      assert k > 0 ==> list[k].prev == list[k - 1];
    }

    lemma Near(k: nat)
      requires Linked() && k < |list|
      ensures list[k].next == null || list[k].next in list
      ensures list[k].prev == null || list[k].prev in list
      ensures list[k].prev != list[k] && list[k].next != list[k]
    {
      Neighbours(k);
    }

    lemma Ends()
      requires Linked()
      ensures sections != null ==> sections in list
      ensures sectionLast != null ==> sectionLast in list
    {
    }

    method Remove(s: Section, ghost k: nat)
      requires Linked() && k < |list| && list[k] == s
      modifies this, s`home, Some(s.prev)`next, Some(s.next)`prev
      ensures Linked() && list == Without(old(list), k) && s.home == null
      ensures forall t :: t in list <==> t in old(list) && t != s
      ensures s.next == old(s.next) && s.prev == old(s.prev)
      ensures (s.next != null ==> s.next.prev == s.prev) && (s.prev != null ==> s.prev.next == s.next)
    {
      ghost var was := list;
      WithoutFacts(list, k);
      hide Without;
      Neighbours(k);
      var next := s.next;
      var prev := s.prev;
      if prev != null {
        prev.next := next;
      } else {
        sections := next;
      }
      if next != null {
        next.prev := prev;
      } else {
        sectionLast := prev;
      }
      list := Without(list, k);
      s.home := null;
    }

    method Append(s: Section)
      requires Linked() && s !in list
      modifies this, s, Some(sectionLast)`next
      ensures Linked() && list == With(old(list), |old(list)|, s) && s.home == this
      ensures forall t :: t in list <==> t in old(list) || t == s
      ensures s.next == null && s.prev == old(sectionLast)
      ensures s.prev != null ==> s.prev.next == s
    {
      WithFacts(list, |list|, s);
      hide With;
      s.next := null;
      if sectionLast != null {
        s.prev := sectionLast;
        sectionLast.next := s;
      } else {
        s.prev := null;
        sections := s;
      }
      sectionLast := s;
      list := With(list, |list|, s);
      s.home := this;
    }

    method Prepend(s: Section)
      requires Linked() && s !in list
      modifies this, s, Some(sections)`prev
      ensures Linked() && list == With(old(list), 0, s) && s.home == this
      ensures forall t :: t in list <==> t in old(list) || t == s
      ensures s.next == old(sections) && s.prev == null
      ensures s.next != null ==> s.next.prev == s
    {
      WithFacts(list, 0, s);
      hide With;
      s.prev := null;
      if sections != null {
        s.next := sections;
        sections.prev := s;
      } else {
        s.next := null;
        sectionLast := s;
      }
      sections := s;
      list := With(list, 0, s);
      s.home := this;
    }

    method InsertAfter(a: Section, s: Section, ghost p: nat)
      requires Linked() && s !in list && 0 < p <= |list| && list[p - 1] == a
      modifies this, s, a`next, Some(a.next)`prev
      ensures Linked() && list == With(old(list), p, s) && s.home == this
      ensures forall t :: t in list <==> t in old(list) || t == s
      ensures s.prev == a && a.next == s && s.next == old(a.next) && (s.next != null ==> s.next.prev == s)
    {
      WithFacts(list, p, s);
      Neighbours(p - 1);
      hide With;
      var next := a.next;
      s.next := next;
      s.prev := a;
      a.next := s;
      if next != null {
        next.prev := s;
      } else {
        sectionLast := s;
      }
      list := With(list, p, s);
      s.home := this;
    }

    method InsertBefore(b: Section, s: Section, ghost k: nat)
      requires Linked() && s !in list && k < |list| && list[k] == b
      modifies this, s, b`prev, Some(b.prev)`next
      ensures Linked() && list == With(old(list), k, s) && s.home == this
      ensures forall t :: t in list <==> t in old(list) || t == s
      ensures s.next == b && b.prev == s && s.prev == old(b.prev) && (s.prev != null ==> s.prev.next == s)
    {
      WithFacts(list, k, s);
      Neighbours(k);
      hide With;
      var prev := b.prev;
      s.prev := prev;
      s.next := b;
      b.prev := s;
      if prev != null {
        prev.next := s;
      } else {
        sections := s;
      }
      list := With(list, k, s);
      s.home := this;
    }

    /** The removal test: it looks at the section's stale next pointer. */
    predicate RemovedFromList(s: Section)
      reads this, s, s.next
    {
      if s.next != null then s.next.prev != s else sectionLast != s
    }
  }

  /** All BFDs, and all sections that were ever on a list. */
  class World {
    ghost var bfds: set<Bfd>
    ghost var ever: set<Section>

    constructor ()
      ensures Valid() && bfds == {} && ever == {}
    {
      bfds, ever := {}, {};
    }

    ghost predicate Valid()
      reads this, bfds, ever
    {
      && (forall b, s :: b in bfds && s in b.list ==> s in ever && s.home == b)
      && (forall b :: b in bfds ==> b.Linked())
      && (forall s :: s in ever && s.home != null ==> s.home in bfds && s in s.home.list)
      && (forall s :: s in ever && s.next != null ==> s.next in ever)
      && (forall s :: s in ever && s.home == null && s.next != null ==> s.next.prev != s)
    }

    method Open(b: Bfd)
      requires Valid() && b !in bfds && b.list == [] && b.Linked()
      modifies this
      ensures Valid() && bfds == old(bfds) + {b} && ever == old(ever)
    {
      bfds := bfds + {b};
    }

    method Remove(b: Bfd, s: Section, ghost k: nat)
      requires Valid() && b in bfds && k < |b.list| && b.list[k] == s
      modifies b, ever
      ensures Valid() && b.list == Without(old(b.list), k) && s.home == null
      ensures forall c :: c in bfds && c != b ==> c.list == old(c.list)
    {
      hide Bfd.Linked, Without;
      b.Near(k);
      ghost var touched := {s} + Some(s.prev) + Some(s.next);
      assert forall t :: t in touched ==> t.home == b;
      b.Remove(s, k);
      forall c | c in bfds && c != b ensures c.Linked() {
        assert old(c.Linked());
        assert forall t :: t in c.list ==> t !in touched;
      }
    }

    method Append(b: Bfd, s: Section)
      requires Valid() && b in bfds && s.home == null
      modifies this`ever, b, ever, s
      ensures Valid() && bfds == old(bfds) && ever == old(ever) + {s} && b.list == With(old(b.list), |old(b.list)|, s)
      ensures forall c :: c in bfds && c != b ==> c.list == old(c.list)
    {
      hide Bfd.Linked, With;
      b.Ends();
      ghost var touched := {s} + Some(b.sectionLast);
      assert forall t :: t in touched ==> t.home == b || t == s;
      b.Append(s);
      ever := ever + {s};
      forall c | c in bfds && c != b ensures c.Linked() {
        assert old(c.Linked());
        assert forall t :: t in c.list ==> t !in touched;
      }
    }

    method Prepend(b: Bfd, s: Section)
      requires Valid() && b in bfds && s.home == null
      modifies this`ever, b, ever, s
      ensures Valid() && bfds == old(bfds) && ever == old(ever) + {s} && b.list == With(old(b.list), 0, s)
      ensures forall c :: c in bfds && c != b ==> c.list == old(c.list)
    {
      hide Bfd.Linked, With;
      b.Ends();
      ghost var touched := {s} + Some(b.sections);
      assert forall t :: t in touched ==> t.home == b || t == s;
      b.Prepend(s);
      ever := ever + {s};
      forall c | c in bfds && c != b ensures c.Linked() {
        assert old(c.Linked());
        assert forall t :: t in c.list ==> t !in touched;
      }
    }

    method InsertAfter(b: Bfd, a: Section, s: Section, ghost p: nat)
      requires Valid() && b in bfds && s.home == null && 0 < p <= |b.list| && b.list[p - 1] == a
      modifies this`ever, b, ever, s
      ensures Valid() && bfds == old(bfds) && ever == old(ever) + {s} && b.list == With(old(b.list), p, s)
      ensures forall c :: c in bfds && c != b ==> c.list == old(c.list)
    {
      hide Bfd.Linked, With;
      b.Near(p - 1);
      ghost var touched := {s} + {a} + Some(a.next);
      assert forall t :: t in touched ==> t.home == b || t == s;
      b.InsertAfter(a, s, p);
      ever := ever + {s};
      forall c | c in bfds && c != b ensures c.Linked() {
        assert old(c.Linked());
        assert forall t :: t in c.list ==> t !in touched;
      }
    }

    method InsertBefore(b: Bfd, c: Section, s: Section, ghost k: nat)
      requires Valid() && b in bfds && s.home == null && k < |b.list| && b.list[k] == c
      modifies this`ever, b, ever, s
      ensures Valid() && bfds == old(bfds) && ever == old(ever) + {s} && b.list == With(old(b.list), k, s)
      ensures forall d :: d in bfds && d != b ==> d.list == old(d.list)
    {
      hide Bfd.Linked, With;
      b.Near(k);
      ghost var touched := {s} + {c} + Some(c.prev);
      assert forall t :: t in touched ==> t.home == b || t == s;
      b.InsertBefore(c, s, k);
      ever := ever + {s};
      forall d | d in bfds && d != b ensures d.Linked() {
        assert old(d.Linked());
        assert forall t :: t in d.list ==> t !in touched;
      }
    }

    /** For every section that was ever on a list, the removal test of a BFD is true iff the section is not on
        that BFD's list now, however its old neighbours moved since; unless it is on another
        BFD's list and not the last there. */
    lemma RemovalTestIsExact(b: Bfd, s: Section)
      requires Valid() && b in bfds && s in ever
      ensures b.RemovedFromList(s) <==> s !in b.list && !(s.home != null && s.home != b && s != s.home.sectionLast)
    {
      if s.home != null {
        var c := s.home;
        var k :| 0 <= k < |c.list| && c.list[k] == s;
        c.Neighbours(k);
        assert k + 1 < |c.list| ==> s.next.prev == s && c.list[|c.list| - 1] != s;
        if s.next == null && c != b && b.sectionLast != null {
          assert b.sectionLast in b.list;
        }
      } else if b.sectionLast != null {
        assert b.sectionLast in b.list;
      }
    }
  }

  /** How the test is fooled: a section is removed from one BFD and appended to another, and a second one behind it. */
  method MoveBefore(w: World, b: Bfd, c: Bfd, s: Section, u: Section)
    requires w.Valid() && b in w.bfds && c in w.bfds && b != c && s != u
    requires b.list == [s] && c.list == [] && u !in w.ever && u.home == null
    modifies w`ever, b, c, w.ever, s, u
    ensures w.Valid() && b in w.bfds && s in w.ever && s !in b.list && !b.RemovedFromList(s)
  {
    hide Bfd.Linked, World.Valid;
    SectionIsKnown(w, b, s);
    w.Remove(b, s, 0);
    w.Append(c, s);
    w.Append(c, u);
    assert b.list == [] && c.list == [s, u];
    SectionIsKnown(w, c, s);
    LastOf(w, c);
    w.RemovalTestIsExact(b, s);
  }

  lemma SectionIsKnown(w: World, b: Bfd, s: Section)
    requires w.Valid() && b in w.bfds && s in b.list
    ensures s in w.ever && s.home == b
  {
  }

  lemma LastOf(w: World, b: Bfd)
    requires w.Valid() && b in w.bfds && b.list != []
    ensures b.sectionLast == b.list[|b.list| - 1]
  {
    b.Ends();
  }

  /** And it is fooled. */
  method RemovalTestFails() returns (w: World, b: Bfd, s: Section)
    ensures fresh(w) && w.Valid() && b in w.bfds && s in w.ever && s !in b.list && !b.RemovedFromList(s)
  {
    hide Bfd.Linked, World.Valid;
    w := new World();
    b := new Bfd();
    var c := new Bfd();
    w.Open(b);
    w.Open(c);
    s := new Section();
    w.Append(b, s);
    var u := new Section();
    MoveBefore(w, b, c, s, u);
  }
}
