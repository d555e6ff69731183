/** A BFD's intrusive, doubly linked list of sections (bfd/bfd-in2.h). */
module SectionList {
  class Section {
    var next: Section?
    var prev: Section?

    constructor ()
      ensures next == null && prev == null
    {
      next, prev := null, null;
    }
  }

  // Lists ---------------------------------------------------------------------

  function Insert<T>(s: seq<T>, k: nat, x: T): (r: seq<T>)
    requires k <= |s|
    ensures |r| == |s| + 1
  {
    s[..k] + [x] + s[k..]
  }

  function Delete<T>(s: seq<T>, k: nat): (r: seq<T>)
    requires k < |s|
    ensures |r| == |s| - 1
  {
    s[..k] + s[k + 1..]
  }

  /** The position of x, or the length of s if x is not in it. */
  ghost function Find<T>(s: seq<T>, x: T): (k: nat)
    ensures k <= |s| && (k < |s| <==> x in s) && (k < |s| ==> s[k] == x)
  {
    if s == [] || s[0] == x then 0 else 1 + Find(s[1..], x)
  }

  /** The i-th section; null beyond either end. */
  ghost function At(list: seq<Section>, i: int): (s: Section?)
    ensures s != null <==> 0 <= i < |list|
    ensures s != null ==> s in list
  {
    if 0 <= i < |list| then list[i] else null
  }

  lemma AtInserted(list: seq<Section>, k: nat, s: Section, i: int)
    requires k <= |list|
    ensures At(Insert(list, k, s), i) == if i < k then At(list, i) else if i == k then s else At(list, i - 1)
  {
  }

  lemma AtDeleted(list: seq<Section>, k: nat, i: int)
    requires k < |list|
    ensures At(Delete(list, k), i) == if i < k then At(list, i) else At(list, i + 1)
  {
  }

  lemma InInserted(list: seq<Section>, k: nat, s: Section, u: Section)
    requires k <= |list|
    ensures u in Insert(list, k, s) <==> u in list || u == s
  {
    assert list == list[..k] + list[k..];
  }

  ghost predicate Distinct(list: seq<Section>) { forall i, j :: 0 <= i < j < |list| ==> At(list, i) != At(list, j) }

  lemma DistinctAt(list: seq<Section>, i: int, j: int)
    requires Distinct(list) && At(list, i) != null
    ensures At(list, i) == At(list, j) <==> i == j
  {
    if i < j {
      assert j < |list| ==> At(list, i) != At(list, j);
    } else if j < i {
      assert 0 <= j ==> At(list, j) != At(list, i);
    }
  }

  lemma DistinctInserted(list: seq<Section>, k: nat, s: Section)
    requires Distinct(list) && k <= |list| && s !in list
    ensures Distinct(Insert(list, k, s))
  {
    var r := Insert(list, k, s);
    forall i, j | 0 <= i < j < |r|
      ensures At(r, i) != At(r, j)
    {
      hide Insert, At, Distinct;
      AtInserted(list, k, s, i);
      AtInserted(list, k, s, j);
      if i != k && j != k {
        DistinctAt(list, if i < k then i else i - 1, if j < k then j else j - 1);
      }
    }
  }

  lemma InDeleted(list: seq<Section>, k: nat, u: Section)
    requires k < |list| && Distinct(list)
    ensures u in Delete(list, k) <==> u in list && u != list[k]
  {
    var d := Delete(list, k);
    if u in list && u != list[k] {
      var i := Find(list, u);
      AtDeleted(list, k, if i < k then i else i - 1);
    }
    if u in d {
      var i := Find(d, u);
      AtDeleted(list, k, i);
      DistinctAt(list, k, if i < k then i else i + 1);
    }
  }

  lemma DistinctDeleted(list: seq<Section>, k: nat)
    requires Distinct(list) && k < |list|
    ensures Distinct(Delete(list, k))
  {
    var d := Delete(list, k);
    forall i, j | 0 <= i < j < |d|
      ensures At(d, i) != At(d, j)
    {
      hide Delete, At, Distinct;
      AtDeleted(list, k, i);
      AtDeleted(list, k, j);
      DistinctAt(list, if i < k then i else i + 1, if j < k then j else j + 1);
    }
  }

  class Bfd {
    var sections: Section?
    var sectionLast: Section?
    /** The sections in the list, in order. */
    ghost var list: seq<Section>
    /** Every section that is or was in the list: those taken out keep their stale pointers. */
    ghost var known: set<Section>

    /** The i-th section points to its neighbours. */
    ghost predicate Linked(i: int)
      reads this, known
    {
      var s := At(list, i);
      s != null ==> s in known && s.next == At(list, i + 1) && s.prev == At(list, i - 1)
    }

    /** A section outside the list does not look as if it were in it. */
    ghost predicate Detached(s: Section)
      requires s in known
      reads this, known
    {
      s.next != null ==> s.next in known && (s !in list ==> s.next.prev != s)
    }

    ghost predicate Valid()
      reads this, known
    {
      && Distinct(list) && sections == At(list, 0) && sectionLast == At(list, |list| - 1)
      && (forall i :: Linked(i))
      && (forall s {:trigger Detached(s)} :: s in known ==> Detached(s))
    }

    constructor ()
      ensures Valid() && list == [] && known == {}
    {
      sections, sectionLast, list, known := null, null, [], {};
    }

    /** In known sections other than s, only x's next and y's prev changed. */
    twostate predicate Rewired(new s: Section, new x: Section?, new xn: Section?, new y: Section?, new yp: Section?)
      reads this, known
    {
      && known == old(known) + {s}
      && (forall u :: u in old(known) && u != s ==>
            u.next == (if u == x then xn else old(u.next)) && u.prev == (if u == y then yp else old(u.prev)))
    }

    twostate predicate Deleted(k: nat)
      reads this, known
    {
      && k < |old(list)| && list == Delete(old(list), k)
      && var s := old(list)[k];
      && Rewired(s, At(old(list), k as int - 1), At(old(list), k + 1), At(old(list), k + 1),
        At(old(list), k as int - 1))
      && s in known && s.next == old(s.next) && s.prev == old(s.prev)
    }

    twostate lemma DeletedLinked(k: nat)
      requires old(Valid()) && Deleted(k)
      ensures forall i :: Linked(i)
    {
      var was, s := old(list), old(list)[k];
      assert At(was, k) == s;
      forall i ensures Linked(i) {
        hide At, Delete, Distinct;
        var j := if i < k then i else i + 1;
        assert old(Linked(j));
        AtDeleted(was, k, i - 1);
        AtDeleted(was, k, i);
        AtDeleted(was, k, i + 1);
        if 0 <= j < |was| {
          DistinctAt(was, j, k);
          DistinctAt(was, j, k + 1);
          DistinctAt(was, j, k as int - 1);
        }
      }
    }

    twostate lemma DeletedDetached(k: nat)
      requires old(Valid()) && Deleted(k)
      ensures forall u {:trigger Detached(u)} :: u in known ==> Detached(u)
    {
      var was, s := old(list), old(list)[k];
      assert At(was, k) == s;
      assert old(Linked(k)) && old(Linked(k as int - 1)) && old(Linked(k + 1));
      DistinctAt(was, k, k + 1);
      DistinctAt(was, k, k as int - 1);
      if k > 0 { InDeleted(was, k, was[k - 1]); }
      hide Delete, Distinct;
      forall u | u in known ensures Detached(u) {
        assert old(Detached(u));
        InDeleted(was, k, u);
      }
    }

    /** What a section of the list points to. */
    lemma Around(s: Section)
      requires Valid() && s in list
      ensures var k := Find(list, s);
        && s in known && s.next == At(list, k + 1) && s.prev == At(list, k as int - 1) && At(list, k) == s
        && s.next != s && s.prev != s && (s.next != null ==> s.next in known) && (s.prev != null ==> s.prev in known)
    {
      var k: int := Find(list, s);
      assert At(list, k) == s;
      assert Linked(k) && Linked(k - 1) && Linked(k + 1);
      DistinctAt(list, k, k + 1);
      DistinctAt(list, k, k - 1);
    }

    twostate predicate Inserted(k: nat)
      reads this, known, list
    {
      && k <= |old(list)| && k < |list| && list == Insert(old(list), k, list[k])
      && var s, n, p := list[k], At(old(list), k), At(old(list), k as int - 1);
      && s !in old(list) && s.next == n && s.prev == p
      && Rewired(s, p, s, n, s)
    }

    twostate lemma InsertedLinked(k: nat)
      requires old(Valid()) && Inserted(k)
      ensures forall i :: Linked(i)
    {
      var was, s := old(list), list[k];
      forall i ensures Linked(i) {
        hide At, Insert, Distinct;
        var j := if i < k then i else i - 1;
        assert old(Linked(j));
        AtInserted(was, k, s, i - 1);
        AtInserted(was, k, s, i);
        AtInserted(was, k, s, i + 1);
        if 0 <= j < |was| {
          DistinctAt(was, j, k);
          DistinctAt(was, j, k as int - 1);
        }
      }
    }

    twostate lemma InsertedDetached(k: nat)
      requires old(Valid()) && Inserted(k)
      ensures forall u {:trigger Detached(u)} :: u in known ==> Detached(u)
    {
      var was, s := old(list), list[k];
      assert old(Linked(k)) && old(Linked(k as int - 1));
      if k > 0 { InInserted(was, k, s, was[k - 1]); }
      hide Insert, Distinct;
      forall u | u in known ensures Detached(u) {
        assert u in old(known) ==> old(Detached(u));
        InInserted(was, k, s, u);
      }
    }

    /** The new list's two ends. */
    lemma InsertedEnds(was: seq<Section>, k: nat, s: Section)
      requires Distinct(was) && k <= |was| && s !in was
      ensures var r := Insert(was, k, s);
        && Distinct(r) && r[k] == s
        && At(r, 0) == (if k == 0 then s else At(was, 0))
        && At(r, |r| - 1) == (if k == |was| then s else At(was, |was| - 1))
    {
      DistinctInserted(was, k, s);
    }

    /** bfd_section_removed_from_list: by the pointers alone, and true exactly of the sections no longer in the list. */
    method RemovedFromList(s: Section) returns (r: bool)
      requires Valid() && s in known
      ensures r <==> s !in list
    {
      ghost var k := Find(list, s);
      assert k < |list| ==> At(list, k) == s;
      assert Linked(k) && Linked(k + 1) && Detached(s);
      r := if s.next != null then s.next.prev != s else sectionLast != s;
      assert list != [] ==> sectionLast in list;
    }

    method Remove(s: Section)
      requires Valid() && s in list
      modifies this, known
      ensures Valid() && known == old(known)
      ensures list == Delete(old(list), Find(old(list), s)) && s !in list
      ensures s.next == old(s.next) && s.prev == old(s.prev)
    {
      hide Delete, Distinct, Find, At, Linked, Detached;
      ghost var k: int := Find(list, s);
      Around(s);
      DistinctDeleted(list, k);
      InDeleted(list, k, s);
      AtDeleted(list, k, 0);
      AtDeleted(list, k, |list| - 2);
      var next, prev := s.next, s.prev;
      if prev != null { prev.next := next; } else { sections := next; }
      if next != null { next.prev := prev; } else { sectionLast := prev; }
      list := Delete(list, k);
      DeletedLinked(k);
      DeletedDetached(k);
    }

    method Append(s: Section)
      requires Valid() && s !in list
      modifies this, known, s
      ensures Valid() && list == old(list) + [s] && known == old(known) + {s}
    {
      ghost var k := |list|;
      assert Insert(list, k, s) == list + [s];
      assert Linked(k - 1);
      InsertedEnds(list, k, s);
      hide Insert, Distinct;
      s.next := null;
      if sectionLast != null {
        s.prev := sectionLast;
        sectionLast.next := s;
      } else {
        s.prev := null;
        sections := s;
      }
      sectionLast := s;
      list, known := list + [s], known + {s};
      InsertedLinked(k);
      InsertedDetached(k);
    }

    method Prepend(s: Section)
      requires Valid() && s !in list
      modifies this, known, s
      ensures Valid() && list == [s] + old(list) && known == old(known) + {s}
    {
      assert Insert(list, 0, s) == [s] + list;
      assert Linked(0);
      InsertedEnds(list, 0, s);
      hide Insert, Distinct;
      s.prev := null;
      if sections != null {
        s.next := sections;
        sections.prev := s;
      } else {
        s.next := null;
        sectionLast := s;
      }
      sections := s;
      list, known := [s] + list, known + {s};
      InsertedLinked(0);
      InsertedDetached(0);
    }

    method InsertAfter(a: Section, s: Section)
      requires Valid() && a in list && s !in list
      modifies this, known, s
      ensures Valid() && list == Insert(old(list), Find(old(list), a) + 1, s) && known == old(known) + {s}
    {
      hide Insert, Distinct, Find, At, Linked, Detached;
      ghost var k := Find(list, a);
      Around(a);
      InsertedEnds(list, k + 1, s);
      var next := a.next;
      s.next := next;
      s.prev := a;
      a.next := s;
      if next != null { next.prev := s; } else { sectionLast := s; }
      list, known := Insert(list, k + 1, s), known + {s};
      assert Rewired(s, a, s, next, s);
      InsertedLinked(k + 1);
      InsertedDetached(k + 1);
    }

    method InsertBefore(b: Section, s: Section)
      requires Valid() && b in list && s !in list
      modifies this, known, s
      ensures Valid() && list == Insert(old(list), Find(old(list), b), s) && known == old(known) + {s}
    {
      hide Insert, Distinct, Find, At, Linked, Detached;
      ghost var k: int := Find(list, b);
      Around(b);
      InsertedEnds(list, k, s);
      var prev := b.prev;
      s.prev := prev;
      s.next := b;
      b.prev := s;
      if prev != null { prev.next := s; } else { sections := s; }
      list, known := Insert(list, k, s), known + {s};
      assert Rewired(s, prev, s, b, s);
      InsertedLinked(k);
      InsertedDetached(k);
    }
  }
}
