/** The archive's table of opened elements, keyed by file position (bfd/archive.c). */
module ArCache {
  import opened Bytes
  import opened ArHeader
  import opened ArMapReader
  import opened Archive

  /** A thin archive's member that is an element of another archive. */
  predicate Nested(thin: bool, e: Elt) { thin && e.origin > 0 }

  /** An opened element: what its header said, and the table slot it is reachable from, if any. */
  class Element {
    const elt: Elt
    const proxyOrigin: nat
    const origin: nat
    var parent: ArchiveFile?
    var key: nat

    constructor (elt: Elt, origin: nat)
      ensures this.elt == elt && this.origin == origin && proxyOrigin == elt.data && parent == null
    {
      this.elt, this.origin, proxyOrigin := elt, origin, elt.data;
      parent, key := null, 0;
    }
  }

  class ArchiveFile {
    const file: seq<byte>
    const thin: bool
    const read: HeaderReader
    const first: nat
    var cache: map<nat, Element>
    var noElementCache: bool
    /** The elements handed out and not closed since. */
    ghost var live: set<Element>

    constructor (file: seq<byte>, thin: bool, read: HeaderReader, first: nat)
      requires GoodReader(read, file)
      ensures Valid() && cache == map[] && live == {} && !noElementCache
      ensures this.file == file && this.thin == thin && this.read == read && this.first == first
    {
      this.file, this.thin, this.read, this.first := file, thin, read, first;
      cache, noElementCache, live := map[], false, {};
    }

    /** e is what parsing the header at pos afresh would give. */
    ghost predicate Fresh(e: Element, pos: nat) {
      && read(pos) == Ok(e.elt)
      && e.proxyOrigin == e.elt.data
      && e.origin == if thin then 0 else e.elt.data
    }

    ghost predicate Linked(e: Element)
      reads this, e
    {
      e.parent == this && e.key in cache && cache[e.key] == e
    }

    ghost predicate Valid()
      reads this, live
    {
      && GoodReader(read, file)
      && (forall k :: k in cache ==> cache[k] in live && cache[k].key == k && cache[k].elt.pos == k && Linked(cache[k]))
      && (forall e :: e in live ==> Fresh(e, e.elt.pos) && !Nested(thin, e.elt) && (e.parent == null || Linked(e)))
    }

    /** Whether the element at pos can be opened: a thin archive's needs its external file, and is not nested. */
    predicate Openable(pos: nat, external: bool) {
      read(pos).Ok? && (thin ==> external) && !Nested(thin, read(pos).value)
    }

    /** _bfd_get_elt_at_filepos; `external` says whether a thin member's own file can be opened. */
    method GetEltAtFilepos(pos: nat, external: bool) returns (e: Element?)
      requires Valid()
      modifies this`cache, this`live
      ensures Valid()
      ensures e == null <==>
        pos !in old(cache) && (read(pos).Err? || (thin && (!external || read(pos).value.origin > 0)))
      ensures e == null ==> cache == old(cache) && live == old(live)
      ensures e != null ==> Fresh(e, pos) && e in live
      ensures pos in old(cache) ==> e == old(cache)[pos] && cache == old(cache) && live == old(live)
      ensures pos !in old(cache) && e != null ==> fresh(e) && live == old(live) + {e}
      ensures pos !in old(cache) && e != null ==> cache == if noElementCache then old(cache) else old(cache)[pos := e]
    {
      if pos in cache { return cache[pos]; }
      var h := read(pos);
      if h.Err? || (thin && !external) || Nested(thin, h.value) { return null; }
      e := new Element(h.value, if thin then 0 else h.value.data);
      if !noElementCache {
        cache := cache[pos := e];
        e.parent, e.key := this, pos;
      }
      live := live + {e};
    }

    /** bfd_generic_openr_next_archived_file. */
    method OpenNext(last: Element?, external: bool) returns (e: Element?)
      requires Valid() && (last != null ==> last in live)
      modifies this`cache, this`live
      ensures Valid() && old(live) <= live
      ensures (e != null ==> e in live)
      ensures var next := if last == null then Ok(first) else NextPos(thin, last.elt);
        && (next.Err? ==> e == null)
        && (next.Ok? && e != null ==> Fresh(e, next.value))
        && (next.Ok? && e == null ==> !Openable(next.value, external))
    {
      var pos := first;
      if last != null {
        pos := last.proxyOrigin;
        if !thin {
          pos := U64(pos + last.elt.size);
          pos := U64(pos + pos % 2);
          if pos < last.proxyOrigin { return null; }
        }
      }
      e := GetEltAtFilepos(pos, external);
    }

    /** _bfd_unlink_from_archive_parent, as closing an element calls it. */
    method Close(e: Element)
      requires Valid() && e in live
      modifies this`cache, this`live
      ensures Valid() && live == old(live) - {e}
      ensures cache == if e.parent == this then old(cache) - {e.key} else old(cache)
    {
      if e.parent != null {
        if e.key in cache {
          assert cache[e.key] == e; // the source's run-time assertion
          cache := cache - {e.key};
        }
      }
      live := live - {e};
    }

    /** _bfd_archive_close_and_cleanup: every cached element is closed, each once. */
    method CloseCached()
      requires Valid()
      modifies this`cache, this`live
      ensures Valid() && cache == map[]
      ensures live == set e | e in old(live) && e.parent == null
    {
      while cache != map[]
        invariant Valid() && live <= old(live)
        invariant forall e :: e in old(live) && e !in live ==> e.parent == this
        decreases |cache|
      {
        var k :| k in cache;
        Close(cache[k]);
      }
    }

    /** At most one live element is linked for each position. */
    lemma OneLiveElementPerPosition(e: Element, f: Element)
      requires Valid() && e in live && f in live && e.parent == f.parent == this
      ensures e.key == f.key <==> e == f
      ensures e.elt.pos == f.elt.pos <==> e == f
    {
    }
  }

  function Elts(es: seq<Element>): (r: seq<Elt>)
    ensures |r| == |es| && forall i :: 0 <= i < |es| ==> r[i] == es[i].elt
  {
    seq(|es|, i requires 0 <= i < |es| => es[i].elt)
  }

  lemma EltsSnoc(es: seq<Element>, e: Element)
    ensures Elts(es + [e]) == Elts(es) + [e.elt]
  {
  }

  /** What a fresh parse returns from position `next` on, if there is one. */
  ghost function WalkFrom(read: HeaderReader, thin: bool, file: seq<byte>, next: Result<nat>): seq<Elt>
    requires GoodReader(read, file)
  {
    if next.Err? then [] else Walk(read, thin, file, next.value)
  }

  /** The elements before the first that is nested, which cannot be opened here. */
  function UntilNested(thin: bool, es: seq<Elt>): seq<Elt> {
    if es == [] || Nested(thin, es[0]) then [] else [es[0]] + UntilNested(thin, es[1..])
  }

  /** Without nested members, that is all of them. */
  lemma {:induction false} NoneNested(thin: bool, es: seq<Elt>)
    requires forall e :: e in es ==> !thin || e.origin <= 0
    ensures UntilNested(thin, es) == es
  {
    if es != [] {
      NoneNested(thin, es[1..]);
      assert es == [es[0]] + es[1..];
    }
  }

  lemma WalkFromStep(read: HeaderReader, thin: bool, file: seq<byte>, next: Result<nat>, es: seq<Elt>, e: Elt)
    requires GoodReader(read, file) && next.Ok? && read(next.value) == Ok(e) && !Nested(thin, e)
    ensures es + UntilNested(thin, WalkFrom(read, thin, file, next))
      == (es + [e]) + UntilNested(thin, WalkFrom(read, thin, file, NextPos(thin, e)))
    ensures NextPos(thin, e).Ok? ==> next.value < NextPos(thin, e).value
    ensures next.value <= |file|
  {
    hide U64;
    var rest := WalkFrom(read, thin, file, NextPos(thin, e));
    assert ([e] + rest)[1..] == rest;
    Assoc(es, [e], UntilNested(thin, rest));
  }

  lemma WalkFromEnd(read: HeaderReader, thin: bool, file: seq<byte>, next: Result<nat>)
    requires GoodReader(read, file) && (next.Ok? ==> read(next.value).Err? || Nested(thin, read(next.value).value))
    ensures UntilNested(thin, WalkFrom(read, thin, file, next)) == []
  {
  }

  /** The cache refines re-reading: whatever it held before, a walk through it returns what a fresh parse would. */
  method WalkElements(a: ArchiveFile) returns (es: seq<Element>)
    requires a.Valid()
    modifies a`cache, a`live
    ensures a.Valid() && old(a.live) <= a.live
    ensures Elts(es) == UntilNested(a.thin, Walk(a.read, a.thin, a.file, a.first))
    ensures forall i :: 0 <= i < |es| ==> es[i] in a.live
  {
    hide GoodReader, Elts, Walk, NextPos, UntilNested;
    es := [];
    ghost var next: Result<nat> := Ok(a.first);
    ghost var all := UntilNested(a.thin, Walk(a.read, a.thin, a.file, a.first));
    var e := a.OpenNext(null, true);
    while e != null
      invariant a.Valid() && old(a.live) <= a.live
      invariant forall i :: 0 <= i < |es| ==> es[i] in a.live
      invariant e != null ==> next.Ok? && e in a.live && a.Fresh(e, next.value)
      invariant e == null ==> next.Ok? ==> !a.Openable(next.value, true)
      invariant a.Valid() && all == Elts(es) + UntilNested(a.thin, WalkFrom(a.read, a.thin, a.file, next))
      decreases if e == null || next.Err? then 0 else |a.file| + 1 - next.value
    {
      WalkFromStep(a.read, a.thin, a.file, next, Elts(es), e.elt);
      EltsSnoc(es, e);
      es := es + [e];
      next := NextPos(a.thin, e.elt);
      e := a.OpenNext(e, true);
    }
    WalkFromEnd(a.read, a.thin, a.file, next);
  }
}
