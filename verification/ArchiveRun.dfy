/** Writing an archive and reading it again, by the code that does it (bfd/archive.c). */
module ArchiveRun {
  import opened Bytes
  import opened ArHeader
  import opened ArMap
  import opened ArMapWriter
  import opened Archive
  import opened ArchiveOpen
  import opened ArchiveMain
  import opened ArWriter

  /** Members, symbols and target that the format can hold. */
  ghost predicate Holdable(kind: MapKind, t: Target, thin: bool, ms: seq<Member>, syms: seq<seq<Symbol>>,
      stat: seq<byte>) {
    && ValidTarget(t) && Named(t, ms) && |syms| == |ms| && |stat| == 32
    && var map0 := Collected(syms, |syms|, 0);
      && Writable(t, thin, ms, map0, stat) && Members(Shapes(t, ms), map0)
      && |ArchiveBytes(t, thin, ms, Armap(kind, t, thin, ms, map0, stat))| < TWO64 / 2
  }

  /** Then every size fits its header field. */
  lemma AllSizesFit(t: Target, thin: bool, ms: seq<Member>, map0: seq<Orl>, stat: seq<byte>)
    requires Writable(t, thin, ms, map0, stat)
    ensures AllFit(t, ms) && SizeFits(Even(|NameTable(t, thin, ms)|))
  {
    hide NameTable, SizeFits, Decimal;
    forall i | 0 <= i < |ms| ensures SizeFits(|ms[i].contents|) {
      SizeFitsIff(|ms[i].contents|);
      SizeFitsIff(|ms[i].contents| + Extra(t, ms[i].name));
    }
    SizeFitsIff(Even(|NameTable(t, thin, ms)|));
  }

  /** Write, open, walk: the writer succeeds, the elements found are the members written, and the map leads to them. */
  method WriteThenRead(kind: MapKind, t: Target, thin: bool, ms: seq<Member>, syms: seq<seq<Symbol>>, stat: seq<byte>)
      returns (written: Result<seq<byte>>, ar: Result<ArData>, es: seq<Elt>)
    requires Holdable(kind, t, thin, ms, syms, stat)
    ensures written.Ok?
    ensures
      && ar.Ok? && ar.value.thin == thin && |es| == |ms|
      && (forall i :: 0 <= i < |ms| ==> MemberIsBack(written.value, thin, ms[i], es[i]))
      && RestIsBack(written.value, kind, ar.value, NameTable(t, thin, ms), Collected(syms, |syms|, 0), stat)
      && (kind != NoMap ==>
            && ar.value.armap.Some? && |ar.value.armap.value.symdefs| == |Collected(syms, |syms|, 0)|
            && forall j :: 0 <= j < |Collected(syms, |syms|, 0)| ==>
              && ar.value.armap.value.symdefs[j].name == Collected(syms, |syms|, 0)[j].name
              && Collected(syms, |syms|, 0)[j].member < |es|
              && (Reader(t, thin, written.value, ar.value.names)(ar.value.armap.value.symdefs[j].offset)
                  == Ok(es[Collected(syms, |syms|, 0)[j].member]) <==>
                  Leads(kind, t, thin, ms, Collected(syms, |syms|, 0), j)))
  {
    hide Writable, Leads, Armap, ArchiveBytes, NameTable, Collected, Walk, OpenArchive, MemberIsBack, RestIsBack,
      GoodMap, AllFit,
      SizeFits;
    ghost var map0 := Collected(syms, |syms|, 0);
    AllSizesFit(t, thin, ms, map0, stat);
    written := WriteArchive(kind, t, thin, ms, syms, stat);
    ArchiveRoundTrips(kind, t, thin, ms, map0, stat);
    ar := OpenArchiveFile(t, written.value);
    es := WalkArchive(Reader(t, thin, written.value, ar.value.names), thin, written.value, ar.value.first);
  }
}
