/** Maps that this writer never emits but the reader knows: those of PE and of sorted Mach-O archives. */
module ArchiveForeign {
  import opened Bytes
  import opened ArHeader
  import opened ArMap
  import opened ArMapReader
  import opened ArMapRoundTrip
  import opened Archive
  import opened ArchiveOpen
  import opened ArchiveTheorem

  /**
   * PE archives have a second "/" member after the System 5 map: the symbols are those of the first one, and the
   * archive goes on after the second one and its padding.
   */
  lemma SecondMapSkipped(read: HeaderReader, big: bool, file: seq<byte>, plan: Plan, stat: seq<byte>,
                         offsets: seq<nat>, map0: seq<Orl>, stat2: seq<byte>, size2: nat)
    requires ReadsHeaders(read, file) && |stat| == |stat2| == 32 && |offsets| == |map0| && CleanNames(map0)
    requires AllBelow(offsets, TWO32) && size2 + HDR + 1 < TWO32
    requires plan.mapsize == |Strings(map0)| + 4 * |map0| + 4 + plan.padding < TWO32 && plan.mapsize % 2 == 0
    requires At(file, SARMAG, WordMap(4, [SLASH], plan, stat, offsets, Strings(map0)))
    requires At(file, SARMAG + HDR + plan.mapsize, Header(Field([SLASH]), stat2, size2))
    ensures SlurpArmap(read, big, file, SARMAG) ==
      Ok(Some(MapData(Carsyms(map0, offsets), SARMAG + HDR + plan.mapsize + HDR + size2 + size2 % 2)))
  {
    hide ReadsHeaders, CleanNames, Strings, WordMap, Header, WordMapBodyAt, SlurpArmap, Carsyms, Pow256, CoffBody, At,
      Even, Odd, U32, SkipSecondMap;
    var second := SARMAG + HDR + plan.mapsize;
    EvenIs(second);
    WordMapPieces(4, [SLASH], file, SARMAG, plan, stat, offsets, Strings(map0));
    var h := MapHeaderIs(read, file, SARMAG, [SLASH], stat, plan.mapsize);
    WordSizes();
    assert |map0| < Pow256(4);
    CoffBodyBack(h, file, offsets, map0, Repeat(NUL, plan.padding));
    var h2 := MapHeaderIs(read, file, second, [SLASH], stat2, size2);
    SkipsTo(h2, file, second);
    CoffDispatch(read, big, file, MapData(Carsyms(map0, offsets), second + HDR + size2 + size2 % 2));
  }

  lemma SkipsTo(h: Elt, file: seq<byte>, p: nat)
    requires p + NAMELEN <= |file| && file[p..p + NAMELEN] == Field([SLASH]) && h.size + HDR + 1 < TWO32
    ensures SkipSecondMap(Ok(h), file, p) == p + HDR + h.size + h.size % 2
  {
    hide U32;
    assert file[p] == Field([SLASH])[0] && file[p + 1] == Field([SLASH])[1];
    U32Small(h.size + HDR + 1);
  }

  /** The header field of a map named "__.SYMDEF SORTED": the name follows, in twenty bytes. */
  function SortedField(): seq<byte> { Field(BSD44_PREFIX + Decimal(20)) }

  /** A Berkeley map under such a header is found and read back, and the archive goes on after it. */
  lemma SortedMapFound(t: Target, thin: bool, file: seq<byte>, plan: Plan, stat: seq<byte>, name: seq<byte>,
                       rs: seq<Ranlib>, offsets: seq<nat>, map0: seq<Orl>, members: nat)
    requires ValidTarget(t) && |stat| == 32 && RANLIBMAG <= name && NUL !in name && |name| <= 20
    requires |rs| == |map0| == |offsets| && GoodMap(map0, members) && CleanNames(map0)
    requires forall k :: 0 <= k < |rs| ==>
      rs[k] == Ranlib(map0[k].namidx, offsets[k]) && rs[k].namidx < TWO32 && rs[k].offset < TWO32
    requires plan.mapsize == |Strings(map0)| + 8 * |map0| + 8 + plan.padding && plan.mapsize + 20 < TWO32
    requires At(file, SARMAG, Header(SortedField(), stat, plan.mapsize + 20))
    requires At(file, SARMAG + HDR, name + Repeat(NUL, 20 - |name|))
    requires BsdMapBodyAt(t.big, file, SARMAG + HDR + 20, rs, Strings(map0) + Repeat(NUL, plan.padding))
    ensures SlurpArmap(Reader(t, thin, file, None), t.big, file, SARMAG) ==
      Ok(Some(MapData(Carsyms(map0, offsets), Even(SARMAG + HDR + 20 + plan.mapsize))))
  {
    hide GoodMap, CleanNames, Strings, Carsyms, BsdMapBodyAt, BsdBody, Header, ReadHeader, SlurpArmap, Decimal;
    var read := Reader(t, thin, file, None);
    var h := Elt(name, plan.mapsize, 20, 0, SARMAG, SARMAG + HDR + 20);
    SizeFitsIff(plan.mapsize + 20);
    SortedFieldIs(t);
    ReadBsd44(t, thin, file, SARMAG, None, name, 20, stat, plan.mapsize);
    BsdBodyBack(h, file, t.big, plan, rs, offsets, map0, members);
    assert BsdSlurp(read, t.big, file, SARMAG)
      == Ok(MapData(Carsyms(map0, offsets), Even(SARMAG + HDR + 20 + plan.mapsize)));
    SortedName(file, stat, plan.mapsize + 20, name);
    SortedDispatch(read, t.big, file, MapData(Carsyms(map0, offsets), Even(SARMAG + HDR + 20 + plan.mapsize)));
  }

  lemma SortedFieldIs(t: Target)
    requires ValidTarget(t)
    ensures SortedField() == Bsd44Field(t, 20) && |SortedField()| == NAMELEN
  {
    assert Decimal(20) == [50, 48] by { assert Decimal(2) == [50]; }
  }

  lemma SortedName(file: seq<byte>, stat: seq<byte>, size: nat, name: seq<byte>)
    requires |stat| == 32 && RANLIBMAG <= name && |name| <= 20 && |SortedField()| == NAMELEN
    requires At(file, SARMAG, Header(SortedField(), stat, size))
    requires At(file, SARMAG + HDR, name + Repeat(NUL, 20 - |name|))
    ensures SARMAG + HDR + 20 <= |file| && file[SARMAG..SARMAG + NAMELEN] == SortedField()
    ensures file[SARMAG + HDR..SARMAG + HDR + |RANLIBMAG|] == RANLIBMAG
  {
    hide Decimal;
    var h := Header(SortedField(), stat, size);
    assert file[SARMAG..SARMAG + NAMELEN] == file[SARMAG..SARMAG + |h|][..16];
    var s := name + Repeat(NUL, 20 - |name|);
    assert s[..|RANLIBMAG|] == RANLIBMAG;
    assert file[SARMAG + HDR..SARMAG + HDR + |RANLIBMAG|] == file[SARMAG + HDR..SARMAG + HDR + |s|][..|RANLIBMAG|];
  }

  lemma SortedDispatch(read: HeaderReader, big: bool, file: seq<byte>, m: MapData)
    requires SARMAG + HDR + 20 <= |file| && file[SARMAG..SARMAG + NAMELEN] == SortedField()
    requires file[SARMAG + HDR..SARMAG + HDR + |RANLIBMAG|] == RANLIBMAG
    requires BsdSlurp(read, big, file, SARMAG) == Ok(m)
    ensures SlurpArmap(read, big, file, SARMAG) == Ok(Some(m))
  {
    hide BsdSlurp, CoffSlurp, Sym64Slurp;
    TableFieldsDiffer(SortedField());
  }
}
