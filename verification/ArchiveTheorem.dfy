/** The end-to-end theorem about written archives. */
module ArchiveTheorem {
  import opened Bytes
  import opened ArHeader
  import opened ArNames
  import opened ArMap
  import opened ArMapReader
  import opened ArMapRoundTrip
  import opened Archive
  import opened ArchiveRoundTrip
  import opened ArchiveOpen

  // What follows the map ------------------------------------------------------

  function Rest(t: Target, thin: bool, ms: seq<Member>): seq<byte>
    requires ValidTarget(t) && ValidMembers(ms)
  {
    TableBytes(t, NameTable(t, thin, ms)) + MembersBytes(t, thin, ms)
  }

  lemma NoTableMeansShort(t: Target, thin: bool, ms: seq<Member>, i: nat)
    requires ValidTarget(t) && i < |ms| && NameTable(t, thin, ms) == [] && t.style != Bsd44
    ensures !thin && |ms[i].name| <= t.maxName
  {
    EmptyTable(t, thin, NamesOf(ms), Same());
    assert !OwnEntry(t, thin, NamesOf(ms), Same(), i);
  }

  /** Without a name table the first header is that of the first member; nothing takes it for a map or a table. */
  lemma FirstHeader(t: Target, thin: bool, file: seq<byte>, p: nat, ms: seq<Member>)
    requires ValidTarget(t) && GoodMembers(t, thin, ms) && ValidMembers(ms) && ms != [] && NameTable(t, thin, ms) == []
    requires At(file, p, MembersBytes(t, thin, ms))
    ensures var f := file[p..p + NAMELEN];
      && p + HDR <= |file| && f[0] != SLASH && !IsNameTable(f)
      && (Special(f) ==> f == Field(BSD44_PREFIX + Decimal(20)) && p + HDR + 20 <= |file|
                         && file[p + HDR..p + HDR + |RANLIBMAG|] != RANLIBMAG)
  {
    hide Concat, MemberBytes, Laid, NameField, LongName, Representable, Special, IsNameTable, NameTable, Header, At,
      MembersBytes;
    FirstBlock(t, thin, file, p, ms);
    HeaderOfMember(t, thin, file, p, ms, 0);
    FirstField(t, thin, file, p, ms);
  }

  lemma FirstBlock(t: Target, thin: bool, file: seq<byte>, p: nat, ms: seq<Member>)
    requires ValidTarget(t) && ValidMembers(ms) && ms != [] && At(file, p, MembersBytes(t, thin, ms))
    ensures At(file, p, MemberBytes(t, thin, ms, 0))
  {
    hide Concat, MemberBytes, Laid, At;
    MembersLaid(t, thin, ms);
    BlockAt(thin, file, p, Blocks(t, thin, ms), Shapes(t, ms), 0);
  }

  lemma FirstField(t: Target, thin: bool, file: seq<byte>, p: nat, ms: seq<Member>)
    requires ValidTarget(t) && ms != [] && Representable(t, thin, ms[0].name) && NameTable(t, thin, ms) == []
    requires HeaderAt(file, p, NameField(t, thin, ms, 0), ms[0].stat, |ms[0].contents| + Extra(t, ms[0].name))
    requires At(file, p + HDR, LongName(t, ms[0]))
    ensures var f := file[p..p + NAMELEN];
      && f[0] != SLASH && !IsNameTable(f)
      && (Special(f) ==> f == Field(BSD44_PREFIX + Decimal(20)) && p + HDR + 20 <= |file|
                         && file[p + HDR..p + HDR + |RANLIBMAG|] != RANLIBMAG)
  {
    hide Special, Header, Bsd44Field, ShortField, TableableName, PlainName, Table, NameTable, Decimal;
    var m, f := ms[0], NameField(t, thin, ms, 0);
    assert file[p..p + NAMELEN] == file[p..p + HDR][..16] == f;
    if Follows(t, m.name) {
      assert SizeFits(Extra(t, m.name)) by {
        SizeFitsIff(|m.contents| + Extra(t, m.name));
        SizeFitsIff(Extra(t, m.name));
      }
      FollowedField(t, Extra(t, m.name));
      FollowedNotTable(f);
      if Special(f) { FollowedFirst(t, file, p, m); }
    } else {
      if t.style != Bsd44 { NoTableMeansShort(t, thin, ms, 0); }
      ShortNotSpecial(t, m.name);
      SpecialCovers(f);
    }
  }

  lemma SpecialCovers(f: seq<byte>)
    ensures IsNameTable(f) ==> Special(f)
  {
  }

  lemma FollowedNotTable(f: seq<byte>)
    requires |f| == NAMELEN && f[0] == BSD44_PREFIX[0]
    ensures !IsNameTable(f)
  {
    assert Field(ARFILENAMES + [SLASH])[0] == ARFILENAMES[0] && Field([SLASH, SLASH])[0] == SLASH;
  }

  lemma FollowedFirst(t: Target, file: seq<byte>, p: nat, m: Member)
    requires Follows(t, m.name) && Extra(t, m.name) == 20 && !(RANLIBMAG <= m.name) && At(file, p + HDR, LongName(t, m))
    ensures p + HDR + 20 <= |file| && file[p + HDR..p + HDR + |RANLIBMAG|] != RANLIBMAG
  {
    var s := LongName(t, m);
    assert |m.name| >= 17;
    assert file[p + HDR..p + HDR + 9] == s[..9] == m.name[..9];
  }

  /** A header that a Mach-O map could have, with a name after it that is not a map's. */
  predicate LooksLikeMachO(file: seq<byte>, p: nat) {
    && p + HDR + 20 <= |file| && file[p..p + NAMELEN] == Field(BSD44_PREFIX + Decimal(20))
    && file[p + HDR..p + HDR + |RANLIBMAG|] != RANLIBMAG
  }

  /** After the map (or the magic string): the name table is recovered, and no further map is seen. */
  lemma RestOpens(read: HeaderReader, t: Target, thin: bool, file: seq<byte>, p: nat, ms: seq<Member>)
    requires ValidTarget(t) && GoodMembers(t, thin, ms) && ValidMembers(ms) && ReadsHeaders(read, file)
    requires SizeFits(Even(|NameTable(t, thin, ms)|)) && p % 2 == 0
    requires At(file, p, Rest(t, thin, ms)) && p + |Rest(t, thin, ms)| == |file|
    ensures var table := TableBytes(t, NameTable(t, thin, ms));
      && SlurpNames(read, file, p) == Ok(NamesData(KeptNames(t, thin, ms), p + |table|))
      && At(file, p + |table|, MembersBytes(t, thin, ms))
    ensures !IsSecondMap(file, p)
    ensures p + 16 <= |file| && Special(file[p..p + NAMELEN]) ==>
      IsNameTable(file[p..p + NAMELEN]) || LooksLikeMachO(file, p)
  {
    hide ReadsHeaders, GoodMembers, FixNames, Table, MembersBytes, Header, Special;
    var table := NameTable(t, thin, ms);
    AtSplit(file, p, TableBytes(t, table), MembersBytes(t, thin, ms));
    if table != [] {
      NamesSlurped(read, t, file, p, table);
      TableFirst(t, file, p, table);
    } else if ms != [] {
      FirstHeader(t, thin, file, p, ms);
    } else {
      assert MembersBytes(t, thin, ms) == [] by { EmptyMembers(t, thin, ms); }
    }
  }

  lemma EmptyMembers(t: Target, thin: bool, ms: seq<Member>)
    requires ValidTarget(t) && ms == []
    ensures MembersBytes(t, thin, ms) == []
  {
  }

  lemma TableFirst(t: Target, file: seq<byte>, p: nat, table: seq<byte>)
    requires table != [] && At(file, p, TableBytes(t, table))
    ensures p + 16 <= |file| && IsNameTable(file[p..p + NAMELEN]) && !IsSecondMap(file, p)
  {
    var field := Field(if t.style == Svr4 then [SLASH, SLASH] else ARFILENAMES + [SLASH]);
    var h := Header(field, Repeat(SPACE, 32), Even(|table|));
    AtSplit(file, p, h, table + OddPad(|table|));
    var f := file[p..p + NAMELEN];
    assert f == file[p..p + HDR][..NAMELEN] == field;
    assert file[p] == f[0] && file[p + 1] == f[1];
  }

  /** No map: the walk starts right after the magic string. */
  lemma NoMapSlurped(read: HeaderReader, t: Target, thin: bool, file: seq<byte>, ms: seq<Member>)
    requires ValidTarget(t) && GoodMembers(t, thin, ms) && ValidMembers(ms) && ReadsHeaders(read, file)
    requires SizeFits(Even(|NameTable(t, thin, ms)|))
    requires At(file, SARMAG, Rest(t, thin, ms)) && SARMAG + |Rest(t, thin, ms)| == |file|
    ensures SlurpArmap(read, t.big, file, SARMAG) == Ok(None)
  {
    hide ReadsHeaders, GoodMembers, KeptNames, SlurpNames, Rest, MembersBytes, TableBytes, NameTable, BsdSlurp,
      CoffSlurp, Sym64Slurp;
    RestOpens(read, t, thin, file, SARMAG, ms);
    RestLength(t, thin, ms);
    if |file| > SARMAG {
      var f := file[SARMAG..SARMAG + NAMELEN];
      if Special(f) { TableFieldsDiffer(f); }
    }
  }

  lemma TableFieldsDiffer(f: seq<byte>)
    requires IsNameTable(f) || f == Field(BSD44_PREFIX + Decimal(20))
    ensures f != Field(RANLIBMAG) && f != Field(RANLIBMAG + [SLASH]) && f != Field([SLASH]) && f != Field(SYM64)
    ensures IsNameTable(f) ==> f != Field(BSD44_PREFIX + Decimal(20))
  {
    assert Field(ARFILENAMES + [SLASH])[0] == ARFILENAMES[0] && Field([SLASH, SLASH])[1] == SLASH;
    assert Field(RANLIBMAG)[0] == RANLIBMAG[0] && Field(RANLIBMAG + [SLASH])[0] == RANLIBMAG[0];
    assert Field([SLASH])[0] == SLASH && Field([SLASH])[1] == SPACE && Field(SYM64)[0] == SLASH && Field(SYM64)[1] ==
      SYM64[1];
    assert Field(BSD44_PREFIX + Decimal(20))[0] == BSD44_PREFIX[0];
  }

  lemma RestLength(t: Target, thin: bool, ms: seq<Member>)
    requires ValidTarget(t) && ValidMembers(ms)
    ensures Rest(t, thin, ms) == [] || |Rest(t, thin, ms)| >= HDR
  {
    if ms != [] {
      MembersLaid(t, thin, ms);
      var blocks := Blocks(t, thin, ms);
      assert Concat(Same(), blocks) == blocks[0] + Concat(Same(), blocks[1..]);
    }
  }

  // What precedes it: the maps ---------------------------------------------------

  lemma ELengthExact(table: nat)
    requires table + 62 < TWO32
    ensures ELength(table) == if table == 0 then 0 else HDR + Even(table)
  {
    hide U32;
    U32Small(table);
    U32Small(table + HDR);
    U32Small(table + HDR + (table + HDR) % 2);
    U32Small(0);
  }

  lemma MapHeaderIs(read: HeaderReader, file: seq<byte>, pos: nat, name: seq<byte>, stat: seq<byte>,
      size: nat) returns (h: Elt)
    requires ReadsHeaders(read, file) && 0 < |name| <= NAMELEN && name[0] != BSD44_PREFIX[0] && |stat| == 32
    requires size < TWO32
    requires At(file, pos, Header(Field(name), stat, size))
    ensures read(pos) == Ok(h) && h.data == pos + HDR && h.size == size
    ensures pos + HDR <= |file| && file[pos..pos + NAMELEN] == Field(name)
  {
    SizeFitsIff(size);
    assert file[pos..pos + NAMELEN] == file[pos..pos + HDR][..16];
    assert HeaderAt(file, pos, Field(name), stat, size);
    h := read(pos).value;
  }

  /** A System 5 map right after the magic string is found and read back. */
  lemma CoffSlurped(read: HeaderReader, big: bool, file: seq<byte>, plan: Plan, stat: seq<byte>, offsets: seq<nat>,
      map0: seq<Orl>)
    requires ReadsHeaders(read, file) && |stat| == 32 && |offsets| == |map0| && CleanNames(map0)
    requires AllBelow(offsets, TWO32)
    requires plan.mapsize == |Strings(map0)| + 4 * |map0| + 4 + plan.padding < TWO32 && plan.mapsize % 2 == 0
    requires At(file, SARMAG, WordMap(4, [SLASH], plan, stat, offsets, Strings(map0)))
    requires !IsSecondMap(file, SARMAG + HDR + plan.mapsize)
    ensures SlurpArmap(read, big, file, SARMAG) == Ok(Some(MapData(Carsyms(map0, offsets), SARMAG + HDR +
      plan.mapsize)))
  {
    hide ReadsHeaders, CleanNames, Strings, WordMap, Header, WordMapBodyAt, SlurpArmap, CoffSlurp, Carsyms, Pow256,
      IsSecondMap, At, Even, Odd;
    EvenIs(SARMAG + HDR + plan.mapsize);
    WordMapPieces(4, [SLASH], file, SARMAG, plan, stat, offsets, Strings(map0));
    var h := MapHeaderIs(read, file, SARMAG, [SLASH], stat, plan.mapsize);
    WordSizes();
    CoffMapBack(read, h, file, SARMAG, plan, offsets, map0);
    CoffDispatch(read, big, file, MapData(Carsyms(map0, offsets), SARMAG + HDR + plan.mapsize));
  }

  lemma CoffDispatch(read: HeaderReader, big: bool, file: seq<byte>, m: MapData)
    requires SARMAG + HDR <= |file| && file[SARMAG..SARMAG + NAMELEN] == Field([SLASH])
    requires CoffSlurp(read, file, SARMAG) == Ok(m)
    ensures SlurpArmap(read, big, file, SARMAG) == Ok(Some(m))
  {
    hide BsdSlurp, CoffSlurp, Sym64Slurp, Field;
    MapFieldsDiffer();
  }

  lemma Sym64Slurped(read: HeaderReader, big: bool, file: seq<byte>, plan: Plan, stat: seq<byte>, offsets: seq<nat>,
      map0: seq<Orl>)
    requires ReadsHeaders(read, file) && |stat| == 32 && |offsets| == |map0| && CleanNames(map0)
    requires AllBelow(offsets, TWO64)
    requires plan.mapsize == |Strings(map0)| + 8 * |map0| + 8 + plan.padding < TWO32 && plan.mapsize % 2 == 0
    requires At(file, SARMAG, WordMap(8, SYM64, plan, stat, offsets, Strings(map0)))
    ensures SlurpArmap(read, big, file, SARMAG) == Ok(Some(MapData(Carsyms(map0, offsets), SARMAG + HDR +
      plan.mapsize)))
  {
    hide ReadsHeaders, CleanNames, Strings, WordMap, Header, WordMapBodyAt, SlurpArmap, Sym64Slurp, Carsyms, Pow256,
      At, Even, Odd;
    EvenIs(SARMAG + HDR + plan.mapsize);
    WordMapPieces(8, SYM64, file, SARMAG, plan, stat, offsets, Strings(map0));
    var h := MapHeaderIs(read, file, SARMAG, SYM64, stat, plan.mapsize);
    WordSizes();
    Sym64MapBack(read, h, file, SARMAG, plan, offsets, map0);
    Sym64Dispatch(read, big, file, MapData(Carsyms(map0, offsets), SARMAG + HDR + plan.mapsize));
  }

  lemma Sym64Dispatch(read: HeaderReader, big: bool, file: seq<byte>, m: MapData)
    requires SARMAG + HDR <= |file| && file[SARMAG..SARMAG + NAMELEN] == Field(SYM64)
    requires Sym64Slurp(read, file, SARMAG) == Ok(m)
    ensures SlurpArmap(read, big, file, SARMAG) == Ok(Some(m))
  {
    hide BsdSlurp, CoffSlurp, Sym64Slurp, Field;
    MapFieldsDiffer();
  }

  lemma BsdSlurped(read: HeaderReader, big: bool, file: seq<byte>, plan: Plan, stat: seq<byte>, rs: seq<Ranlib>,
      offsets: seq<nat>,
                   map0: seq<Orl>, members: nat)
    requires ReadsHeaders(read, file) && |stat| == 32 && |rs| == |map0| == |offsets| && GoodMap(map0, members)
    requires CleanNames(map0)
    requires forall k :: 0 <= k < |rs| ==>
      rs[k] == Ranlib(map0[k].namidx, offsets[k]) && rs[k].namidx < TWO32 && rs[k].offset < TWO32
    requires plan.mapsize == |Strings(map0)| + 8 * |map0| + 8 + plan.padding < TWO32 && plan.mapsize % 2 == 0
    requires At(file, SARMAG, BsdMap(plan, big, stat, rs, Strings(map0)))
    ensures SlurpArmap(read, big, file, SARMAG) == Ok(Some(MapData(Carsyms(map0, offsets), SARMAG + HDR +
      plan.mapsize)))
  {
    hide ReadsHeaders, CleanNames, GoodMap, Strings, BsdMap, Header, BsdMapBodyAt, BsdSlurp, SlurpArmap, Carsyms, At,
      Even, Odd;
    EvenIs(SARMAG + HDR + plan.mapsize);
    BsdMapPieces(file, SARMAG, plan, big, stat, rs, Strings(map0));
    var h := MapHeaderIs(read, file, SARMAG, RANLIBMAG, stat, plan.mapsize);
    BsdMapBack(read, h, big, file, SARMAG, plan, rs, offsets, map0, members);
    BsdDispatch(read, big, file, MapData(Carsyms(map0, offsets), SARMAG + HDR + plan.mapsize));
  }

  lemma BsdDispatch(read: HeaderReader, big: bool, file: seq<byte>, m: MapData)
    requires SARMAG + HDR <= |file| && file[SARMAG..SARMAG + NAMELEN] == Field(RANLIBMAG)
    requires BsdSlurp(read, big, file, SARMAG) == Ok(m)
    ensures SlurpArmap(read, big, file, SARMAG) == Ok(Some(m))
  {
    hide BsdSlurp, CoffSlurp, Sym64Slurp;
  }

  lemma MapFieldsDiffer()
    ensures Field([SLASH]) != Field(RANLIBMAG) && Field([SLASH]) != Field(RANLIBMAG + [SLASH])
    ensures Field(SYM64) != Field(RANLIBMAG) && Field(SYM64) != Field(RANLIBMAG + [SLASH])
    ensures Field(SYM64) != Field([SLASH])
  {
    assert Field(RANLIBMAG)[0] == RANLIBMAG[0] && Field(RANLIBMAG + [SLASH])[0] == RANLIBMAG[0];
    assert Field([SLASH])[0] == SLASH && Field([SLASH])[1] == SPACE && Field(SYM64)[0] == SLASH && Field(SYM64)[1] ==
      SYM64[1];
  }
}
