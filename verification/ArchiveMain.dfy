/** Written archives, end to end: members, contents and symbol map all come back. */
module ArchiveMain {
  import opened Bytes
  import opened ArHeader
  import opened ArNames
  import opened ArMap
  import opened ArMapReader
  import opened ArMapWriter
  import opened ArMapRoundTrip
  import opened Archive
  import opened ArchiveRoundTrip
  import opened ArchiveOpen
  import opened ArchiveTheorem

  /** Which map writer the target uses; NoMap when the archive holds no objects. */
  datatype MapKind = NoMap | CoffKind | Sym64Kind | BsdKind

  /** The map the writer of the given kind emits. */
  ghost function Armap(kind: MapKind, t: Target, thin: bool, ms: seq<Member>, map0: seq<Orl>,
      stat: seq<byte>): seq<byte>
    requires |stat| == 32 && Members(Shapes(t, ms), map0)
  {
    var e := ELength(|NameTable(t, thin, ms)|);
    match kind
    case NoMap => []
    case CoffKind => CoffMapFor(thin, Shapes(t, ms), map0, e, stat)
    case Sym64Kind => Sym64MapFor(thin, Shapes(t, ms), map0, e, stat)
    case BsdKind => BsdMapFor(t.big, thin, Shapes(t, ms), map0, e, stat)
  }

  /** Members and symbols the format can hold, in sizes that no counter of the writer wraps on. */
  ghost predicate Writable(t: Target, thin: bool, ms: seq<Member>, map0: seq<Orl>, stat: seq<byte>) {
    && ValidTarget(t) && ValidMembers(ms) && GoodMembers(t, thin, ms)
    && |stat| == 32 && GoodMap(map0, |ms|) && CleanNames(map0)
    && |NameTable(t, thin, ms)| + 62 < TWO32
    && |Strings(map0)| + 8 * |map0| + 16 + ELength(|NameTable(t, thin, ms)|) < TWO32
  }

  /**
   * The map writer of this kind reckons the right position for symbol i: the System 5 and 64-bit ones if no BSD 4.4
   * name precedes its member; the Berkeley one in a thin archive if all earlier members are empty, and like the 64-bit
   * one if some offset is past 4G.
   */
  ghost predicate Leads(kind: MapKind, t: Target, thin: bool, ms: seq<Member>, map0: seq<Orl>, i: nat)
    requires Members(Shapes(t, ms), map0) && i < |map0|
  {
    var shapes, k := Shapes(t, ms), map0[i].member;
    if kind != BsdKind || Past4G(BsdOffsets(BsdFirst(t, thin, ms, map0), shapes, map0)) then NoExtraBefore(shapes, k)
    else thin ==> EmptyBefore(shapes, k)
  }

  /** Where the Berkeley writer expects the first member. */
  function BsdFirst(t: Target, thin: bool, ms: seq<Member>, map0: seq<Orl>): nat {
    BsdPlan(|map0|, |Strings(map0)|, ELength(|NameTable(t, thin, ms)|)).first
  }

  /** The file holds the map after the magic string, then the name table and the members. */
  ghost predicate Holds(file: seq<byte>, armap: seq<byte>, t: Target, thin: bool, ms: seq<Member>)
    requires ValidTarget(t) && ValidMembers(ms)
  {
    && At(file, SARMAG, armap) && At(file, SARMAG + |armap|, Rest(t, thin, ms))
    && SARMAG + |armap| + |Rest(t, thin, ms)| == |file| < TWO64 / 2
  }

  /** The position of the first member. */
  function First(armap: nat, t: Target, thin: bool, ms: seq<Member>): nat {
    SARMAG + armap + |TableBytes(t, NameTable(t, thin, ms))|
  }

  /**
   * The map is read back, and an offset in it is the position of its symbol's member exactly if the writer can know it.
   */
  ghost predicate MapIsRight(read: HeaderReader, kind: MapKind, file: seq<byte>, armap: nat, t: Target, thin: bool,
                             ms: seq<Member>, map0: seq<Orl>, offsets: seq<nat>)
    requires Members(Shapes(t, ms), map0)
  {
    && |offsets| == |map0|
    && SlurpArmap(read, t.big, file, SARMAG) == Ok(Some(MapData(Carsyms(map0, offsets), SARMAG + armap)))
    && forall i :: 0 <= i < |map0| ==>
      (offsets[i] == MemberPos(thin, First(armap, t, thin, ms), Shapes(t, ms), map0[i].member) <==>
       Leads(kind, t, thin, ms, map0, i))
  }

  lemma {:induction false} WordsLength(big: bool, k: nat, ws: seq<nat>)
    ensures |Concat<nat>(Putter(big, k), ws)| == |ws| * k
  {
    if ws != [] {
      WordsLength(big, k, ws[1..]);
      MulStep(|ws|, k);
    }
  }

  lemma WordMapLength(width: nat, name: seq<byte>, plan: Plan, stat: seq<byte>, offsets: seq<nat>, strings: seq<byte>)
    requires |stat| == 32
    ensures |WordMap(width, name, plan, stat, offsets, strings)| == HDR + width + |offsets| * width + |strings| +
      plan.padding
  {
    hide Concat, Header;
    WordsLength(true, width, offsets);
  }

  lemma FirstIsPlanned(t: Target, thin: bool, ms: seq<Member>, mapsize: nat)
    requires |NameTable(t, thin, ms)| + 62 < TWO32
    ensures First(HDR + mapsize, t, thin, ms) == mapsize + ELength(|NameTable(t, thin, ms)|) + HDR + SARMAG
    ensures ELength(|NameTable(t, thin, ms)|) % 2 == 0
  {
    hide NameTable, TableBytes, ELength;
    ELengthExact(|NameTable(t, thin, ms)|);
    TableLength(t, NameTable(t, thin, ms));
  }

  lemma MembersInFile(t: Target, thin: bool, file: seq<byte>, armap: seq<byte>, ms: seq<Member>, k: nat)
    requires ValidTarget(t) && ValidMembers(ms) && k <= |ms| && Holds(file, armap, t, thin, ms)
    ensures MemberPos(thin, First(|armap|, t, thin, ms), Shapes(t, ms), k) <= |file|
    ensures At(file, First(|armap|, t, thin, ms), MembersBytes(t, thin, ms))
    ensures First(|armap|, t, thin, ms) + |MembersBytes(t, thin, ms)| == |file| < TWO64 / 2
  {
    hide TableBytes, NameTable, Blocks, Shapes, Laid, MemberPos, Concat, At;
    AtSplit(file, SARMAG + |armap|, TableBytes(t, NameTable(t, thin, ms)), MembersBytes(t, thin, ms));
    MembersLaid(t, thin, ms);
    BlockAt(thin, file, First(|armap|, t, thin, ms), Blocks(t, thin, ms), Shapes(t, ms), k);
  }

  // One kind of map at a time -----------------------------------------------------

  lemma Sym64Back(read: HeaderReader, t: Target, thin: bool, file: seq<byte>, ms: seq<Member>, map0: seq<Orl>,
      stat: seq<byte>)
    returns (offsets: seq<nat>)
    requires Writable(t, thin, ms, map0, stat) && ReadsHeaders(read, file)
    requires Members(Shapes(t, ms), map0)
    requires Holds(file, Sym64MapFor(thin, Shapes(t, ms), map0, ELength(|NameTable(t, thin, ms)|), stat), t, thin, ms)
    ensures var e := ELength(|NameTable(t, thin, ms)|);
      MapIsRight(read, Sym64Kind, file, |Sym64MapFor(thin, Shapes(t, ms), map0, e, stat)|, t, thin, ms, map0, offsets)
  {
    hide GoodMembers, ReadsHeaders, NameTable, Strings, ELength, Rest, CleanNames, WordMap, SlurpArmap, Carsyms,
      MemberPos, Sym64Pos, CoffPos, Sym64Plan, EvenExtras, NoExtraBefore, First, At;
    var shapes, e := Shapes(t, ms), ELength(|NameTable(t, thin, ms)|);
    var plan := Sym64Plan(|map0|, |Strings(map0)|, e);
    Sym64PlanExact(|map0|, |Strings(map0)|, e);
    offsets := Sym64Offsets(thin, plan.first, shapes, map0);
    WordMapLength(8, SYM64, plan, stat, offsets, Strings(map0));
    FirstIsPlanned(t, thin, ms, plan.mapsize);
    ExtrasAreEven(t, ms);
    var armap := Sym64MapFor(thin, shapes, map0, e, stat);
    forall i | 0 <= i < |map0|
      ensures offsets[i] < TWO64
      ensures offsets[i] == MemberPos(thin, plan.first, shapes, map0[i].member) <==>
        Leads(Sym64Kind, t, thin, ms, map0, i)
    {
      CoffPosRight(thin, plan.first, shapes, map0[i].member);
      MembersInFile(t, thin, file, armap, ms, map0[i].member);
    }
    Sym64Slurped(read, t.big, file, plan, stat, offsets, map0);
  }

  /** The System 5 writer reckons the right positions as far as Leads says. */
  lemma CoffLeads(t: Target, thin: bool, ms: seq<Member>, map0: seq<Orl>, first: nat)
    requires Members(Shapes(t, ms), map0) && first % 2 == 0
    ensures var offsets := CoffOffsets(thin, first, Shapes(t, ms), map0);
      forall i :: 0 <= i < |map0| ==>
        (offsets[i] == MemberPos(thin, first, Shapes(t, ms), map0[i].member) <==> Leads(CoffKind, t, thin, ms, map0, i))
  {
    hide MemberPos, CoffPos, EvenExtras, NoExtraBefore;
    ExtrasAreEven(t, ms);
    forall i | 0 <= i < |map0|
      ensures CoffOffsets(thin, first, Shapes(t, ms), map0)[i] == MemberPos(thin, first, Shapes(t, ms), map0[i].member)
        <==> Leads(CoffKind, t, thin, ms, map0, i)
    {
      CoffPosRight(thin, first, Shapes(t, ms), map0[i].member);
    }
  }

  lemma LeadsAlike(t: Target, thin: bool, ms: seq<Member>, map0: seq<Orl>)
    requires Members(Shapes(t, ms), map0)
    ensures forall i :: 0 <= i < |map0| ==>
      (Leads(CoffKind, t, thin, ms, map0, i) <==> Leads(Sym64Kind, t, thin, ms, map0, i))
  {
    hide NoExtraBefore;
  }

  lemma RightAlike(read: HeaderReader, file: seq<byte>, armap: nat, t: Target, thin: bool, ms: seq<Member>,
                   map0: seq<Orl>, offsets: seq<nat>)
    requires Members(Shapes(t, ms), map0) && MapIsRight(read, Sym64Kind, file, armap, t, thin, ms, map0, offsets)
    ensures MapIsRight(read, CoffKind, file, armap, t, thin, ms, map0, offsets)
  {
    hide SlurpArmap, Carsyms, First, MemberPos, Leads;
    LeadsAlike(t, thin, ms, map0);
  }

  lemma NoSecondMap(read: HeaderReader, t: Target, thin: bool, file: seq<byte>, p: nat, ms: seq<Member>)
    requires ValidTarget(t) && GoodMembers(t, thin, ms) && ValidMembers(ms) && ReadsHeaders(read, file)
    requires |NameTable(t, thin, ms)| + 62 < TWO32 && p % 2 == 0
    requires At(file, p, Rest(t, thin, ms)) && p + |Rest(t, thin, ms)| == |file|
    ensures !IsSecondMap(file, p)
  {
    hide GoodMembers, ReadsHeaders, NameTable, IsSecondMap, SlurpNames, KeptNames, Special, LooksLikeMachO, IsNameTable;
    TableSizeFits(t, thin, ms);
    RestOpens(read, t, thin, file, p, ms);
  }

  /** MapIsRight from its parts. */
  lemma MapIsRightIf(read: HeaderReader, kind: MapKind, file: seq<byte>, mapsize: nat, first: nat, t: Target,
                     thin: bool, ms: seq<Member>, map0: seq<Orl>, offsets: seq<nat>)
    requires Members(Shapes(t, ms), map0) && |offsets| == |map0| && first == First(HDR + mapsize, t, thin, ms)
    requires SlurpArmap(read, t.big, file, SARMAG) ==
      Ok(Some(MapData(Carsyms(map0, offsets), SARMAG + HDR + mapsize)))
    requires forall i :: 0 <= i < |map0| ==>
      (offsets[i] == MemberPos(thin, first, Shapes(t, ms), map0[i].member) <==> Leads(kind, t, thin, ms, map0, i))
    ensures MapIsRight(read, kind, file, HDR + mapsize, t, thin, ms, map0, offsets)
  {
    hide SlurpArmap, Carsyms, First, MemberPos, Leads;
  }

  /** When all offsets fit. */
  lemma CoffSmallBack(read: HeaderReader, t: Target, thin: bool, file: seq<byte>, ms: seq<Member>, map0: seq<Orl>,
                      stat: seq<byte>, plan: Plan, offsets: seq<nat>)
    requires Writable(t, thin, ms, map0, stat) && ReadsHeaders(read, file) && Members(Shapes(t, ms), map0)
    requires plan == CoffPlan(|map0|, |Strings(map0)|, ELength(|NameTable(t, thin, ms)|))
    requires offsets == CoffOffsets(thin, plan.first, Shapes(t, ms), map0) && !Past4G(offsets)
    requires Holds(file, WordMap(4, [SLASH], plan, stat, offsets, Strings(map0)), t, thin, ms)
    ensures MapIsRight(read, CoffKind, file, |WordMap(4, [SLASH], plan, stat, offsets, Strings(map0))|, t, thin, ms,
      map0, offsets)
  {
    hide GoodMembers, ReadsHeaders, NameTable, Strings, ELength, Rest, CleanNames, WordMap, SlurpArmap, Carsyms,
      MemberPos, CoffPos, CoffPlan, Leads, First, At, IsSecondMap, MapIsRight;
    CoffPlanExact(|map0|, |Strings(map0)|, ELength(|NameTable(t, thin, ms)|));
    WordMapLength(4, [SLASH], plan, stat, offsets, Strings(map0));
    FirstIsPlanned(t, thin, ms, plan.mapsize);
    CoffLeads(t, thin, ms, map0, plan.first);
    NoSecondMap(read, t, thin, file, SARMAG + HDR + plan.mapsize, ms);
    CoffSlurped(read, t.big, file, plan, stat, offsets, map0);
    MapIsRightIf(read, CoffKind, file, plan.mapsize, plan.first, t, thin, ms, map0, offsets);
  }

  lemma CoffBack(read: HeaderReader, t: Target, thin: bool, file: seq<byte>, ms: seq<Member>, map0: seq<Orl>,
      stat: seq<byte>)
    returns (offsets: seq<nat>)
    requires Writable(t, thin, ms, map0, stat) && ReadsHeaders(read, file)
    requires Members(Shapes(t, ms), map0)
    requires Holds(file, CoffMapFor(thin, Shapes(t, ms), map0, ELength(|NameTable(t, thin, ms)|), stat), t, thin, ms)
    ensures var e := ELength(|NameTable(t, thin, ms)|);
      MapIsRight(read, CoffKind, file, |CoffMapFor(thin, Shapes(t, ms), map0, e, stat)|, t, thin, ms, map0, offsets)
  {
    hide Writable, ReadsHeaders, NameTable, Strings, ELength, Holds, WordMap, CoffPos, CoffPlan, Sym64MapFor,
      MapIsRight;
    WritableParts(t, thin, ms, map0, stat);
    var shapes, e := Shapes(t, ms), ELength(|NameTable(t, thin, ms)|);
    var plan := CoffPlan(|map0|, |Strings(map0)|, e);
    offsets := CoffOffsets(thin, plan.first, shapes, map0);
    if Past4G(offsets) {
      offsets := Sym64Back(read, t, thin, file, ms, map0, stat);
      RightAlike(read, file, |Sym64MapFor(thin, shapes, map0, e, stat)|, t, thin, ms, map0, offsets);
    } else {
      CoffSmallBack(read, t, thin, file, ms, map0, stat, plan, offsets);
    }
  }

  lemma TableSizeFits(t: Target, thin: bool, ms: seq<Member>)
    requires |NameTable(t, thin, ms)| + 62 < TWO32
    ensures SizeFits(Even(|NameTable(t, thin, ms)|)) && SizeFits(|NameTable(t, thin, ms)|)
  {
    SizeFitsIff(Even(|NameTable(t, thin, ms)|));
    SizeFitsIff(|NameTable(t, thin, ms)|);
  }

  lemma BsdBack(read: HeaderReader, t: Target, thin: bool, file: seq<byte>, ms: seq<Member>, map0: seq<Orl>,
      stat: seq<byte>)
    returns (offsets: seq<nat>)
    requires Writable(t, thin, ms, map0, stat) && ReadsHeaders(read, file) && Members(Shapes(t, ms), map0)
    requires Holds(file, BsdMapFor(t.big, thin, Shapes(t, ms), map0, ELength(|NameTable(t, thin, ms)|), stat), t,
      thin, ms)
    ensures var e := ELength(|NameTable(t, thin, ms)|);
      MapIsRight(read, BsdKind, file, |BsdMapFor(t.big, thin, Shapes(t, ms), map0, e, stat)|, t, thin, ms, map0,
        offsets)
  {
    hide GoodMembers, ReadsHeaders, NameTable, Strings, ELength, Rest, CleanNames, BsdMap, SlurpArmap, Carsyms,
      MemberPos, BsdPos, BsdPlan, Sym64MapFor, EvenExtras, EmptyBefore, First, At, Odd, Even;
    hide TableBytes, MembersBytes;
    var shapes, e := Shapes(t, ms), ELength(|NameTable(t, thin, ms)|);
    var plan := BsdPlan(|map0|, |Strings(map0)|, e);
    BsdPlanExact(|map0|, |Strings(map0)|, e);
    offsets := BsdOffsets(plan.first, shapes, map0);
    if Past4G(offsets) {
      offsets := Sym64Back(read, t, thin, file, ms, map0, stat);
    } else {
      var rs := Ranlibs(plan.first, shapes, map0);
      BsdMapLength(plan, t.big, stat, rs, Strings(map0));
      FirstIsPlanned(t, thin, ms, plan.mapsize);
      EvenIs(plan.first);
      ExtrasAreEven(t, ms);
      forall i | 0 <= i < |map0|
        ensures offsets[i] == MemberPos(thin, plan.first, shapes, map0[i].member) <==>
          Leads(BsdKind, t, thin, ms, map0, i)
        ensures map0[i].namidx < TWO32
      {
        BsdPosRight(thin, plan.first, shapes, map0[i].member);
        StringsGrow(map0, i);
      }
      BsdSlurped(read, t.big, file, plan, stat, rs, offsets, map0, |ms|);
    }
  }

  lemma StringsGrow(map0: seq<Orl>, i: nat)
    requires i <= |map0|
    ensures |Strings(map0[..i])| <= |Strings(map0)|
  {
    assert map0 == map0[..i] + map0[i..];
    ConcatAppend(CName, map0[..i], map0[i..]);
  }

  lemma {:induction false} RanlibsLength(big: bool, rs: seq<Ranlib>)
    ensures |Concat(RanlibPutter(Putter(big, 4)), rs)| == 8 * |rs|
  {
    if rs != [] {
      var put := Putter(big, 4);
      assert |put(rs[0].namidx)| == 4 && |put(rs[0].offset)| == 4;
      RanlibsLength(big, rs[1..]);
    }
  }

  lemma BsdMapLength(plan: Plan, big: bool, stat: seq<byte>, rs: seq<Ranlib>, strings: seq<byte>)
    requires |stat| == 32
    ensures |BsdMap(plan, big, stat, rs, strings)| == HDR + 8 + 8 * |rs| + |strings| + plan.padding
  {
    hide Concat, Header, U32;
    RanlibsLength(big, rs);
  }

  // The theorem --------------------------------------------------------------------

  /** Member i of the input, as an element of the file that was read, with its date, owner and mode. */
  ghost predicate MemberIsBack(file: seq<byte>, thin: bool, m: Member, e: Elt) {
    && e.name == m.name && e.size == |m.contents|
    && e.pos + HDR <= |file| && file[e.pos + 16..e.pos + 48] == m.stat
    && (!thin ==> e.data + e.size <= |file| && file[e.data..e.data + e.size] == m.contents)
    && (!thin && e.size % 2 == 1 ==> e.data + e.size < |file| && file[e.data + e.size] == NEWLINE)
  }

  lemma PadByteIsBack(file: seq<byte>, m: Member, data: nat)
    requires At(file, data, Tail(false, m)) && |m.contents| % 2 == 1
    ensures data + |m.contents| < |file| && file[data + |m.contents|] == NEWLINE
  {
    assert file[data..data + |m.contents| + 1][|m.contents|] == NEWLINE;
  }

  /**
   * The rest of a written archive, in terms of its bytes: the date, owner and mode of the map, its strings at its end
   * with NULs after them, and a name table with a blank date, owner and mode and a newline to make its length even.
   */
  ghost predicate RestIsBack(file: seq<byte>, kind: MapKind, ar: ArData, table: seq<byte>, map0: seq<Orl>,
                             stat: seq<byte>) {
    var p := if ar.armap.Some? then ar.armap.value.first else SARMAG;
    && (kind != NoMap ==>
          && At(file, SARMAG + 16, stat)
          && exists pad :: 0 <= pad < 8 && pad + |Strings(map0)| <= p && p <= |file|
               && file[p - pad - |Strings(map0)|..p] == Strings(map0) + Repeat(NUL, pad))
    && (table != [] ==>
          && At(file, p + 16, Repeat(SPACE, 32)) && At(file, p + HDR, table)
          && (|table| % 2 == 1 ==> 0 < ar.first <= |file| && file[ar.first - 1] == NEWLINE))
  }

  lemma WordMapRest(width: nat, name: seq<byte>, plan: Plan, stat: seq<byte>, offsets: seq<nat>, strings: seq<byte>,
                    file: seq<byte>)
    requires |stat| == 32 && At(file, SARMAG, WordMap(width, name, plan, stat, offsets, strings))
    ensures var p := SARMAG + |WordMap(width, name, plan, stat, offsets, strings)|;
      && At(file, SARMAG + 16, stat) && plan.padding + |strings| <= p <= |file|
      && file[p - plan.padding - |strings|..p] == strings + Repeat(NUL, plan.padding)
  {
    hide Header, Concat, PutWord, Repeat;
    var put := Putter(true, width);
    var h, body := Header(PadTo(name, NAMELEN), stat, plan.mapsize), put(|offsets|) + Concat<nat>(put, offsets);
    var m, end := WordMap(width, name, plan, stat, offsets, strings), strings + Repeat(NUL, plan.padding);
    assert m == h + (body + end);
    assert m == (h + body) + end;
    AtSplit(file, SARMAG, h, body + end);
    AtSplit(file, SARMAG, h + body, end);
    StatInHeader(file, SARMAG, PadTo(name, NAMELEN), stat, plan.mapsize);
    RepeatLength(plan.padding);
  }

  lemma RepeatLength(n: nat)
    ensures |Repeat(NUL, n)| == n
  {
  }

  lemma BsdMapRest(plan: Plan, big: bool, stat: seq<byte>, rs: seq<Ranlib>, strings: seq<byte>, file: seq<byte>)
    requires |stat| == 32 && At(file, SARMAG, BsdMap(plan, big, stat, rs, strings))
    ensures var p := SARMAG + |BsdMap(plan, big, stat, rs, strings)|;
      && At(file, SARMAG + 16, stat) && plan.padding + |strings| <= p <= |file|
      && file[p - plan.padding - |strings|..p] == strings + Repeat(NUL, plan.padding)
  {
    hide Header, Concat, PutWord, Repeat, U32;
    var put := Putter(big, 4);
    var h := Header(PadTo(RANLIBMAG, NAMELEN), stat, plan.mapsize);
    var body := put(U32(|rs| * 8)) + Concat(RanlibPutter(put), rs) + put(U32(|strings| + plan.padding));
    var m, end := BsdMap(plan, big, stat, rs, strings), strings + Repeat(NUL, plan.padding);
    assert m == h + (body + end);
    assert m == (h + body) + end;
    AtSplit(file, SARMAG, h, body + end);
    AtSplit(file, SARMAG, h + body, end);
    StatInHeader(file, SARMAG, PadTo(RANLIBMAG, NAMELEN), stat, plan.mapsize);
    RepeatLength(plan.padding);
  }

  lemma PaddingSmall(n: nat, strings: nat, e: nat)
    ensures CoffPlan(n, strings, e).padding < 8 && Sym64Plan(n, strings, e).padding < 8
    ensures BsdPlan(n, strings, e).padding < 8
  {
    hide U32;
  }

  /** The bytes of a written map that its readers pass over. */
  lemma MapRest(kind: MapKind, t: Target, thin: bool, ms: seq<Member>, map0: seq<Orl>, stat: seq<byte>, file: seq<byte>)
      returns (pad: nat)
    requires kind != NoMap && |stat| == 32 && Members(Shapes(t, ms), map0)
    requires At(file, SARMAG, Armap(kind, t, thin, ms, map0, stat))
    ensures var p := SARMAG + |Armap(kind, t, thin, ms, map0, stat)|;
      && At(file, SARMAG + 16, stat) && pad < 8 && pad + |Strings(map0)| <= p <= |file|
      && file[p - pad - |Strings(map0)|..p] == Strings(map0) + Repeat(NUL, pad)
  {
    hide WordMap, BsdMap, CoffPlan, Sym64Plan, BsdPlan, Strings, Repeat, NameTable, ELength, At, CoffPos, Sym64Pos,
      BsdPos;
    var shapes, n, k, e := Shapes(t, ms), |map0|, |Strings(map0)|, ELength(|NameTable(t, thin, ms)|);
    var c, s, b := CoffPlan(n, k, e), Sym64Plan(n, k, e), BsdPlan(n, k, e);
    PaddingSmall(n, k, e);
    if kind == CoffKind && !Past4G(CoffOffsets(thin, c.first, shapes, map0)) {
      WordMapRest(4, [SLASH], c, stat, CoffOffsets(thin, c.first, shapes, map0), Strings(map0), file);
      pad := c.padding;
    } else if kind == BsdKind && !Past4G(BsdOffsets(b.first, shapes, map0)) {
      BsdMapRest(b, t.big, stat, Ranlibs(b.first, shapes, map0), Strings(map0), file);
      pad := b.padding;
    } else {
      WordMapRest(8, SYM64, s, stat, Sym64Offsets(thin, s.first, shapes, map0), Strings(map0), file);
      pad := s.padding;
    }
  }

  /** The name in the header of a name table. */
  function TableTitle(t: Target): (name: seq<byte>)
    ensures |name| == NAMELEN
  {
    Field(if t.style == Svr4 then [SLASH, SLASH] else ARFILENAMES + [SLASH])
  }

  lemma TableBytesAre(t: Target, table: seq<byte>)
    requires table != []
    ensures TableBytes(t, table)
      == Header(TableTitle(t), Repeat(SPACE, 32), Even(|table|)) + (table + OddPad(|table|))
  {
    hide Header, Repeat, Even;
  }

  lemma TableRest(t: Target, file: seq<byte>, p: nat, table: seq<byte>)
    requires table != [] && At(file, p, TableBytes(t, table))
    ensures At(file, p + 16, Repeat(SPACE, 32)) && At(file, p + HDR, table)
    ensures |table| % 2 == 1 ==>
      p + |TableBytes(t, table)| <= |file| && file[p + |TableBytes(t, table)| - 1] == NEWLINE
  {
    hide Header, TableTitle, TableBytes, Repeat, At, Even;
    var h := Header(TableTitle(t), Repeat(SPACE, 32), Even(|table|));
    TableBytesAre(t, table);
    AtSplit(file, p, h, table + OddPad(|table|));
    StatInHeader(file, p, TableTitle(t), Repeat(SPACE, 32), Even(|table|));
    AtSplit(file, p + HDR, table, OddPad(|table|));
    if |table| % 2 == 1 { OneByteAt(file, p + HDR + |table|, NEWLINE); }
  }

  lemma OneByteAt(file: seq<byte>, pos: nat, b: byte)
    requires At(file, pos, [b])
    ensures pos < |file| && file[pos] == b
  {
    assert file[pos..pos + 1][0] == b;
  }

  lemma RestBack(file: seq<byte>, kind: MapKind, t: Target, thin: bool, ms: seq<Member>, map0: seq<Orl>,
                 stat: seq<byte>, ar: ArData)
    requires ValidTarget(t) && ValidMembers(ms) && |stat| == 32 && Members(Shapes(t, ms), map0)
    requires var armap := Armap(kind, t, thin, ms, map0, stat);
      && Holds(file, armap, t, thin, ms) && ar.first == First(|armap|, t, thin, ms)
      && (if kind == NoMap then ar.armap.None? else ar.armap.Some? && ar.armap.value.first == SARMAG + |armap|)
    ensures RestIsBack(file, kind, ar, NameTable(t, thin, ms), map0, stat)
  {
    hide Armap, TableBytes, NameTable, MembersBytes, Strings, At, Repeat;
    var table, armap := NameTable(t, thin, ms), Armap(kind, t, thin, ms, map0, stat);
    assert kind == NoMap ==> armap == [] by { NoArmap(t, thin, ms, map0, stat); }
    if kind != NoMap {
      var pad := MapRest(kind, t, thin, ms, map0, stat, file);
    }
    AtSplit(file, SARMAG + |armap|, TableBytes(t, table), MembersBytes(t, thin, ms));
    if table != [] { TableRest(t, file, SARMAG + |armap|, table); }
  }

  lemma NoArmap(t: Target, thin: bool, ms: seq<Member>, map0: seq<Orl>, stat: seq<byte>)
    requires |stat| == 32 && Members(Shapes(t, ms), map0)
    ensures Armap(NoMap, t, thin, ms, map0, stat) == []
  {
  }

  lemma ArchiveIsHeld(t: Target, thin: bool, ms: seq<Member>, armap: seq<byte>)
    requires ValidTarget(t) && ValidMembers(ms) && |ArchiveBytes(t, thin, ms, armap)| < TWO64 / 2
    ensures var file := ArchiveBytes(t, thin, ms, armap);
      Holds(file, armap, t, thin, ms) && At(file, 0, if thin then ARMAGT else ARMAG)
  {
    hide TableBytes, NameTable, MembersBytes;
    var magic, table, members := if thin then ARMAGT else ARMAG, TableBytes(t, NameTable(t, thin, ms)),
      MembersBytes(t, thin, ms);
    var file := ArchiveBytes(t, thin, ms, armap);
    Assoc(magic + armap, table, members);
    assert At(file, 0, magic + armap + (table + members));
    AtSplit(file, 0, magic + armap, table + members);
    AtSplit(file, 0, magic, armap);
  }

  lemma MemberIsThere(read: HeaderReader, t: Target, thin: bool, file: seq<byte>, first: nat, ms: seq<Member>,
                      names: Option<seq<byte>>, i: nat, pos: nat)
    requires ValidTarget(t) && GoodMembers(t, thin, ms) && ReadsStored(read, t, thin, file, names) && i < |ms|
    requires Tabled(t, thin, ms[i].name) ==> TableHolds(names, EntryOffset(t, thin, NamesOf(ms), Same(), i), ms[i].name)
    requires ValidMembers(ms) && At(file, first, MembersBytes(t, thin, ms))
    requires pos == MemberPos(thin, first, Shapes(t, ms), i)
    ensures read(pos) == Ok(Expected(t, ms, i, pos)) && MemberIsBack(file, thin, ms[i], Expected(t, ms, i, pos))
  {
    hide GoodMembers, ReadsStored, Tabled, TableHolds, EntryOffset, MembersBytes, MemberPos, Extra, Tail;
    MemberBack(read, t, thin, file, first, ms, names, i, pos);
    var e := Expected(t, ms, i, pos);
    assert GoodReader(read, file) by { StoredReaderIsGood(read, t, thin, file, names); }
    if !thin && |ms[i].contents| % 2 == 1 { PadByteIsBack(file, ms[i], e.data); }
  }

  lemma StoredReaderIsGood(read: HeaderReader, t: Target, thin: bool, file: seq<byte>, names: Option<seq<byte>>)
    requires ValidTarget(t) && ReadsStored(read, t, thin, file, names)
    ensures GoodReader(read, file)
  {
    hide GoodReader;
  }

  /** The members of a file that holds them come back from the walk. */
  lemma MembersBack(read: HeaderReader, t: Target, thin: bool, file: seq<byte>, armap: seq<byte>,
      ms: seq<Member>) returns (es: seq<Elt>)
    requires ValidTarget(t) && ValidMembers(ms) && GoodMembers(t, thin, ms) && Holds(file, armap, t, thin, ms)
    requires |armap| % 2 == 0
    requires |NameTable(t, thin, ms)| + 62 < TWO32 && ReadsStored(read, t, thin, file, KeptNames(t, thin, ms))
    ensures GoodReader(read, file) && es == Walk(read, thin, file, First(|armap|, t, thin, ms)) && |es| == |ms|
    ensures forall i :: 0 <= i < |ms| ==> MemberIsBack(file, thin, ms[i], es[i])
    ensures forall i :: 0 <= i < |ms| ==> read(es[i].pos) == Ok(es[i])
    ensures forall i :: 0 <= i < |ms| ==> es[i].pos == MemberPos(thin, First(|armap|, t, thin, ms), Shapes(t, ms), i)
  {
    hide Stored, Representable, TableHolds, KeptNames, NameTable, MembersBytes, TableBytes, Holds, Walk, MemberPos,
      First, Tabled, EntryOffset, MemberIsBack;
    var first, shapes := First(|armap|, t, thin, ms), Shapes(t, ms);
    es := Elts(t, thin, first, ms);
    MembersInFile(t, thin, file, armap, ms, 0);
    TableSizeFits(t, thin, ms);
    forall i | 0 <= i < |ms|
      ensures read(es[i].pos) == Ok(es[i]) && MemberIsBack(file, thin, ms[i], es[i])
    {
      var pos := MemberPos(thin, first, shapes, i);
      if Tabled(t, thin, ms[i].name) {
        TabledIsTableable(t, thin, ms[i].name);
        TabledMemberName(t, thin, ms, i);
      }
      MemberIsThere(read, t, thin, file, first, ms, KeptNames(t, thin, ms), i, pos);
    }
    FirstIsEven(t, thin, ms, |armap|);
    WalkMembers(read, t, thin, file, first, ms, es);
  }

  lemma TabledIsTableable(t: Target, thin: bool, name: seq<byte>)
    requires Representable(t, thin, name) && Tabled(t, thin, name)
    ensures TableableName(t, name)
  {
  }

  lemma FirstIsEven(t: Target, thin: bool, ms: seq<Member>, armap: nat)
    requires armap % 2 == 0
    ensures First(armap, t, thin, ms) % 2 == 0
  {
    hide NameTable, TableBytes;
    TableLength(t, NameTable(t, thin, ms));
  }

  lemma TableLength(t: Target, table: seq<byte>)
    ensures |TableBytes(t, table)| == if table == [] then 0 else HDR + Even(|table|)
    ensures |TableBytes(t, table)| % 2 == 0
  {
    hide Header;
    EvenStep(0, |table|);
  }

  lemma WalkMembers(read: HeaderReader, t: Target, thin: bool, file: seq<byte>, first: nat, ms: seq<Member>,
      es: seq<Elt>)
    requires ValidTarget(t) && ValidMembers(ms) && GoodReader(read, file) && read(|file|).Err?
    requires es == Elts(t, thin, first, ms) && first % 2 == 0 && |file| < TWO64 / 2
    requires At(file, first, MembersBytes(t, thin, ms)) && first + |MembersBytes(t, thin, ms)| == |file|
    requires forall i :: 0 <= i < |ms| ==> read(es[i].pos) == Ok(es[i])
    ensures Walk(read, thin, file, first) == es
  {
    hide GoodReader, Walk, MemberBytes, At, Concat, Laid, EvenExtras;
    var shapes := Shapes(t, ms);
    MembersLaid(t, thin, ms);
    var pos := seq(|es| + 1, i requires 0 <= i <= |es| => MemberPos(thin, first, shapes, i));
    assert pos[0] == first;
    BlocksWalk(read, thin, file, Blocks(t, thin, ms), shapes, es, pos);
  }

  /** What slurping the map of a written archive gives. */
  ghost predicate MapFound(read: HeaderReader, kind: MapKind, file: seq<byte>, armap: nat, t: Target, thin: bool,
      ms: seq<Member>, map0: seq<Orl>, offsets: seq<nat>)
    requires Members(Shapes(t, ms), map0)
  {
    if kind == NoMap then |offsets| == |map0| && armap == 0 && SlurpArmap(read, t.big, file, SARMAG) == Ok(None)
    else MapIsRight(read, kind, file, armap, t, thin, ms, map0, offsets)
  }

  lemma FindsMap(read: HeaderReader, kind: MapKind, t: Target, thin: bool, file: seq<byte>, ms: seq<Member>,
      map0: seq<Orl>, stat: seq<byte>)
    returns (offsets: seq<nat>)
    requires Writable(t, thin, ms, map0, stat) && Members(Shapes(t, ms), map0)
    requires ReadsHeaders(read, file)
    requires Holds(file, Armap(kind, t, thin, ms, map0, stat), t, thin, ms)
    ensures MapFound(read, kind, file, |Armap(kind, t, thin, ms, map0, stat)|, t, thin, ms, map0, offsets)
  {
    hide MapIsRight, ReadsHeaders, CoffMapFor, Sym64MapFor, BsdMapFor, SlurpArmap, Rest, GoodMembers, NameTable,
      Strings, CleanNames, At, GoodMap;
    match kind {
      case NoMap =>
        offsets := seq(|map0|, _ => 0);
        TableSizeFits(t, thin, ms);
        NoMapSlurped(read, t, thin, file, ms);
      case CoffKind => offsets := CoffBack(read, t, thin, file, ms, map0, stat);
      case Sym64Kind => offsets := Sym64Back(read, t, thin, file, ms, map0, stat);
      case BsdKind => offsets := BsdBack(read, t, thin, file, ms, map0, stat);
    }
  }

  lemma FindsNames(read: HeaderReader, t: Target, thin: bool, file: seq<byte>, armap: seq<byte>, ms: seq<Member>)
    requires ValidTarget(t) && ValidMembers(ms) && GoodMembers(t, thin, ms)
    requires ReadsHeaders(read, file)
    requires Holds(file, armap, t, thin, ms) && |armap| % 2 == 0 && |NameTable(t, thin, ms)| + 62 < TWO32
    ensures SlurpNames(read, file, SARMAG + |armap|) == Ok(NamesData(KeptNames(t, thin, ms), First(|armap|, t, thin,
      ms)))
  {
    hide ReadsHeaders, GoodMembers, NameTable, KeptNames, SlurpNames, Rest, TableBytes, MembersBytes, At, Special;
    TableSizeFits(t, thin, ms);
    RestOpens(read, t, thin, file, SARMAG + |armap|, ms);
  }

  function FoundMap(kind: MapKind, armap: nat, map0: seq<Orl>, offsets: seq<nat>): Option<MapData>
    requires |offsets| == |map0|
  {
    if kind == NoMap then None else Some(MapData(Carsyms(map0, offsets), SARMAG + armap))
  }

  /** Opening a written archive finds the map, the names and the first member. */
  lemma OpensAs(read: HeaderReader, kind: MapKind, t: Target, thin: bool, file: seq<byte>, armap: nat,
      ms: seq<Member>, map0: seq<Orl>, offsets: seq<nat>)
    requires Members(Shapes(t, ms), map0) && MapFound(read, kind, file, armap, t, thin, ms, map0, offsets)
    requires SlurpNames(read, file, SARMAG + armap) == Ok(NamesData(KeptNames(t, thin, ms), First(armap, t, thin, ms)))
    ensures |offsets| == |map0|
    ensures OpenWith(read, t.big, thin, file) ==
      Ok(ArData(thin, FoundMap(kind, armap, map0, offsets), KeptNames(t, thin, ms), First(armap, t, thin, ms)))
    ensures kind != NoMap ==> forall i :: 0 <= i < |map0| ==>
      (offsets[i] == MemberPos(thin, First(armap, t, thin, ms), Shapes(t, ms), map0[i].member) <==>
       Leads(kind, t, thin, ms, map0, i))
  {
    hide SlurpArmap, SlurpNames, KeptNames, First, Carsyms, MemberPos, Leads;
  }

  /**
   * Writing members and symbols and reading the bytes back: the archive opens, the walk yields exactly the members in
   * order with their names, sizes and contents, and a symbol of the map leads to the member that defines it exactly if
   * the map's writer can know where that is.
   */
  lemma ArchiveRoundTrips(kind: MapKind, t: Target, thin: bool, ms: seq<Member>, map0: seq<Orl>, stat: seq<byte>)
    requires Writable(t, thin, ms, map0, stat) && Members(Shapes(t, ms), map0)
    requires |ArchiveBytes(t, thin, ms, Armap(kind, t, thin, ms, map0, stat))| < TWO64 / 2
    ensures var file := ArchiveBytes(t, thin, ms, Armap(kind, t, thin, ms, map0, stat));
      var r := OpenArchive(t, file);
      && r.Ok? && r.value.thin == thin && (r.value.armap.None? <==> kind == NoMap)
      && var read := Reader(t, thin, file, r.value.names);
        && GoodReader(read, file)
        && var es := Walk(read, thin, file, r.value.first);
          && |es| == |ms|
          && (forall i :: 0 <= i < |ms| ==> MemberIsBack(file, thin, ms[i], es[i]))
          && RestIsBack(file, kind, r.value, NameTable(t, thin, ms), map0, stat)
          && (kind != NoMap ==>
               && |r.value.armap.value.symdefs| == |map0|
               && forall j :: 0 <= j < |map0| ==>
                 && r.value.armap.value.symdefs[j].name == map0[j].name
                 && (read(r.value.armap.value.symdefs[j].offset) == Ok(es[map0[j].member]) <==>
                     Leads(kind, t, thin, ms, map0, j)))
  {
    hide Writable, Leads, ReadsHeaders, ReadsStored, Armap, Walk, Holds, First, MemberPos, KeptNames, OpenWith,
      ReadHeader, At,
      MemberIsBack, RestIsBack, MapFound, SlurpNames, GoodMembers, NameTable, ArchiveBytes;
    WritableParts(t, thin, ms, map0, stat);
    var armap := Armap(kind, t, thin, ms, map0, stat);
    var file := ArchiveBytes(t, thin, ms, armap);
    ArchiveIsHeld(t, thin, ms, armap);
    ReaderReadsHeaders(t, thin, file);
    ArmapIsEven(kind, t, thin, ms, map0, stat);
    var read0 := Reader(t, thin, file, None);
    var offsets := FindsMap(read0, kind, t, thin, file, ms, map0, stat);
    FindsNames(read0, t, thin, file, armap, ms);
    OpensAs(read0, kind, t, thin, file, |armap|, ms, map0, offsets);
    MagicIs(t, thin, file);
    ReaderReadsStored(t, thin, file, KeptNames(t, thin, ms));
    var es := MembersBack(Reader(t, thin, file, KeptNames(t, thin, ms)), t, thin, file, armap, ms);
    RestBack(file, kind, t, thin, ms, map0, stat, OpenArchive(t, file).value);
  }

  /**
   * So all symbols lead to their members, but in thin Berkeley archives and past 4G, or on BSD 4.4 targets with other
   * maps.
   */
  lemma OrdinaryLeads(kind: MapKind, t: Target, thin: bool, ms: seq<Member>, map0: seq<Orl>, i: nat)
    requires Members(Shapes(t, ms), map0) && i < |map0|
    requires if t.style != Bsd44 then thin ==> kind != BsdKind
      else kind == BsdKind && !thin && !Past4G(BsdOffsets(BsdFirst(t, thin, ms, map0), Shapes(t, ms), map0))
    ensures Leads(kind, t, thin, ms, map0, i)
  {
    hide BsdFirst, BsdOffsets;
  }

  lemma WritableParts(t: Target, thin: bool, ms: seq<Member>, map0: seq<Orl>, stat: seq<byte>)
    requires Writable(t, thin, ms, map0, stat)
    ensures ValidTarget(t) && ValidMembers(ms) && GoodMembers(t, thin, ms)
    ensures |stat| == 32
    ensures |NameTable(t, thin, ms)| + 62 < TWO32
  {
    hide GoodMembers, NameTable;
  }

  lemma MagicIs(t: Target, thin: bool, file: seq<byte>)
    requires ValidTarget(t) && At(file, 0, if thin then ARMAGT else ARMAG)
    ensures OpenArchive(t, file) == OpenWith(Reader(t, thin, file, None), t.big, thin, file)
  {
    hide OpenWith, Reader;
    assert file[..SARMAG] == file[0..SARMAG];
    assert ARMAG[2] != ARMAGT[2];
  }

  lemma Sym64Even(thin: bool, shapes: seq<Shape>, map0: seq<Orl>, e: nat, stat: seq<byte>)
    requires |stat| == 32 && Members(shapes, map0) && |Strings(map0)| + 8 * |map0| + 16 + e < TWO32
    ensures |Sym64MapFor(thin, shapes, map0, e, stat)| % 2 == 0
  {
    hide Strings, WordMap, Sym64Pos, Sym64Plan;
    var p := Sym64Plan(|map0|, |Strings(map0)|, e);
    Sym64PlanExact(|map0|, |Strings(map0)|, e);
    WordMapLength(8, SYM64, p, stat, Sym64Offsets(thin, p.first, shapes, map0), Strings(map0));
  }

  lemma CoffEven(thin: bool, shapes: seq<Shape>, map0: seq<Orl>, e: nat, stat: seq<byte>)
    requires |stat| == 32 && Members(shapes, map0) && |Strings(map0)| + 8 * |map0| + 16 + e < TWO32
    ensures |CoffMapFor(thin, shapes, map0, e, stat)| % 2 == 0
  {
    hide Strings, WordMap, CoffPos, CoffPlan, Sym64MapFor;
    var p := CoffPlan(|map0|, |Strings(map0)|, e);
    CoffPlanExact(|map0|, |Strings(map0)|, e);
    WordMapLength(4, [SLASH], p, stat, CoffOffsets(thin, p.first, shapes, map0), Strings(map0));
    Sym64Even(thin, shapes, map0, e, stat);
  }

  lemma BsdEven(big: bool, thin: bool, shapes: seq<Shape>, map0: seq<Orl>, e: nat, stat: seq<byte>)
    requires |stat| == 32 && Members(shapes, map0) && |Strings(map0)| + 8 * |map0| + 16 + e < TWO32
    ensures |BsdMapFor(big, thin, shapes, map0, e, stat)| % 2 == 0
  {
    hide Strings, BsdMap, BsdPos, BsdPlan, Sym64MapFor;
    var p := BsdPlan(|map0|, |Strings(map0)|, e);
    BsdPlanExact(|map0|, |Strings(map0)|, e);
    BsdMapLength(p, big, stat, Ranlibs(p.first, shapes, map0), Strings(map0));
    Sym64Even(thin, shapes, map0, e, stat);
  }

  lemma ArmapIsEven(kind: MapKind, t: Target, thin: bool, ms: seq<Member>, map0: seq<Orl>, stat: seq<byte>)
    requires Writable(t, thin, ms, map0, stat) && Members(Shapes(t, ms), map0)
    ensures |Armap(kind, t, thin, ms, map0, stat)| % 2 == 0
  {
    hide GoodMembers, GoodMap, NameTable, Strings, ELength, CleanNames, CoffMapFor, Sym64MapFor, BsdMapFor;
    var shapes, e := Shapes(t, ms), ELength(|NameTable(t, thin, ms)|);
    Sym64Even(thin, shapes, map0, e, stat);
    CoffEven(thin, shapes, map0, e, stat);
    BsdEven(t.big, thin, shapes, map0, e, stat);
  }
}
