/** Reading a symbol map that was just written gives back the symbols and the position after the map. */
module ArMapRoundTrip {
  import opened Bytes
  import opened ArHeader
  import opened ArMap
  import opened ArMapReader

  ghost predicate CleanNames(map0: seq<Orl>) { forall i :: 0 <= i < |map0| ==> NUL !in map0[i].name }

  ghost predicate AllBelow(ws: seq<nat>, bound: nat) { forall i :: 0 <= i < |ws| ==> ws[i] < bound }

  /** The symbols with the given offsets. */
  function Carsyms(map0: seq<Orl>, offsets: seq<nat>): (r: seq<Carsym>)
    requires |offsets| == |map0|
    ensures |r| == |map0| && forall i :: 0 <= i < |r| ==> r[i] == Carsym(map0[i].name, offsets[i])
  {
    seq(|map0|, i requires 0 <= i < |map0| => Carsym(map0[i].name, offsets[i]))
  }

  /** A map header is read before any name table is known. */
  lemma ReadMapHeader(t: Target, thin: bool, file: seq<byte>, pos: nat, name: seq<byte>, stat: seq<byte>, size: nat)
    requires ValidTarget(t) && HeaderAt(file, pos, name, stat, size) && name[0] != BSD44_PREFIX[0]
    ensures var r := ReadHeader(t, thin, file, pos, None);
      r.Ok? && r.value.data == pos + HDR && r.value.size == size
  {
    HeaderFields(file, pos, name, stat, size);
    var h := file[pos..pos + HDR];
    assert h[0] == name[0];
    assert h[..3][0] == h[0];
  }

  lemma WordsBack(big: bool, k: nat, ws: seq<nat>)
    requires AllBelow(ws, Pow256(k))
    ensures var put := Putter(big, k);
      |Concat<nat>(put, ws)| == |ws| * k && Chunks(Getter(big), k, |ws|, Concat<nat>(put, ws)) == ws
  {
    var put, get := Putter(big, k), Getter(big);
    forall i | 0 <= i < |ws| ensures |put(ws[i])| == k && get(put(ws[i])) == ws[i] {
      WordBack(big, k, ws[i]);
    }
    ChunksBack(put, get, k, ws);
  }

  lemma SymbolsBack(big: bool, k: nat, map0: seq<Orl>, offsets: seq<nat>, tail: seq<byte>)
    requires |offsets| == |map0| && CleanNames(map0) && AllBelow(offsets, Pow256(k))
    ensures var words := Concat<nat>(Putter(big, k), offsets);
      |words| == |map0| * k
      && MapSymbols(Getter(big), k, |map0|, words, Strings(map0) + tail) == Carsyms(map0, offsets)
  {
    WordsBack(big, k, offsets);
    SplitNamesBack(map0, tail);
  }

  /** The pieces of a System 5 style map are in the file, header first. */
  ghost predicate WordMapAt(width: nat, name: seq<byte>, file: seq<byte>, pos: nat, plan: Plan, stat: seq<byte>,
                            offsets: seq<nat>, strings: seq<byte>)
    requires |stat| == 32
  {
    && At(file, pos, Header(PadTo(name, NAMELEN), stat, plan.mapsize))
    && WordMapBodyAt(width, file, pos + HDR, offsets, strings + Repeat(NUL, plan.padding))
  }

  ghost predicate WordMapBodyAt(width: nat, file: seq<byte>, d: nat, offsets: seq<nat>, strings: seq<byte>) {
    var words := Concat<nat>(Putter(true, width), offsets);
    && At(file, d, Putter(true, width)(|offsets|))
    && At(file, d + width, words)
    && At(file, d + width + |words|, strings)
  }

  lemma WordMapPieces(width: nat, name: seq<byte>, file: seq<byte>, pos: nat, plan: Plan, stat: seq<byte>,
                      offsets: seq<nat>, strings: seq<byte>)
    requires |stat| == 32 && At(file, pos, WordMap(width, name, plan, stat, offsets, strings))
    ensures WordMapAt(width, name, file, pos, plan, stat, offsets, strings)
  {
    var put := Putter(true, width);
    var h, c, words, pad := Header(PadTo(name, NAMELEN), stat, plan.mapsize), put(|offsets|),
      Concat<nat>(put, offsets), Repeat(NUL, plan.padding);
    assert |c| == width;
    Assoc(h + c + words, strings, pad);
    AtSplit(file, pos, h + c + words, strings + pad);
    AtSplit(file, pos, h + c, words);
    AtSplit(file, pos, h, c);
  }

  lemma CountBack(big: bool, k: nat, file: seq<byte>, pos: nat, n: nat)
    requires n < Pow256(k) && At(file, pos, Putter(big, k)(n))
    ensures pos + k <= |file| && Getter(big)(file[pos..pos + k]) == n
  {
    WordBack(big, k, n);
  }

  // System 5 ----------------------------------------------------------------

  lemma CoffPlanExact(n: nat, strings: nat, elength: nat)
    requires strings + 4 * n + 5 + elength < TWO32
    ensures var p := CoffPlan(n, strings, elength);
      p.mapsize == strings + 4 * n + 4 + p.padding && p.mapsize % 2 == 0
      && p.first == p.mapsize + elength + HDR + SARMAG
  {
    hide U32, Odd, Even;
    U32Small(strings);
    U32Small(n * 4 + 4);
    var size := strings + (n * 4 + 4);
    OddIs(size);
    U32Small(size);
    U32Small(Even(size));
    U32Small(Even(size) + elength);
  }

  lemma CoffPartsAre(h: Elt, file: seq<byte>, get: seq<byte> -> nat, n: nat, words: seq<byte>, strings: seq<byte>)
    requires h.data + 4 <= |file| && get(file[h.data..h.data + 4]) == n
    requires h.size == 4 + |words| + |strings| && |words| == 4 * n
    requires At(file, h.data + 4, words) && At(file, h.data + 4 + |words|, strings)
    ensures CoffParts(h, file, get) == Ok(Parts(n, words, strings, Even(h.data + h.size)))
  {
  }

  lemma CoffPartsGive(h: Elt, file: seq<byte>, map0: seq<Orl>, offsets: seq<nat>, tail: seq<byte>)
    requires |offsets| == |map0| && CleanNames(map0) && AllBelow(offsets, Pow256(4))
    requires CoffParts(h, file, Getter(true)) ==
      Ok(Parts(|map0|, Concat<nat>(Putter(true, 4), offsets), Strings(map0) + tail, Even(h.data + h.size)))
    ensures CoffBody(h, file, Getter(true)) == Ok(MapData(Carsyms(map0, offsets), Even(h.data + h.size)))
  {
    SymbolsBack(true, 4, map0, offsets, tail);
  }

  lemma CoffBodyBack(h: Elt, file: seq<byte>, offsets: seq<nat>, map0: seq<Orl>, tail: seq<byte>)
    requires |offsets| == |map0| < Pow256(4) && CleanNames(map0) && AllBelow(offsets, Pow256(4))
    requires h.size == |Strings(map0)| + 4 * |map0| + 4 + |tail|
    requires WordMapBodyAt(4, file, h.data, offsets, Strings(map0) + tail)
    ensures CoffBody(h, file, Getter(true)) == Ok(MapData(Carsyms(map0, offsets), Even(h.data + h.size)))
  {
    var words := Concat<nat>(Putter(true, 4), offsets);
    assert |words| == |map0| * 4 by { WordsBack(true, 4, offsets); }
    CountBack(true, 4, file, h.data, |map0|);
    CoffPartsAre(h, file, Getter(true), |map0|, words, Strings(map0) + tail);
    CoffPartsGive(h, file, map0, offsets, tail);
  }

  /** Write then slurp a System 5 map whose header is read back as h. */
  lemma CoffMapBack(read: HeaderReader, h: Elt, file: seq<byte>, pos: nat, plan: Plan, offsets: seq<nat>,
      map0: seq<Orl>)
    requires read(pos) == Ok(h) && h.data == pos + HDR && h.size == plan.mapsize
    requires |offsets| == |map0| && CleanNames(map0) && AllBelow(offsets, Pow256(4))
    requires plan.mapsize == |Strings(map0)| + 4 * |map0| + 4 + plan.padding < TWO32
    requires WordMapBodyAt(4, file, pos + HDR, offsets, Strings(map0) + Repeat(NUL, plan.padding))
    requires !IsSecondMap(file, Even(pos + HDR + plan.mapsize))
    ensures CoffSlurp(read, file, pos) == Ok(MapData(Carsyms(map0, offsets), Even(pos + HDR + plan.mapsize)))
  {
    hide WordMapBodyAt, CleanNames, Strings, Carsyms, CoffBody, Pow256;
    assert |map0| < Pow256(4) by { WordSizes(); }
    CoffBodyBack(h, file, offsets, map0, Repeat(NUL, plan.padding));
  }

  // 64-bit ------------------------------------------------------------------

  lemma RoundUp8Even(size: nat)
    ensures RoundUp8(size) % 2 == 0
  {
    ModUnique(RoundUp8(size), 2, (size + 7) / 8 * 4, 0);
  }

  lemma Sym64PlanExact(n: nat, strings: nat, elength: nat)
    requires strings + 8 * n + 16 + elength < TWO32
    ensures var p := Sym64Plan(n, strings, elength);
      p.mapsize == strings + 8 * n + 8 + p.padding && p.mapsize % 2 == 0 && p.padding < 8
      && p.first == p.mapsize + elength + HDR + SARMAG
  {
    hide U32, RoundUp8;
    var size := strings + (n * 8 + 8);
    RoundUp8Even(size);
    U32Small(strings);
    U32Small(n * 8 + 8);
    U32Small(size);
    U32Small(RoundUp8(size));
    U32Small(RoundUp8(size) + elength);
  }

  lemma Sym64PartsAre(h: Elt, file: seq<byte>, get: seq<byte> -> nat, n: nat, words: seq<byte>, strings: seq<byte>)
    requires h.data + 8 <= |file| && get(file[h.data..h.data + 8]) == n
    requires h.size == 8 + |words| + |strings| < TWO32 && |words| == 8 * n
    requires At(file, h.data + 8, words) && At(file, h.data + 8 + |words|, strings)
    ensures Sym64Parts(h, file, get) == Ok(Parts(n, words, strings, Even(h.data + h.size)))
  {
    assert U64(h.size - 8 * n - 8) == |strings|;
  }

  lemma Sym64PartsGive(h: Elt, file: seq<byte>, map0: seq<Orl>, offsets: seq<nat>, tail: seq<byte>)
    requires |offsets| == |map0| && CleanNames(map0) && AllBelow(offsets, Pow256(8))
    requires Sym64Parts(h, file, Getter(true)) ==
      Ok(Parts(|map0|, Concat<nat>(Putter(true, 8), offsets), Strings(map0) + tail, Even(h.data + h.size)))
    ensures Sym64Body(h, file, Getter(true)) == Ok(MapData(Carsyms(map0, offsets), Even(h.data + h.size)))
  {
    SymbolsBack(true, 8, map0, offsets, tail);
  }

  lemma Sym64BodyBack(h: Elt, file: seq<byte>, offsets: seq<nat>, map0: seq<Orl>, tail: seq<byte>)
    requires |offsets| == |map0| < Pow256(8) && CleanNames(map0) && AllBelow(offsets, Pow256(8))
    requires h.size == |Strings(map0)| + 8 * |map0| + 8 + |tail| < TWO32
    requires WordMapBodyAt(8, file, h.data, offsets, Strings(map0) + tail)
    ensures Sym64Body(h, file, Getter(true)) == Ok(MapData(Carsyms(map0, offsets), Even(h.data + h.size)))
  {
    var words := Concat<nat>(Putter(true, 8), offsets);
    assert |words| == |map0| * 8 by { WordsBack(true, 8, offsets); }
    CountBack(true, 8, file, h.data, |map0|);
    Sym64PartsAre(h, file, Getter(true), |map0|, words, Strings(map0) + tail);
    Sym64PartsGive(h, file, map0, offsets, tail);
  }

  /** Write then slurp a 64-bit map. */
  lemma Sym64MapBack(read: HeaderReader, h: Elt, file: seq<byte>, pos: nat, plan: Plan, offsets: seq<nat>,
      map0: seq<Orl>)
    requires read(pos) == Ok(h) && h.data == pos + HDR && h.size == plan.mapsize
    requires |offsets| == |map0| && CleanNames(map0) && AllBelow(offsets, Pow256(8))
    requires plan.mapsize == |Strings(map0)| + 8 * |map0| + 8 + plan.padding < TWO32
    requires WordMapBodyAt(8, file, pos + HDR, offsets, Strings(map0) + Repeat(NUL, plan.padding))
    ensures Sym64Slurp(read, file, pos) == Ok(MapData(Carsyms(map0, offsets), Even(pos + HDR + plan.mapsize)))
  {
    hide WordMapBodyAt, CleanNames, Strings, Carsyms, Sym64Body, Pow256;
    assert |map0| < Pow256(8) by { WordSizes(); }
    Sym64BodyBack(h, file, offsets, map0, Repeat(NUL, plan.padding));
  }

  // Berkeley ----------------------------------------------------------------

  lemma BsdPlanExact(n: nat, strings: nat, elength: nat)
    requires strings + 8 * n + 9 + elength < TWO32
    ensures var p := BsdPlan(n, strings, elength);
      p.mapsize == strings + 8 * n + 8 + p.padding && p.mapsize % 2 == 0
      && p.first == p.mapsize + elength + HDR + SARMAG
      && U32(n * 8) == n * 8 && U32(strings + p.padding) == strings + p.padding
  {
    hide U32, Odd;
    var whole := strings + Odd(strings);
    OddIs(strings);
    U32Small(n * 8);
    U32Small(whole);
    U32Small(n * 8 + whole + 8);
    U32Small(n * 8 + whole + 8 + elength);
    EvenSum(n * 4 + 4, whole);
  }

  lemma EvenSum(half: nat, q: nat)
    requires q % 2 == 0
    ensures (2 * half + q) % 2 == 0
  {
  }

  lemma SliceAfter(a: seq<byte>, b: seq<byte>, lo: nat, hi: nat)
    requires lo <= hi <= |b|
    ensures (a + b)[|a| + lo..|a| + hi] == b[lo..hi]
  {
  }

  lemma {:induction false} RanlibBytes(put: nat -> seq<byte>, rs: seq<Ranlib>, i: nat)
    requires i < |rs|
    requires forall k :: 0 <= k < |rs| ==> |put(rs[k].namidx)| == 4 && |put(rs[k].offset)| == 4
    ensures var s := Concat(RanlibPutter(put), rs);
      && |s| == 8 * |rs|
      && s[8 * i..8 * i + 4] == put(rs[i].namidx) && s[8 * i + 4..8 * i + 8] == put(rs[i].offset)
  {
    var head, rest := RanlibPutter(put)(rs[0]), Concat(RanlibPutter(put), rs[1..]);
    var s := Concat(RanlibPutter(put), rs);
    assert s == head + rest && |head| == 8;
    if |rs| == 1 {
      assert rs[1..] == [];
    } else if i == 0 {
      RanlibBytes(put, rs[1..], 0);
    } else {
      RanlibBytes(put, rs[1..], i - 1);
      SliceAfter(head, rest, 8 * (i - 1), 8 * (i - 1) + 4);
      SliceAfter(head, rest, 8 * (i - 1) + 4, 8 * (i - 1) + 8);
    }
    if i == 0 {
      assert s[..4] == head[..4] && s[4..8] == head[4..8];
    }
  }

  lemma RanlibsBack(big: bool, rs: seq<Ranlib>)
    requires forall k :: 0 <= k < |rs| ==> rs[k].namidx < TWO32 && rs[k].offset < TWO32
    ensures var s := Concat(RanlibPutter(Putter(big, 4)), rs);
      |s| == 8 * |rs| && RanlibsAt(Getter(big), |rs|, s) == rs
  {
    var put, get := Putter(big, 4), Getter(big);
    WordSizes();
    forall k | 0 <= k < |rs|
      ensures |put(rs[k].namidx)| == 4 && |put(rs[k].offset)| == 4
      ensures get(put(rs[k].namidx)) == rs[k].namidx && get(put(rs[k].offset)) == rs[k].offset
    {
      WordBack(big, 4, rs[k].namidx);
      WordBack(big, 4, rs[k].offset);
    }
    forall i | 0 <= i < |rs| ensures |Concat(RanlibPutter(put), rs)| == 8 * |rs|
      && RanlibsAt(get, |rs|, Concat(RanlibPutter(put), rs))[i] == rs[i] {
      RanlibBytes(put, rs, i);
    }
  }

  lemma MiddleString(before: seq<byte>, name: seq<byte>, after: seq<byte>)
    requires NUL !in name
    ensures CString(before + (name + [NUL]) + after, |before|) == name
  {
    hide CString;
    var off, buf := |before|, before + (name + [NUL]) + after;
    assert buf[off..off + |name|] == name;
    assert buf[off + |name|] == NUL;
    CStringIs(buf, off, name);
  }

  lemma SplitStrings(map0: seq<Orl>, i: nat)
    requires i < |map0|
    ensures Strings(map0) == Strings(map0[..i]) + (map0[i].name + [NUL]) + Strings(map0[i + 1..])
  {
    hide Concat;
    assert map0 == map0[..i + 1] + map0[i + 1..];
    ConcatAppend(CName, map0[..i + 1], map0[i + 1..]);
    ConcatNext(CName, map0, i);
  }

  /** The string that starts where the earlier ones end. */
  lemma StringAt(map0: seq<Orl>, tail: seq<byte>, i: nat)
    requires i < |map0| && NUL !in map0[i].name
    ensures var off, buf := |Strings(map0[..i])|, Strings(map0) + tail;
      off < |Strings(map0)| && CString(buf, off) == map0[i].name
  {
    hide CString, Strings;
    var before, name, after := Strings(map0[..i]), map0[i].name, Strings(map0[i + 1..]);
    SplitStrings(map0, i);
    MiddleString(before, name, after + tail);
    Assoc(before + (name + [NUL]), after, tail);
  }

  lemma BsdNamesBack(map0: seq<Orl>, rs: seq<Ranlib>, offsets: seq<nat>, tail: seq<byte>, members: nat)
    requires GoodMap(map0, members) && CleanNames(map0) && |rs| == |map0| == |offsets|
    requires forall i :: 0 <= i < |rs| ==> rs[i] == Ranlib(map0[i].namidx, offsets[i])
    ensures var strings := Strings(map0) + tail;
      BsdSymbols(Lookup(strings), rs, |strings|) == Some(Carsyms(map0, offsets))
  {
    var strings := Strings(map0) + tail;
    forall i | 0 <= i < |rs| ensures rs[i].namidx < |strings| && Lookup(strings)(rs[i]) ==
      Carsym(map0[i].name, offsets[i]) {
      StringAt(map0, tail, i);
    }
    assert NamesInRange(rs, |strings|);
    assert Symbols(Lookup(strings), rs) == Carsyms(map0, offsets);
  }

  ghost predicate BsdMapBodyAt(big: bool, file: seq<byte>, d: nat, rs: seq<Ranlib>, strings: seq<byte>) {
    var entries := Concat(RanlibPutter(Putter(big, 4)), rs);
    && At(file, d, Putter(big, 4)(U32(|rs| * 8)))
    && At(file, d + 4, entries)
    && At(file, d + 8 + |entries|, strings)
  }

  lemma BsdMapPieces(file: seq<byte>, pos: nat, plan: Plan, big: bool, stat: seq<byte>, rs: seq<Ranlib>,
      strings: seq<byte>)
    requires |stat| == 32 && At(file, pos, BsdMap(plan, big, stat, rs, strings))
    ensures At(file, pos, Header(PadTo(RANLIBMAG, NAMELEN), stat, plan.mapsize))
    ensures BsdMapBodyAt(big, file, pos + HDR, rs, strings + Repeat(NUL, plan.padding))
  {
    hide Header, Concat, RanlibPutter, U32;
    var put := Putter(big, 4);
    var h, c, entries := Header(PadTo(RANLIBMAG, NAMELEN), stat, plan.mapsize), put(U32(|rs| * 8)),
      Concat(RanlibPutter(put), rs);
    var s, pad := put(U32(|strings| + plan.padding)), Repeat(NUL, plan.padding);
    assert |c| == 4 && |s| == 4;
    Assoc(h + c + entries + s, strings, pad);
    AtSplit(file, pos, h + c + entries + s, strings + pad);
    AtSplit(file, pos, h + c + entries, s);
    AtSplit(file, pos, h + c, entries);
    AtSplit(file, pos, h, c);
  }

  lemma BsdBodyIs(h: Elt, file: seq<byte>, get: seq<byte> -> nat, rs: seq<Ranlib>, entries: seq<byte>,
      strings: seq<byte>)
    requires |entries| == 8 * |rs| && RanlibsAt(get, |rs|, entries) == rs
    requires h.data + 4 <= |file| && get(file[h.data..h.data + 4]) == 8 * |rs|
    requires h.size == 8 + |entries| + |strings|
    requires At(file, h.data + 4, entries) && At(file, h.data + 8 + |entries|, strings)
    requires BsdSymbols(Lookup(strings), rs, |strings|).Some?
    ensures BsdBody(h, file, get) == Ok(MapData(BsdSymbols(Lookup(strings), rs, |strings|).value, Even(h.data +
      h.size)))
  {
  }

  lemma BsdBodyBack(h: Elt, file: seq<byte>, big: bool, plan: Plan, rs: seq<Ranlib>, offsets: seq<nat>,
      map0: seq<Orl>, members: nat)
    requires |rs| == |map0| == |offsets| && GoodMap(map0, members) && CleanNames(map0)
    requires forall k :: 0 <= k < |rs| ==>
      rs[k] == Ranlib(map0[k].namidx, offsets[k]) && rs[k].namidx < TWO32 && rs[k].offset < TWO32
    requires h.size == plan.mapsize == |Strings(map0)| + 8 * |map0| + 8 + plan.padding < TWO32
    requires BsdMapBodyAt(big, file, h.data, rs, Strings(map0) + Repeat(NUL, plan.padding))
    ensures BsdBody(h, file, Getter(big)) == Ok(MapData(Carsyms(map0, offsets), Even(h.data + plan.mapsize)))
  {
    hide GoodMap, CleanNames, Strings, BsdSymbols, Carsyms, BsdBody, Concat, Putter, RanlibsAt, Pow256;
    var strings := Strings(map0) + Repeat(NUL, plan.padding);
    RanlibsBack(big, rs);
    BsdNamesBack(map0, rs, offsets, Repeat(NUL, plan.padding), members);
    WordSizes();
    U32Small(|rs| * 8);
    CountBack(big, 4, file, h.data, 8 * |rs|);
    BsdBodyIs(h, file, Getter(big), rs, Concat(RanlibPutter(Putter(big, 4)), rs), strings);
  }

  /** Write then slurp a Berkeley map. */
  lemma BsdMapBack(read: HeaderReader, h: Elt, big: bool, file: seq<byte>, pos: nat, plan: Plan,
                   rs: seq<Ranlib>, offsets: seq<nat>, map0: seq<Orl>, members: nat)
    requires read(pos) == Ok(h) && h.data == pos + HDR && h.size == plan.mapsize
    requires |rs| == |map0| == |offsets| && GoodMap(map0, members) && CleanNames(map0)
    requires forall k :: 0 <= k < |rs| ==>
      rs[k] == Ranlib(map0[k].namidx, offsets[k]) && rs[k].namidx < TWO32 && rs[k].offset < TWO32
    requires plan.mapsize == |Strings(map0)| + 8 * |map0| + 8 + plan.padding < TWO32
    requires BsdMapBodyAt(big, file, pos + HDR, rs, Strings(map0) + Repeat(NUL, plan.padding))
    ensures BsdSlurp(read, big, file, pos) == Ok(MapData(Carsyms(map0, offsets), Even(pos + HDR + plan.mapsize)))
  {
    hide BsdMapBodyAt, GoodMap, CleanNames, Strings, Carsyms, BsdBody;
    BsdBodyBack(h, file, big, plan, rs, offsets, map0, members);
  }
}
