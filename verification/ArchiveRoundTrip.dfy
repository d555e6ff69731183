/** Reading a written archive gives back its members; every symbol of its map leads to the member that defines it. */
module ArchiveRoundTrip {
  import opened Bytes
  import opened ArHeader
  import opened ArNames
  import opened ArMap
  import opened ArMapReader
  import opened Archive

  // Which names survive -----------------------------------------------------

  /** Names the format can represent, and that are not taken for a map or a name table. */
  ghost predicate Representable(t: Target, thin: bool, name: seq<byte>) {
    if thin && t.style != Bsd44 then TableableName(t, name)
    else if Follows(t, name) then NUL !in name && RoundUp4(|name|) < TWO32 / 2 && !(RANLIBMAG <= name)
    else if |name| > t.maxName then TableableName(t, name)
    else PlainName(t, name) && name != RANLIBMAG && name != ARFILENAMES
  }

  ghost predicate GoodMembers(t: Target, thin: bool, ms: seq<Member>) {
    forall i :: 0 <= i < |ms| ==>
      |ms[i].stat| == 32 && Representable(t, thin, ms[i].name) && SizeFits(|ms[i].contents| + Extra(t, ms[i].name))
  }

  /** What reading member i back should give. */
  function Expected(t: Target, ms: seq<Member>, i: nat, pos: nat): Elt
    requires i < |ms|
  {
    Elt(ms[i].name, |ms[i].contents|, Extra(t, ms[i].name), 0, pos, pos + HDR + Extra(t, ms[i].name))
  }

  /** The names the reader keeps in memory after reading the table of ms. */
  function KeptNames(t: Target, thin: bool, ms: seq<Member>): Option<seq<byte>> {
    var table := NameTable(t, thin, ms);
    if table == [] then None else Some(FixNames(table + OddPad(|table|)))
  }

  function OddPad(n: nat): seq<byte> { if n % 2 == 1 then [NEWLINE] else [] }

  // One member --------------------------------------------------------------

  lemma IndexFieldIsTableField(t: Target, field: seq<byte>, off: nat)
    requires ValidTarget(t) && |field| == NAMELEN
    ensures IsTableField(t, IndexField(t, field, off), off)
  {
    var s := [t.pad] + PadTo(Decimal(off), t.maxName - 1);
    var f := IndexField(t, field, off);
    assert f[..t.maxName] == s;
    assert f[1..t.maxName] == s[1..];
  }

  lemma TabledMemberName(t: Target, thin: bool, ms: seq<Member>, i: nat)
    requires ValidTarget(t) && i < |ms| && Tabled(t, thin, ms[i].name)
    requires TableableName(t, ms[i].name) && SizeFits(|NameTable(t, thin, ms)|)
    ensures TableHolds(KeptNames(t, thin, ms), EntryOffset(t, thin, NamesOf(ms), Same(), i), ms[i].name)
  {
    var table := NameTable(t, thin, ms);
    TableNamesBack(t, thin, NamesOf(ms), Same(), OddPad(|table|), i);
    EntryAtOffset(t, thin, NamesOf(ms), Same(), i);
    SizeFitsIff(|table|);
    SizeFitsIff(EntryOffset(t, thin, NamesOf(ms), Same(), i));
  }

  /** How the header of a member called `name` names it; `off` is its place in the name table, if it has one. */
  ghost predicate NamedBy(t: Target, thin: bool, name: seq<byte>, field: seq<byte>, off: nat)
    requires ValidTarget(t)
  {
    if Follows(t, name) then field == Bsd44Field(t, Extra(t, name))
    else if Tabled(t, thin, name) then IsTableField(t, field, off)
    else |name| <= t.maxName && field == ShortField(t, name)
  }

  predicate Tabled(t: Target, thin: bool, name: seq<byte>) { t.style != Bsd44 && (thin || |name| > t.maxName) }

  ghost predicate TableHolds(names: Option<seq<byte>>, off: nat, name: seq<byte>) {
    names.Some? && off < |names.value| && SizeFits(off) && CString(names.value, off) == name
  }

  lemma FieldNames(t: Target, thin: bool, ms: seq<Member>, i: nat)
    requires ValidTarget(t) && i < |ms|
    ensures NamedBy(t, thin, ms[i].name, NameField(t, thin, ms, i), EntryOffset(t, thin, NamesOf(ms), Same(), i))
  {
    IndexFieldIsTableField(t, InitialField(t, ms[i].name), EntryOffset(t, thin, NamesOf(ms), Same(), i));
  }

  /** Member m is in the file at pos under a header that names it, and the name table holds its name if need be. */
  ghost predicate Stored(t: Target, thin: bool, file: seq<byte>, names: Option<seq<byte>>, pos: nat, m: Member,
      field: seq<byte>, off: nat)
    requires ValidTarget(t)
  {
    && NamedBy(t, thin, m.name, field, off) && (Tabled(t, thin, m.name) ==> TableHolds(names, off, m.name))
    && HeaderAt(file, pos, field, m.stat, |m.contents| + Extra(t, m.name))
    && At(file, pos + HDR, LongName(t, m))
    && (!thin ==> At(file, pos + HDR + Extra(t, m.name), m.contents))
  }

  /** The reader recovers name, size and place of a stored member. */
  lemma MemberRead(t: Target, thin: bool, file: seq<byte>, names: Option<seq<byte>>, pos: nat, m: Member,
      field: seq<byte>, off: nat)
    requires ValidTarget(t) && Representable(t, thin, m.name) && NamedBy(t, thin, m.name, field, off)
    requires Tabled(t, thin, m.name) ==> TableHolds(names, off, m.name)
    requires HeaderAt(file, pos, field, m.stat, |m.contents| + Extra(t, m.name)) && At(file, pos + HDR, LongName(t, m))
    ensures ReadHeader(t, thin, file, pos, names) ==
      Ok(Elt(m.name, |m.contents|, Extra(t, m.name), 0, pos, pos + HDR + Extra(t, m.name)))
  {
    hide ReadHeader, Header, Bsd44Field, ShortField, CString, TableableName, PlainName, IsTableField;
    if Follows(t, m.name) {
      ReadBsd44(t, thin, file, pos, names, m.name, Extra(t, m.name), m.stat, |m.contents|);
    } else if Tabled(t, thin, m.name) {
      ReadTabled(t, thin, file, pos, names.value, field, off, m.stat, |m.contents|);
    } else {
      ReadPlain(t, thin, file, pos, names, m.name, m.stat, |m.contents|);
    }
  }

  /** What the rest of the argument needs to know of a header reader: it recovers every stored member. */
  ghost predicate ReadsStored(read: HeaderReader, t: Target, thin: bool, file: seq<byte>, names: Option<seq<byte>>)
    requires ValidTarget(t)
  {
    && GoodReader(read, file) && read(|file|).Err?
    && forall pos: nat, m: Member, field: seq<byte>, off: nat ::
      Representable(t, thin, m.name) && Stored(t, thin, file, names, pos, m, field, off) ==>
        read(pos) == Ok(Elt(m.name, |m.contents|, Extra(t, m.name), 0, pos, pos + HDR + Extra(t, m.name)))
  }

  lemma ReaderReadsStored(t: Target, thin: bool, file: seq<byte>, names: Option<seq<byte>>)
    requires ValidTarget(t)
    ensures ReadsStored(Reader(t, thin, file, names), t, thin, file, names)
  {
    hide ReadHeader, GoodReader, Representable, NamedBy, TableHolds, At, HeaderAt, Extra, LongName;
    var read := Reader(t, thin, file, names);
    ReaderIsGood(t, thin, file, names);
    ReaderStops(t, thin, file, names);
    forall pos: nat, m: Member, field: seq<byte>, off: nat
      | Representable(t, thin, m.name) && Stored(t, thin, file, names, pos, m, field, off)
      ensures read(pos) == Ok(Elt(m.name, |m.contents|, Extra(t, m.name), 0, pos, pos + HDR + Extra(t, m.name)))
    {
      MemberRead(t, thin, file, names, pos, m, field, off);
    }
  }

  lemma ReaderStops(t: Target, thin: bool, file: seq<byte>, names: Option<seq<byte>>)
    requires ValidTarget(t)
    ensures ReadHeader(t, thin, file, |file|, names).Err?
  {
  }

  /** A member's bytes store it. */
  lemma MemberIsStored(t: Target, thin: bool, file: seq<byte>, pos: nat, ms: seq<Member>, i: nat,
      names: Option<seq<byte>>)
    requires ValidTarget(t) && i < |ms| && |ms[i].stat| == 32 && SizeFits(|ms[i].contents| + Extra(t, ms[i].name))
    requires Tabled(t, thin, ms[i].name) ==> TableHolds(names, EntryOffset(t, thin, NamesOf(ms), Same(), i), ms[i].name)
    requires At(file, pos, MemberBytes(t, thin, ms, i))
    ensures Stored(t, thin, file, names, pos, ms[i], NameField(t, thin, ms, i),
      EntryOffset(t, thin, NamesOf(ms), Same(), i))
  {
    HeaderOfMember(t, thin, file, pos, ms, i);
    FieldNames(t, thin, ms, i);
  }

  lemma LongNameLen(t: Target, m: Member)
    ensures |LongName(t, m)| == Extra(t, m.name)
  {
  }

  lemma HeaderOfMember(t: Target, thin: bool, file: seq<byte>, pos: nat, ms: seq<Member>, i: nat)
    requires ValidTarget(t) && i < |ms| && |ms[i].stat| == 32 && SizeFits(|ms[i].contents| + Extra(t, ms[i].name))
    requires At(file, pos, MemberBytes(t, thin, ms, i))
    ensures HeaderAt(file, pos, NameField(t, thin, ms, i), ms[i].stat, |ms[i].contents| + Extra(t, ms[i].name))
    ensures At(file, pos + HDR, LongName(t, ms[i]))
    ensures At(file, pos + HDR + Extra(t, ms[i].name), Tail(thin, ms[i]))
    ensures !thin ==> At(file, pos + HDR + Extra(t, ms[i].name), ms[i].contents)
  {
    hide Header, NameField, SizeFits, Repeat, At, LongName, Extra;
    var m := ms[i];
    var h := Header(NameField(t, thin, ms, i), m.stat, |m.contents| + Extra(t, m.name));
    AtSplit(file, pos, h + LongName(t, m), Tail(thin, m));
    AtSplit(file, pos, h, LongName(t, m));
    LongNameLen(t, m);
    if !thin { AtSplit(file, pos + HDR + Extra(t, m.name), m.contents, OddPad(|m.contents|)); }
  }

  // All members -------------------------------------------------------------

  lemma MemberBytesLen(t: Target, thin: bool, ms: seq<Member>, i: nat)
    requires ValidTarget(t) && i < |ms| && |ms[i].stat| == 32
    ensures |MemberBytes(t, thin, ms, i)| == MemberLen(thin, Shapes(t, ms)[i])
  {
  }

  ghost predicate Laid(thin: bool, blocks: seq<seq<byte>>, shapes: seq<Shape>) {
    |blocks| == |shapes| && forall i :: 0 <= i < |blocks| ==> |blocks[i]| == MemberLen(thin, shapes[i])
  }

  lemma {:induction false} BlocksEnd(thin: bool, first: nat, blocks: seq<seq<byte>>, shapes: seq<Shape>, k: nat)
    requires Laid(thin, blocks, shapes) && k <= |blocks|
    ensures first + |Concat(Same(), blocks[..k])| == MemberPos(thin, first, shapes, k)
  {
    if k > 0 {
      BlocksEnd(thin, first, blocks, shapes, k - 1);
      ConcatNext(Same(), blocks, k - 1);
    }
  }

  /** Block k is where the layout says, and the blocks end where the layout says. */
  lemma BlockAt(thin: bool, file: seq<byte>, first: nat, blocks: seq<seq<byte>>, shapes: seq<Shape>, k: nat)
    requires Laid(thin, blocks, shapes) && k <= |blocks| && At(file, first, Concat(Same(), blocks))
    ensures k < |blocks| ==> At(file, MemberPos(thin, first, shapes, k), blocks[k])
    ensures MemberPos(thin, first, shapes, k) <= MemberPos(thin, first, shapes, |blocks|) == first +
      |Concat(Same(), blocks)|
  {
    hide MemberPos, MemberLen, Concat, Laid;
    BlocksEnd(thin, first, blocks, shapes, k);
    BlocksEnd(thin, first, blocks, shapes, |blocks|);
    assert blocks[..|blocks|] == blocks;
    assert blocks == blocks[..k] + blocks[k..];
    ConcatAppend(Same(), blocks[..k], blocks[k..]);
    if k < |blocks| { ConcatAt(Same(), file, first, blocks, k); }
  }

  /** A reader that finds es at consecutive positions and nothing after them walks exactly es. */
  lemma {:induction false} WalkIs(read: HeaderReader, thin: bool, file: seq<byte>, es: seq<Elt>, pos: seq<nat>, k: nat)
    requires GoodReader(read, file) && |pos| == |es| + 1 && k <= |es|
    requires forall i :: 0 <= i < |es| ==> read(pos[i]) == Ok(es[i])
    requires forall i :: 0 <= i < |es| ==> NextPos(thin, es[i]) == Ok(pos[i + 1])
    requires read(pos[|es|]).Err?
    ensures Walk(read, thin, file, pos[k]) == es[k..]
    decreases |es| - k
  {
    hide NextPos, GoodReader;
    if k < |es| {
      WalkIs(read, thin, file, es, pos, k + 1);
      assert es[k..] == [es[k]] + es[k + 1..];
    }
  }

  lemma NextPosExact(thin: bool, e: Elt, pos: nat, m: Shape)
    requires pos % 2 == 0 && m.extra % 2 == 0 && e.data == pos + HDR + m.extra && e.size == m.size
    requires pos + MemberLen(thin, m) < TWO64
    ensures NextPos(thin, e) == Ok(pos + MemberLen(thin, m))
  {
    hide U64;
    if !thin {
      var p := e.data + e.size;
      EvenStep(pos + HDR + m.extra, m.size);
      assert p + p % 2 == Even(p) == pos + MemberLen(thin, m);
      U64Small(p);
      U64Small(p + p % 2);
    }
  }

  lemma ExtrasAreEven(t: Target, ms: seq<Member>)
    ensures EvenExtras(Shapes(t, ms))
  {
    hide RoundUp4;
    forall i | 0 <= i < |ms| ensures Extra(t, ms[i].name) % 2 == 0 {
      RoundUp4Even(|ms[i].name|);
    }
  }

  lemma RoundUp4Even(n: nat)
    ensures RoundUp4(n) % 2 == 0
  {
    ModUnique(RoundUp4(n), 2, (n + 3) / 4 * 2, 0);
  }

  function Elts(t: Target, thin: bool, first: nat, ms: seq<Member>): (r: seq<Elt>)
    ensures |r| == |ms|
    ensures forall i :: 0 <= i < |ms| ==> r[i] == Expected(t, ms, i, MemberPos(thin, first, Shapes(t, ms), i))
  {
    seq(|ms|, i requires 0 <= i < |ms| => Expected(t, ms, i, MemberPos(thin, first, Shapes(t, ms), i)))
  }

  lemma ExtraIsEven(shapes: seq<Shape>, i: nat)
    requires EvenExtras(shapes) && i < |shapes|
    ensures shapes[i].extra % 2 == 0
  {
  }

  lemma NextStep(thin: bool, file: seq<byte>, first: nat, blocks: seq<seq<byte>>, shapes: seq<Shape>, e: Elt, i: nat)
    requires Laid(thin, blocks, shapes) && i < |blocks| && EvenExtras(shapes) && first % 2 == 0 && |file| < TWO64 / 2
    requires At(file, first, Concat(Same(), blocks))
    requires e.data == MemberPos(thin, first, shapes, i) + HDR + shapes[i].extra && e.size == shapes[i].size
    ensures NextPos(thin, e) == Ok(MemberPos(thin, first, shapes, i + 1))
  {
    hide Concat, NextPos, EvenExtras;
    assert shapes[i].extra % 2 == 0 by { ExtraIsEven(shapes, i); }
    BlockAt(thin, file, first, blocks, shapes, i + 1);
    MemberPosEven(thin, first, shapes, i);
    NextPosExact(thin, e, MemberPos(thin, first, shapes, i), shapes[i]);
  }

  /** Blocks that are read as es are walked as es, and the walk stops with the file. */
  lemma BlocksWalk(read: HeaderReader, thin: bool, file: seq<byte>, blocks: seq<seq<byte>>, shapes: seq<Shape>,
      es: seq<Elt>, pos: seq<nat>)
    requires GoodReader(read, file) && Laid(thin, blocks, shapes) && |es| == |blocks| && EvenExtras(shapes)
    requires |pos| == |es| + 1 && pos[0] % 2 == 0 && |file| < TWO64 / 2
    requires forall i :: 0 <= i <= |es| ==> pos[i] == MemberPos(thin, pos[0], shapes, i)
    requires At(file, pos[0], Concat(Same(), blocks)) && pos[0] + |Concat(Same(), blocks)| == |file|
    requires forall i :: 0 <= i < |es| ==> read(pos[i]) == Ok(es[i])
    requires forall i :: 0 <= i < |es| ==> es[i].data == pos[i] + HDR + shapes[i].extra && es[i].size == shapes[i].size
    requires read(|file|).Err?
    ensures Walk(read, thin, file, pos[0]) == es
  {
    hide At, Concat, EvenExtras, MemberPos, NextPos, Walk, GoodReader;
    forall i | 0 <= i < |es| ensures NextPos(thin, es[i]) == Ok(pos[i + 1]) {
      NextStep(thin, file, pos[0], blocks, shapes, es[i], i);
    }
    assert pos[|es|] == |file| by { BlockAt(thin, file, pos[0], blocks, shapes, |es|); }
    WalkIs(read, thin, file, es, pos, 0);
    assert es[0..] == es;
  }

  lemma MemberStoredAt(t: Target, thin: bool, file: seq<byte>, first: nat, ms: seq<Member>, names: Option<seq<byte>>,
      i: nat)
    returns (field: seq<byte>, off: nat)
    requires ValidTarget(t) && GoodMembers(t, thin, ms) && i < |ms| && ValidMembers(ms)
    requires Tabled(t, thin, ms[i].name) ==> TableHolds(names, EntryOffset(t, thin, NamesOf(ms), Same(), i), ms[i].name)
    requires At(file, first, MembersBytes(t, thin, ms))
    ensures Stored(t, thin, file, names, MemberPos(thin, first, Shapes(t, ms), i), ms[i], field, off)
  {
    field, off := NameField(t, thin, ms, i), EntryOffset(t, thin, NamesOf(ms), Same(), i);
    MembersLaid(t, thin, ms);
    BlockAt(thin, file, first, Blocks(t, thin, ms), Shapes(t, ms), i);
    MemberIsStored(t, thin, file, MemberPos(thin, first, Shapes(t, ms), i), ms, i, names);
  }

  /** A stored member is read back. */
  lemma StoredBack(read: HeaderReader, t: Target, thin: bool, file: seq<byte>, names: Option<seq<byte>>, pos: nat,
      m: Member, field: seq<byte>, off: nat)
    requires ValidTarget(t) && Representable(t, thin, m.name) && ReadsStored(read, t, thin, file, names)
    requires Stored(t, thin, file, names, pos, m, field, off)
    ensures read(pos) == Ok(Elt(m.name, |m.contents|, Extra(t, m.name), 0, pos, pos + HDR + Extra(t, m.name)))
    ensures !thin ==> At(file, pos + HDR + Extra(t, m.name), m.contents)
  {
  }

  /** Every member is read back from its place. */
  lemma MemberBack(read: HeaderReader, t: Target, thin: bool, file: seq<byte>, first: nat, ms: seq<Member>,
      names: Option<seq<byte>>, i: nat, pos: nat)
    requires ValidTarget(t) && GoodMembers(t, thin, ms) && ReadsStored(read, t, thin, file, names) && i < |ms|
    requires Tabled(t, thin, ms[i].name) ==> TableHolds(names, EntryOffset(t, thin, NamesOf(ms), Same(), i), ms[i].name)
    requires ValidMembers(ms) && At(file, first, MembersBytes(t, thin, ms))
    requires pos == MemberPos(thin, first, Shapes(t, ms), i)
    ensures read(pos) == Ok(Expected(t, ms, i, pos))
    ensures (!thin ==> At(file, Expected(t, ms, i, pos).data, ms[i].contents))
    ensures At(file, pos + 16, ms[i].stat) && At(file, Expected(t, ms, i, pos).data, Tail(thin, ms[i]))
  {
    hide Stored, ReadsStored, MembersBytes, Representable, TableHolds, MemberPos;
    var field, off := MemberStoredAt(t, thin, file, first, ms, names, i);
    StoredBack(read, t, thin, file, names, pos, ms[i], field, off);
    MemberRest(t, thin, file, first, ms, i, pos);
  }

  /** The date, owner and mode bytes of a header, as they stand in the file. */
  lemma StatInHeader(file: seq<byte>, pos: nat, name: seq<byte>, stat: seq<byte>, size: nat)
    requires |name| == NAMELEN && |stat| == 32 && At(file, pos, Header(name, stat, size))
    ensures At(file, pos + 16, stat)
  {
    hide Decimal, PadTo;
    var h := Header(name, stat, size);
    assert h[16..48] == stat;
    assert file[pos + 16..pos + 48] == file[pos..pos + |h|][16..48];
  }

  /** What the reader does not look at: those bytes, and the padding. */
  lemma MemberRest(t: Target, thin: bool, file: seq<byte>, first: nat, ms: seq<Member>, i: nat, pos: nat)
    requires ValidTarget(t) && ValidMembers(ms) && i < |ms| && SizeFits(|ms[i].contents| + Extra(t, ms[i].name))
    requires At(file, first, MembersBytes(t, thin, ms)) && pos == MemberPos(thin, first, Shapes(t, ms), i)
    ensures At(file, pos + 16, ms[i].stat) && At(file, pos + HDR + Extra(t, ms[i].name), Tail(thin, ms[i]))
  {
    hide Header, NameField, SizeFits, Concat, MemberBytes, Laid, Shapes, EvenExtras, MemberPos, Tail, Extra;
    MembersLaid(t, thin, ms);
    BlockAt(thin, file, first, Blocks(t, thin, ms), Shapes(t, ms), i);
    HeaderOfMember(t, thin, file, pos, ms, i);
    StatInHeader(file, pos, NameField(t, thin, ms, i), ms[i].stat, |ms[i].contents| + Extra(t, ms[i].name));
  }

  lemma MembersLaid(t: Target, thin: bool, ms: seq<Member>)
    requires ValidTarget(t) && ValidMembers(ms)
    ensures Laid(thin, Blocks(t, thin, ms), Shapes(t, ms)) && EvenExtras(Shapes(t, ms))
  {
    forall i | 0 <= i < |ms| ensures |Blocks(t, thin, ms)[i]| == MemberLen(thin, Shapes(t, ms)[i]) {
      MemberBytesLen(t, thin, ms, i);
    }
    ExtrasAreEven(t, ms);
  }
}
