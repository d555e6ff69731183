/** Whole archives (bfd/archive.c): the bytes the writer produces and the reader's walk over any bytes. */
module Archive {
  import opened Bytes
  import opened ArHeader
  import opened ArNames
  import opened ArMap
  import opened ArMapReader

  // The reader --------------------------------------------------------------

  function Field(s: seq<byte>): seq<byte> { PadTo(s, NAMELEN) }

  /** bfd_slurp_armap: which map, if any, starts at pos. */
  function SlurpArmap(read: HeaderReader, big: bool, file: seq<byte>, pos: nat): Result<Option<MapData>> {
    if pos >= |file| then Ok(None)
    else if pos + NAMELEN > |file| then Err(NoMoreFiles)
    else
      var name := file[pos..pos + NAMELEN];
      if name == Field(RANLIBMAG) || name == Field(RANLIBMAG + [SLASH]) then Found(BsdSlurp(read, big, file, pos))
      else if name == Field([SLASH]) then Found(CoffSlurp(read, file, pos))
      else if name == Field(SYM64) then Found(Sym64Slurp(read, file, pos))
      else if name == Field(BSD44_PREFIX + Decimal(20)) then
        if pos + HDR + 20 > |file| then Err(NoMoreFiles)
        else if file[pos + HDR..pos + HDR + |RANLIBMAG|] == RANLIBMAG then Found(BsdSlurp(read, big, file, pos))
        else Ok(None)
      else Ok(None)
  }

  function Found(r: Result<MapData>): Result<Option<MapData>> {
    if r.Err? then Err(r.error) else Ok(Some(r.value))
  }

  /** What reading the name table leaves: the rewritten names, and where the first member is. */
  datatype NamesData = NamesData(names: Option<seq<byte>>, first: nat)

  predicate IsNameTable(name: seq<byte>) { name == Field(ARFILENAMES + [SLASH]) || name == Field([SLASH, SLASH]) }

  /** _bfd_slurp_extended_name_table. */
  function SlurpNames(read: HeaderReader, file: seq<byte>, first: nat): Result<NamesData> {
    if first + NAMELEN > |file| || !IsNameTable(file[first..first + NAMELEN]) then Ok(NamesData(None, first))
    else
      var h := read(first);
      if h.Err? then Err(h.error)
      else NamesFrom(file, h.value.data, h.value.size)
  }

  function NamesFrom(file: seq<byte>, d: nat, amt: nat): Result<NamesData> {
    if amt + 1 == TWO64 || amt > |file| || d + amt > |file| then Err(Malformed)
    else Ok(NamesData(Some(FixNames(file[d..d + amt])), Even(d + amt)))
  }

  method SlurpNameTable(read: HeaderReader, file: seq<byte>, first: nat) returns (r: Result<NamesData>)
    ensures r == SlurpNames(read, file, first)
  {
    if first + NAMELEN > |file| || !IsNameTable(file[first..first + NAMELEN]) { return Ok(NamesData(None, first)); }
    var h := read(first);
    if h.Err? { return Err(h.error); }
    var d, amt := h.value.data, h.value.size;
    if amt + 1 == TWO64 || amt > |file| || d + amt > |file| { return Err(Malformed); }
    var table := file[d..d + amt];
    var buf := new byte[amt](i requires 0 <= i < amt => table[i]);
    assert buf[..] == table;
    FixNamesInPlace(buf);
    r := Ok(NamesData(Some(buf[..]), Even(d + amt)));
  }

  /** A header reader that moves forward and stays inside the file, as ReadHeader does. */
  ghost predicate GoodReader(read: HeaderReader, file: seq<byte>) {
    forall pos: nat :: read(pos).Ok? ==>
      read(pos).value.pos == pos && pos + HDR <= read(pos).value.data <= |file| && read(pos).value.size < TWO64
  }

  function Reader(t: Target, thin: bool, file: seq<byte>, names: Option<seq<byte>>): HeaderReader
    requires ValidTarget(t)
  {
    (pos: nat) => ReadHeader(t, thin, file, pos, names)
  }

  /** Where bfd_generic_openr_next_archived_file looks after element e: wrapping arithmetic, and the PR19256 check. */
  function NextPos(thin: bool, e: Elt): Result<nat> {
    if thin then Ok(e.data)
    else
      var p := U64(e.data + e.size);
      var q := U64(p + p % 2);
      if q < e.data then Err(Malformed) else Ok(q)
  }

  /** All elements found by opening the one at pos and then each next one, until that fails. */
  function Walk(read: HeaderReader, thin: bool, file: seq<byte>, pos: nat): (es: seq<Elt>)
    requires GoodReader(read, file)
    decreases |file| - pos
  {
    var r := read(pos);
    if r.Err? then []
    else
      var next := NextPos(thin, r.value);
      if next.Err? then [r.value] else [r.value] + Walk(read, thin, file, next.value)
  }

  /** Opening next elements until it fails: terminates on every byte string. */
  method WalkArchive(read: HeaderReader, thin: bool, file: seq<byte>, first: nat) returns (es: seq<Elt>)
    requires GoodReader(read, file)
    ensures es == Walk(read, thin, file, first)
  {
    es := [];
    var pos := first;
    while true
      invariant Walk(read, thin, file, first) == es + Walk(read, thin, file, pos)
      decreases |file| - pos
    {
      var r := read(pos);
      if r.Err? { return; }
      var next := NextPos(thin, r.value);
      if next.Err? {
        es := es + [r.value];
        return;
      }
      Assoc(es, [r.value], Walk(read, thin, file, next.value));
      es := es + [r.value];
      pos := next.value;
    }
  }

  /** On every byte string: headers are at least 60 bytes apart, so at most filesize/60 elements are returned. */
  lemma {:induction false} WalkIsBounded(read: HeaderReader, thin: bool, file: seq<byte>, pos: nat)
    requires GoodReader(read, file)
    ensures var es := Walk(read, thin, file, pos);
      && (forall i :: 0 <= i < |es| ==> pos <= es[i].pos && es[i].pos + HDR <= |file|)
      && (forall i, j :: 0 <= i < j < |es| ==> es[i].pos + HDR <= es[j].pos)
      && (es != [] ==> HDR * |es| <= |file| - pos)
    decreases |file| - pos
  {
    var es, r := Walk(read, thin, file, pos), read(pos);
    if r.Ok? && NextPos(thin, r.value).Ok? {
      var next := NextPos(thin, r.value).value;
      WalkIsBounded(read, thin, file, next);
      var rest := Walk(read, thin, file, next);
      assert es == [r.value] + rest;
      assert forall j :: 1 <= j < |es| ==> es[j] == rest[j - 1];
    }
  }

  lemma ReaderIsGood(t: Target, thin: bool, file: seq<byte>, names: Option<seq<byte>>)
    requires ValidTarget(t)
    ensures GoodReader(Reader(t, thin, file, names), file)
  {
  }

  // The writer --------------------------------------------------------------

  /** A member about to be written: its normalised name, the 32 bytes of date, ids and mode, and its contents. */
  datatype Member = Member(name: seq<byte>, stat: seq<byte>, contents: seq<byte>)

  /** Names are taken as already normalised. */
  function Same(): seq<byte> -> seq<byte> { s => s }

  function NamesOf(ms: seq<Member>): (r: seq<seq<byte>>)
    ensures |r| == |ms| && forall i :: 0 <= i < |ms| ==> r[i] == ms[i].name
  {
    seq(|ms|, i requires 0 <= i < |ms| => ms[i].name)
  }

  /** The extended name table; the BSD 4.4 style has none. */
  function NameTable(t: Target, thin: bool, ms: seq<Member>): seq<byte> {
    if t.style == Bsd44 then [] else Table(t, thin, NamesOf(ms), Same(), |ms|)
  }

  /** A BSD 4.4 name too long for the header, or with a space in it, follows the header. */
  predicate Follows(t: Target, name: seq<byte>) { t.style == Bsd44 && (|name| > t.maxName || SPACE in name) }

  function Extra(t: Target, name: seq<byte>): nat { if Follows(t, name) then RoundUp4(|name|) else 0 }

  function NameField(t: Target, thin: bool, ms: seq<Member>, i: nat): (f: seq<byte>)
    requires ValidTarget(t) && i < |ms|
    ensures |f| == NAMELEN
  {
    var name := ms[i].name;
    if Follows(t, name) then Bsd44Field(t, Extra(t, name))
    else if t.style != Bsd44 && (thin || |name| > t.maxName) then
      IndexField(t, InitialField(t, name), EntryOffset(t, thin, NamesOf(ms), Same(), i))
    else ShortField(t, name)
  }

  function Tail(thin: bool, m: Member): seq<byte> {
    if thin then [] else m.contents + if |m.contents| % 2 == 1 then [NEWLINE] else []
  }

  function LongName(t: Target, m: Member): seq<byte> {
    if Follows(t, m.name) then m.name + Repeat(NUL, Extra(t, m.name) - |m.name|) else []
  }

  function MemberBytes(t: Target, thin: bool, ms: seq<Member>, i: nat): seq<byte>
    requires ValidTarget(t) && i < |ms| && |ms[i].stat| == 32
  {
    var m := ms[i];
    Header(NameField(t, thin, ms, i), m.stat, |m.contents| + Extra(t, m.name)) + LongName(t, m) + Tail(thin, m)
  }

  ghost predicate ValidMembers(ms: seq<Member>) { forall i :: 0 <= i < |ms| ==> |ms[i].stat| == 32 }

  function Blocks(t: Target, thin: bool, ms: seq<Member>): (r: seq<seq<byte>>)
    requires ValidTarget(t) && ValidMembers(ms)
    ensures |r| == |ms| && forall i :: 0 <= i < |ms| ==> r[i] == MemberBytes(t, thin, ms, i)
  {
    seq(|ms|, i requires 0 <= i < |ms| => MemberBytes(t, thin, ms, i))
  }

  /** All members, one after the other. */
  function MembersBytes(t: Target, thin: bool, ms: seq<Member>): seq<byte>
    requires ValidTarget(t) && ValidMembers(ms)
  {
    Concat(Same(), Blocks(t, thin, ms))
  }

  function Shapes(t: Target, ms: seq<Member>): (r: seq<Shape>)
    ensures |r| == |ms| && forall i :: 0 <= i < |ms| ==> r[i] == Shape(|ms[i].contents|, Extra(t, ms[i].name))
  {
    seq(|ms|, i requires 0 <= i < |ms| => Shape(|ms[i].contents|, Extra(t, ms[i].name)))
  }

  function TableBytes(t: Target, table: seq<byte>): seq<byte> {
    if table == [] then []
    else
      Header(Field(if t.style == Svr4 then [SLASH, SLASH] else ARFILENAMES + [SLASH]), Repeat(SPACE, 32), Even(|table|))
      + (table + if |table| % 2 == 1 then [NEWLINE] else [])
  }

  /** The length _bfd_compute_and_write_armap reckons the name table to take. */
  function ELength(table: nat): nat {
    var e := U32(table);
    var f := if e != 0 then U32(e + HDR) else e;
    U32(f + f % 2)
  }

  function ArchiveBytes(t: Target, thin: bool, ms: seq<Member>, armap: seq<byte>): seq<byte>
    requires ValidTarget(t) && ValidMembers(ms)
  {
    (if thin then ARMAGT else ARMAG) + armap + TableBytes(t, NameTable(t, thin, ms)) + MembersBytes(t, thin, ms)
  }
}
