/** Opening an archive (bfd_generic_archive_p): the magic string, the symbol map, the name table. */
module ArchiveOpen {
  import opened Bytes
  import opened ArHeader
  import opened ArNames
  import opened ArMap
  import opened ArMapReader
  import opened ArMapRoundTrip
  import opened Archive
  import opened ArchiveRoundTrip

  /** The archive data kept for an open archive. */
  datatype ArData = ArData(thin: bool, armap: Option<MapData>, names: Option<seq<byte>>, first: nat)

  function OpenArchive(t: Target, file: seq<byte>): Result<ArData>
    requires ValidTarget(t)
  {
    if |file| < SARMAG || (file[..SARMAG] != ARMAG && file[..SARMAG] != ARMAGT) then Err(WrongFormat)
    else
      var thin := file[..SARMAG] == ARMAGT;
      OpenWith(Reader(t, thin, file, None), t.big, thin, file)
  }

  function OpenWith(read: HeaderReader, big: bool, thin: bool, file: seq<byte>): Result<ArData> {
    var m := SlurpArmap(read, big, file, SARMAG);
    if m.Err? then Err(WrongFormat)
    else
      var n := SlurpNames(read, file, if m.value.Some? then m.value.value.first else SARMAG);
      if n.Err? then Err(WrongFormat) else Ok(ArData(thin, m.value, n.value.names, n.value.first))
  }

  method SlurpMap(read: HeaderReader, big: bool, file: seq<byte>, pos: nat) returns (r: Result<Option<MapData>>)
    ensures r == SlurpArmap(read, big, file, pos)
  {
    if pos >= |file| { return Ok(None); }
    if pos + NAMELEN > |file| { return Err(NoMoreFiles); }
    var name := file[pos..pos + NAMELEN];
    var m: Result<MapData>;
    if name == Field(RANLIBMAG) || name == Field(RANLIBMAG + [SLASH]) {
      m := BsdSlurpArmap(read, big, file, pos);
    } else if name == Field([SLASH]) {
      m := CoffSlurpArmap(read, file, pos);
    } else if name == Field(SYM64) {
      m := Sym64SlurpArmap(read, file, pos);
    } else if name == Field(BSD44_PREFIX + Decimal(20)) {
      if pos + HDR + 20 > |file| { return Err(NoMoreFiles); }
      if file[pos + HDR..pos + HDR + |RANLIBMAG|] != RANLIBMAG { return Ok(None); }
      m := BsdSlurpArmap(read, big, file, pos);
    } else {
      return Ok(None);
    }
    r := Found(m);
  }

  method OpenArchiveFile(t: Target, file: seq<byte>) returns (r: Result<ArData>)
    requires ValidTarget(t)
    ensures r == OpenArchive(t, file)
  {
    if |file| < SARMAG || (file[..SARMAG] != ARMAG && file[..SARMAG] != ARMAGT) { return Err(WrongFormat); }
    var thin := file[..SARMAG] == ARMAGT;
    r := OpenBody(Reader(t, thin, file, None), t.big, thin, file);
  }

  method OpenBody(read: HeaderReader, big: bool, thin: bool, file: seq<byte>) returns (r: Result<ArData>)
    ensures r == OpenWith(read, big, thin, file)
  {
    hide SlurpArmap, SlurpNames;
    var m := SlurpMap(read, big, file, SARMAG);
    if m.Err? { return Err(WrongFormat); }
    var first := if m.value.Some? then m.value.value.first else SARMAG;
    var n := SlurpNameTable(read, file, first);
    if n.Err? { return Err(WrongFormat); }
    r := Ok(ArData(thin, m.value, n.value.names, n.value.first));
  }

  // Headers read before the name table is known ------------------------------

  ghost predicate ReadsHeaders(read: HeaderReader, file: seq<byte>) {
    forall pos: nat, name: seq<byte>, stat: seq<byte>, size: nat ::
      HeaderAt(file, pos, name, stat, size) && name[0] != BSD44_PREFIX[0] ==>
        read(pos).Ok? && read(pos).value.data == pos + HDR && read(pos).value.size == size
  }

  lemma ReaderReadsHeaders(t: Target, thin: bool, file: seq<byte>)
    requires ValidTarget(t)
    ensures ReadsHeaders(Reader(t, thin, file, None), file)
  {
    forall pos: nat, name: seq<byte>, stat: seq<byte>, size: nat
      | HeaderAt(file, pos, name, stat, size) && name[0] != BSD44_PREFIX[0]
      ensures var r := Reader(t, thin, file, None)(pos); r.Ok? && r.value.data == pos + HDR && r.value.size == size
    {
      ReadMapHeader(t, thin, file, pos, name, stat, size);
    }
  }

  /** The name table that was written is slurped, rewritten, and skipped with its padding. */
  lemma NamesSlurped(read: HeaderReader, t: Target, file: seq<byte>, p: nat, table: seq<byte>)
    requires ReadsHeaders(read, file) && table != [] && SizeFits(Even(|table|)) && p % 2 == 0
    requires At(file, p, TableBytes(t, table))
    ensures SlurpNames(read, file, p) == Ok(NamesData(Some(FixNames(table + OddPad(|table|))), p + |TableBytes(t,
      table)|))
  {
    hide Field, FixNames, ReadsHeaders, NamesFrom, SizeFits, Decimal, Header, Even, OddPad, TableBytes, At, IsNameTable;
    TablePieces(t, file, p, table);
    var whole := table + OddPad(|table|);
    var field := Field(if t.style == Svr4 then [SLASH, SLASH] else ARFILENAMES + [SLASH]);
    FirstChar(t);
    HeaderIsRead(read, file, p, field, Repeat(SPACE, 32), Even(|table|));
    EvenLength(table);
    SizeFitsIff(Even(|table|));
    EvenAfterHeader(p);
    TableBody(file, p + HDR, whole);
  }

  lemma EvenAfterHeader(p: nat)
    requires p % 2 == 0
    ensures (p + HDR) % 2 == 0
  {
  }

  /** The header of the table and its padded contents, where they are in the file. */
  lemma TablePieces(t: Target, file: seq<byte>, p: nat, table: seq<byte>)
    requires table != [] && At(file, p, TableBytes(t, table))
    ensures var field := Field(if t.style == Svr4 then [SLASH, SLASH] else ARFILENAMES + [SLASH]);
      && p + NAMELEN <= |file| && file[p..p + NAMELEN] == field && IsNameTable(field)
      && At(file, p, Header(field, Repeat(SPACE, 32), Even(|table|)))
      && At(file, p + HDR, table + OddPad(|table|)) && |TableBytes(t, table)| == HDR + |table + OddPad(|table|)|
  {
    hide Decimal, Field, Even;
    var field := Field(if t.style == Svr4 then [SLASH, SLASH] else ARFILENAMES + [SLASH]);
    var h := Header(field, Repeat(SPACE, 32), Even(|table|));
    AtSplit(file, p, h, table + OddPad(|table|));
    assert file[p..p + NAMELEN] == file[p..p + HDR][..NAMELEN] == field;
  }

  lemma FirstChar(t: Target)
    ensures var field := Field(if t.style == Svr4 then [SLASH, SLASH] else ARFILENAMES + [SLASH]);
      |field| == NAMELEN && field[0] != BSD44_PREFIX[0]
  {
  }

  lemma EvenLength(table: seq<byte>)
    ensures |table + OddPad(|table|)| == Even(|table|) && Even(|table|) % 2 == 0
  {
  }

  lemma HeaderIsRead(read: HeaderReader, file: seq<byte>, pos: nat, name: seq<byte>, stat: seq<byte>, size: nat)
    requires ReadsHeaders(read, file) && |name| == NAMELEN && name[0] != BSD44_PREFIX[0] && |stat| == 32
    requires SizeFits(size)
    requires At(file, pos, Header(name, stat, size))
    ensures read(pos).Ok? && read(pos).value.data == pos + HDR && read(pos).value.size == size
  {
    hide Header, SizeFits;
    assert HeaderAt(file, pos, name, stat, size);
  }

  lemma TableBody(file: seq<byte>, d: nat, table: seq<byte>)
    requires At(file, d, table) && |table| % 2 == 0 && d % 2 == 0 && |table| < TWO32 * 4
    ensures NamesFrom(file, d, |table|) == Ok(NamesData(Some(FixNames(table)), d + |table|))
  {
  }

  // First headers that are not taken for something else -----------------------

  ghost predicate Special(f: seq<byte>) {
    || f == Field(RANLIBMAG) || f == Field(RANLIBMAG + [SLASH]) || f == Field([SLASH]) || f == Field(SYM64)
    || f == Field(BSD44_PREFIX + Decimal(20)) || IsNameTable(f)
  }

  lemma InlineOf(x: seq<byte>, stop: byte, k: nat)
    requires k == 15 || k == 16
    requires |x| < 15 && NUL !in x && (stop == SLASH || stop == SPACE) && SLASH !in x && SPACE !in x
    ensures InlineName(Field(x + [stop])[..k]) == x
  {
    var f := Field(x + [stop])[..k];
    assert f[..|x|] == x && f[|x|] == stop;
    assert forall i :: 0 <= i < |x| ==> f[i] == x[i];
    IndexOfAt(f, stop, |x|);
  }

  lemma ShortNotSpecial(t: Target, name: seq<byte>)
    requires ValidTarget(t) && PlainName(t, name) && name != RANLIBMAG && name != ARFILENAMES
    ensures !Special(ShortField(t, name)) && ShortField(t, name)[0] != SLASH
  {
    hide InlineName, ShortField, Decimal;
    var f := ShortField(t, name);
    assert f[0] == f[..|name|][0] == name[0] && name[0] != SLASH;
    assert Field([SLASH])[0] == SLASH && Field(SYM64)[0] == SLASH && Field([SLASH, SLASH])[0] == SLASH;
    InlineNameBack(t, name);
    assert Field(RANLIBMAG) == Field(RANLIBMAG + [SPACE]);
    InlineOf(RANLIBMAG, SPACE, t.maxName);
    InlineOf(RANLIBMAG, SLASH, t.maxName);
    InlineOf(ARFILENAMES, SLASH, t.maxName);
    NotTwenty(t, name);
  }

  lemma NotTwenty(t: Target, name: seq<byte>)
    requires ValidTarget(t) && PlainName(t, name)
    ensures ShortField(t, name) != Field(BSD44_PREFIX + Decimal(20))
  {
    var f, g := ShortField(t, name), Field(BSD44_PREFIX + Decimal(20));
    assert Decimal(20) == [50, 48];
    assert g[2] == SLASH && g[3] == 50;
    if |name| > 2 { assert f[2] == name[2]; } else { assert f[3] == SPACE; }
  }

  lemma FollowedField(t: Target, len: nat)
    requires ValidTarget(t) && SizeFits(len) && len < TWO32 / 2
    ensures var f := Bsd44Field(t, len);
      f[0] == BSD44_PREFIX[0] && (Special(f) ==> f == Field(BSD44_PREFIX + Decimal(20)) && len == 20)
  {
    var f := Bsd44Field(t, len);
    Bsd44FieldChars(t, len);
    assert f[..3][0] == BSD44_PREFIX[0];
    if Special(f) {
      assert f == Field(BSD44_PREFIX + Decimal(20)) by {
        assert Field(RANLIBMAG)[0] == RANLIBMAG[0] && Field(RANLIBMAG + [SLASH])[0] == RANLIBMAG[0];
        assert Field(ARFILENAMES + [SLASH])[0] == ARFILENAMES[0] && Field(SYM64)[0] == SLASH;
      }
      SizeFitsIff(20);
      assert Decimal(20) == [50, 48];
      assert f == Bsd44Field(t, 20);
      var h := f + Repeat(SPACE, HDR - NAMELEN);
      assert h[..16] == f;
      Bsd44LengthBack(t, h, len);
      Bsd44LengthBack(t, h, 20);
    }
  }
}
