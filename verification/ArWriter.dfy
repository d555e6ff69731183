/** _bfd_write_archive_contents: the loops that emit an archive, proved against ArchiveBytes. */
module ArWriter {
  import opened Bytes
  import opened ArHeader
  import opened ArNames
  import opened ArMap
  import opened ArMapWriter
  import opened Archive
  import opened ArchiveMain

  const AR_WRITE_BUFFERSIZE: nat := 8 * 1024 * 1024

  /** Copy a member's contents through the write buffer. */
  method CopyContents(contents: seq<byte>) returns (out: seq<byte>)
    ensures out == contents
  {
    out := [];
    var remaining := |contents|;
    while remaining != 0
      invariant 0 <= remaining <= |contents| && out == contents[..|contents| - remaining]
    {
      var at := |contents| - remaining;
      var amt := if AR_WRITE_BUFFERSIZE > remaining then remaining else AR_WRITE_BUFFERSIZE;
      assert contents[..at + amt] == contents[..at] + contents[at..at + amt];
      out := out + contents[at..at + amt];
      remaining := remaining - amt;
    }
  }

  /** Base names have no slash; only targets that keep full paths write others, and those do not use BSD 4.4 headers. */
  ghost predicate Named(t: Target, ms: seq<Member>) {
    forall i :: 0 <= i < |ms| ==> |ms[i].stat| == 32 && (t.style == Bsd44 ==> SLASH !in ms[i].name)
  }

  lemma PlainIsNotBsd44(t: Target, name: seq<byte>)
    requires ValidTarget(t) && |name| <= t.maxName && SLASH !in name
    ensures !IsBsd44Name(ShortField(t, name))
  {
    var f := ShortField(t, name);
    assert |name| > 2 ==> f[2] == f[..|name|][2] == name[2];
    assert |name| <= 2 ==> f[3] == SPACE;
    assert f[..3][2] == f[2] && BSD44_PREFIX[2] == SLASH;
  }

  /** _bfd_generic_write_ar_hdr, or _bfd_bsd44_write_ar_hdr for targets that use it. */
  method WriteHeader(t: Target, m: Member, field: seq<byte>) returns (r: Result<seq<byte>>)
    requires ValidTarget(t) && |m.stat| == 32 && |field| == NAMELEN && SizeFits(|m.contents|)
    requires t.style == Bsd44 ==> (IsBsd44Name(field) <==> Follows(t, m.name))
    ensures r == if SizeFits(|m.contents| + Extra(t, m.name))
                 then Ok(Header(field, m.stat, |m.contents| + Extra(t, m.name)) + LongName(t, m)) else Err(TooBig)
  {
    if t.style == Bsd44 && IsBsd44Name(field) {
      var padded := (|m.name| + 3) / 4 * 4;
      if !SizeFits(|m.contents| + padded) { return Err(TooBig); }
      r := Ok(Header(field, m.stat, |m.contents| + padded) + (m.name + Repeat(NUL, padded - |m.name|)));
    } else {
      r := Ok(Header(field, m.stat, |m.contents|));
      assert r.value == r.value + [];
    }
  }

  /**
   * _bfd_archive_bsd44_construct_extended_name_table: no table, but long names and names with spaces leave the
   * header.
   */
  method Construct44(t: Target, ms: seq<Member>, fields: array<seq<byte>>)
    requires ValidTarget(t) && t.style == Bsd44 && fields.Length == |ms|
    requires forall i :: 0 <= i < |ms| ==> fields[i] == InitialField(t, ms[i].name)
    modifies fields
    ensures forall i :: 0 <= i < |ms| ==> fields[i] == NameField(t, false, ms, i) == NameField(t, true, ms, i)
    ensures forall i :: 0 <= i < |ms| ==>
      fields[i] == if |ms[i].name| > t.maxName || SPACE in ms[i].name then Bsd44Field(t, RoundUp4(|ms[i].name|))
                   else ShortField(t, ms[i].name)
  {
    hide InitialField, ShortField, Bsd44Field, EntryOffset, IndexField;
    for k := 0 to |ms|
      invariant forall i :: k <= i < |ms| ==> fields[i] == InitialField(t, ms[i].name)
      invariant forall i :: 0 <= i < k ==> fields[i] == NameField(t, false, ms, i) == NameField(t, true, ms, i)
    {
      var name := ms[k].name;
      var hasSpace := ScanForSpace(name);
      if |name| > t.maxName || hasSpace {
        fields[k] := Bsd44Field(t, RoundUp4(|name|));
      } else {
        InitialIsShort(t, name);
      }
    }
  }

  lemma InitialIsShort(t: Target, name: seq<byte>)
    requires ValidTarget(t) && |name| <= t.maxName
    ensures InitialField(t, name) == ShortField(t, name)
  {
  }

  method ScanForSpace(name: seq<byte>) returns (found: bool)
    ensures found <==> SPACE in name
  {
    found := false;
    for len := 0 to |name|
      invariant found <==> SPACE in name[..len]
    {
      assert name[..len + 1] == name[..len] + [name[len]];
      if name[len] == SPACE { found := true; }
    }
    assert name[..|name|] == name;
  }

  lemma TableFieldsAre(t: Target, thin: bool, ms: seq<Member>, fields: seq<seq<byte>>, i: nat)
    requires ValidTarget(t) && t.style != Bsd44 && i < |ms| == |fields| && fields[i] == InitialField(t, ms[i].name)
    ensures FieldAfter(t, thin, NamesOf(ms), Same(), fields, i) == NameField(t, thin, ms, i)
  {
    var name := ms[i].name;
    assert Same()(name) == name;
    if !thin && |name| <= t.maxName {
      assert FixedField(t, ShortField(t, name), name) == ShortField(t, name);
    }
  }

  /** The name table and the final name fields of all headers. */
  method BuildNames(t: Target, thin: bool, ms: seq<Member>, fields: array<seq<byte>>) returns (table: seq<byte>)
    requires ValidTarget(t) && fields.Length == |ms|
    requires forall i :: 0 <= i < |ms| ==> fields[i] == InitialField(t, ms[i].name)
    modifies fields
    ensures table == NameTable(t, thin, ms)
    ensures forall i :: 0 <= i < |ms| ==> fields[i] == NameField(t, thin, ms, i)
  {
    hide InitialField, NameField, FieldAfter, Table;
    if t.style == Bsd44 {
      Construct44(t, ms, fields);
      table := [];
    } else {
      ghost var was := fields[..];
      var tab := ConstructTable(t, thin, false, NamesOf(ms), Same(), fields);
      table := tab[..];
      forall i | 0 <= i < |ms| ensures fields[i] == NameField(t, thin, ms, i) {
        TableFieldsAre(t, thin, ms, was, i);
      }
    }
  }

  /** The map of the target's kind. */
  method BuildMap(kind: MapKind, t: Target, thin: bool, ms: seq<Member>, syms: seq<seq<Symbol>>, elength: nat,
      stat: seq<byte>)
    returns (r: Result<seq<byte>>)
    requires |syms| == |ms| && |stat| == 32 && elength == ELength(|NameTable(t, thin, ms)|)
    ensures GoodMap(Collected(syms, |syms|, 0), |ms|)
    ensures r == Ok(Armap(kind, t, thin, ms, Collected(syms, |syms|, 0), stat))
  {
    hide GoodMap, CoffMapFor, Sym64MapFor, BsdMapFor, Strings, Collected;
    var m, stridx := Collect(syms);
    CollectedIsGood(syms, |syms|, 0);
    InRange(m, |ms|);
    match kind {
      case NoMap => r := Ok([]);
      case CoffKind => r := CoffWriteArmap(thin, Shapes(t, ms), m, elength, stridx, stat);
      case Sym64Kind => r := Sym64WriteArmap(thin, Shapes(t, ms), m, elength, stridx, stat);
      case BsdKind => r := BsdWriteArmap(t.big, thin, Shapes(t, ms), m, elength, stridx, stat);
    }
  }

  lemma InRange(map0: seq<Orl>, n: nat)
    requires GoodMap(map0, n)
    ensures forall i :: 0 <= i < |map0| ==> map0[i].member < n
  {
  }

  method BuildTable(t: Target, table: seq<byte>) returns (r: Result<seq<byte>>)
    ensures r == if table == [] || SizeFits(Even(|table|)) then Ok(TableBytes(t, table)) else Err(TooBig)
  {
    hide SizeFits, Header;
    if |table| == 0 { return Ok([]); }
    var name := if t.style == Svr4 then [SLASH, SLASH] else ARFILENAMES + [SLASH];
    if !SizeFits(Even(|table|)) { return Err(TooBig); }
    var out := Header(PadTo(name, NAMELEN), Repeat(SPACE, 32), Even(|table|));
    r := Ok(out + (table + if |table| % 2 == 1 then [NEWLINE] else []));
  }

  ghost predicate AllFit(t: Target, ms: seq<Member>) {
    forall i :: 0 <= i < |ms| ==> SizeFits(|ms[i].contents|) && SizeFits(|ms[i].contents| + Extra(t, ms[i].name))
  }

  /** The loop that writes every header, its contents and the padding byte. */
  method WriteMembers(t: Target, thin: bool, ms: seq<Member>, fields: array<seq<byte>>) returns (r: Result<seq<byte>>)
    requires ValidTarget(t) && Named(t, ms) && ValidMembers(ms) && fields.Length == |ms|
    requires forall i :: 0 <= i < |ms| ==> fields[i] == NameField(t, thin, ms, i) && SizeFits(|ms[i].contents|)
    ensures r == if AllFit(t, ms) then Ok(MembersBytes(t, thin, ms)) else Err(TooBig)
  {
    hide NameField, Header, SizeFits, LongName;
    ghost var blocks := Blocks(t, thin, ms);
    var out: seq<byte> := [];
    for k := 0 to |ms|
      invariant out == Concat(Same(), blocks[..k])
      invariant forall i :: 0 <= i < k ==> SizeFits(|ms[i].contents| + Extra(t, ms[i].name))
    {
      FieldShape(t, thin, ms, k);
      var h := WriteHeader(t, ms[k], fields[k]);
      if h.Err? { return Err(TooBig); }
      var block := h.value;
      if !thin {
        var contents := CopyContents(ms[k].contents);
        block := block + (contents + if |ms[k].contents| % 2 == 1 then [NEWLINE] else []);
      } else {
        assert block == block + [];
      }
      assert block == blocks[k];
      ConcatNext(Same(), blocks, k);
      out := out + block;
    }
    assert blocks[..|ms|] == blocks;
    r := Ok(out);
  }

  lemma FieldShape(t: Target, thin: bool, ms: seq<Member>, k: nat)
    requires ValidTarget(t) && Named(t, ms) && k < |ms|
    ensures t.style == Bsd44 ==> (IsBsd44Name(NameField(t, thin, ms, k)) <==> Follows(t, ms[k].name))
  {
    if t.style == Bsd44 {
      if Follows(t, ms[k].name) {
        Bsd44Prefix(t, Extra(t, ms[k].name));
      } else {
        PlainIsNotBsd44(t, ms[k].name);
      }
    }
  }

  lemma Bsd44Prefix(t: Target, len: nat)
    requires ValidTarget(t)
    ensures IsBsd44Name(Bsd44Field(t, len))
  {
    var p := BSD44_PREFIX + Decimal(len);
    var f := Bsd44Field(t, len);
    assert f[..3] == p[..3] == BSD44_PREFIX;
    assert f[3] == p[3] == Decimal(len)[0];
  }

  /**
   * _bfd_write_archive_contents: fails exactly when a size does not fit its field, and otherwise writes ArchiveBytes.
   */
  method WriteArchive(kind: MapKind, t: Target, thin: bool, ms: seq<Member>, syms: seq<seq<Symbol>>, stat: seq<byte>)
    returns (r: Result<seq<byte>>)
    requires ValidTarget(t) && Named(t, ms) && |syms| == |ms| && |stat| == 32
    ensures r.Err? <==> !(AllFit(t, ms) && (NameTable(t, thin, ms) == [] || SizeFits(Even(|NameTable(t, thin, ms)|))))
    ensures GoodMap(Collected(syms, |syms|, 0), |ms|)
    ensures ValidMembers(ms)
    ensures r.Ok? ==> r.value == ArchiveBytes(t, thin, ms, Armap(kind, t, thin, ms, Collected(syms, |syms|, 0), stat))
  {
    hide NameField, InitialField, SizeFits, GoodMap, Armap, TableBytes, MembersBytes, Collected, NameTable, ELength;
    assert GoodMap(Collected(syms, |syms|, 0), |ms|) by { CollectedIsGood(syms, |syms|, 0); }
    var fields := new seq<byte>[|ms|];
    for k := 0 to |ms|
      invariant forall i :: 0 <= i < k ==> fields[i] == InitialField(t, ms[i].name) && SizeFits(|ms[i].contents|)
    {
      if !SizeFits(|ms[k].contents|) { return Err(TooBig); }
      fields[k] := InitialField(t, ms[k].name);
    }
    var table := BuildNames(t, thin, ms, fields);
    var out := if thin then ARMAGT else ARMAG;
    var armap := BuildMap(kind, t, thin, ms, syms, ELength(|table|), stat);
    if armap.Err? { return armap; }
    var names := BuildTable(t, table);
    if names.Err? { return names; }
    var members := WriteMembers(t, thin, ms, fields);
    if members.Err? { return members; }
    r := Ok(out + armap.value + names.value + members.value);
  }
}
