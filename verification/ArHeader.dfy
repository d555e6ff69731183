/** The 60-byte archive member header (bfd/archive.c, include/aout/ar.h): printing and parsing. */
module ArHeader {
  import opened Bytes

  const SARMAG: nat := 8
  const HDR: nat := 60
  const NAMELEN: nat := 16

  const ARMAG: seq<byte> := [33, 60, 97, 114, 99, 104, 62, 10]   // "!<arch>\n"
  const ARMAGT: seq<byte> := [33, 60, 116, 104, 105, 110, 62, 10] // "!<thin>\n"
  const ARFMAG: seq<byte> := [96, 10]                             // "`\n"
  const RANLIBMAG: seq<byte> := [95, 95, 46, 83, 89, 77, 68, 69, 70] // "__.SYMDEF"
  const ARFILENAMES: seq<byte> := [65, 82, 70, 73, 76, 69, 78, 65, 77, 69, 83] // "ARFILENAMES"
  const SYM64: seq<byte> := [47, 83, 89, 77, 54, 52, 47]          // "/SYM64/"
  const BSD44_PREFIX: seq<byte> := [35, 49, 47]                   // "#1/"

  /** How names that do not fit the header are stored. */
  datatype NameStyle = Svr4 | ArFileNames | Bsd44

  datatype Target = Target(maxName: nat, pad: byte, style: NameStyle, big: bool)

  /** Every BFD target vector stores names of at most 15 or 16 bytes, padded with '/' or ' '. */
  predicate ValidTarget(t: Target) {
    (t.maxName == 15 || t.maxName == 16) && (t.pad == SLASH || t.pad == SPACE)
  }

  datatype Error = NoMoreFiles | Malformed | WrongFormat | TooBig | Truncated

  datatype Result<+T> = Ok(value: T) | Err(error: Error)

  /** The element data read from a header: `pos` is the header's position and `data` the byte after it. */
  datatype Elt = Elt(name: seq<byte>, size: nat, extra: nat, origin: int, pos: nat, data: nat)

  // Printing ----------------------------------------------------------------

  function PadTo(s: seq<byte>, n: nat): (r: seq<byte>)
    ensures |r| == n && (|s| <= n ==> r[..|s|] == s)
    ensures forall i :: |s| <= i < n ==> r[i] == SPACE
  {
    if |s| < n then s + Repeat(SPACE, n - |s|) else s[..n]
  }

  function Header(name: seq<byte>, stat: seq<byte>, size: nat): (h: seq<byte>)
    requires |name| == NAMELEN && |stat| == 32
    ensures |h| == HDR && h[..16] == name && h[48..58] == PadTo(Decimal(size), 10) && h[58..] == ARFMAG
  {
    name + stat + PadTo(Decimal(size), 10) + ARFMAG
  }

  /** _bfd_ar_sizepad refuses exactly the sizes that need more than ten digits. */
  predicate SizeFits(size: nat) { |Decimal(size)| <= 10 }

  lemma SizeFitsIff(size: nat)
    ensures SizeFits(size) <==> size < 10_000_000_000
  {
    DecimalLength(size, 10);
    Pow10At10();
  }

  /** bfd_dont_truncate_arname on a header filled with spaces, for a name that fits. */
  function ShortField(t: Target, name: seq<byte>): (f: seq<byte>)
    requires ValidTarget(t) && |name| <= t.maxName
    ensures |f| == NAMELEN && f[..|name|] == name
    ensures |name| < NAMELEN ==> f[|name|] == t.pad
    ensures forall i :: |name| < i < NAMELEN ==> f[i] == SPACE
  {
    PadTo(name + (if |name| < NAMELEN then [t.pad] else []), NAMELEN)
  }

  /** bfd_dont_truncate_arname: a name that does not fit leaves the field blank. */
  function InitialField(t: Target, name: seq<byte>): (f: seq<byte>)
    requires ValidTarget(t)
    ensures |f| == NAMELEN
  {
    if |name| <= t.maxName then ShortField(t, name) else Repeat(SPACE, NAMELEN)
  }

  /** f sends the reader to offset `off` of the extended name table. */
  ghost predicate IsTableField(t: Target, f: seq<byte>, off: nat)
    requires ValidTarget(t)
  {
    |f| == NAMELEN && f[0] == t.pad && f[1..t.maxName] == PadTo(Decimal(off), t.maxName - 1)
  }

  function RoundUp4(n: nat): nat { (n + 3) / 4 * 4 }

  function Bsd44Field(t: Target, len: nat): (f: seq<byte>)
    requires ValidTarget(t)
    ensures |f| == NAMELEN
  {
    PadTo(PadTo(BSD44_PREFIX + Decimal(len), t.maxName), NAMELEN)
  }

  // Parsing -----------------------------------------------------------------

  /** sscanf ("%lu") on the size field; a minus sign negates modulo 2^64. */
  function ParseSize(field: seq<byte>): (r: Option<nat>)
    ensures r.Some? ==> r.value < TWO64
  {
    match ScanNumber(field)
    case NoNumber => None
    case Number(neg, v, _) => Some(if neg then U64(-(v as int)) else U64(v))
  }

  /** strtol's value, or None when it sets errno. */
  function LongOf(s: Scanned): Option<int> {
    match s
    case NoNumber => Some(0)
    case Number(neg, v, _) => if v < TWO64 / 2 then Some(if neg then -(v as int) else v) else None
  }

  /** atoi followed by the conversion to bfd_size_type. */
  function AtoiSize(s: Scanned): nat {
    match s
    case NoNumber => 0
    case Number(neg, v, _) =>
      var i := U32(if neg then -(v as int) else v);
      if i < TWO32 / 2 then i else U64(i - TWO32)
  }

  /** strtol takes what a 64-bit long can hold, on the positive side; atoi cuts to 32 bits, with their sign. */
  lemma NumbersRead(neg: bool, v: nat, rest: seq<byte>)
    ensures LongOf(Number(neg, v, rest)).Some? <==> v <= 0x7fff_ffff_ffff_ffff
    ensures var n := if neg then -(v as int) else v;
      && (-0x8000_0000 <= n <= 0x7fff_ffff && n >= 0 ==> AtoiSize(Number(neg, v, rest)) == n)
      && (-0x8000_0000 <= n < 0 ==> AtoiSize(Number(neg, v, rest)) == TWO64 + n)
  {
    var n := if neg then -(v as int) else v;
    if -0x8000_0000 <= n < 0 {
      ModUnique(n, TWO32, -1, n + TWO32);
      ModUnique(n, TWO64, -1, n + TWO64);
    }
  }

  predicate IsBsd44Name(h: seq<byte>)
    requires |h| >= 4
  {
    h[..3] == BSD44_PREFIX && IsDigit(h[3])
  }

  predicate UsesNameTable(t: Target, h: seq<byte>)
    requires |h| == HDR && ValidTarget(t)
  {
    h[0] == SLASH || (h[0] == SPACE && SLASH !in h[..t.maxName])
  }

  /** get_extended_arelt_filename: the name and, for a nested member of a thin archive, its origin. */
  function TableName(thin: bool, h: seq<byte>, names: seq<byte>): (r: Result<(seq<byte>, int)>)
    requires |h| == HDR
  {
    var s := ScanNumber(h[1..]);
    var index := LongOf(s);
    if index.None? || index.value < 0 || index.value >= |names| then Err(Malformed)
    else
      var name := CString(names, index.value);
      var rest := if s.Number? then s.rest else h[1..];
      if thin && rest != [] && rest[0] == COLON then
        var o := LongOf(ScanNumber(rest[1..]));
        if o.None? then Err(Malformed) else Ok((name, o.value))
      else Ok((name, 0))
  }

  /** Names that end at a NUL, else at '/', else at ' ', else with the field. */
  function InlineName(field: seq<byte>): seq<byte> {
    if NUL in field then field[..IndexOf(field, NUL)]
    else if SLASH in field then field[..IndexOf(field, SLASH)]
    else field[..IndexOf(field, SPACE)]
  }

  /** A BSD 4.4 member: `len` bytes of the counted size are the name that follows the header. */
  function Bsd44Elt(file: seq<byte>, pos: nat, len: nat, size: nat): (r: Result<Elt>)
    ensures r.Ok? ==> r.value.pos == pos && pos + HDR <= r.value.data <= |file| && r.value.size <= size
  {
    if len > size || len > |file| then Err(Malformed)
    else if pos + HDR + len > |file| then Err(NoMoreFiles)
    else Ok(Elt(CString(file[pos + HDR..pos + HDR + len], 0), size - len, len, 0, pos, pos + HDR + len))
  }

  /** _bfd_generic_read_ar_hdr_mag at file position `pos`. */
  function ReadHeader(t: Target, thin: bool, file: seq<byte>, pos: nat, names: Option<seq<byte>>): (r: Result<Elt>)
    requires ValidTarget(t)
    ensures r.Ok? ==> r.value.pos == pos && pos + HDR <= r.value.data <= |file| && r.value.size < TWO64
  {
    if pos + HDR > |file| then Err(NoMoreFiles)
    else
      var h := file[pos..pos + HDR];
      var size := ParseSize(h[48..58]);
      if h[58..] != ARFMAG || size.None? then Err(Malformed)
      else if UsesNameTable(t, h) && names.Some? then
        var r := TableName(thin, h, names.value);
        if r.Err? then Err(r.error)
        else Ok(Elt(r.value.0, size.value, 0, r.value.1, pos, pos + HDR))
      else if IsBsd44Name(h) then
        Bsd44Elt(file, pos, AtoiSize(ScanNumber(h[3..])), size.value)
      else Ok(Elt(InlineName(h[..t.maxName]), size.value, 0, 0, pos, pos + HDR))
  }

  // Reading back what was printed -------------------------------------------

  ghost predicate HeaderAt(file: seq<byte>, pos: nat, name: seq<byte>, stat: seq<byte>, size: nat)
  {
    |name| == NAMELEN && |stat| == 32 && SizeFits(size)
    && pos + HDR <= |file| && file[pos..pos + HDR] == Header(name, stat, size)
  }

  lemma ParsePrintedSize(size: nat)
    requires SizeFits(size)
    ensures ParseSize(PadTo(Decimal(size), 10)) == Some(size)
  {
    hide Decimal, ScanNumber, U64;
    var d := Decimal(size);
    assert PadTo(d, 10) == d + Repeat(SPACE, 10 - |d|);
    ScanDecimal(size, Repeat(SPACE, 10 - |d|));
    SizeFitsIff(size);
    U64Small(size);
  }

  lemma HeaderFields(file: seq<byte>, pos: nat, name: seq<byte>, stat: seq<byte>, size: nat)
    requires HeaderAt(file, pos, name, stat, size)
    ensures var h := file[pos..pos + HDR];
      h[..16] == name && ParseSize(h[48..58]) == Some(size) && h[58..] == ARFMAG
  {
    ParsePrintedSize(size);
  }

  /** A name that a header can hold so that the reader finds it again. */
  ghost predicate PlainName(t: Target, name: seq<byte>) {
    && 0 < |name| <= t.maxName
    && SLASH !in name && NUL !in name
    && (SPACE in name ==> t.pad == SLASH && |name| < t.maxName)
  }

  lemma InlineNameBack(t: Target, name: seq<byte>)
    requires ValidTarget(t) && PlainName(t, name)
    ensures InlineName(ShortField(t, name)[..t.maxName]) == name
    ensures SPACE == ShortField(t, name)[0] ==> SLASH in ShortField(t, name)[..t.maxName]
  {
    var f := ShortField(t, name)[..t.maxName];
    assert f[..|name|] == name;
    assert forall i :: 0 <= i < |name| ==> f[i] == name[i];
    assert |name| < t.maxName ==> f[|name|] == t.pad;
    assert NUL !in f;
    if SLASH in f {
      IndexOfAt(f, SLASH, |name|);
    } else {
      assert |name| < t.maxName ==> t.pad == SPACE;
      IndexOfAt(f, SPACE, |name|);
    }
  }

  lemma ReadPlain(t: Target, thin: bool, file: seq<byte>, pos: nat, names: Option<seq<byte>>,
                  name: seq<byte>, stat: seq<byte>, size: nat)
    requires ValidTarget(t) && PlainName(t, name)
    requires HeaderAt(file, pos, ShortField(t, name), stat, size)
    ensures ReadHeader(t, thin, file, pos, names) == Ok(Elt(name, size, 0, 0, pos, pos + HDR))
  {
    var h := file[pos..pos + HDR];
    var f := ShortField(t, name);
    HeaderFields(file, pos, f, stat, size);
    assert h[..t.maxName] == f[..t.maxName];
    InlineNameBack(t, name);
    assert h[0] == name[0] && name[0] != SLASH;
    assert !UsesNameTable(t, h);
    assert !IsBsd44Name(h) by {
      if h[..3] == BSD44_PREFIX {
        assert h[..3][2] == SLASH;
        assert h[2] == f[2] == SLASH && h[3] == f[3];
        assert |name| <= 2;
        assert f[3] == SPACE;
      }
    }
  }

  lemma ScanField(h: seq<byte>, at: nat, n: nat)
    requires at + |Decimal(n)| < |h|
    requires h[at..at + |Decimal(n)|] == Decimal(n) && h[at + |Decimal(n)|] == SPACE
    ensures ScanNumber(h[at..]) == Number(false, n, h[at + |Decimal(n)|..])
  {
    hide Decimal, ScanNumber;
    var end := at + |Decimal(n)|;
    SplitAt(h, at, end);
    ScanDecimal(n, h[end..]);
  }

  lemma PrefixSlice(h: seq<byte>, n: nat, a: nat, b: nat)
    requires a <= b <= n <= |h|
    ensures h[..n][a..b] == h[a..b]
  {
  }

  lemma SplitAt(h: seq<byte>, a: nat, b: nat)
    requires a <= b <= |h|
    ensures h[a..] == h[a..b] + h[b..]
  {
  }

  lemma TableFieldChars(t: Target, f: seq<byte>, off: nat)
    requires ValidTarget(t) && SizeFits(off) && IsTableField(t, f, off)
    ensures var d := Decimal(off);
      f[1..1 + |d|] == d && f[1 + |d|] == SPACE && (t.pad == SPACE ==> SLASH !in f[..t.maxName])
  {
    var d := Decimal(off);
    var g := PadTo(d, t.maxName - 1);
    assert forall i :: 1 <= i < t.maxName ==> f[i] == g[i - 1];
    assert f[1..1 + |d|] == g[..|d|] == d;
  }

  lemma TableNameBack(t: Target, thin: bool, h: seq<byte>, names: seq<byte>, off: nat)
    requires ValidTarget(t) && off < |names| && SizeFits(off)
    requires |h| == HDR && IsTableField(t, h[..16], off)
    ensures UsesNameTable(t, h) && TableName(thin, h, names) == Ok((CString(names, off), 0))
  {
    hide Decimal, ScanNumber, CString, PadTo;
    var d, f := Decimal(off), h[..16];
    TableFieldChars(t, f, off);
    PrefixSlice(h, 16, 1, 1 + |d|);
    assert h[1 + |d|] == f[1 + |d|];
    ScanField(h, 1, off);
    SizeFitsIff(off);
    PrefixSlice(h, 16, 0, t.maxName);
    assert h[0] == f[0] == t.pad;
  }

  lemma ReadTabled(t: Target, thin: bool, file: seq<byte>, pos: nat, names: seq<byte>,
                   f: seq<byte>, off: nat, stat: seq<byte>, size: nat)
    requires ValidTarget(t) && off < |names| && SizeFits(off) && IsTableField(t, f, off)
    requires HeaderAt(file, pos, f, stat, size)
    ensures ReadHeader(t, thin, file, pos, Some(names)) == Ok(Elt(CString(names, off), size, 0, 0, pos, pos + HDR))
  {
    HeaderFields(file, pos, f, stat, size);
    TableNameBack(t, thin, file[pos..pos + HDR], names, off);
  }

  lemma Bsd44FieldChars(t: Target, len: nat)
    requires ValidTarget(t) && SizeFits(len)
    ensures var d, f := Decimal(len), Bsd44Field(t, len);
      f[..3] == BSD44_PREFIX && f[3..3 + |d|] == d && f[3 + |d|] == SPACE && IsDigit(f[3])
  {
    var d, f := Decimal(len), Bsd44Field(t, len);
    var p := BSD44_PREFIX + d;
    assert |p| <= 13;
    assert PadTo(p, t.maxName)[..|p|] == p;
    assert f[..|p|] == p;
    assert f[3] == d[0];
  }

  lemma AtoiSmall(len: nat, rest: seq<byte>)
    requires len < TWO32 / 2
    ensures AtoiSize(Number(false, len, rest)) == len
  {
  }

  lemma Bsd44LengthBack(t: Target, h: seq<byte>, len: nat)
    requires ValidTarget(t) && SizeFits(len) && len < TWO32 / 2
    requires |h| == HDR && h[..16] == Bsd44Field(t, len)
    ensures IsBsd44Name(h) && !UsesNameTable(t, h) && AtoiSize(ScanNumber(h[3..])) == len
  {
    var d, f := Decimal(len), Bsd44Field(t, len);
    Bsd44FieldChars(t, len);
    assert h[..3] == f[..3] && h[3] == f[3];
    assert h[3..3 + |d|] == f[3..3 + |d|];
    assert h[3 + |d|] == f[3 + |d|];
    ScanField(h, 3, len);
    AtoiSmall(len, h[3 + |d|..]);
    assert h[0] == BSD44_PREFIX[0];
  }

  lemma Bsd44NameBack(file: seq<byte>, pos: nat, name: seq<byte>, len: nat, size: nat)
    requires NUL !in name && |name| <= len && pos + HDR + len <= |file|
    requires file[pos + HDR..pos + HDR + len] == name + Repeat(NUL, len - |name|)
    ensures Bsd44Elt(file, pos, len, size + len) == Ok(Elt(name, size, len, 0, pos, pos + HDR + len))
  {
    CStringIs(name + Repeat(NUL, len - |name|), 0, name);
  }

  /** A BSD 4.4 name is written after the header, padded with NULs to `len` bytes. */
  lemma ReadBsd44(t: Target, thin: bool, file: seq<byte>, pos: nat, names: Option<seq<byte>>,
                  name: seq<byte>, len: nat, stat: seq<byte>, size: nat)
    requires ValidTarget(t) && NUL !in name && |name| <= len < TWO32 / 2
    requires HeaderAt(file, pos, Bsd44Field(t, len), stat, size + len)
    requires pos + HDR + len <= |file| && file[pos + HDR..pos + HDR + len] == name + Repeat(NUL, len - |name|)
    ensures ReadHeader(t, thin, file, pos, names) == Ok(Elt(name, size, len, 0, pos, pos + HDR + len))
  {
    HeaderFields(file, pos, Bsd44Field(t, len), stat, size + len);
    assert SizeFits(len) by { SizeFitsIff(size + len); SizeFitsIff(len); }
    Bsd44LengthBack(t, file[pos..pos + HDR], len);
    Bsd44NameBack(file, pos, name, len, size);
  }
}
