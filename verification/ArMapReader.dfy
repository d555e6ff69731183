/** The three symbol-map readers (bfd/archive.c, bfd/archive64.c), and that they undo the writers. */
module ArMapReader {
  import opened Bytes
  import opened ArHeader
  import opened ArMap

  /** A canonical archive symbol: look at `offset` to find the member. */
  datatype Carsym = Carsym(name: seq<byte>, offset: nat)

  /** What reading a map leaves in the archive data. */
  datatype MapData = MapData(symdefs: seq<Carsym>, first: nat)

  /** The target's header reader (BFD_SEND (abfd, _bfd_read_ar_hdr_fn, ...)), as a function of the file position. */
  type HeaderReader = nat -> Result<Elt>

  // Decoding the pieces -----------------------------------------------------

  /** buf as n consecutive w-byte words. */
  function Chunks(get: seq<byte> -> nat, w: nat, n: nat, buf: seq<byte>): (r: seq<nat>)
    requires |buf| == n * w
    ensures |r| == n
  {
    if n == 0 then [] else MulStep(n, w); [get(buf[..w])] + Chunks(get, w, n - 1, buf[w..])
  }

  lemma MulStep(n: nat, w: nat)
    requires n > 0
    ensures n * w == (n - 1) * w + w && n * w >= w
  {
    assert (n - 1) * w >= 0;
  }

  function Getter(big: bool): seq<byte> -> nat { s => GetWord(big, s) }

  /** n consecutive C strings; a reader that has hit the end of buf finds empty strings from there on. */
  function SplitNames(first: seq<byte> -> seq<byte>, buf: seq<byte>, n: nat): (r: seq<seq<byte>>)
    ensures |r| == n
    decreases n
  {
    if n == 0 then [] else [first(buf)] + SplitNames(first, AfterName(buf, |first(buf)|), n - 1)
  }

  /** The rest of the strings after one of length len and its terminator. */
  function AfterName(buf: seq<byte>, len: nat): seq<byte> { if len < |buf| then buf[len + 1..] else [] }

  /** The C string at the start of a buffer. */
  function FirstString(): seq<byte> -> seq<byte> { buf => CString(buf, 0) }

  /** The symbols of a map: n offsets, then n strings. */
  function MapSymbols(get: seq<byte> -> nat, w: nat, n: nat, words: seq<byte>, strings: seq<byte>): (r: seq<Carsym>)
    requires |words| == n * w
    ensures |r| == n
  {
    Zip(SplitNames(FirstString(), strings, n), Chunks(get, w, n, words))
  }

  function Zip(names: seq<seq<byte>>, offsets: seq<nat>): (r: seq<Carsym>)
    requires |names| == |offsets|
    ensures |r| == |names| && forall i :: 0 <= i < |r| ==> r[i] == Carsym(names[i], offsets[i])
  {
    seq(|names|, i requires 0 <= i < |names| => Carsym(names[i], offsets[i]))
  }

  lemma {:induction false} ChunksBack(put: nat -> seq<byte>, get: seq<byte> -> nat, w: nat, ws: seq<nat>)
    requires forall i :: 0 <= i < |ws| ==> |put(ws[i])| == w && get(put(ws[i])) == ws[i]
    ensures |Concat<nat>(put, ws)| == |ws| * w && Chunks(get, w, |ws|, Concat<nat>(put, ws)) == ws
  {
    if ws != [] {
      var head, rest := put(ws[0]), Concat<nat>(put, ws[1..]);
      assert (head + rest)[..w] == head && (head + rest)[w..] == rest;
      assert forall i :: 0 <= i < |ws[1..]| ==> ws[1..][i] == ws[i + 1];
      ChunksBack(put, get, w, ws[1..]);
      MulStep(|ws|, w);
    }
  }

  lemma SmallMod(n: nat, p: nat)
    requires n < p
    ensures n % p == n
  {
    ModUnique(n, p, 0, n);
  }

  lemma WordBack(big: bool, k: nat, n: nat)
    requires n < Pow256(k)
    ensures |PutWord(big, n, k)| == k && GetWord(big, PutWord(big, n, k)) == n
  {
    GetPutWord(big, n, k);
    SmallMod(n, Pow256(k));
  }

  lemma {:induction false} SplitNamesBack(map0: seq<Orl>, tail: seq<byte>)
    requires forall i :: 0 <= i < |map0| ==> NUL !in map0[i].name
    ensures var names := SplitNames(FirstString(), Strings(map0) + tail, |map0|);
      forall i :: 0 <= i < |map0| ==> names[i] == map0[i].name
  {
    hide FirstString, AfterName;
    if map0 != [] {
      var name, rest := map0[0].name, Strings(map0[1..]) + tail;
      FirstName(name, rest);
      Assoc(name + [NUL], Strings(map0[1..]), tail);
      assert Strings(map0) + tail == name + [NUL] + rest;
      SplitNamesBack(map0[1..], tail);
      assert SplitNames(FirstString(), name + [NUL] + rest, |map0|) == [name] +
        SplitNames(FirstString(), rest, |map0| - 1);
    }
  }

  lemma FirstName(name: seq<byte>, rest: seq<byte>)
    requires NUL !in name
    ensures var buf := name + [NUL] + rest; FirstString()(buf) == name && AfterName(buf, |name|) == rest
  {
    CStringIs(name + [NUL] + rest, 0, name);
  }

  // System 5 and 64-bit maps ------------------------------------------------

  /** After a System 5 map: skip a second "/" member, as PE archives have, given what reading its header gave. */
  function SkipSecondMap(h: Result<Elt>, file: seq<byte>, first: nat): nat {
    if h.Ok? && IsSecondMap(file, first) then
      var v := U32(h.value.size + HDR + 1);
      first + (v - v % 2)
    else first
  }

  predicate IsSecondMap(file: seq<byte>, first: nat) {
    first + 2 <= |file| && file[first] == SLASH && file[first + 1] == SPACE
  }

  /** The pieces of a map body: its symbol count, offsets and strings, and the position after it. */
  datatype Parts = Parts(n: nat, words: seq<byte>, strings: seq<byte>, next: nat)

  /** do_slurp_coff_armap once its header is read. */
  function CoffParts(h: Elt, file: seq<byte>, get: seq<byte> -> nat): (r: Result<Parts>)
    ensures r.Ok? ==> |r.value.words| == r.value.n * 4
  {
    var d, size := h.data, h.size;
    if d + 4 > |file| then Err(NoMoreFiles)
    else
      var n := get(file[d..d + 4]);
      if size > |file| || size < 4 || size - 4 < 4 * n || d + size > |file| then Err(Malformed)
      else
        var strings := d + 4 + 4 * n;
        Ok(Parts(n, file[d + 4..strings], file[strings..d + size], Even(d + size)))
  }

  function CoffBody(h: Elt, file: seq<byte>, get: seq<byte> -> nat): Result<MapData>
  {
    var p := CoffParts(h, file, get);
    if p.Err? then Err(p.error)
    else Ok(MapData(MapSymbols(get, 4, p.value.n, p.value.words, p.value.strings), p.value.next))
  }

  /** do_slurp_coff_armap at file position pos. */
  function CoffSlurp(read: HeaderReader, file: seq<byte>, pos: nat): Result<MapData> {
    var h := read(pos);
    if h.Err? then Err(h.error)
    else
      var r := CoffBody(h.value, file, Getter(true));
      if r.Err? then r else Ok(MapData(r.value.symdefs, SkipSecondMap(read(r.value.first), file, r.value.first)))
  }

  /** _bfd_archive_64_bit_slurp_armap once its header is read. */
  function Sym64Parts(h: Elt, file: seq<byte>, get: seq<byte> -> nat): (r: Result<Parts>)
    ensures r.Ok? ==> |r.value.words| == r.value.n * 8
  {
    var d, size := h.data, h.size;
    if size > |file| || d + 8 > |file| then Err(Malformed)
    else
      var n := get(file[d..d + 8]);
      var stringsize := U64(size - 8 * n - 8);
      if n >= (TWO64 - 1) / 8 || stringsize > size || n > (TWO64 - 1) / 16
         || 16 * n + stringsize + 1 >= TWO64 || d + 8 + 8 * n + stringsize > |file| then Err(Malformed)
      else
        var strings := d + 8 + 8 * n;
        Ok(Parts(n, file[d + 8..strings], file[strings..strings + stringsize], Even(strings + stringsize)))
  }

  function Sym64Body(h: Elt, file: seq<byte>, get: seq<byte> -> nat): Result<MapData>
  {
    var p := Sym64Parts(h, file, get);
    if p.Err? then Err(p.error)
    else Ok(MapData(MapSymbols(get, 8, p.value.n, p.value.words, p.value.strings), p.value.next))
  }

  function Sym64Slurp(read: HeaderReader, file: seq<byte>, pos: nat): Result<MapData> {
    var h := read(pos);
    if h.Err? then Err(h.error) else Sym64Body(h.value, file, Getter(true))
  }

  method ReadWords(get: seq<byte> -> nat, w: nat, n: nat, buf: seq<byte>) returns (out: seq<nat>)
    requires |buf| == n * w
    ensures out == Chunks(get, w, n, buf)
  {
    ghost var all := Chunks(get, w, n, buf);
    out := [];
    var rest, left: nat := buf, n;
    while left > 0
      invariant |rest| == left * w
      invariant all == out + Chunks(get, w, left, rest)
    {
      MulStep(left, w);
      var word := get(rest[..w]);
      Assoc(out, [word], Chunks(get, w, left - 1, rest[w..]));
      out := out + [word];
      rest, left := rest[w..], left - 1;
    }
    assert Chunks(get, w, 0, rest) == [];
  }

  /** Each name starts after the previous one's terminator. */
  method ReadNames(first: seq<byte> -> seq<byte>, n: nat, strings: seq<byte>) returns (out: seq<seq<byte>>)
    ensures out == SplitNames(first, strings, n)
  {
    ghost var names := SplitNames(first, strings, n);
    out := [];
    var rest, left: nat := strings, n;
    while left > 0
      invariant names == out + SplitNames(first, rest, left)
    {
      hide AfterName;
      var name := first(rest);
      assert SplitNames(first, rest, left) == [name] + SplitNames(first, AfterName(rest, |name|), left - 1);
      Assoc(out, [name], SplitNames(first, AfterName(rest, |name|), left - 1));
      out := out + [name];
      rest, left := AfterName(rest, |name|), left - 1;
    }
    assert SplitNames(first, rest, 0) == [];
  }

  /** The loop that builds the carsyms. */
  method BuildCarsyms(get: seq<byte> -> nat, w: nat, n: nat, words: seq<byte>,
      strings: seq<byte>) returns (syms: seq<Carsym>)
    requires |words| == n * w
    ensures syms == MapSymbols(get, w, n, words, strings)
  {
    var offsets := ReadWords(get, w, n, words);
    var names := ReadNames(FirstString(), n, strings);
    syms := Zip(names, offsets);
  }

  method CoffSlurpBody(h: Elt, file: seq<byte>, get: seq<byte> -> nat) returns (r: Result<MapData>)
    ensures r == CoffBody(h, file, get)
  {
    var p := CoffParts(h, file, get);
    if p.Err? { return Err(p.error); }
    var syms := BuildCarsyms(get, 4, p.value.n, p.value.words, p.value.strings);
    r := Ok(MapData(syms, p.value.next));
  }

  method CoffSlurpArmap(read: HeaderReader, file: seq<byte>, pos: nat) returns (r: Result<MapData>)
    ensures r == CoffSlurp(read, file, pos)
  {
    var h := read(pos);
    if h.Err? { return Err(h.error); }
    r := CoffSlurpBody(h.value, file, Getter(true));
    if r.Ok? { r := Ok(MapData(r.value.symdefs, SkipSecondMap(read(r.value.first), file, r.value.first))); }
  }

  method Sym64SlurpBody(h: Elt, file: seq<byte>, get: seq<byte> -> nat) returns (r: Result<MapData>)
    ensures r == Sym64Body(h, file, get)
  {
    var p := Sym64Parts(h, file, get);
    if p.Err? { return Err(p.error); }
    var syms := BuildCarsyms(get, 8, p.value.n, p.value.words, p.value.strings);
    r := Ok(MapData(syms, p.value.next));
  }

  method Sym64SlurpArmap(read: HeaderReader, file: seq<byte>, pos: nat) returns (r: Result<MapData>)
    ensures r == Sym64Slurp(read, file, pos)
  {
    var h := read(pos);
    if h.Err? { return Err(h.error); }
    r := Sym64SlurpBody(h.value, file, Getter(true));
  }

  // Berkeley maps -----------------------------------------------------------

  /** The n entries of a Berkeley map. */
  function RanlibsAt(get: seq<byte> -> nat, n: nat, entries: seq<byte>): (r: seq<Ranlib>)
    requires |entries| == 8 * n
    ensures |r| == n
    ensures forall i :: 0 <= i < n ==>
      r[i] == Ranlib(get(entries[8 * i..8 * i + 4]), get(entries[8 * i + 4..8 * i + 8]))
  {
    seq(n, i requires 0 <= i < n => Ranlib(get(entries[8 * i..8 * i + 4]), get(entries[8 * i + 4..8 * i + 8])))
  }

  predicate NamesInRange(rs: seq<Ranlib>, size: nat) { forall i :: 0 <= i < |rs| ==> rs[i].namidx < size }

  /** The symbol an entry stands for. */
  function Lookup(strings: seq<byte>): Ranlib -> Carsym {
    (r: Ranlib) => Carsym(if r.namidx <= |strings| then CString(strings, r.namidx) else [], r.offset)
  }

  function Symbols(look: Ranlib -> Carsym, rs: seq<Ranlib>): (r: seq<Carsym>)
    ensures |r| == |rs| && forall i :: 0 <= i < |rs| ==> r[i] == look(rs[i])
  {
    seq(|rs|, i requires 0 <= i < |rs| => look(rs[i]))
  }

  /** The symbols of a Berkeley map; None when a string offset is out of range. */
  function BsdSymbols(look: Ranlib -> Carsym, rs: seq<Ranlib>, size: nat): (r: Option<seq<Carsym>>)
    ensures r.None? <==> exists i :: 0 <= i < |rs| && rs[i].namidx >= size
  {
    if NamesInRange(rs, size) then Some(Symbols(look, rs)) else None
  }

  /** do_slurp_bsd_armap once its header is read. */
  function BsdBody(h: Elt, file: seq<byte>, get: seq<byte> -> nat): Result<MapData>
  {
    var d, size := h.data, h.size;
    if size < 8 || d + size > |file| then Err(Malformed)
    else
      var amt := get(file[d..d + 4]);
      if amt > size - 8 || amt % 8 != 0 then Err(WrongFormat)
      else
        var strings := file[d + 8 + amt..d + size];
        var syms := BsdSymbols(Lookup(strings), RanlibsAt(get, amt / 8, file[d + 4..d + 4 + amt]), |strings|);
        if syms.None? then Err(Malformed) else Ok(MapData(syms.value, Even(d + size)))
  }

  function BsdSlurp(read: HeaderReader, big: bool, file: seq<byte>, pos: nat): Result<MapData> {
    var h := read(pos);
    if h.Err? then Err(h.error) else BsdBody(h.value, file, Getter(big))
  }

  method BsdSlurpArmap(read: HeaderReader, big: bool, file: seq<byte>, pos: nat) returns (r: Result<MapData>)
    ensures r == BsdSlurp(read, big, file, pos)
  {
    var h := read(pos);
    if h.Err? { return Err(h.error); }
    r := BsdSlurpBody(h.value, file, Getter(big));
  }

  method BsdSlurpBody(h: Elt, file: seq<byte>, get: seq<byte> -> nat) returns (r: Result<MapData>)
    ensures r == BsdBody(h, file, get)
  {
    var d, size := h.data, h.size;
    if size < 8 || d + size > |file| { return Err(Malformed); }
    var amt := get(file[d..d + 4]);
    if amt > size - 8 || amt % 8 != 0 { return Err(WrongFormat); }
    var strings := file[d + 8 + amt..d + size];
    var syms := BuildBsd(get, Lookup(strings), amt / 8, file[d + 4..d + 4 + amt], |strings|);
    if syms.None? { return Err(Malformed); }
    r := Ok(MapData(syms.value, Even(d + size)));
  }

  method BuildBsd(get: seq<byte> -> nat, look: Ranlib -> Carsym, n: nat, entries: seq<byte>, size: nat)
    returns (r: Option<seq<Carsym>>)
    requires |entries| == 8 * n
    ensures r == BsdSymbols(look, RanlibsAt(get, n, entries), size)
  {
    ghost var rs := RanlibsAt(get, n, entries);
    var syms: seq<Carsym> := [];
    for i := 0 to n
      invariant |syms| == i && NamesInRange(rs[..i], size)
      invariant forall k :: 0 <= k < i ==> syms[k] == look(rs[k])
    {
      var rbase := 8 * i;
      var nameoff := get(entries[rbase..rbase + 4]);
      assert nameoff == rs[i].namidx;
      if nameoff >= size {
        assert !NamesInRange(rs, size);
        return None;
      }
      syms := syms + [look(Ranlib(nameoff, get(entries[rbase + 4..rbase + 8])))];
    }
    assert rs[..n] == rs;
    assert syms == Symbols(look, rs);
    r := Some(syms);
  }
}
