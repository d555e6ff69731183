/** The symbol table of an a.out final link (aout_link_write_symbols, aout_link_write_other_symbol, bfd/aoutx.h). */
module AoutSymbols {
  import opened Bytes
  import opened AoutReloc
  import opened AoutStabs

  const N_EXT: nat := 1
  const N_TEXT: nat := 4
  const N_INDR: nat := 0x0a
  const N_WARNING: nat := 0x1e
  const N_SETA: nat := 0x14
  const N_SETT: nat := 0x16
  const N_SETD: nat := 0x18
  const N_SETB: nat := 0x1a
  const N_WEAKU: nat := 0x0d
  const N_WEAKA: nat := 0x0e
  const N_WEAKT: nat := 0x0f
  const N_WEAKD: nat := 0x10
  const N_WEAKB: nat := 0x11

  datatype Strip = StripNone | StripDebugger | StripSome | StripAll

  datatype Discard = DiscardNone | DiscardSecMerge | DiscardL | DiscardAll

  /** What the link hash table says of a symbol; links are positions in the table. */
  datatype HashKind = New | Undef | WeakUndef | Def(weak: bool, value: int, place: Place) | Common(size: int)
                    | Indirect(link: nat) | Warning(link: nat)

  datatype Hash = Hash(name: Name, kind: HashKind)

  /** The part of a hash entry that the final link changes. */
  datatype Entry = Entry(written: bool, indx: int)

  /** What stays the same during a link. `rank` decreases along the links of indirect and warning entries. */
  datatype Env = Env(strip: Strip, discard: Discard, keep: set<Name>, keepMemory: bool, table: seq<Hash>,
                     outVma: SecKind -> int, rank: nat -> nat)

  predicate IsLink(k: HashKind) { k.Indirect? || k.Warning? }

  ghost predicate GoodEnv(env: Env) {
    forall h :: 0 <= h < |env.table| && IsLink(env.table[h].kind) ==>
      env.table[h].kind.link < |env.table| && env.rank(env.table[h].kind.link) < env.rank(h)
  }

  /** An input file: its name, its symbols, where its sections go, and which names are local labels. */
  datatype Input = Input(file: Name, syms: seq<Nlist>, link: Link, localLabel: Name -> bool)

  // Types and values --------------------------------------------------------------------

  /** type & N_TYPE, and type & N_STAB. */
  function TypeBits(t: nat): nat { t / 2 % 16 * 2 }

  predicate IsStab(t: nat) { t / 32 % 8 != 0 }

  predicate Redirects(t: nat) { TypeBits(t) == N_INDR || t == N_WARNING }

  /** The section a symbol's type names. */
  function SectionOf(t: nat): Option<SecKind> {
    if TypeBits(t) == N_TEXT || t == N_WEAKT then Some(Text)
    else if TypeBits(t) == Index(Data) || t == N_WEAKD then Some(Data)
    else if TypeBits(t) == Index(Bss) || t == N_WEAKB then Some(Bss)
    else if TypeBits(t) == Index(Abs) || t == N_WEAKA then Some(Abs)
    else None
  }

  /** The section of a set element, by its type bits. */
  function SetSection(t: nat): Option<SecKind> {
    match TypeBits(t)
    case 0x14 => Some(Abs)
    case 0x16 => Some(Text)
    case 0x18 => Some(Data)
    case 0x1a => Some(Bss)
    case _ => None
  }

  /** A constructed set is made globally visible. */
  function SetVisible(t: nat): nat { if t == N_SETA || t == N_SETT || t == N_SETD || t == N_SETB then t + N_EXT else t }

  /** A section symbol's address in the output. */
  function Moved(input: Input, s: Nlist, k: SecKind): int { NewVma(input.link, k) + (s.value - input.link.inVma(k)) }

  function TypeFor(k: SecKind, weak: bool): nat {
    if !weak then Index(k)
      else match k case Text => N_WEAKT case Data => N_WEAKD case Bss => N_WEAKB case Abs => N_WEAKA
  }

  /** t | code, for a code without stab bits and a t whose only other low bit is N_EXT. */
  function OrType(t: nat, code: nat): nat {
    if t % 2 == 1 && code % 2 == 0 then t + code else t - t % 2 + code
  }

  function DefVma(env: Env, k: HashKind): int
    requires k.Def?
  {
    k.value + env.outVma(k.place.out) + k.place.offset
  }

  /** The base symbol of an entry. */
  function Resolve(env: Env, h: nat): (r: nat)
    requires GoodEnv(env) && h < |env.table|
    ensures r < |env.table| && !IsLink(env.table[r].kind)
    decreases env.rank(h)
  {
    if IsLink(env.table[h].kind) then Resolve(env, env.table[h].kind.link) else h
  }

  datatype Copied = Copied(typ: nat, value: int, pass: bool, skip: bool)

  /**
   * The type and value a symbol is written with, and what becomes of the one after it; `k` is its base symbol's kind.
   */
  function Classify(env: Env, input: Input, sym: Nlist, k: Option<HashKind>): Copied {
    var t, sec := sym.typ, SectionOf(sym.typ);
    if sec.Some? then Copied(t, Moved(input, sym, sec.value), false, false)
    else if (TypeBits(t) == N_INDR && (k.None? || !(k.value.Def? || k.value.Common?))) || t == N_WARNING then
      Copied(t, sym.value, true, false)
    else if IsStab(t) then Copied(t, sym.value, false, false)
    else
      var skip := TypeBits(t) == N_INDR;
      if k.None? then
        Copied(t, if SetSection(t).Some? then Moved(input, sym, SetSection(t).value) else 0, false, skip)
      else match k.value
        case Def(weak, _, place) =>
          var v := SetVisible(t);
          Copied(OrType(v - TypeBits(v), TypeFor(place.out, weak)), DefVma(env, k.value), false, skip)
        case Common(size) => Copied(t, size, false, skip)
        case WeakUndef => Copied(N_WEAKU, 0, false, skip)
        case _ => Copied(t, 0, false, skip)
  }

  predicate Stripped(env: Env, t: nat, name: Name) {
    match env.strip
    case StripNone => false
    case StripDebugger => IsStab(t)
    case StripSome => name !in env.keep
    case StripAll => true
  }

  /** Set elements are never discarded. */
  predicate Discarded(env: Env, input: Input, t: nat, name: Name) {
    && SetSection(t).None?
    && match env.discard
       case DiscardNone => false
       case DiscardSecMerge => false
       case DiscardL => !IsStab(t) && input.localLabel(name)
       case DiscardAll => true
  }

  // The link's state, and one symbol's effect on it -------------------------------------------

  datatype State = State(entries: seq<Entry>, syms: seq<Nlist>, includes: Includes)

  /** Half way through an input file: its symbol map and hash pointers, and the flags for the next symbol. */
  datatype Walk = Walk(st: State, cells: seq<int>, hashes: seq<Option<nat>>, pass: bool, skip: bool)

  ghost predicate Fits(env: Env, input: Input, w: Walk) {
    && GoodEnv(env) && |w.st.entries| == |env.table| && |w.cells| == |w.hashes| == |input.syms|
    && forall i :: 0 <= i < |w.hashes| && w.hashes[i].Some? ==> w.hashes[i].value < |env.table|
  }

  function SetEntry(w: Walk, h: Option<nat>, e: Entry): Walk
    requires h.Some? ==> h.value < |w.st.entries|
  {
    if h.None? then w else w.(st := w.st.(entries := w.st.entries[h.value := e]))
  }

  /** Symbol i becomes the output's next symbol. */
  function Emit(w: Walk, i: nat, s: Nlist): Walk
    requires i < |w.cells|
  {
    w.(st := w.st.(syms := w.st.syms + [s]), cells := w.cells[i := |w.st.syms|])
  }

  function MarkedCells(input: Input, i: nat, cells: seq<int>): (r: seq<int>)
    requires |cells| == |input.syms|
    ensures |r| == |cells|
  {
    seq(|cells|, j requires 0 <= j < |cells| => if Within(input.syms, i, j) then -1 else cells[j])
  }

  /** A header block: written out if its name and total are new, else replaced by a reference. */
  function Header(input: Input, i: nat, w: Walk, name: Name, s: Nlist): (r: Walk)
    requires i < |w.cells| == |input.syms|
  {
    var total := Total(input.syms, i);
    if total in Totals(w.st.includes, name) then
      Emit(w.(cells := MarkedCells(input, i, w.cells)), i, s.(typ := N_EXCL, value := total))
    else
      Emit(w.(st := w.st.(includes := w.st.includes[name := [total] + Totals(w.st.includes, name)])), i,
        s.(value := total))
  }

  /** The name in the hash table, in case the symbol was wrapped. */
  function NameOf(env: Env, sym: Nlist, h: Option<nat>): Name
    requires h.Some? ==> h.value < |env.table|
  {
    if h.Some? && !env.table[h.value].kind.Warning? then env.table[h.value].name else sym.name
  }

  function OutName(env: Env, sym: Nlist, h: Option<nat>): Name
    requires h.Some? ==> h.value < |env.table|
  {
    if h.Some? && !env.keepMemory then env.table[h.value].name else NameOf(env, sym, h)
  }

  function KindOf(env: Env, h: Option<nat>): Option<HashKind>
    requires GoodEnv(env) && (h.Some? ==> h.value < |env.table|)
  {
    if h.None? then None else Some(env.table[Resolve(env, h.value)].kind)
  }

  function Resolved(env: Env, h: Option<nat>): Option<nat>
    requires GoodEnv(env) && (h.Some? ==> h.value < |env.table|)
  {
    if h.None? then None else Some(Resolve(env, h.value))
  }

  /** A symbol that is neither dropped with its header nor handled for the one before it. */
  function Named(env: Env, input: Input, i: nat, w: Walk): (r: Walk)
    requires Fits(env, input, w) && i < |input.syms|
    ensures Fits(env, input, r)
  {
    var sym, h := input.syms[i], w.hashes[i];
    var name, w1 := NameOf(env, sym, h), w.(hashes := w.hashes[i := Resolved(env, h)]);
    if h.Some? && w.st.entries[h.value].written then
      w1.(skip := Redirects(sym.typ), cells := w1.cells[i := w.st.entries[h.value].indx])
    else if Stripped(env, sym.typ, name) then SetEntry(w1, h, if h.Some? then w.st.entries[h.value].(written := true)
      else Entry(true, 0))
    else
      var c := Classify(env, input, sym, KindOf(env, h));
      if h.None? && Discarded(env, input, c.typ, name) then w1.(skip := c.skip)
      else
        var w2 := SetEntry(w1.(pass := c.pass, skip := c.skip), h, Entry(true, |w.st.syms|));
        var s := Nlist(c.typ, sym.other, sym.desc, OutName(env, sym, h), c.value);
        if c.typ == N_BINCL then Header(input, i, w2, name, s) else Emit(w2, i, s)
  }

  function Step(env: Env, input: Input, i: nat, w: Walk): (r: Walk)
    requires Fits(env, input, w) && i < |input.syms|
    ensures Fits(env, input, r)
  {
    if w.cells[i] == -1 then w
    else
      var sym, w1 := input.syms[i], w.(cells := w.cells[i := -1]);
      if w.pass then Emit(w1.(pass := false), i, sym)
      else if w.skip then w1.(skip := false)
      else Named(env, input, i, w1)
  }

  /** The first n symbols. */
  function Steps(env: Env, input: Input, n: nat, w: Walk): (r: Walk)
    requires Fits(env, input, w) && n <= |input.syms|
    ensures Fits(env, input, r)
  {
    if n == 0 then w
    else Step(env, input, n - 1, Steps(env, input, n - 1, w))
  }

  /** The symbol that names the object file, unless such symbols are dropped. */
  function FileSymbol(env: Env, input: Input): seq<Nlist> {
    if env.strip != StripAll && (env.strip != StripSome || input.file in env.keep) && env.discard != DiscardAll then
      [Nlist(N_TEXT, 0, 0, input.file, NewVma(input.link, Text))]
    else []
  }

  function Start(env: Env, input: Input, hashes: seq<Option<nat>>, st: State): Walk {
    Walk(st.(syms := st.syms + FileSymbol(env, input)), seq(|input.syms|, _ => 0), hashes, false, false)
  }

  ghost predicate GoodHashes(env: Env, input: Input, hashes: seq<Option<nat>>) {
    |hashes| == |input.syms| && forall i :: 0 <= i < |hashes| && hashes[i].Some? ==> hashes[i].value < |env.table|
  }

  /** aout_link_write_symbols. */
  function WriteSymbols(env: Env, input: Input, hashes: seq<Option<nat>>, st: State): Walk
    requires GoodEnv(env) && GoodHashes(env, input, hashes) && |st.entries| == |env.table|
  {
    Steps(env, input, |input.syms|, Start(env, input, hashes, st))
  }

  // Symbols that no input file wrote ------------------------------------------------------------

  /** The symbol aout_link_write_other_symbol writes; None for entries it ignores. */
  function OtherSymbol(env: Env, h: Hash): Option<Nlist> {
    match h.kind
    case Undef => Some(Nlist(N_EXT, 0, 0, h.name, 0))
    case Def(weak, _, place) => Some(Nlist(OrType(N_EXT, TypeFor(place.out, weak)), 0, 0, h.name, DefVma(env, h.kind)))
    case Common(size) => Some(Nlist(N_EXT, 0, 0, h.name, size))
    case WeakUndef => Some(Nlist(N_WEAKU, 0, 0, h.name, 0))
    case _ => None
  }

  /** aout_link_write_other_symbol; None where it aborts. */
  function WriteOther(env: Env, h: nat, st: State): (r: Option<State>)
    requires GoodEnv(env) && h < |env.table| == |st.entries|
    ensures r.Some? ==> |r.value.entries| == |env.table|
  {
    var wrapped := env.table[h].kind.Warning?;
    var t := if wrapped then env.table[h].kind.link else h;
    var hash, e := env.table[t], st.entries[t];
    if wrapped && hash.kind.New? then Some(st)
    else if e.written then Some(st)
    else if e.indx != -2 && (env.strip == StripAll || (env.strip == StripSome && hash.name !in env.keep)) then
      Some(st.(entries := st.entries[t := e.(written := true)]))
    else if hash.kind.Warning? then None
    else
      match OtherSymbol(env, hash)
      case None => Some(st.(entries := st.entries[t := e.(written := true)]))
      case Some(s) => Some(st.(entries := st.entries[t := Entry(true, |st.syms|)], syms := st.syms + [s]))
  }

  /** A stripped symbol turns out to be needed by a reloc. */
  function Force(env: Env, h: nat, st: State): (r: Option<State>)
    requires GoodEnv(env) && h < |env.table| == |st.entries|
    ensures r.Some? ==> |r.value.entries| == |env.table|
  {
    WriteOther(env, h, st.(entries := st.entries[h := Entry(false, -2)]))
  }

  /** The index a reloc gets, from its symbol's cell in the symbol map and its hash entry. */
  function RelocIndex(env: Env, cell: int, h: Option<nat>, st: State): (r: Option<(State, int)>)
    requires GoodEnv(env) && (h.Some? ==> h.value < |env.table|) && |env.table| == |st.entries|
    ensures r.Some? ==> |r.value.0.entries| == |env.table|
  {
    if cell != -1 then Some((st, cell))
    else if h.None? then Some((st, 0))
    else if st.entries[h.value].indx >= 0 then Some((st, st.entries[h.value].indx))
    else
      var f := Force(env, h.value, st);
      if f.None? then None else Some((f.value, f.value.entries[h.value].indx))
  }

  // Every step keeps the symbol table right -------------------------------------------------------

  /** An entry with an index has been written, and its slot in the output is its own. */
  ghost predicate Slotted(env: Env, st: State, h: nat)
    requires h < |env.table| == |st.entries|
  {
    var e := st.entries[h];
    e.indx >= 0 ==>
      e.written && e.indx < |st.syms| && (env.table[h].kind.Warning? || st.syms[e.indx].name == env.table[h].name)
  }

  ghost predicate Good(env: Env, st: State) {
    && GoodEnv(env) && |st.entries| == |env.table|
    && (forall h :: 0 <= h < |env.table| ==> Slotted(env, st, h))
    && (forall h, g :: 0 <= h < g < |env.table| && st.entries[h].indx >= 0 ==> st.entries[h].indx != st.entries[g].indx)
  }

  /** Symbols once written stay, and an index once given is never changed. */
  ghost predicate Keeps(a: State, b: State) {
    && |a.entries| == |b.entries| && a.syms <= b.syms
    && (forall h :: 0 <= h < |a.entries| && a.entries[h].indx >= 0 ==> b.entries[h] == a.entries[h])
  }

  lemma KeepsTransitive(a: State, b: State, c: State)
    requires Keeps(a, b) && Keeps(b, c)
    ensures Keeps(a, c)
  {
  }

  /** More symbols, with the table unchanged. */
  lemma GoodMore(env: Env, st: State, more: seq<Nlist>, includes: Includes)
    requires Good(env, st)
    ensures var r := State(st.entries, st.syms + more, includes);
      Good(env, r) && Keeps(st, r)
  {
    var r := State(st.entries, st.syms + more, includes);
    forall h | 0 <= h < |env.table| ensures Slotted(env, r, h) { assert Slotted(env, st, h); }
  }

  /** An entry without an index is marked as written, or given the index of a symbol of its own. */
  lemma GoodEntry(env: Env, st: State, h: nat, e: Entry)
    requires Good(env, st) && h < |env.table| && st.entries[h].indx < 0
    requires e.indx >= 0 ==> e.written && e.indx == |st.syms| - 1
    requires e.indx >= 0 ==> env.table[h].kind.Warning? || st.syms[e.indx].name == env.table[h].name
    requires forall g :: 0 <= g < |env.table| ==> e.indx >= 0 ==> st.entries[g].indx < e.indx
    ensures Good(env, st.(entries := st.entries[h := e]))
  {
    var r := st.(entries := st.entries[h := e]);
    forall g | 0 <= g < |env.table| ensures Slotted(env, r, g) { assert Slotted(env, st, g); }
  }

  /** The next symbol, written for an entry that had none. */
  lemma GoodEmit(env: Env, st: State, h: nat, s: Nlist, includes: Includes)
    requires Good(env, st) && h < |env.table| && st.entries[h].indx < 0
    requires env.table[h].kind.Warning? || s.name == env.table[h].name
    ensures var r := State(st.entries[h := Entry(true, |st.syms|)], st.syms + [s], includes);
      Good(env, r) && Keeps(st, r)
  {
    var m := State(st.entries, st.syms + [s], includes);
    GoodMore(env, st, [s], includes);
    forall g | 0 <= g < |env.table| ensures st.entries[g].indx < |st.syms| { assert Slotted(env, st, g); }
    assert m.syms[|st.syms|] == s;
    GoodEntry(env, m, h, Entry(true, |st.syms|));
  }

  lemma GoodWritten(env: Env, st: State, h: nat, e: Entry)
    requires Good(env, st) && h < |env.table| && st.entries[h].indx < 0 && e.indx < 0
    ensures var r := st.(entries := st.entries[h := e]);
      Good(env, r) && Keeps(st, r)
  {
    GoodEntry(env, st, h, e);
  }

  lemma UnwrittenHasNoIndex(env: Env, st: State, h: nat)
    requires Good(env, st) && h < |env.table| && !st.entries[h].written
    ensures st.entries[h].indx < 0
  {
    assert Slotted(env, st, h);
  }

  lemma WriteOtherKeeps(env: Env, h: nat, st: State)
    requires Good(env, st) && h < |env.table|
    ensures var r := WriteOther(env, h, st);
      r.Some? ==> Good(env, r.value) && Keeps(st, r.value) && r.value.includes == st.includes
  {
    hide Good, Keeps;
    GoodFits(env, st);
    GoodMore(env, st, [], st.includes);
    assert st.syms + [] == st.syms;
    var t := if env.table[h].kind.Warning? then env.table[h].kind.link else h;
    if !st.entries[t].written {
      UnwrittenHasNoIndex(env, st, t);
      GoodWritten(env, st, t, st.entries[t].(written := true));
      var s := OtherSymbol(env, env.table[t]);
      if s.Some? { GoodEmit(env, st, t, s.value, st.includes); }
    }
  }

  lemma GoodFits(env: Env, st: State)
    requires Good(env, st)
    ensures GoodEnv(env) && |st.entries| == |env.table|
  {
  }

  /** Forcing out a base symbol gives it an index, unless the link knows nothing of it. */
  lemma ForceKeeps(env: Env, h: nat, st: State)
    requires Good(env, st) && h < |env.table| && st.entries[h].indx < 0
    ensures var r := Force(env, h, st);
      && (r.Some? ==> Good(env, r.value) && Keeps(st, r.value) && r.value.includes == st.includes)
      && (!IsLink(env.table[h].kind) ==> r.Some?)
      && (!IsLink(env.table[h].kind) && !env.table[h].kind.New? ==> r.value.entries[h].indx == |st.syms|)
  {
    hide Good, Keeps;
    GoodFits(env, st);
    var st1 := st.(entries := st.entries[h := Entry(false, -2)]);
    GoodWritten(env, st, h, Entry(false, -2));
    WriteOtherKeeps(env, h, st1);
    var r := WriteOther(env, h, st1);
    if r.Some? { KeepsTransitive(st, st1, r.value); }
  }

  /** Every reloc's index is that of an output symbol of the right name, unless there is nothing to refer to. */
  lemma RelocIndexRight(env: Env, cell: int, h: Option<nat>, st: State)
    requires Good(env, st) && (h.Some? ==> h.value < |env.table|) && cell < |st.syms|
    ensures var r := RelocIndex(env, cell, h, st);
      && (r.Some? ==> Good(env, r.value.0) && Keeps(st, r.value.0) && r.value.0.includes == st.includes)
      && (h.Some? && !IsLink(env.table[h.value].kind) ==> r.Some?)
      && (h.Some? && !IsLink(env.table[h.value].kind) && cell == -1 && !env.table[h.value].kind.New? ==>
            0 <= r.value.1 < |r.value.0.syms| && r.value.0.syms[r.value.1].name == env.table[h.value].name)
  {
    hide Keeps;
    GoodMore(env, st, [], st.includes);
    assert st.syms + [] == st.syms;
    if cell == -1 && h.Some? {
      assert Slotted(env, st, h.value);
      if st.entries[h.value].indx < 0 {
        ForceKeeps(env, h.value, st);
        var f := Force(env, h.value, st);
        assert f.Some? ==> Slotted(env, f.value, h.value);
      }
    }
  }

  /** What a cell of the symbol map says: no symbol, or an output symbol of this symbol's name. */
  ghost predicate CellRight(env: Env, sym: Nlist, h: Option<nat>, syms: seq<Nlist>, cell: int)
    requires h.Some? ==> h.value < |env.table|
  {
    && cell < |syms|
    && (cell >= 0 ==>
          || syms[cell].name == sym.name
          || (h.Some? && (env.table[h.value].kind.Warning? || syms[cell].name == env.table[h.value].name)))
  }

  lemma SameKeeps(env: Env, st: State)
    requires Good(env, st)
    ensures Keeps(st, st)
  {
  }

  /** The two outcomes that write symbol i. */
  lemma EmitKeeps(env: Env, input: Input, i: nat, w: Walk, h: Option<nat>, name: Name, s: Nlist, header: bool)
    requires Fits(env, input, w) && i < |input.syms| && Good(env, w.st) && (h.Some? ==> h.value < |env.table|)
    requires h.Some? ==>
      w.st.entries[h.value].indx < 0 && (env.table[h.value].kind.Warning? || s.name == env.table[h.value].name)
    requires s.name == OutName(env, input.syms[i], h)
    ensures var w2 := SetEntry(w, h, Entry(true, |w.st.syms|));
      var r := if header then Header(input, i, w2, name, s) else Emit(w2, i, s);
      && Good(env, r.st) && Keeps(w.st, r.st) && CellRight(env, input.syms[i], h, r.st.syms, r.cells[i])
  {
    hide Good, Keeps, Total, Totals, Within;
    var w2 := SetEntry(w, h, Entry(true, |w.st.syms|));
    var r := if header then Header(input, i, w2, name, s) else Emit(w2, i, s);
    var x := r.st.syms[|w.st.syms|];
    assert r.st.syms == w.st.syms + [x] && x.name == s.name;
    if h.Some? {
      GoodEmit(env, w.st, h.value, x, r.st.includes);
      assert r.st == State(w.st.entries[h.value := Entry(true, |w.st.syms|)], w.st.syms + [x], r.st.includes);
    } else {
      GoodMore(env, w.st, [x], r.st.includes);
      assert r.st == State(w.st.entries, w.st.syms + [x], r.st.includes);
    }
  }

  lemma NamedKeeps(env: Env, input: Input, i: nat, w: Walk)
    requires Fits(env, input, w) && i < |input.syms| && Good(env, w.st) && w.cells[i] == -1
    ensures var r := Named(env, input, i, w);
      Good(env, r.st) && Keeps(w.st, r.st) && CellRight(env, input.syms[i], w.hashes[i], r.st.syms, r.cells[i])
  {
    hide Good, Keeps, Header, Emit, Classify, Stripped, Discarded, Resolve, Redirects, KindOf;
    var sym, h := input.syms[i], w.hashes[i];
    SameKeeps(env, w.st);
    if h.Some? && w.st.entries[h.value].written {
      WrittenSlot(env, w.st, h.value);
    } else {
      if h.Some? {
        UnwrittenHasNoIndex(env, w.st, h.value);
        GoodWritten(env, w.st, h.value, w.st.entries[h.value].(written := true));
      }
      var c := Classify(env, input, sym, KindOf(env, h));
      var w1 := w.(hashes := w.hashes[i := Resolved(env, h)], pass := c.pass, skip := c.skip);
      var s := Nlist(c.typ, sym.other, sym.desc, OutName(env, sym, h), c.value);
      EmitKeeps(env, input, i, w1, h, NameOf(env, sym, h), s, c.typ == N_BINCL);
    }
  }

  lemma WrittenSlot(env: Env, st: State, h: nat)
    requires Good(env, st) && h < |env.table|
    ensures Slotted(env, st, h)
  {
  }

  lemma StepKeeps(env: Env, input: Input, i: nat, w: Walk)
    requires Fits(env, input, w) && i < |input.syms| && Good(env, w.st)
    ensures var r := Step(env, input, i, w);
      Good(env, r.st) && Keeps(w.st, r.st) && CellRight(env, input.syms[i], w.hashes[i], r.st.syms, r.cells[i])
  {
    hide Good, Keeps, Named;
    SameKeeps(env, w.st);
    var w1 := w.(cells := w.cells[i := -1]);
    if w.cells[i] != -1 {
      if w.pass {
        GoodMore(env, w.st, [input.syms[i]], w.st.includes);
      } else if !w.skip {
        NamedKeeps(env, input, i, w1);
      }
    }
  }

  /** A step leaves the cells before it, and everyone else's hash pointers, as they are. */
  lemma StepFrame(env: Env, input: Input, i: nat, w: Walk, j: nat)
    requires Fits(env, input, w) && i < |input.syms| && j < |input.syms| && j != i
    ensures var r := Step(env, input, i, w);
      r.hashes[j] == w.hashes[j] && (j < i ==> r.cells[j] == w.cells[j])
  {
    hide Classify, Total, Totals, Stripped, Discarded, OutName, NameOf, Resolve, KindOf, Redirects;
  }

  lemma CellRightLater(env: Env, sym: Nlist, h: Option<nat>, syms: seq<Nlist>, more: seq<Nlist>, cell: int)
    requires (h.Some? ==> h.value < |env.table|) && CellRight(env, sym, h, syms, cell) && syms <= more
    ensures CellRight(env, sym, h, more, cell)
  {
  }

  /** The cells of the first n symbols, against the hash pointers the walk started with. */
  ghost predicate CellsRight(env: Env, input: Input, hashes: seq<Option<nat>>, n: nat, r: Walk)
    requires GoodHashes(env, input, hashes) && n <= |input.syms| == |r.cells|
  {
    forall j :: 0 <= j < n ==> CellRight(env, input.syms[j], hashes[j], r.st.syms, r.cells[j])
  }

  lemma {:induction false} StepsKeep(env: Env, input: Input, n: nat, w: Walk)
    requires Fits(env, input, w) && n <= |input.syms| && Good(env, w.st)
    ensures var r := Steps(env, input, n, w);
      && Good(env, r.st) && Keeps(w.st, r.st) && CellsRight(env, input, w.hashes, n, r)
      && forall j :: n <= j < |input.syms| ==> r.hashes[j] == w.hashes[j]
  {
    hide Good, Keeps, Step, CellRight;
    if n == 0 {
      SameKeeps(env, w.st);
    } else {
      var i := n - 1;
      var m, r := Steps(env, input, i, w), Steps(env, input, n, w);
      StepsKeep(env, input, i, w);
      StepKeeps(env, input, i, m);
      KeepsTransitive(w.st, m.st, r.st);
      forall j | 0 <= j < |input.syms| && j != i
        ensures r.hashes[j] == m.hashes[j]
        ensures j < i ==> CellRight(env, input.syms[j], w.hashes[j], r.st.syms, r.cells[j])
      {
        StepFrame(env, input, i, m, j);
        if j < i {
          KeepsPrefix(m.st, r.st);
          CellRightLater(env, input.syms[j], w.hashes[j], m.st.syms, r.st.syms, r.cells[j]);
        }
      }
    }
  }

  lemma KeepsPrefix(a: State, b: State)
    requires Keeps(a, b)
    ensures a.syms <= b.syms
  {
  }

  /** Writing an input's symbols keeps the table right, and every cell of its symbol map is negative or right. */
  lemma WriteSymbolsKeeps(env: Env, input: Input, hashes: seq<Option<nat>>, st: State)
    requires Good(env, st) && GoodHashes(env, input, hashes)
    ensures var r := WriteSymbols(env, input, hashes, st);
      Good(env, r.st) && Keeps(st, r.st) && CellsRight(env, input, hashes, |input.syms|, r)
  {
    hide Good, Keeps, Steps, CellRight, FileSymbol;
    GoodFits(env, st);
    var w := Start(env, input, hashes, st);
    GoodMore(env, st, FileSymbol(env, input), st.includes);
    assert w.st == State(st.entries, st.syms + FileSymbol(env, input), st.includes);
    StepsKeep(env, input, |input.syms|, w);
    KeepsTransitive(st, w.st, WriteSymbols(env, input, hashes, st).st);
  }

  // Whole runs ------------------------------------------------------------------------------------

  /** What a final link does to the symbol table, in whatever order. */
  datatype Action = Symbols(input: Input, hashes: seq<Option<nat>>) | Other(h: nat) | Reloc(h: nat)

  ghost predicate GoodAction(env: Env, a: Action) {
    match a
    case Symbols(input, hashes) => GoodHashes(env, input, hashes)
    case Other(h) => h < |env.table|
    case Reloc(h) => h < |env.table|
  }

  function Act(env: Env, a: Action, st: State): (r: Option<State>)
    requires GoodEnv(env) && GoodAction(env, a) && |st.entries| == |env.table|
    ensures r.Some? ==> |r.value.entries| == |env.table|
  {
    match a
    case Symbols(input, hashes) => Some(WriteSymbols(env, input, hashes, st).st)
    case Other(h) => WriteOther(env, h, st)
    case Reloc(h) =>
      var r := RelocIndex(env, -1, Some(h), st);
      if r.None? then None else Some(r.value.0)
  }

  /** The first n actions; None if one of them aborts. */
  function Run(env: Env, as_: seq<Action>, n: nat, st: State): (r: Option<State>)
    requires GoodEnv(env) && n <= |as_| && (forall a :: a in as_ ==> GoodAction(env, a)) && |st.entries| == |env.table|
    ensures r.Some? ==> |r.value.entries| == |env.table|
  {
    if n == 0 then Some(st)
    else
      var r := Run(env, as_, n - 1, st);
      if r.None? then None else Act(env, as_[n - 1], r.value)
  }

  lemma ActKeeps(env: Env, a: Action, st: State)
    requires Good(env, st) && GoodAction(env, a)
    ensures var r := Act(env, a, st);
      r.Some? ==> Good(env, r.value) && Keeps(st, r.value)
  {
    hide Good, Keeps, WriteSymbols, WriteOther, RelocIndex;
    GoodFits(env, st);
    match a
    case Symbols(input, hashes) => WriteSymbolsKeeps(env, input, hashes, st);
    case Other(h) => WriteOtherKeeps(env, h, st);
    case Reloc(h) => RelocIndexRight(env, -1, Some(h), st);
  }

  /** Between any two steps of any run, the table is right; from any step on, no index changes. */
  lemma {:induction false} RunKeeps(env: Env, as_: seq<Action>, m: nat, n: nat, st: State)
    requires Good(env, st) && m <= n <= |as_| && forall a :: a in as_ ==> GoodAction(env, a)
    ensures var p, r := Run(env, as_, m, st), Run(env, as_, n, st);
      && (r.Some? ==> p.Some? && Good(env, p.value) && Good(env, r.value) && Keeps(p.value, r.value))
    decreases n
  {
    hide Good, Keeps, Act;
    GoodFits(env, st);
    var r := Run(env, as_, n, st);
    if r.Some? {
      if n == 0 {
        SameKeeps(env, st);
      } else if m < n {
        var q := Run(env, as_, n - 1, st);
        RunKeeps(env, as_, m, n - 1, st);
        ActKeeps(env, as_[n - 1], q.value);
        KeepsTransitive(Run(env, as_, m, st).value, q.value, r.value);
      } else {
        RunKeeps(env, as_, n - 1, n - 1, st);
        ActKeeps(env, as_[n - 1], Run(env, as_, n - 1, st).value);
        SameKeeps(env, r.value);
      }
    }
  }

  /** A defined symbol's type names its section, except that N_EXT turns a weak data or absolute one into another's. */
  lemma OtherTypeRightIff(env: Env, h: Hash)
    requires h.kind.Def?
    ensures OtherSymbol(env, h).Some?
    ensures SectionOf(OtherSymbol(env, h).value.typ) == Some(h.kind.place.out) <==>
      !(h.kind.weak && (h.kind.place.out == Data || h.kind.place.out == Abs))
  {
    assert OrType(1, N_WEAKD) == N_WEAKB && OrType(1, N_WEAKA) == N_WEAKT;
  }

  /** A weak symbol in the data section is written with the type of one in the bss. */
  lemma WeakDataMistyped(env: Env, name: Name)
    ensures var s := OtherSymbol(env, Hash(name, Def(true, 0, Place(Data, 0))));
      s.Some? && s.value.typ == N_WEAKB && SectionOf(s.value.typ) == Some(Bss)
  {
    assert OrType(1, N_WEAKD) == N_WEAKB;
  }
}
