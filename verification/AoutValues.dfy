/** The values and types of the symbols an a.out link writes, and the relocs against them (bfd/aoutx.h). */
module AoutValues {
  import opened Bytes
  import opened AoutReloc
  import opened Words
  import opened AoutStabs
  import opened AoutSymbols
  import opened AoutFate

  /** The addresses at which the link puts its output sections. */
  ghost predicate Agrees(env: Env, l: Link) { forall k :: env.outVma(k) == l.outVma(k) }

  /** A plain word against a symbol, without an addend. */
  function WordFor(address: nat, index: nat): AoutReloc.Reloc { AoutReloc.Reloc.Reloc(address, index, true,
      Howto(false, false), 0) }

  /**
   * Symbol x, written for a definition in section k of an input, has the address that a final link with the same
   * placement stores for a word against it, and is as far from any section symbol of that section as it was in the
   * input.
   */
  ghost predicate Addressed(l: Link, value: int, place: Place, x: Nlist) {
    && x.value == SymbolVma(l, Defined(value, place))
    && (forall sec, at, i :: Final(l, sec, WordFor(at, i), Defined(value, place)) == Some(U32(x.value)))
    && forall input: Input, k, s: Nlist {:trigger Moved(input, s, k)} ::
         input.link == l && l.place(k) == place ==> x.value - Moved(input, s, k) == (value + l.inVma(k)) - s.value
  }

  /** The value of a symbol whose entry is of this kind: an address, a size, or zero. */
  ghost predicate Valued(l: Link, kind: HashKind, x: Nlist) {
    match kind
    case Def(_, value, place) => Addressed(l, value, place, x)
    case Common(size) => x.value == size
    case Undef => x.value == 0
    case WeakUndef => x.value == 0 && x.typ == N_WEAKU
    case _ => true
  }

  lemma DefIsAddressed(env: Env, l: Link, weak: bool, value: int, place: Place, x: Nlist)
    requires Agrees(env, l) && x.value == DefVma(env, Def(weak, value, place))
    ensures Addressed(l, value, place, x)
  {
    hide U32, S32;
    S32OfZero();
  }

  // Symbols that no input wrote ------------------------------------------------------------------------

  /** Whether aout_link_write_other_symbol writes a symbol, and which. */
  lemma OtherWritten(env: Env, l: Link, h: nat, st: State)
    requires GoodEnv(env) && h < |env.table| == |st.entries| && WriteOther(env, h, st).Some? && Agrees(env, l)
    ensures var t := if env.table[h].kind.Warning? then env.table[h].kind.link else h;
      var hash, e, syms := env.table[t], st.entries[t], WriteOther(env, h, st).value.syms;
      var stripped := env.strip == StripAll || (env.strip == StripSome && hash.name !in env.keep);
      if !e.written && (e.indx == -2 || !stripped) && (hash.kind.Undef? || hash.kind.Def? || hash.kind.Common?
        || hash.kind.WeakUndef?) then
        && |syms| == |st.syms| + 1 && syms[..|st.syms|] == st.syms
        && var x := syms[|st.syms|];
          && x.name == hash.name && x.other == x.desc == 0 && Valued(l, hash.kind, x)
          && (hash.kind.Undef? || hash.kind.Common? ==> x.typ == N_EXT)
      else syms == st.syms
  {
    hide DefVma, Addressed;
    var t := if env.table[h].kind.Warning? then env.table[h].kind.link else h;
    var hash, s := env.table[t], OtherSymbol(env, env.table[t]);
    if hash.kind.Def? {
      DefIsAddressed(env, l, hash.kind.weak, hash.kind.value, hash.kind.place, s.value);
    }
  }

  // Symbols of an input ----------------------------------------------------------------------------------

  /** Where in the output the symbol written for symbol i is. */
  ghost function Slot(f: File, syms: seq<Nlist>, i: nat): nat
    requires GoodFile(f) && i <= f.Count()
  {
    |syms| + |FileSymbol(f.env, f.input)| + |Written(f, i)|
  }

  lemma {:induction false} WrittenGrows(f: File, i: nat, n: nat)
    requires GoodFile(f) && i < n <= f.Count() && Emits(f, i)
    ensures |Written(f, i)| < |Written(f, n)| && Written(f, n)[|Written(f, i)|] == Output(f, i)
  {
    hide Emits, Output;
    if i + 1 < n { WrittenGrows(f, i, n - 1); }
  }

  lemma OutputAt(env: Env, input: Input, hashes: seq<Option<nat>>, st: State, i: nat)
    requires var f := FileOf(env, input, hashes, st);
      GoodFile(f) && i < f.Count() && Emits(f, i)
    ensures var f, syms := FileOf(env, input, hashes, st), WriteSymbols(env, input, hashes, st).st.syms;
      Slot(f, st.syms, i) < |syms| && syms[Slot(f, st.syms, i)] == Output(f, i)
  {
    hide WriteSymbols, Emits, Output, FileSymbol, Written;
    var f := FileOf(env, input, hashes, st);
    WritesAsTold(env, input, hashes, st);
    WrittenGrows(f, i, f.Count());
  }

  /** A global symbol of no section of its own type, that is not passed on as an indirect or a warning one. */
  ghost predicate TakesFromTable(f: File, i: nat)
    requires GoodFile(f) && i < f.Count()
  {
    && f.hashes[i].Some? && SectionOf(f.Syms()[i].typ).None? && !IsStab(f.Syms()[i].typ)
    && Alone(f, i) && !WrittenBefore(f, i) && Copies(f, i) && !ClassOf(f, i).pass
  }

  /** N_EXT is set in an input's type, or will be: set elements that are defined become visible. */
  predicate Visible(t: nat) { t % 2 == 1 || t == N_SETA || t == N_SETT || t == N_SETD || t == N_SETB }

  /** The type written for a definition: right unless a weak data or absolute one has N_EXT set. */
  ghost predicate TypedRight(kind: HashKind, t: nat, x: Nlist) {
    kind.Def? ==>
      && (SectionOf(x.typ) == Some(kind.place.out) <==>
            !(kind.weak && (kind.place.out == Data || kind.place.out == Abs) && Visible(t)))
      && (!kind.weak ==> (x.typ % 2 == 1 <==> Visible(t)))
  }

  /** A global symbol gets its value and type from its base symbol in the hash table. */
  lemma GlobalWritten(env: Env, input: Input, hashes: seq<Option<nat>>, st: State, i: nat)
    requires var f := FileOf(env, input, hashes, st);
      GoodFile(f) && i < f.Count() && TakesFromTable(f, i) && Agrees(env, input.link)
    ensures var f, syms := FileOf(env, input, hashes, st), WriteSymbols(env, input, hashes, st).st.syms;
      var kind := env.table[Resolve(env, hashes[i].value)].kind;
      && Slot(f, st.syms, i) < |syms|
      && var x := syms[Slot(f, st.syms, i)];
        Valued(input.link, kind, x) && TypedRight(kind, input.syms[i].typ, x)
        && (kind.Common? || kind.Undef? ==> x.typ == input.syms[i].typ)
  {
    hide WriteSymbols, Alone, WrittenBefore, Passed, Output, Slot, Addressed, DefVma, Copies, Valued, TypedRight,
      Resolve;
    var f := FileOf(env, input, hashes, st);
    AloneFacts(f, i);
    OutputAlone(f, i);
    EmitsAlone(f, i);
    OutputAt(env, input, hashes, st, i);
    TableGives(f, i);
  }

  lemma EmitsAlone(f: File, i: nat)
    requires GoodFile(f) && i < f.Count() && Alone(f, i) && !WrittenBefore(f, i) && Copies(f, i)
    ensures Emits(f, i)
  {
    hide Alone, WrittenBefore, Copies, Passed;
  }

  /** What Classify takes from the table. */
  lemma TableGives(f: File, i: nat)
    requires GoodFile(f) && i < f.Count() && TakesFromTable(f, i) && Agrees(f.env, f.input.link)
    ensures var kind, t, c := f.env.table[Resolve(f.env, f.hashes[i].value)].kind, f.Syms()[i].typ, ClassOf(f, i);
      && c.typ != N_BINCL && t != N_BINCL
      && forall x: Nlist :: x.typ == c.typ && x.value == c.value ==>
           Valued(f.input.link, kind, x) && TypedRight(kind, t, x) && (kind.Common? || kind.Undef? ==> x.typ == t)
  {
    hide Alone, WrittenBefore, Copies, Addressed, DefVma, Resolve, SectionOf, TypeBits, OrType, TypeFor;
    var kind, t, c := f.env.table[Resolve(f.env, f.hashes[i].value)].kind, f.Syms()[i].typ, ClassOf(f, i);
    BinclIsStab();
    ClassFacts(f, i);
    if kind.Def? {
      var v := SetVisible(t);
      CopiedType(t, kind.place.out, kind.weak);
      assert c.typ == OrType(v - TypeBits(v), TypeFor(kind.place.out, kind.weak));
      forall x: Nlist | x.typ == c.typ && x.value == c.value
        ensures Addressed(f.input.link, kind.value, kind.place, x)
      {
        DefIsAddressed(f.env, f.input.link, kind.weak, kind.value, kind.place, x);
      }
    }
  }

  /** The section of a set element, told by its type with or without N_EXT. */
  function SetKind(t: nat): Option<SecKind> {
    if t == N_SETT || t == N_SETT + N_EXT then Some(Text)
    else if t == N_SETD || t == N_SETD + N_EXT then Some(Data)
    else if t == N_SETB || t == N_SETB + N_EXT then Some(Bss)
    else if t == N_SETA || t == N_SETA + N_EXT then Some(Abs)
    else None
  }

  /** A local symbol of no section of its own: a set element moves with its section, any other is written as zero. */
  lemma LocalWritten(env: Env, input: Input, hashes: seq<Option<nat>>, st: State, i: nat)
    requires var f := FileOf(env, input, hashes, st);
      GoodFile(f) && i < f.Count() && f.hashes[i].None? && Alone(f, i) && Copies(f, i)
    requires SectionOf(input.syms[i].typ).None? && !IsStab(input.syms[i].typ) && !Redirects(input.syms[i].typ)
    ensures var f, syms := FileOf(env, input, hashes, st), WriteSymbols(env, input, hashes, st).st.syms;
      var s := input.syms[i];
      && Slot(f, st.syms, i) < |syms|
      && syms[Slot(f, st.syms, i)] ==
           s.(value := if SetKind(s.typ).Some? then Moved(input, s, SetKind(s.typ).value) else 0)
  {
    hide WriteSymbols, Alone, WrittenBefore, Passed, Output, Slot, Copies, SectionOf;
    var f := FileOf(env, input, hashes, st);
    AloneFacts(f, i);
    OutputAlone(f, i);
    LocalNotWritten(f, i);
    EmitsAlone(f, i);
    OutputAt(env, input, hashes, st, i);
    BinclIsStab();
    SetKindIs(input.syms[i].typ);
  }

  lemma SetKindIs(t: nat)
    requires t < 256 && !IsStab(t)
    ensures SetKind(t) == SetSection(t)
  {
  }

  lemma BinclIsStab()
    ensures IsStab(N_BINCL)
  {
  }

  lemma CopiedType(t: nat, out: SecKind, weak: bool)
    requires t < 256 && !IsStab(t)
    ensures var v := SetVisible(t);
      v >= TypeBits(v) && var typ := OrType(v - TypeBits(v), TypeFor(out, weak));
      && (SectionOf(typ) == Some(out) <==> !(weak && (out == Data || out == Abs) && Visible(t)))
      && (!weak ==> (typ % 2 == 1 <==> Visible(t)))
  {
    var v := SetVisible(t);
    assert v < 32;
    assert v - TypeBits(v) == v % 2;
  }

  // What stripping and discarding leave -------------------------------------------------------------------

  /** A symbol handled for itself, and not written yet, is written exactly if it is neither stripped nor discarded. */
  lemma WrittenIff(f: File, i: nat)
    requires GoodFile(f) && i < f.Count() && Alone(f, i) && !WrittenBefore(f, i)
    ensures var env, sym, name := f.env, f.Syms()[i], NameOf(f.env, f.Syms()[i], f.hashes[i]);
      var t := ClassOf(f, i).typ;
      Emits(f, i) <==>
        && env.strip != StripAll
        && (env.strip == StripDebugger ==> !IsStab(sym.typ))
        && (env.strip == StripSome ==> name in env.keep)
        && (f.hashes[i].None? && SetSection(t).None? ==>
              && env.discard != DiscardAll
              && (env.discard == DiscardL && !IsStab(t) ==> !f.input.localLabel(name)))
  {
    hide Alone, WrittenBefore, Passed, ClassOf, IsStab, SetSection;
    AloneFacts(f, i);
  }

  /** When everything is stripped, an input adds nothing to the output. */
  lemma {:induction false} AllStripped(f: File, n: nat)
    requires GoodFile(f) && n <= f.Count() && f.env.strip == StripAll
    ensures Written(f, n) == [] && FileSymbol(f.env, f.input) == []
  {
    hide Alone, WrittenBefore, ClassOf;
    if n > 0 { AllStripped(f, n - 1); }
  }

  /** The symbol that names an object file stands where the file's text begins. */
  lemma FileSymbolIs(env: Env, input: Input)
    ensures FileSymbol(env, input) != [] <==>
      env.discard != DiscardAll && env.strip != StripAll && (env.strip == StripSome ==> input.file in env.keep)
    ensures FileSymbol(env, input) != [] ==>
      var x := FileSymbol(env, input)[0];
      && FileSymbol(env, input) == [x] && x.name == input.file && SectionOf(x.typ) == Some(Text) && x.typ % 2 == 0
      && x.other == x.desc == 0
      && forall s: Nlist :: s.value == input.link.inVma(Text) ==> x.value == Moved(input, s, Text)
  {
  }

  // Relocs against symbols that stay undefined --------------------------------------------------------------

  /**
   * A reloc against a symbol that the partial link leaves undefined, with the index that link gives it: the final link,
   * which knows the output's symbols by name, treats it as the direct link treats one against a symbol of that name,
   * exactly unless it is pc-relative from a section that changed its address.
   */
  lemma UndefinedByName(env: Env, h: nat, st: State, l1: Link, l2: Link, sec: SecKind, r: AoutReloc.Reloc, t: Tables,
                        named: Name -> Symbol)
    requires Good(env, st) && h < |env.table| && (env.table[h].kind.Undef? || env.table[h].kind.WeakUndef?)
    requires Follows(l1, l2) && r.extern && |t.symbols| == |t.symbolMap| && r.index < |t.symbols|
    requires !t.symbols[r.index].Defined?
    requires var i := RelocIndex(env, -1, Some(h), st);
      i.Some? ==>
        && t.symbolMap[r.index] == i.value.1 && |t.later| == |i.value.0.syms|
        && forall j :: 0 <= j < |t.later| ==> t.later[j] == named(i.value.0.syms[j].name)
    ensures RelocIndex(env, -1, Some(h), st).Some? && Covers(t, r)
    ensures Staged(l1, l2, sec, r, t) == Final(Direct(l1, l2), sec, r, named(env.table[h].name)) <==>
      (r.howto.pcRelative && !r.howto.pcrelOffset ==> U32(l1.outVma(l1.place(sec).out) - l1.inVma(sec)) == 0)
  {
    hide RelocIndex, Good, U32, Staged, Follows, Final, Resolve;
    IndexIsRight(env, h, st);
    UndefinedRelocPreservedIff(l1, l2, sec, r, t);
  }

  lemma IndexIsRight(env: Env, h: nat, st: State)
    requires Good(env, st) && h < |env.table| && (env.table[h].kind.Undef? || env.table[h].kind.WeakUndef?)
    ensures var i := RelocIndex(env, -1, Some(h), st);
      i.Some? && 0 <= i.value.1 < |i.value.0.syms| && i.value.0.syms[i.value.1].name == env.table[h].name
  {
    hide RelocIndex, Keeps;
    RelocIndexRight(env, -1, Some(h), st);
  }
}
