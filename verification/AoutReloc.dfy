/** Extended a.out relocs in a relocatable and in a final link (aout_link_input_section_ext, bfd/aoutx.h). */
module AoutReloc {
  import opened Bytes
  import opened Words

  datatype SecKind = Text | Data | Bss | Abs

  /** Where a section goes: the output section it joins, and its offset there. */
  datatype Place = Place(out: SecKind, offset: int)

  /** One input file's part in a link. */
  datatype Link = Link(inVma: SecKind -> int, place: SecKind -> Place, outVma: SecKind -> int)

  /** The absolute section stays where it is. */
  predicate ValidLink(l: Link) { l.inVma(Abs) == 0 && l.place(Abs) == Place(Abs, 0) && l.outVma(Abs) == 0 }

  function NewVma(l: Link, k: SecKind): int { l.outVma(l.place(k).out) + l.place(k).offset }

  /** How far a section moves. */
  function Move(l: Link, k: SecKind): int { NewVma(l, k) - l.inVma(k) }

  /** A link hash entry: its definition in this link, or none. */
  datatype Symbol = Undefined | UndefWeak | Defined(value: int, place: Place)

  datatype Howto = Howto(pcRelative: bool, pcrelOffset: bool)

  /** The stored words are modulo 2^32, and read back sign-extended. */
  datatype Reloc = Reloc(address: nat, index: nat, extern: bool, howto: Howto, addend: nat)

  /** N_TEXT, N_DATA, N_BSS and N_ABS. */
  function Index(k: SecKind): nat { match k case Text => 4 case Data => 6 case Bss => 8 case Abs => 2 }

  /** aout_reloc_index_to_section on index & N_TYPE; None where it aborts. */
  function IndexToSection(index: nat): Option<SecKind> {
    match index / 2 % 16 * 2
    case 4 => Some(Text)
    case 6 => Some(Data)
    case 8 => Some(Bss)
    case 2 => Some(Abs)
    case 0 => Some(Abs)
    case _ => None
  }

  lemma IndexBack(k: SecKind)
    ensures IndexToSection(Index(k)) == Some(k) && Index(k) / 2 % 16 * 2 == Index(k)
  {
  }

  /** The type bits of an index name its section; N_UNDF stands for the absolute one. */
  lemma IndexNames(index: nat, k: SecKind)
    ensures IndexToSection(index) == Some(k) <==>
      index / 2 % 16 * 2 == Index(k) || (k == Abs && index / 2 % 16 * 2 == 0)
  {
  }

  function SymbolVma(l: Link, s: Symbol): int {
    if s.Defined? then s.value + l.outVma(s.place.out) + s.place.offset else 0
  }

  /** The place of the reloc is counted in: only for a pc-relative reloc without pcrel_offset. */
  function SourceMove(l: Link, sec: SecKind, h: Howto): int {
    if h.pcRelative && !h.pcrelOffset then Move(l, sec) else 0
  }

  function Adjusted(l: Link, sec: SecKind, r: Reloc, index: nat, extern: bool, relocation: int): Reloc {
    Reloc(U32(S32(r.address) + l.place(sec).offset), index, extern, r.howto,
          U32(S32(r.addend) + relocation - SourceMove(l, sec, r.howto)))
  }

  /**
   * A relocatable link's new reloc, for a reloc in section `sec`; None where the source aborts.
   * `sym` is what an external reloc refers to, and `newIndex` its index in the output's symbol table.
   */
  function Rewrite(l: Link, sec: SecKind, r: Reloc, sym: Symbol, newIndex: nat): Option<Reloc> {
    if r.extern then
      if sym.Defined? then Some(Adjusted(l, sec, r, Index(sym.place.out), false, SymbolVma(l, sym)))
      else Some(Adjusted(l, sec, r, newIndex, true, 0))
    else
      var d := IndexToSection(r.index);
      if d.None? then None else Some(Adjusted(l, sec, r, r.index, false, Move(l, d.value)))
  }

  /** What a final link stores for a reloc: _bfd_final_link_relocate, modulo 2^32. */
  function Final(l: Link, sec: SecKind, r: Reloc, sym: Symbol): Option<nat> {
    if r.extern then Some(FinalWord(l, sec, r, SymbolVma(l, sym)))
    else
      var d := IndexToSection(r.index);
      if d.None? then None
      else Some(FinalWord(l, sec, r, Move(l, d.value) + if r.howto.pcRelative then l.inVma(sec) else 0))
  }

  function FinalWord(l: Link, sec: SecKind, r: Reloc, value: int): nat {
    U32(value + S32(r.addend) - Pc(l, sec, r))
  }

  /** What is subtracted for a pc-relative reloc. */
  function Pc(l: Link, sec: SecKind, r: Reloc): int {
    if !r.howto.pcRelative then 0
    else NewVma(l, sec) + if r.howto.pcrelOffset then S32(r.address) else 0
  }

  /** The address of the relocated word in the output. */
  function WordAddress(l: Link, sec: SecKind, r: Reloc): int { NewVma(l, sec) + S32(r.address) }

  /**
   * For an external reloc, the symbol's address and the addend, less the address of the section if it is pc-relative,
   * and of the word itself with pcrel_offset.
   */
  lemma FinalStores(l: Link, sec: SecKind, r: Reloc, sym: Symbol)
    requires r.extern
    ensures var target := SymbolVma(l, sym) + S32(r.addend);
      Final(l, sec, r, sym) == Some(U32(
        if !r.howto.pcRelative then target
        else if r.howto.pcrelOffset then target - WordAddress(l, sec, r)
        else target - NewVma(l, sec)))
  {
  }

  /**
   * A section reloc means what an external one against a symbol at `value` in that section does, if its addend is the
   * symbol's address in the input, counted from the reloc's own section if it is pc-relative.
   */
  lemma SectionRelocMeans(l: Link, sec: SecKind, r: Reloc, value: int)
    requires !r.extern && IndexToSection(r.index).Some?
    ensures var d := IndexToSection(r.index).value;
      S32(r.addend) == value + l.inVma(d) - (if r.howto.pcRelative then l.inVma(sec) else 0) ==>
        Final(l, sec, r, Undefined) ==
          Final(l, sec, Reloc(r.address, 0, true, r.howto, 0), Defined(value, l.place(d)))
  {
    hide U32, S32, IndexToSection;
    S32OfZero();
  }

  // The rewriting loop ----------------------------------------------------------------

  /** The relocatable half of the loop: relocs are rewritten in place; false if some section index is unknown. */
  method RewriteRelocs(rels: array<Reloc>, l: Link, sec: SecKind, symbols: seq<Symbol>,
      symbolMap: seq<nat>) returns (ok: bool)
    requires |symbols| == |symbolMap| && forall i :: 0 <= i < rels.Length && rels[i].extern ==>
      rels[i].index < |symbols|
    modifies rels
    ensures ok <==> forall i :: 0 <= i < rels.Length ==> Rewritten(l, sec, old(rels[i]), symbols, symbolMap).Some?
    ensures ok ==> forall i :: 0 <= i < rels.Length ==>
      Rewritten(l, sec, old(rels[i]), symbols, symbolMap) == Some(rels[i])
    ensures ok ==> forall i :: 0 <= i < rels.Length ==>
      Pointed(l, sec, old(rels[i]), rels[i], symbols, symbolMap)
  {
    hide U32, S32, Pointed;
    ghost var was := rels[..];
    var n := 0;
    while n < rels.Length
      invariant n <= rels.Length
      invariant forall i :: n <= i < rels.Length ==> rels[i] == was[i]
      invariant forall i :: 0 <= i < n ==> Rewritten(l, sec, was[i], symbols, symbolMap) == Some(rels[i])
    {
      var r := rels[n];
      var index, extern, relocation := r.index, r.extern, 0;
      if r.extern {
        var h := symbols[r.index];
        if h.Defined? {
          extern := false;
          index := Index(h.place.out);
          relocation := h.value + l.outVma(h.place.out) + h.place.offset;
        } else {
          index := symbolMap[r.index];
        }
      } else {
        var d := IndexToSection(r.index);
        if d.None? { return false; }
        relocation := l.outVma(l.place(d.value).out) + l.place(d.value).offset - l.inVma(d.value);
      }
      if r.howto.pcRelative && !r.howto.pcrelOffset {
        relocation := relocation - (l.outVma(l.place(sec).out) + l.place(sec).offset - l.inVma(sec));
      }
      rels[n] := Reloc(U32(S32(r.address) + l.place(sec).offset), index, extern, r.howto,
        U32(S32(r.addend) + relocation));
      n := n + 1;
    }
    forall i | 0 <= i < rels.Length ensures Pointed(l, sec, was[i], rels[i], symbols, symbolMap) {
      RewrittenPoints(l, sec, was[i], rels[i], symbols, symbolMap);
    }
    ok := true;
  }

  lemma RewrittenPoints(l: Link, sec: SecKind, r: Reloc, r1: Reloc, symbols: seq<Symbol>, symbolMap: seq<nat>)
    requires |symbols| == |symbolMap| && (r.extern ==> r.index < |symbols|)
    requires Rewritten(l, sec, r, symbols, symbolMap) == Some(r1)
    ensures Pointed(l, sec, r, r1, symbols, symbolMap)
  {
    hide U32, S32, IndexToSection, Index;
    if r.extern && symbols[r.index].Defined? { IndexBack(symbols[r.index].place.out); }
  }

  /** Where a rewritten reloc is, and what it refers to. */
  ghost predicate Pointed(l: Link, sec: SecKind, r: Reloc, r1: Reloc, symbols: seq<Symbol>, symbolMap: seq<nat>)
    requires |symbols| == |symbolMap| && (r.extern ==> r.index < |symbols|)
  {
    && r1.address == U32(S32(r.address) + l.place(sec).offset)
    && if !r.extern then !r1.extern && r1.index == r.index
       else if symbols[r.index].Defined? then
         !r1.extern && IndexToSection(r1.index) == Some(symbols[r.index].place.out)
       else r1.extern && r1.index == symbolMap[r.index]
  }

  /** What an external reloc refers to is looked up by its index. */
  function Rewritten(l: Link, sec: SecKind, r: Reloc, symbols: seq<Symbol>, symbolMap: seq<nat>): Option<Reloc>
    requires |symbols| == |symbolMap| && (r.extern ==> r.index < |symbols|)
  {
    if r.extern then Rewrite(l, sec, r, symbols[r.index], symbolMap[r.index]) else Rewrite(l, sec, r, Undefined, 0)
  }

  // Partial links preserve meaning ----------------------------------------------------

  /** The second link takes the first one's output as its input. */
  ghost predicate Follows(l1: Link, l2: Link) {
    ValidLink(l1) && ValidLink(l2) && forall k :: l2.inVma(k) == l1.outVma(k)
  }

  function Onward(l2: Link, p: Place): Place { Place(l2.place(p.out).out, p.offset + l2.place(p.out).offset) }

  /** One direct link with the offsets summed. */
  function Direct(l1: Link, l2: Link): Link { Link(l1.inVma, k => Onward(l2, l1.place(k)), l2.outVma) }

  function DirectSymbol(l2: Link, s: Symbol): Symbol { if s.Defined? then Defined(s.value, Onward(l2, s.place)) else s }

  /**
   * What the external relocs of an input refer to: its symbols in the partial link, their indices in the output, and
   * the output's symbols in the final link.
   */
  datatype Tables = Tables(symbols: seq<Symbol>, symbolMap: seq<nat>, later: seq<Symbol>)

  predicate Covers(t: Tables, r: Reloc) {
    && |t.symbols| == |t.symbolMap|
    && (r.extern ==> r.index < |t.symbols| && (!t.symbols[r.index].Defined? ==> t.symbolMap[r.index] < |t.later|))
  }

  /** A partial link and then a final one, which looks the symbol up by the index the partial one has written. */
  function Staged(l1: Link, l2: Link, sec: SecKind, r: Reloc, t: Tables): Option<nat>
    requires Covers(t, r)
  {
    var r1 := Rewritten(l1, sec, r, t.symbols, t.symbolMap);
    if r1.None? || (r1.value.extern && r1.value.index >= |t.later|) then None
    else Final(l2, l1.place(sec).out, r1.value, if r1.value.extern then t.later[r1.value.index] else Undefined)
  }

  /** The direct link, in which the symbol is defined by this input, or is what the output's symbol for it is. */
  function Once(l1: Link, l2: Link, sec: SecKind, r: Reloc, t: Tables): Option<nat>
    requires Covers(t, r)
  {
    var sym :=
      if !r.extern then Undefined
      else if t.symbols[r.index].Defined? then DirectSymbol(l2, t.symbols[r.index])
      else t.later[t.symbolMap[r.index]];
    Final(Direct(l1, l2), sec, r, sym)
  }

  /** Where in its output section the relocated word is. */
  function Spot(l: Link, sec: SecKind, r: Reloc): nat { U32(S32(r.address) + l.place(sec).offset) }

  /** Both ways relocate the same word, in the same way. */
  lemma SpotPreserved(l1: Link, l2: Link, sec: SecKind, r: Reloc, t: Tables)
    requires Covers(t, r)
    ensures var r1 := Rewritten(l1, sec, r, t.symbols, t.symbolMap);
      r1.Some? ==>
        && Spot(l2, l1.place(sec).out, r1.value) == Spot(Direct(l1, l2), sec, r) && r1.value.howto == r.howto
        && Direct(l1, l2).place(sec).out == l2.place(l1.place(sec).out).out
  {
    hide U32, S32, IndexToSection, Index;
    U32OfStored(l2.place(l1.place(sec).out).offset, S32(r.address) + l1.place(sec).offset);
  }

  /** A stored sum, used in another, may as well not have been stored. */
  lemma FinalOfAdjusted(l1: Link, l2: Link, sec: SecKind, r: Reloc, index: nat, extern: bool, relocation: int,
      value: int)
    requires Follows(l1, l2)
    ensures var out := l1.place(sec).out;
      FinalWord(l2, out, Adjusted(l1, sec, r, index, extern, relocation), value)
      == U32(value + S32(r.addend) + relocation - SourceMove(l1, sec, r.howto) - Pc(Direct(l1, l2), sec, r)
             + if r.howto.pcRelative && !r.howto.pcrelOffset then l1.place(sec).offset else 0)
  {
    hide U32, S32;
    var out, r1 := l1.place(sec).out, Adjusted(l1, sec, r, index, extern, relocation);
    var add := S32(r.addend) + relocation - SourceMove(l1, sec, r.howto);
    var addr := S32(r.address) + l1.place(sec).offset;
    if r.howto.pcRelative && r.howto.pcrelOffset {
      U32OfStored(value - NewVma(l2, out) - S32(U32(addr)), add);
      U32Sub(value - NewVma(l2, out) + add, addr);
    } else {
      U32OfStored(value - Pc(l2, out, r1), add);
    }
  }

  lemma U32Sub(a: int, b: int)
    ensures U32(a - S32(U32(b))) == U32(a - b)
  {
    hide U32, S32;
    U32Equal(a - S32(U32(b)), a - b);
    U32OfStored(-b, b);
    U32Negated(b - S32(U32(b)));
    assert -b + S32(U32(b)) == -(b - S32(U32(b)));
    assert U32(0) == 0 by { U32Small(0); }
  }

  lemma U32Negated(x: int)
    ensures U32(x) == 0 <==> U32(-x) == 0
  {
    hide U32;
    U32Equal(0, x);
    U32Equal(x, 0);
    U32Small(0);
  }

  /** Both ways of linking give words that differ by d exactly when d is not zero as a word. */
  lemma SameIff(a: int, b: int, d: int)
    requires a == b + d
    ensures U32(a) == U32(b) <==> U32(d) == 0
  {
    U32Equal(a, b);
  }

  /** How much further a link moves section d than section out, of which d's contents have become part. */
  function Astray(l: Link, d: SecKind, out: SecKind): int { Move(l, d) - Move(l, out) }

  /** What a pc-relative reloc with pcrel_offset misses if its section gets another address. */
  function Slip(l1: Link, sec: SecKind, h: Howto): int {
    if h.pcRelative && h.pcrelOffset then l1.outVma(l1.place(sec).out) - l1.inVma(sec) else 0
  }

  /**
   * Relocs against a section: the rewritten reloc keeps its section index, so a partial link changes nothing exactly if
   * the final link moves that section as far as the one its contents went to, and the reloc does not slip.
   */
  lemma SectionRelocPreservedIff(l1: Link, l2: Link, sec: SecKind, r: Reloc, t: Tables)
    requires Follows(l1, l2) && Covers(t, r) && !r.extern && IndexToSection(r.index).Some?
    ensures var d := IndexToSection(r.index).value;
      Staged(l1, l2, sec, r, t) == Once(l1, l2, sec, r, t) <==>
      U32(Astray(l2, d, l1.place(d).out) + Slip(l1, sec, r.howto)) == 0
  {
    hide U32, S32;
    var d, out := IndexToSection(r.index).value, l1.place(sec).out;
    var later := Move(l2, d) + if r.howto.pcRelative then l2.inVma(out) else 0;
    var once := Move(Direct(l1, l2), d) + if r.howto.pcRelative then l1.inVma(sec) else 0;
    FinalOfAdjusted(l1, l2, sec, r, r.index, false, Move(l1, d), later);
    var diff := Astray(l2, d, l1.place(d).out) + Slip(l1, sec, r.howto);
    var b := once + S32(r.addend) - Pc(Direct(l1, l2), sec, r);
    SameIff(b + diff, b, diff);
  }

  /** If the section keeps its kind, only the slip of a pc-relative reloc with pcrel_offset can change the value. */
  lemma SameKindPreservedIff(l1: Link, l2: Link, sec: SecKind, r: Reloc, t: Tables)
    requires Follows(l1, l2) && Covers(t, r) && !r.extern && IndexToSection(r.index).Some?
    requires l1.place(IndexToSection(r.index).value).out == IndexToSection(r.index).value
    ensures Staged(l1, l2, sec, r, t) == Once(l1, l2, sec, r, t) <==> U32(Slip(l1, sec, r.howto)) == 0
  {
    hide U32, S32, Staged, Once;
    SectionRelocPreservedIff(l1, l2, sec, r, t);
  }

  /** No symbols. */
  function NoTables(): Tables { Tables([], [], []) }

  /** The identity on sections, at the given addresses. */
  function InPlace(inVma: SecKind -> int, outVma: SecKind -> int): Link { Link(inVma, k => Place(k, 0), outVma) }

  function DataAt(data: int): SecKind -> int { k => if k == Data then data else 0 }

  /**
   * A plain reloc against the data section, which the partial link puts into the text: the final link moves it with
   * the data.
   */
  lemma MisplacedSection()
    ensures var l1 := Link(DataAt(0), k => if k == Data then Place(Text, 16) else Place(k, 0), DataAt(0));
      var l2, r := InPlace(DataAt(0), DataAt(4096)), Reloc(0, Index(Data), false, Howto(false, false), 8);
      && Follows(l1, l2)
      && Staged(l1, l2, Text, r, NoTables()) != Once(l1, l2, Text, r, NoTables())
  {
    var l1 := Link(DataAt(0), k => if k == Data then Place(Text, 16) else Place(k, 0), DataAt(0));
    var l2, r := InPlace(DataAt(0), DataAt(4096)), Reloc(0, Index(Data), false, Howto(false, false), 8);
    IndexBack(Data);
    SectionRelocPreservedIff(l1, l2, Text, r, NoTables());
    assert Astray(l2, Data, Text) == 4096;
  }

  /**
   * A pc-relative reloc with pcrel_offset, in a section that the partial link gives an address: it slips by that
   * address.
   */
  lemma SlippedSection()
    ensures var l1, l2 := InPlace(DataAt(0), DataAt(32)), InPlace(DataAt(32), DataAt(32));
      var r := Reloc(0, Index(Text), false, Howto(true, true), 0);
      && Follows(l1, l2)
      && Staged(l1, l2, Data, r, NoTables()) != Once(l1, l2, Data, r, NoTables())
  {
    var l1, l2 := InPlace(DataAt(0), DataAt(32)), InPlace(DataAt(32), DataAt(32));
    var r := Reloc(0, Index(Text), false, Howto(true, true), 0);
    IndexBack(Text);
    SameKindPreservedIff(l1, l2, Data, r, NoTables());
    assert Slip(l1, Data, r.howto) == 32;
  }

  /** A pc-relative reloc against a defined symbol, in a section with an address of its own. */
  lemma DefinedChanged()
    ensures var l1, l2 := InPlace(DataAt(32), DataAt(0)), InPlace(DataAt(0), DataAt(0));
      var r, t := Reloc(0, 0, true, Howto(true, false), 0), Tables([Defined(4, Place(Text, 0))], [0], []);
      && Follows(l1, l2)
      && Staged(l1, l2, Data, r, t) != Once(l1, l2, Data, r, t)
  {
    var l1, l2 := InPlace(DataAt(32), DataAt(0)), InPlace(DataAt(0), DataAt(0));
    var r, t := Reloc(0, 0, true, Howto(true, false), 0), Tables([Defined(4, Place(Text, 0))], [0], []);
    DefinedRelocPreservedIff(l1, l2, Data, r, t);
  }

  /** A pc-relative reloc against a symbol that is still undefined, in a section that gets an address. */
  lemma UndefinedChanged()
    ensures var l1, l2 := InPlace(DataAt(0), DataAt(32)), InPlace(DataAt(32), DataAt(32));
      var r, t := Reloc(0, 0, true, Howto(true, false), 0), Tables([Undefined], [0], [Defined(4, Place(Text, 0))]);
      && Follows(l1, l2)
      && Staged(l1, l2, Data, r, t) != Once(l1, l2, Data, r, t)
  {
    var l1, l2 := InPlace(DataAt(0), DataAt(32)), InPlace(DataAt(32), DataAt(32));
    var r, t := Reloc(0, 0, true, Howto(true, false), 0), Tables([Undefined], [0], [Defined(4, Place(Text, 0))]);
    UndefinedRelocPreservedIff(l1, l2, Data, r, t);
  }

  /**
   * External relocs against a symbol the partial link defines, which makes them section relocs: preserved exactly
   * unless pc-relative and counted from a source section with an address of its own.
   */
  lemma DefinedRelocPreservedIff(l1: Link, l2: Link, sec: SecKind, r: Reloc, t: Tables)
    requires Follows(l1, l2) && Covers(t, r) && r.extern && t.symbols[r.index].Defined?
    ensures Staged(l1, l2, sec, r, t) == Once(l1, l2, sec, r, t) <==>
      (r.howto.pcRelative ==>
         if r.howto.pcrelOffset then U32(l1.outVma(l1.place(sec).out)) == 0 else U32(l1.inVma(sec)) == 0)
  {
    hide U32, S32, IndexToSection, Index;
    var sym := t.symbols[r.index];
    var d, out := sym.place.out, l1.place(sec).out;
    IndexBack(d);
    var later := Move(l2, d) + if r.howto.pcRelative then l2.inVma(out) else 0;
    FinalOfAdjusted(l1, l2, sec, r, Index(d), false, SymbolVma(l1, sym), later);
    var diff := if !r.howto.pcRelative then 0 else if r.howto.pcrelOffset then l1.outVma(out) else l1.inVma(sec);
    var b := SymbolVma(Direct(l1, l2), DirectSymbol(l2, sym)) + S32(r.addend) - Pc(Direct(l1, l2), sec, r);
    SameIff(b + diff, b, diff);
    U32Small(0);
  }

  /**
   * External relocs against a symbol still undefined, which the final link looks up by the new index: preserved exactly
   * unless pc-relative from a section that changed its address.
   */
  lemma UndefinedRelocPreservedIff(l1: Link, l2: Link, sec: SecKind, r: Reloc, t: Tables)
    requires Follows(l1, l2) && Covers(t, r) && r.extern && !t.symbols[r.index].Defined?
    ensures Staged(l1, l2, sec, r, t) == Once(l1, l2, sec, r, t) <==>
      (r.howto.pcRelative && !r.howto.pcrelOffset ==> U32(l1.outVma(l1.place(sec).out) - l1.inVma(sec)) == 0)
  {
    hide U32, S32;
    var out, index := l1.place(sec).out, t.symbolMap[r.index];
    var value := SymbolVma(l2, t.later[index]);
    FinalOfAdjusted(l1, l2, sec, r, index, true, 0, value);
    var diff := if r.howto.pcRelative && !r.howto.pcrelOffset then l1.inVma(sec) - l1.outVma(out) else 0;
    var b := value + S32(r.addend) - Pc(Direct(l1, l2), sec, r);
    SameIff(b + diff, b, diff);
    U32Negated(l1.outVma(out) - l1.inVma(sec));
    assert -(l1.outVma(out) - l1.inVma(sec)) == l1.inVma(sec) - l1.outVma(out);
    U32Small(0);
  }

  /**
   * Without pcrel_offset, and with sections at address zero, only a section reloc whose section goes astray is
   * changed.
   */
  lemma ZeroVmaPreservedIff(l1: Link, l2: Link, sec: SecKind, r: Reloc, t: Tables)
    requires Follows(l1, l2) && !r.howto.pcrelOffset && l1.inVma(sec) == 0 && l1.outVma(l1.place(sec).out) == 0
    requires Covers(t, r) && (!r.extern ==> IndexToSection(r.index).Some?)
    ensures Staged(l1, l2, sec, r, t) == Once(l1, l2, sec, r, t) <==>
      r.extern || var d := IndexToSection(r.index).value; U32(Astray(l2, d, l1.place(d).out)) == 0
  {
    hide U32, S32, IndexToSection, Index, Astray, Staged, Once;
    U32Small(0);
    if !r.extern {
      SectionRelocPreservedIff(l1, l2, sec, r, t);
    } else if t.symbols[r.index].Defined? {
      DefinedRelocPreservedIff(l1, l2, sec, r, t);
    } else {
      UndefinedRelocPreservedIff(l1, l2, sec, r, t);
    }
  }

  // Any number of partial links ----------------------------------------------------------

  ghost predicate Chain(ls: seq<Link>) {
    && |ls| > 0 && ValidLink(ls[0])
    && (forall i :: 0 < i < |ls| ==> Follows(ls[i - 1], ls[i]))
  }

  /** The links taken together, as one. */
  function Together(ls: seq<Link>): Link
    requires |ls| > 0
  {
    if |ls| == 1 then ls[0] else Direct(Together(ls[..|ls| - 1]), ls[|ls| - 1])
  }

  /** One partial link after another. */
  function RewriteAll(ls: seq<Link>, sec: SecKind, r: Reloc): Option<Reloc>
    requires |ls| > 0
  {
    if |ls| == 1 then Rewrite(ls[0], sec, r, Undefined, 0)
    else
      var front, last := ls[..|ls| - 1], ls[|ls| - 1];
      var r1 := RewriteAll(front, sec, r);
      if r1.None? then None else Rewrite(last, Together(front).place(sec).out, r1.value, Undefined, 0)
  }

  /** How far the links together move section d further than its contents. */
  function Drift(ls: seq<Link>, d: SecKind): int
    requires |ls| > 0
  {
    if |ls| == 1 then 0
    else
      var front, last := ls[..|ls| - 1], ls[|ls| - 1];
      Drift(front, d) + Astray(last, d, Together(front).place(d).out)
  }

  lemma {:induction false} TogetherFollows(ls: seq<Link>)
    requires Chain(ls)
    ensures ValidLink(Together(ls)) && forall k :: Together(ls).outVma(k) == ls[|ls| - 1].outVma(k)
  {
    if |ls| > 1 {
      var front := ls[..|ls| - 1];
      ChainFront(ls);
      TogetherFollows(front);
      assert Follows(ls[|ls| - 2], ls[|ls| - 1]);
    }
  }

  lemma ChainFront(ls: seq<Link>)
    requires Chain(ls) && |ls| > 1
    ensures Chain(ls[..|ls| - 1])
  {
    var front := ls[..|ls| - 1];
    assert forall i :: 0 < i < |front| ==> Follows(front[i - 1], front[i]);
  }

  /** One more partial link: moves add up, and the section may go further astray. */
  lemma RewriteMore(l1: Link, l2: Link, sec: SecKind, r: Reloc, drift: int)
    requires Follows(l1, l2) && !r.extern && IndexToSection(r.index).Some?
    ensures var d := IndexToSection(r.index).value;
      var more := drift + Astray(l2, d, l1.place(d).out);
      Rewrite(l2, l1.place(sec).out, Adjusted(l1, sec, r, r.index, false, Move(l1, d) + drift), Undefined, 0)
      == Some(Adjusted(Direct(l1, l2), sec, r, r.index, false, Move(Direct(l1, l2), d) + more))
  {
    hide U32, S32, IndexToSection;
    var d, out := IndexToSection(r.index).value, l1.place(sec).out;
    U32OfStored(l2.place(out).offset, S32(r.address) + l1.place(sec).offset);
    U32OfStored(Move(l2, d) - SourceMove(l2, out, r.howto), S32(r.addend) + Move(l1, d) +
      drift - SourceMove(l1, sec, r.howto));
  }

  /** Any number of partial links rewrites a section reloc as one with all offsets summed does, but for the drift. */
  lemma {:induction false} RewriteChain(ls: seq<Link>, sec: SecKind, r: Reloc)
    requires !r.extern && IndexToSection(r.index).Some? && Chain(ls)
    ensures var d := IndexToSection(r.index).value;
      RewriteAll(ls, sec, r) == Some(Adjusted(Together(ls), sec, r, r.index, false, Move(Together(ls), d) + Drift(ls,
        d)))
  {
    hide IndexToSection, U32, S32, Move, SourceMove, Astray, Adjusted;
    if |ls| > 1 {
      var front, last, d := ls[..|ls| - 1], ls[|ls| - 1], IndexToSection(r.index).value;
      ChainFront(ls);
      TogetherFollows(front);
      assert Follows(ls[|ls| - 2], last);
      RewriteChain(front, sec, r);
      RewriteMore(Together(front), last, sec, r, Drift(front, d));
    }
  }

  /** So the rewritten relocs are the same exactly if the drift is zero as a word. */
  lemma RewriteChainIff(ls: seq<Link>, sec: SecKind, r: Reloc)
    requires !r.extern && IndexToSection(r.index).Some? && Chain(ls)
    ensures RewriteAll(ls, sec, r) == Rewrite(Together(ls), sec, r, Undefined, 0) <==>
      U32(Drift(ls, IndexToSection(r.index).value)) == 0
  {
    hide IndexToSection, U32, S32, Move, SourceMove, Drift, Together, RewriteAll;
    RewriteChain(ls, sec, r);
    var d, t := IndexToSection(r.index).value, Together(ls);
    var b := S32(r.addend) + Move(t, d) - SourceMove(t, sec, r.howto);
    SameIff(b + Drift(ls, d), b, Drift(ls, d));
  }

  /**
   * A final link after any number of partial ones stores what one direct link stores, exactly if drift and slip
   * cancel.
   */
  lemma ChainPreservedIff(ls: seq<Link>, last: Link, sec: SecKind, r: Reloc)
    requires !r.extern && IndexToSection(r.index).Some? && Chain(ls) && Follows(ls[|ls| - 1], last)
    ensures RewriteAll(ls, sec, r).Some?
    ensures var d, t := IndexToSection(r.index).value, Together(ls);
      Final(last, t.place(sec).out, RewriteAll(ls, sec, r).value, Undefined) ==
        Final(Direct(t, last), sec, r, Undefined) <==>
      U32(Drift(ls, d) + Astray(last, d, t.place(d).out) + Slip(t, sec, r.howto)) == 0
  {
    hide IndexToSection, U32, S32, Together, RewriteAll, Drift;
    TogetherFollows(ls);
    RewriteChain(ls, sec, r);
    var d, t := IndexToSection(r.index).value, Together(ls);
    var out := t.place(sec).out;
    var later := Move(last, d) + if r.howto.pcRelative then last.inVma(out) else 0;
    var once := Move(Direct(t, last), d) + if r.howto.pcRelative then t.inVma(sec) else 0;
    FinalOfAdjusted(t, last, sec, r, r.index, false, Move(t, d) + Drift(ls, d), later);
    var diff := Drift(ls, d) + Astray(last, d, t.place(d).out) + Slip(t, sec, r.howto);
    var b := once + S32(r.addend) - Pc(Direct(t, last), sec, r);
    SameIff(b + diff, b, diff);
  }

  /** Sections that keep their kind in every link do not drift. */
  lemma {:induction false} NoDrift(ls: seq<Link>, d: SecKind)
    requires |ls| > 0 && forall i :: 0 <= i < |ls| ==> ls[i].place(d).out == d
    ensures Drift(ls, d) == 0 && Together(ls).place(d).out == d
  {
    if |ls| > 1 { NoDrift(ls[..|ls| - 1], d); }
  }
}
