/** The a.out final link's working state, and the code that updates it (bfd/aoutx.h). */
module AoutLink {
  import opened Bytes
  import opened AoutStabs
  import opened AoutSymbols

  /** EXTERNAL_NLIST_SIZE. */
  const NLIST: int := 12

  class FinalLink {
    const env: Env
    const symFilepos: int
    var entries: seq<Entry>
    /** The output's symbols so far; the first `flushed` of them are in the file. */
    var syms: seq<Nlist>
    var flushed: nat
    var symoff: int
    var includes: Includes

    ghost predicate Valid()
      reads this
    {
      GoodEnv(env) && |entries| == |env.table| && flushed <= |syms| && symoff == symFilepos + NLIST * flushed
    }

    ghost function St(): State reads this { State(entries, syms, includes) }

    constructor (env: Env, symFilepos: int)
      requires GoodEnv(env)
      ensures Valid() && flushed == |syms| && this.env == env && this.symFilepos == symFilepos && symoff == symFilepos
      ensures St() == State(seq(|env.table|, _ => Entry(false, -1)), [], map[]) && Good(env, St())
    {
      this.env, this.symFilepos := env, symFilepos;
      entries, syms, flushed, symoff, includes := seq(|env.table|, _ => Entry(false, -1)), [], 0, symFilepos, map[];
    }

    /** hresolve: follows indirect and warning entries to the base symbol. */
    method ResolveEntry(h: nat) returns (r: nat)
      requires Valid() && h < |env.table|
      ensures r == Resolve(env, h)
    {
      r := h;
      while IsLink(env.table[r].kind)
        invariant r < |env.table| && Resolve(env, h) == Resolve(env, r)
        decreases env.rank(r)
      {
        r := env.table[r].kind.link;
      }
    }

    /** Looks a header block up by its name and total, and enters it if it is new. */
    method Include(name: Name, total: nat) returns (found: bool)
      modifies this`includes
      ensures found == (total in Totals(old(includes), name))
      ensures includes == if found then old(includes) else old(includes)[name := [total] + Totals(old(includes), name)]
    {
      var ts := Totals(includes, name);
      var k := 0;
      while k < |ts|
        invariant k <= |ts| && total !in ts[..k]
      {
        if ts[k] == total { return true; }
        k := k + 1;
      }
      includes := includes[name := [total] + ts];
      found := false;
    }

    /** Appends symbol i to the output and enters it into the symbol map. */
    method AddSymbol(i: nat, cells: array<int>, s: Nlist)
      requires i < cells.Length
      modifies this`syms, cells
      ensures syms == old(syms) + [s] && cells[..] == old(cells[..])[i := |old(syms)|]
    {
      cells[i] := |syms|;
      syms := syms + [s];
    }

    /** The N_BINCL case, at the point of the walk that `w` describes. */
    method HeaderSymbol(input: Input, i: nat, cells: array<int>, name: Name, s: Nlist, ghost w: Walk)
      requires i < |input.syms| == cells.Length && w.st == St() && w.cells == cells[..]
      modifies this`syms, this`includes, cells
      ensures Walk(St(), cells[..], w.hashes, w.pass, w.skip) == Header(input, i, w, name, s) && |old(syms)| <= |syms|
    {
      hide Total, Totals, Within, MarkedCells;
      var total := HeaderTotal(input.syms, i);
      var found := Include(name, total);
      if found {
        MarkHeader(input.syms, i, cells);
        MarkedIs(input, i, w.cells, cells[..]);
        AddSymbol(i, cells, s.(typ := N_EXCL, value := total));
      } else {
        AddSymbol(i, cells, s.(value := total));
      }
    }

    /** The entry of a symbol, if it has one. */
    method SetWritten(h: Option<nat>, e: Entry)
      requires h.Some? ==> h.value < |entries|
      modifies this`entries
      ensures entries == if h.None? then old(entries) else old(entries)[h.value := e]
    {
      if h.Some? { entries := entries[h.value := e]; }
    }

    /** A symbol that is neither dropped with its header nor handled for the one before it. */
    method NamedSymbol(input: Input, i: nat, cells: array<int>, hashes: array<Option<nat>>, ghost w: Walk)
        returns (pass: bool, skip: bool)
      requires Valid() && Fits(env, input, w) && i < |input.syms|
      requires w == Walk(St(), cells[..], hashes[..], false, false)
      modifies this`entries, this`syms, this`includes, cells, hashes
      ensures Walk(St(), cells[..], hashes[..], pass, skip) == Named(env, input, i, w) && |old(syms)| <= |syms|
    {
      hide Classify, Stripped, Discarded, Header, Resolve, OutName, NameOf, Redirects;
      var sym, h := input.syms[i], hashes[i];
      var name := NameOf(env, sym, h);
      var base: Option<nat> := None;
      if h.Some? {
        var r := ResolveEntry(h.value);
        base := Some(r);
      }
      hashes[i] := base;
      pass, skip := false, false;
      if h.Some? && entries[h.value].written {
        if Redirects(sym.typ) { skip := true; }
        cells[i] := entries[h.value].indx;
        return;
      }
      if Stripped(env, sym.typ, name) {
        if h.Some? { entries := entries[h.value := entries[h.value].(written := true)]; }
        return;
      }
      var kind := if base.Some? then Some(env.table[base.value].kind) else None;
      var c := Classify(env, input, sym, kind);
      if h.None? && Discarded(env, input, c.typ, name) { return false, c.skip; }
      pass, skip := c.pass, c.skip;
      SetWritten(h, Entry(true, |syms|));
      var s := Nlist(c.typ, sym.other, sym.desc, OutName(env, sym, h), c.value);
      if c.typ == N_BINCL {
        HeaderSymbol(input, i, cells, name, s, Walk(St(), cells[..], hashes[..], pass, skip));
      } else {
        AddSymbol(i, cells, s);
      }
    }

    /** One round of the loop over an input's symbols. */
    method CopySymbol(input: Input, i: nat, cells: array<int>, hashes: array<Option<nat>>, pass0: bool, skip0: bool,
        ghost w: Walk)
        returns (pass: bool, skip: bool)
      requires Valid() && Fits(env, input, w) && i < |input.syms|
      requires w == Walk(St(), cells[..], hashes[..], pass0, skip0)
      modifies this`entries, this`syms, this`includes, cells, hashes
      ensures Walk(St(), cells[..], hashes[..], pass, skip) == Step(env, input, i, w) && |old(syms)| <= |syms|
    {
      hide Named;
      pass, skip := pass0, skip0;
      if cells[i] == -1 { return; }
      cells[i] := -1;
      if pass {
        pass := false;
        AddSymbol(i, cells, input.syms[i]);
      } else if skip {
        skip := false;
      } else {
        pass, skip := NamedSymbol(input, i, cells, hashes, w.(cells := cells[..]));
      }
    }

    /** aout_link_write_symbols: fills the symbol map, and writes the new symbols at symoff. */
    method WriteSymbols(input: Input, cells: array<int>, hashes: array<Option<nat>>)
      requires Valid() && flushed == |syms| && GoodHashes(env, input, hashes[..]) && cells.Length == |input.syms|
      modifies this, cells, hashes
      ensures Valid() && flushed == |syms|
      ensures var r := AoutSymbols.WriteSymbols(env, input, old(hashes[..]), old(St()));
        St() == r.st && cells[..] == r.cells && hashes[..] == r.hashes
    {
      hide Step, FileSymbol, GoodEnv;
      ghost var w := Start(env, input, hashes[..], St());
      syms := syms + FileSymbol(env, input);
      ClearMap(cells);
      var pass, skip, i := false, false, 0;
      assert cells[..] == w.cells;
      while i < |input.syms|
        invariant i <= |input.syms| && Fits(env, input, w) && Valid()
        invariant Walk(St(), cells[..], hashes[..], pass, skip) == Steps(env, input, i, w)
      {
        pass, skip := CopySymbol(input, i, cells, hashes, pass, skip, Steps(env, input, i, w));
        i := i + 1;
      }
      if |syms| > flushed {
        symoff := symoff + NLIST * (|syms| - flushed);
        flushed := |syms|;
      }
    }

    /** aout_link_write_other_symbol; false where it aborts. */
    method WriteOther(h: nat) returns (ok: bool)
      requires Valid() && flushed == |syms| && h < |env.table|
      modifies this
      ensures var r := AoutSymbols.WriteOther(env, h, old(St()));
        ok == r.Some? && (ok ==> Valid() && flushed == |syms| && St() == r.value)
    {
      var t := h;
      if env.table[t].kind.Warning? {
        t := env.table[t].kind.link;
        if env.table[t].kind.New? { return true; }
      }
      if entries[t].written { return true; }
      entries := entries[t := entries[t].(written := true)];
      if entries[t].indx != -2 && (env.strip == StripAll || (env.strip == StripSome
        && env.table[t].name !in env.keep)) { return true; }
      if env.table[t].kind.Warning? { return false; }
      var s := OtherSymbol(env, env.table[t]);
      if s.None? { return true; }
      symoff := symoff + NLIST;
      entries := entries[t := Entry(true, |syms|)];
      syms := syms + [s.value];
      flushed := |syms|;
      ok := true;
    }

    /** The index of a reloc's symbol: a stripped symbol that is needed after all is written now. */
    method RelocIndex(cell: int, h: Option<nat>) returns (ok: bool, index: int)
      requires Valid() && flushed == |syms| && (h.Some? ==> h.value < |env.table|)
      modifies this
      ensures var r := AoutSymbols.RelocIndex(env, cell, h, old(St()));
        ok == r.Some? && (ok ==> Valid() && flushed == |syms| && (St(), index) == r.value)
    {
      hide AoutSymbols.WriteOther, GoodEnv;
      ok, index := true, cell;
      if cell == -1 {
        if h.Some? {
          if entries[h.value].indx < 0 {
            entries := entries[h.value := Entry(false, -2)];
            ok := WriteOther(h.value);
            if !ok { return; }
          }
          index := entries[h.value].indx;
        } else {
          index := 0;
        }
      }
    }

    /** Any run of the steps of a final link. */
    method RunActions(as_: seq<Action>) returns (ok: bool)
      requires Valid() && flushed == |syms| && forall a :: a in as_ ==> GoodAction(env, a)
      modifies this
      ensures var r := Run(env, as_, |as_|, old(St()));
        ok == r.Some? && (ok ==> Valid() && flushed == |syms| && St() == r.value)
    {
      hide GoodEnv, AoutSymbols.WriteSymbols, AoutSymbols.WriteOther, AoutSymbols.RelocIndex, Good;
      ghost var st := St();
      var n := 0;
      while n < |as_|
        invariant n <= |as_| && Valid() && flushed == |syms|
        invariant Run(env, as_, n, st) == Some(St())
      {
        var a := as_[n];
        assert GoodAction(env, a);
        ok := true;
        match a {
          case Symbols(input, hashes) =>
            var cells := new int[|input.syms|](_ => 0);
            var hs := new Option<nat>[|hashes|](j requires 0 <= j < |hashes| => hashes[j]);
            assert hs[..] == hashes;
            WriteSymbols(input, cells, hs);
          case Other(h) => ok := WriteOther(h);
          case Reloc(h) =>
            var index;
            ok, index := RelocIndex(-1, Some(h));
        }
        if !ok {
          RunStops(env, as_, n + 1, |as_|, st);
          return false;
        }
        n := n + 1;
      }
      ok := true;
    }

    /** The string table's position, and that it is where the symbols end. */
    method StringTable() returns (strFilepos: int)
      requires Valid() && flushed == |syms|
      ensures strFilepos == symFilepos + NLIST * |syms| == symoff
    {
      var aSyms := |syms| * NLIST;
      strFilepos := symFilepos + aSyms;
    }
  }

  lemma {:induction false} RunStops(env: Env, as_: seq<Action>, m: nat, n: nat, st: State)
    requires GoodEnv(env) && m <= n <= |as_| && (forall a :: a in as_ ==> GoodAction(env, a))
    requires |st.entries| == |env.table|
    requires Run(env, as_, m, st).None?
    ensures Run(env, as_, n, st).None?
    decreases n - m
  {
    hide Act;
    if m < n { RunStops(env, as_, m, n - 1, st); }
  }

  method ClearMap(cells: array<int>)
    modifies cells
    ensures forall j :: 0 <= j < cells.Length ==> cells[j] == 0
  {
    var j := 0;
    while j < cells.Length
      invariant j <= cells.Length && forall k :: 0 <= k < j ==> cells[k] == 0
    {
      cells[j] := 0;
      j := j + 1;
    }
  }

  lemma MarkedIs(input: Input, i: nat, was: seq<int>, now: seq<int>)
    requires |was| == |now| == |input.syms|
    requires forall j :: 0 <= j < |now| ==> now[j] == if Within(input.syms, i, j) then -1 else was[j]
    ensures now == MarkedCells(input, i, was)
  {
    hide Within;
  }
}
