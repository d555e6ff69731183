/** Header blocks in an a.out link: when each is expanded once, and references follow their blocks (bfd/aoutx.h). */
module AoutDedup {
  import opened Bytes
  import opened AoutStabs
  import opened AoutSymbols
  import opened AoutFate
  import AoutReloc

  /** A block as the output shows it. */
  datatype Block = Block(name: Name, total: int)

  /** The blocks in the table of totals, and those passed through without being entered, are the ones written out. */
  ghost predicate Known(syms: seq<Nlist>, includes: Includes, through: set<Block>) {
    forall name, total {:trigger Expanded(syms, name, total)} {:trigger total in Totals(includes, name)} ::
      Expanded(syms, name, total) <==> total in Totals(includes, name) || Block(name, total) in through
  }

  // One file ---------------------------------------------------------------------------------------------

  /** The starts among the first n symbols that are passed through. */
  ghost function Through(f: File, n: nat): set<Block>
    requires GoodFile(f) && n <= f.Count()
  {
    if n == 0 then {}
    else
      var s := f.Syms()[n - 1];
      Through(f, n - 1) + if s.typ == N_BINCL && Passed(f, n - 1) then {Block(s.name, s.value)} else {}
  }

  /** A start of a block that is written, unless as a reference. */
  ghost predicate NewStart(f: File, i: nat)
    requires GoodFile(f) && i < f.Count()
  {
    f.Syms()[i].typ == N_BINCL && Alone(f, i) && Kept(f.env, f.Syms()[i]) && !Duplicate(f, i)
  }

  /** What symbol i adds to the output, as far as blocks and references are concerned. */
  lemma OutputKinds(f: File, i: nat)
    requires GoodFile(f) && i < f.Count()
    ensures var s, x := f.Syms()[i], Output(f, i);
      Emits(f, i) ==>
        && (x.typ == N_BINCL <==> s.typ == N_BINCL && !Duplicate(f, i))
        && (x.typ == N_BINCL ==> x.name == s.name && x.value == if Passed(f, i) then s.value else Total(f.Syms(), i))
        && (x.typ == N_EXCL <==> Duplicate(f, i) || s.typ == N_EXCL)
        && (Duplicate(f, i) ==> x.name == s.name && x.value == Total(f.Syms(), i))
        && (s.typ == N_EXCL ==> x.name == s.name && x.value == s.value)
        && (x.typ == N_EINCL <==> s.typ == N_EINCL)
    ensures f.Syms()[i].typ == N_BINCL ==> (Emits(f, i) <==> Passed(f, i) || Duplicate(f, i) || NewStart(f, i))
  {
    hide Dropped, Passed, Skipped, Seen, Total, WrittenAt, Resolve, Kept, Classify, Stripped, Discarded;
    var s := f.Syms()[i];
    ClassFacts(f, i);
    if IsMark(s.typ) {
      MarkCopies(f, i);
      LocalNotWritten(f, i);
    }
    if s.typ == N_BINCL || s.typ == N_EXCL { PlainImage(f, i); }
    NotBoth(f, i);
  }

  lemma NotBoth(f: File, i: nat)
    requires GoodFile(f) && i < f.Count()
    ensures Duplicate(f, i) ==> Alone(f, i) && !Passed(f, i) && f.Syms()[i].typ == N_BINCL && Kept(f.env, f.Syms()[i])
    ensures Alone(f, i) ==> !Passed(f, i)
  {
    hide Dropped, Passed, Skipped, Seen, Total, Kept;
  }

  /** A reference keeps its name and value. */
  lemma PlainImage(f: File, i: nat)
    requires GoodFile(f) && i < f.Count() && (f.Syms()[i].typ == N_BINCL || f.Syms()[i].typ == N_EXCL)
    ensures f.hashes[i].None? && OutName(f.env, f.Syms()[i], f.hashes[i]) == f.Syms()[i].name
    ensures ClassOf(f, i).value == f.Syms()[i].value
  {
    assert SectionOf(N_BINCL) == Some(AoutReloc.Abs) && SectionOf(N_EXCL) == Some(AoutReloc.Abs);
    assert IsStab(N_BINCL) && IsStab(N_EXCL);
    hide SectionOf, IsStab, TypeBits;
  }

  /** The output before symbol i's own. */
  ghost function Upto(f: File, base: seq<Nlist>, i: nat): seq<Nlist>
    requires GoodFile(f) && i <= f.Count()
  {
    base + Written(f, i)
  }

  lemma UptoNext(f: File, base: seq<Nlist>, i: nat)
    requires GoodFile(f) && i < f.Count()
    ensures Upto(f, base, i + 1) == if Emits(f, i) then Upto(f, base, i) + [Output(f, i)] else Upto(f, base, i)
  {
    hide Emits, Output;
    if Emits(f, i) {
      Assoc(base, Written(f, i), [Output(f, i)]);
    } else {
      assert Written(f, i) + [] == Written(f, i);
    }
  }

  /** Before symbol i, a block is written out exactly if it was seen or passed through. */
  ghost predicate KnownAt(f: File, base: seq<Nlist>, through: set<Block>, i: nat)
    requires GoodFile(f) && i <= f.Count()
  {
    forall name, total {:trigger Expanded(Upto(f, base, i), name, total)} {:trigger Seen(f, i, name, total)} ::
      Expanded(Upto(f, base, i), name, total) <==>
        Seen(f, i, name, total) || Block(name, total) in through + Through(f, i)
  }

  lemma KnownNext(f: File, base: seq<Nlist>, through: set<Block>, i: nat)
    requires GoodFile(f) && i < f.Count() && KnownAt(f, base, through, i)
    ensures KnownAt(f, base, through, i + 1)
  {
    hide Emits, Output, Seen, Expanded, Duplicate, NewStart, Upto, Passed, IsBlock, Alone, Total, Kept;
    OutputKinds(f, i);
    UptoNext(f, base, i);
    NotBoth(f, i);
    forall name, total
      ensures Expanded(Upto(f, base, i + 1), name, total) <==>
        Seen(f, i + 1, name, total) || Block(name, total) in through + Through(f, i + 1)
    {
      assert Expanded(Upto(f, base, i), name, total) <==>
        Seen(f, i, name, total) || Block(name, total) in through + Through(f, i);
      SeenNext(f, i, name, total);
      EntersIff(f, i, name, total);
      if Emits(f, i) {
        ExpandedSnoc(Upto(f, base, i), Output(f, i), name, total);
        BlockIff(Output(f, i), name, total);
      }
    }
  }

  lemma BlockIff(x: Nlist, name: Name, total: int)
    ensures IsBlock(x, name, total) <==> x.typ == N_BINCL && x.name == name && x.value == total
  {
  }

  /** A block that is entered anew, or was there already. */
  lemma EntersIff(f: File, i: nat, name: Name, total: int)
    requires GoodFile(f) && i < f.Count()
    ensures total >= 0 && Enters(f, i, name, total) <==>
      (NewStart(f, i) || Duplicate(f, i)) && f.Syms()[i].name == name && Total(f.Syms(), i) == total
    ensures Duplicate(f, i) ==> Seen(f, i, f.Syms()[i].name, Total(f.Syms(), i))
    ensures NewStart(f, i) ==> !Seen(f, i, f.Syms()[i].name, Total(f.Syms(), i))
    ensures f.Syms()[i].typ == N_BINCL && Passed(f, i) ==> !NewStart(f, i) && !Duplicate(f, i)
    ensures NewStart(f, i) ==> Emits(f, i) && f.Syms()[i].typ == N_BINCL && !Passed(f, i)
  {
    hide Dropped, Passed, Skipped, Seen, Total, WrittenAt, Kept, Classify, Stripped, Discarded, Resolve;
    NotBoth(f, i);
    if f.Syms()[i].typ == N_BINCL {
      MarkCopies(f, i);
      LocalNotWritten(f, i);
    }
  }

  // At most once -------------------------------------------------------------------------------------------

  /** Symbol i repeats no block: passed through, none at all; entered anew, none that was passed through. */
  ghost predicate Novel(f: File, base: seq<Nlist>, through: set<Block>, i: nat)
    requires GoodFile(f) && i < f.Count()
  {
    var s := f.Syms()[i];
    && (s.typ == N_BINCL && Passed(f, i) ==> !Expanded(Upto(f, base, i), s.name, s.value))
    && (NewStart(f, i) ==> Block(s.name, Total(f.Syms(), i)) !in through + Through(f, i))
  }

  ghost predicate AllNovel(f: File, base: seq<Nlist>, through: set<Block>, n: nat)
    requires GoodFile(f) && n <= f.Count()
  {
    forall i :: 0 <= i < n ==> Novel(f, base, through, i)
  }

  lemma {:induction false} UniqueIff(f: File, base: seq<Nlist>, through: set<Block>, n: nat)
    requires GoodFile(f) && n <= f.Count() && KnownAt(f, base, through, 0)
    ensures KnownAt(f, base, through, n)
    ensures UniqueBlocks(Upto(f, base, n)) <==> UniqueBlocks(base) && AllNovel(f, base, through, n)
  {
    hide Emits, Output, Seen, Expanded, Duplicate, NewStart, Passed, UniqueBlocks, Alone, Total, Kept, KnownAt, Novel,
      Upto;
    if n == 0 {
      UptoNone(f, base);
    } else {
      var i := n - 1;
      UniqueIff(f, base, through, i);
      KnownNext(f, base, through, i);
      NovelIff(f, base, through, i);
    }
  }

  lemma UptoNone(f: File, base: seq<Nlist>)
    requires GoodFile(f)
    ensures Upto(f, base, 0) == base
  {
    assert base + [] == base;
  }

  lemma NovelIff(f: File, base: seq<Nlist>, through: set<Block>, i: nat)
    requires GoodFile(f) && i < f.Count() && KnownAt(f, base, through, i)
    ensures UniqueBlocks(Upto(f, base, i + 1)) <==> UniqueBlocks(Upto(f, base, i)) && Novel(f, base, through, i)
  {
    hide Emits, Output, Seen, Expanded, Duplicate, NewStart, Passed, UniqueBlocks, Alone, Total, Kept, Upto, Through;
    var s := f.Syms()[i];
    OutputKinds(f, i);
    UptoNext(f, base, i);
    EntersIff(f, i, s.name, Total(f.Syms(), i));
    assert Expanded(Upto(f, base, i), s.name, Total(f.Syms(), i)) <==>
      Seen(f, i, s.name, Total(f.Syms(), i)) || Block(s.name, Total(f.Syms(), i)) in through + Through(f, i);
    if Emits(f, i) { UniqueSnocIff(Upto(f, base, i), Output(f, i)); }
  }

  // References follow their blocks ---------------------------------------------------------------------------

  /** Symbol i is a reference that is copied. */
  ghost predicate CopiedRef(f: File, i: nat)
    requires GoodFile(f) && i < f.Count()
  {
    f.Syms()[i].typ == N_EXCL && Emits(f, i)
  }

  /** The block it refers to has been written out before it. */
  ghost predicate RefBacked(f: File, base: seq<Nlist>, i: nat)
    requires GoodFile(f) && i < f.Count()
  {
    Expanded(Upto(f, base, i), f.Syms()[i].name, f.Syms()[i].value)
  }

  lemma BackedSnocIff(syms: seq<Nlist>, x: Nlist)
    ensures AllBacked(syms + [x]) <==> AllBacked(syms) && (x.typ == N_EXCL ==> Expanded(syms, x.name, x.value))
  {
    hide Expanded;
    var all := syms + [x];
    assert all[..|syms|] == syms && all[|syms|] == x;
    forall b | 0 <= b < |syms| ensures Backed(all, b) <==> Backed(syms, b) { assert all[..b] == syms[..b]; }
    if AllBacked(all) {
      forall b | 0 <= b < |syms| && syms[b].typ == N_EXCL ensures Backed(syms, b) {
        assert all[b] == syms[b];
        assert Backed(all, b);
      }
      if x.typ == N_EXCL { assert Backed(all, |syms|); }
    }
  }

  /** References that the link makes follow their blocks; so all do exactly if the copied ones do. */
  lemma {:induction false} BackedIff(f: File, base: seq<Nlist>, through: set<Block>, n: nat)
    requires GoodFile(f) && n <= f.Count() && KnownAt(f, base, through, 0)
    ensures KnownAt(f, base, through, n)
    ensures AllBacked(Upto(f, base, n)) <==>
      AllBacked(base) && forall i :: 0 <= i < n && CopiedRef(f, i) ==> RefBacked(f, base, i)
  {
    hide Emits, Output, Seen, Expanded, Duplicate, NewStart, Passed, AllBacked, Alone, Total, Kept, Upto, KnownAt,
      Through;
    if n == 0 {
      UptoNone(f, base);
    } else {
      var i := n - 1;
      BackedIff(f, base, through, i);
      KnownNext(f, base, through, i);
      BackedNext(f, base, through, i);
    }
  }

  lemma BackedNext(f: File, base: seq<Nlist>, through: set<Block>, i: nat)
    requires GoodFile(f) && i < f.Count() && KnownAt(f, base, through, i)
    ensures AllBacked(Upto(f, base, i + 1)) <==>
      AllBacked(Upto(f, base, i)) && (CopiedRef(f, i) ==> RefBacked(f, base, i))
  {
    hide Emits, Output, Seen, Expanded, Duplicate, NewStart, Passed, AllBacked, Alone, Total, Kept, Upto, Through;
    var s := f.Syms()[i];
    OutputKinds(f, i);
    UptoNext(f, base, i);
    NotBoth(f, i);
    EntersIff(f, i, s.name, Total(f.Syms(), i));
    assert Seen(f, i, s.name, Total(f.Syms(), i)) ==> Expanded(Upto(f, base, i), s.name, Total(f.Syms(), i));
    if Emits(f, i) { BackedSnocIff(Upto(f, base, i), Output(f, i)); }
  }

  // A file in a link -----------------------------------------------------------------------------------------

  /** The output when the file's own symbols begin. */
  function BaseOf(env: Env, input: Input, syms: seq<Nlist>): seq<Nlist> { syms + FileSymbol(env, input) }

  lemma BaseKeeps(f: File, st: State, through: set<Block>)
    requires GoodFile(f) && f.before == st.includes && Known(st.syms, st.includes, through)
    ensures var base := BaseOf(f.env, f.input, st.syms);
      && KnownAt(f, base, through, 0) && (UniqueBlocks(base) <==> UniqueBlocks(st.syms))
      && (AllBacked(base) <==> AllBacked(st.syms))
  {
    hide UniqueBlocks, AllBacked, Expanded, Seen;
    var base := BaseOf(f.env, f.input, st.syms);
    UptoNone(f, base);
    if FileSymbol(f.env, f.input) == [] {
      assert base == st.syms;
    } else {
      var x := FileSymbol(f.env, f.input)[0];
      assert base == st.syms + [x];
      UniqueSnocIff(st.syms, x);
      BackedSnocIff(st.syms, x);
    }
    forall name, total
      ensures Expanded(base, name, total) <==> Expanded(st.syms, name, total)
      ensures Seen(f, 0, name, total) <==> total in Totals(st.includes, name)
    {
      if FileSymbol(f.env, f.input) != [] { ExpandedSnoc(st.syms, FileSymbol(f.env, f.input)[0], name, total); }
      SeenNone(f, name, total);
    }
  }

  lemma SeenNone(f: File, name: Name, total: int)
    requires GoodFile(f)
    ensures Seen(f, 0, name, total) <==> total in Totals(f.before, name)
  {
  }

  /**
   * One file, whatever it holds: blocks stay unique exactly if none is repeated by one that is passed through, and all
   * references follow their blocks exactly if the copied ones do.
   */
  lemma FileBlocks(env: Env, input: Input, hashes: seq<Option<nat>>, st: State, through: set<Block>)
    requires GoodFile(FileOf(env, input, hashes, st)) && Known(st.syms, st.includes, through)
    ensures var f, r, base := FileOf(env, input, hashes, st), WriteSymbols(env, input, hashes, st),
      BaseOf(env, input, st.syms);
      && Known(r.st.syms, r.st.includes, through + Through(f, f.Count())) && r.st.syms == Upto(f, base, f.Count())
      && (UniqueBlocks(r.st.syms) <==> UniqueBlocks(st.syms) && AllNovel(f, base, through, f.Count()))
      && (AllBacked(r.st.syms) <==>
            AllBacked(st.syms) && forall i :: 0 <= i < f.Count() && CopiedRef(f, i) ==> RefBacked(f, base, i))
  {
    hide Steps, Written, FileSymbol, UniqueBlocks, AllBacked, Expanded, Seen, Novel, CopiedRef, RefBacked, Through;
    var f, r, base := FileOf(env, input, hashes, st), WriteSymbols(env, input, hashes, st), BaseOf(env, input, st.syms);
    WritesAsTold(env, input, hashes, st);
    BaseKeeps(f, st, through);
    UniqueIff(f, base, through, f.Count());
    BackedIff(f, base, through, f.Count());
    forall name, total
      ensures Expanded(r.st.syms, name, total) <==>
        total in Totals(r.st.includes, name) || Block(name, total) in through + Through(f, f.Count())
    {
      TableAsTold(env, input, hashes, st, name, total);
      assert Expanded(Upto(f, base, f.Count()), name, total) <==>
        Seen(f, f.Count(), name, total) || Block(name, total) in through + Through(f, f.Count());
    }
  }

  // Whole runs -----------------------------------------------------------------------------------------------

  ghost predicate RegularAction(a: Action) { a.Symbols? ==> Regular(a.input, a.hashes) }

  ghost predicate GoodActions(env: Env, as_: seq<Action>) {
    GoodEnv(env) && forall a :: a in as_ ==> GoodAction(env, a) && RegularAction(a)
  }

  /** The file of an action, in the state in which the link gets to it. */
  ghost function ActFile(env: Env, a: Action, st: State): (f: File)
    requires GoodEnv(env) && a.Symbols? && GoodAction(env, a) && RegularAction(a) && |st.entries| == |env.table|
    ensures GoodFile(f)
  {
    FileOf(env, a.input, a.hashes, st)
  }

  /** The blocks that the first n actions pass through without entering them. */
  ghost function RunThrough(env: Env, as_: seq<Action>, n: nat, st: State): set<Block>
    requires GoodActions(env, as_) && n <= |as_| && |st.entries| == |env.table|
  {
    if n == 0 then {}
    else
      var q, a := Run(env, as_, n - 1, st), as_[n - 1];
      RunThrough(env, as_, n - 1, st)
      + if q.Some? && a.Symbols? then Through(ActFile(env, a, q.value), |a.input.syms|) else {}
  }

  /** In action j no block is repeated by one that is passed through. */
  ghost predicate ActNovel(env: Env, as_: seq<Action>, st: State, j: nat)
    requires GoodActions(env, as_) && j < |as_| && |st.entries| == |env.table|
  {
    var q, a := Run(env, as_, j, st), as_[j];
    q.Some? && a.Symbols? ==>
      AllNovel(ActFile(env, a, q.value), BaseOf(env, a.input, q.value.syms), RunThrough(env, as_, j, st),
        |a.input.syms|)
  }

  /** Symbol i of action j is a reference that is copied, and its block has been written out before it. */
  ghost predicate RunCopied(env: Env, as_: seq<Action>, st: State, j: nat, i: nat)
    requires GoodActions(env, as_) && j < |as_| && |st.entries| == |env.table|
  {
    var q, a := Run(env, as_, j, st), as_[j];
    q.Some? && a.Symbols? && i < |a.input.syms| && CopiedRef(ActFile(env, a, q.value), i)
  }

  ghost predicate RunBacked(env: Env, as_: seq<Action>, st: State, j: nat, i: nat)
    requires GoodActions(env, as_) && j < |as_| && |st.entries| == |env.table| && RunCopied(env, as_, st, j, i)
  {
    var q, a := Run(env, as_, j, st), as_[j];
    RefBacked(ActFile(env, a, q.value), BaseOf(env, a.input, q.value.syms), i)
  }

  /** All references that action j copies follow their blocks. */
  ghost predicate RefsBacked(env: Env, as_: seq<Action>, st: State, j: nat)
    requires GoodActions(env, as_) && j < |as_| && |st.entries| == |env.table|
  {
    forall i: nat :: RunCopied(env, as_, st, j, i) ==> RunBacked(env, as_, st, j, i)
  }

  lemma RefsBackedIff(env: Env, as_: seq<Action>, st: State, j: nat)
    requires GoodActions(env, as_) && j < |as_| && |st.entries| == |env.table| && Run(env, as_, j, st).Some?
    ensures var q, a := Run(env, as_, j, st).value, as_[j];
      if a.Symbols? then
        var f, base := ActFile(env, a, q), BaseOf(env, a.input, q.syms);
        RefsBacked(env, as_, st, j) <==> forall i :: 0 <= i < f.Count() && CopiedRef(f, i) ==> RefBacked(f, base, i)
      else RefsBacked(env, as_, st, j)
  {
    hide Run, CopiedRef, RefBacked, Regular;
    var q, a := Run(env, as_, j, st).value, as_[j];
    if a.Symbols? {
      var f, base := ActFile(env, a, q), BaseOf(env, a.input, q.syms);
      forall i: nat | i < f.Count()
        ensures RunCopied(env, as_, st, j, i) <==> CopiedRef(f, i)
        ensures CopiedRef(f, i) ==> (RunBacked(env, as_, st, j, i) <==> RefBacked(f, base, i))
      {
      }
    }
  }

  lemma ActNovelIff(env: Env, as_: seq<Action>, st: State, j: nat)
    requires GoodActions(env, as_) && j < |as_| && |st.entries| == |env.table| && Run(env, as_, j, st).Some?
    ensures var q, a := Run(env, as_, j, st).value, as_[j];
      ActNovel(env, as_, st, j) <==> (a.Symbols? ==>
        AllNovel(ActFile(env, a, q), BaseOf(env, a.input, q.syms), RunThrough(env, as_, j, st), |a.input.syms|))
  {
    hide Run, AllNovel, Regular;
  }

  lemma OtherPlain(env: Env, h: Hash)
    ensures OtherSymbol(env, h).Some? ==>
      !IsMark(OtherSymbol(env, h).value.typ) && OtherSymbol(env, h).value.typ != N_EXCL
  {
  }

  /** A step that adds at most one symbol, and neither a mark nor a reference. */
  ghost predicate Harmless(a: State, b: State) {
    && b.includes == a.includes
    && (b.syms == a.syms || exists x :: b.syms == a.syms + [x] && !IsMark(x.typ) && x.typ != N_EXCL)
  }

  lemma WriteOtherHarmless(env: Env, h: nat, st: State)
    requires GoodEnv(env) && h < |env.table| == |st.entries|
    ensures var r := WriteOther(env, h, st);
      r.Some? ==> Harmless(st, r.value)
  {
    hide OtherSymbol;
    var t := if env.table[h].kind.Warning? then env.table[h].kind.link else h;
    OtherPlain(env, env.table[t]);
  }

  lemma ActHarmless(env: Env, a: Action, st: State)
    requires GoodEnv(env) && |st.entries| == |env.table| && GoodAction(env, a) && !a.Symbols?
    ensures Act(env, a, st).Some? ==> Harmless(st, Act(env, a, st).value)
  {
    hide WriteOther;
    match a
    case Other(h) => WriteOtherHarmless(env, h, st);
    case Reloc(h) => WriteOtherHarmless(env, h, st.(entries := st.entries[h := Entry(false, -2)]));
  }

  lemma HarmlessKeeps(a: State, b: State, through: set<Block>)
    requires Harmless(a, b) && Known(a.syms, a.includes, through)
    ensures Known(b.syms, b.includes, through) && (UniqueBlocks(b.syms) <==> UniqueBlocks(a.syms))
    ensures AllBacked(b.syms) <==> AllBacked(a.syms)
  {
    hide UniqueBlocks, AllBacked, Expanded;
    if b.syms != a.syms {
      var x :| b.syms == a.syms + [x] && !IsMark(x.typ) && x.typ != N_EXCL;
      UniqueSnocIff(a.syms, x);
      BackedSnocIff(a.syms, x);
      forall name, total ensures Expanded(b.syms, name, total) <==> Expanded(a.syms, name, total) {
        ExpandedSnoc(a.syms, x, name, total);
      }
    }
  }

  /** What an action does to blocks and references. */
  lemma ActBlocks(env: Env, a: Action, st: State, through: set<Block>)
    requires GoodEnv(env) && GoodAction(env, a) && RegularAction(a) && |st.entries| == |env.table|
    requires Known(st.syms, st.includes, through) && Act(env, a, st).Some?
    ensures var r := Act(env, a, st).value;
      if a.Symbols? then
        var f, base := ActFile(env, a, st), BaseOf(env, a.input, st.syms);
        && Known(r.syms, r.includes, through + Through(f, f.Count()))
        && (UniqueBlocks(r.syms) <==> UniqueBlocks(st.syms) && AllNovel(f, base, through, f.Count()))
        && (AllBacked(r.syms) <==>
              AllBacked(st.syms) && forall i :: 0 <= i < f.Count() && CopiedRef(f, i) ==> RefBacked(f, base, i))
      else
        && Known(r.syms, r.includes, through) && (UniqueBlocks(r.syms) <==> UniqueBlocks(st.syms))
        && (AllBacked(r.syms) <==> AllBacked(st.syms))
  {
    hide WriteSymbols, WriteOther, RelocIndex, UniqueBlocks, AllBacked, Known, AllNovel, CopiedRef, RefBacked, Through,
      Harmless, Regular;
    if a.Symbols? {
      FileBlocks(env, a.input, a.hashes, st, through);
    } else {
      ActHarmless(env, a, st);
      HarmlessKeeps(st, Act(env, a, st).value, through);
    }
  }

  /**
   * Over any run: each block is expanded at most once exactly if none is repeated by one that is passed through, and
   * all references follow their blocks exactly if the copied ones do.
   */
  lemma {:induction false} RunBlocks(env: Env, as_: seq<Action>, n: nat, st: State)
    requires GoodActions(env, as_) && n <= |as_| && |st.entries| == |env.table| && Known(st.syms, st.includes, {})
    ensures var r := Run(env, as_, n, st);
      r.Some? ==>
        && Known(r.value.syms, r.value.includes, RunThrough(env, as_, n, st))
        && (UniqueBlocks(r.value.syms) <==>
              UniqueBlocks(st.syms) && forall j :: 0 <= j < n ==> ActNovel(env, as_, st, j))
        && (AllBacked(r.value.syms) <==>
              AllBacked(st.syms) && forall j :: 0 <= j < n ==> RefsBacked(env, as_, st, j))
  {
    hide Act, UniqueBlocks, AllBacked, Known, AllNovel, CopiedRef, RefBacked, Through, Regular, RefsBacked, ActNovel;
    if n > 0 {
      var q, a := Run(env, as_, n - 1, st), as_[n - 1];
      RunBlocks(env, as_, n - 1, st);
      if q.Some? && Run(env, as_, n, st).Some? {
        ActBlocks(env, a, q.value, RunThrough(env, as_, n - 1, st));
        RefsBackedIff(env, as_, st, n - 1);
        ActNovelIff(env, as_, st, n - 1);
        assert RunThrough(env, as_, n - 1, st) + {} == RunThrough(env, as_, n - 1, st);
      }
    }
  }
}
