/** Header blocks over a whole a.out link, told from its inputs (bfd/aoutx.h). */
module AoutBlocks {
  import opened Bytes
  import opened AoutStabs
  import opened AoutSymbols
  import opened AoutFate
  import opened AoutDedup

  // Where blocks come from ---------------------------------------------------------------------------------

  /** How a start gets its block into the output: by itself, with its total, or passed through, with its value. */
  datatype Way = Itself | PassedOn

  /** Symbol k is a start of this block. */
  ghost predicate Starts(f: File, k: nat, way: Way, name: Name, total: int)
    requires GoodFile(f) && k < f.Count()
  {
    var s := f.Syms()[k];
    match way
    case Itself => total >= 0 && Enters(f, k, name, total)
    case PassedOn => s.typ == N_BINCL && Passed(f, k) && s.name == name && s.value == total
  }

  lemma {:induction false} ThroughIff(f: File, n: nat, name: Name, total: int)
    requires GoodFile(f) && n <= f.Count()
    ensures Block(name, total) in Through(f, n) <==> exists k :: 0 <= k < n && Starts(f, k, PassedOn, name, total)
  {
    hide Passed;
    if n > 0 {
      ThroughIff(f, n - 1, name, total);
      assert Block(name, total) in Through(f, n) <==>
        Block(name, total) in Through(f, n - 1) || Starts(f, n - 1, PassedOn, name, total);
    }
  }

  lemma SeenIff(f: File, n: nat, name: Name, total: int)
    requires GoodFile(f) && n <= f.Count()
    ensures Seen(f, n, name, total) <==>
      total in Totals(f.before, name) || exists k :: 0 <= k < n && Starts(f, k, Itself, name, total)
  {
    hide Enters, Totals;
    if k: nat :| k < n && Starts(f, k, Itself, name, total) { assert Enters(f, k, name, total); }
    if k: nat :| k < n && total >= 0 && Enters(f, k, name, total) { assert Starts(f, k, Itself, name, total); }
  }

  // Over a run -----------------------------------------------------------------------------------------------

  ghost predicate Runs(env: Env, as_: seq<Action>, st: State) {
    GoodActions(env, as_) && |st.entries| == |env.table|
  }

  /** The run gets to action m, which is an input with a symbol k. */
  ghost predicate Reached(env: Env, as_: seq<Action>, st: State, m: nat, k: nat)
    requires Runs(env, as_, st)
  {
    m < |as_| && Run(env, as_, m, st).Some? && as_[m].Symbols? && k < |as_[m].input.syms|
  }

  /** That input, as it is met. */
  ghost function FileAt(env: Env, as_: seq<Action>, st: State, m: nat): (f: File)
    requires Runs(env, as_, st) && m < |as_| && Run(env, as_, m, st).Some? && as_[m].Symbols?
    ensures GoodFile(f)
  {
    ActFile(env, as_[m], Run(env, as_, m, st).value)
  }

  ghost predicate RunStarts(env: Env, as_: seq<Action>, st: State, m: nat, k: nat, way: Way, name: Name, total: int)
    requires Runs(env, as_, st)
  {
    Reached(env, as_, st, m, k) && Starts(FileAt(env, as_, st, m), k, way, name, total)
  }

  /** Symbol k of action m comes before symbol i of action j. */
  predicate Before(m: nat, k: nat, j: nat, i: nat) { m < j || (m == j && k < i) }

  /** A symbol of an earlier input, or an earlier one of the same input, starts this block. */
  ghost predicate StartedBefore(env: Env, as_: seq<Action>, st: State, j: nat, i: nat, way: Way, name: Name, total: int)
    requires Runs(env, as_, st)
  {
    exists m: nat, k: nat :: Before(m, k, j, i) && RunStarts(env, as_, st, m, k, way, name, total)
  }

  /** Within action j, up to symbol i. */
  lemma BeforeWithin(env: Env, as_: seq<Action>, st: State, j: nat, i: nat, way: Way, name: Name, total: int)
    requires Runs(env, as_, st) && j < |as_| && Run(env, as_, j, st).Some?
    requires as_[j].Symbols? && i <= |as_[j].input.syms|
    ensures var f := FileAt(env, as_, st, j);
      StartedBefore(env, as_, st, j, i, way, name, total) <==>
        (StartedBefore(env, as_, st, j, 0, way, name, total) ||
          exists k :: 0 <= k < i && Starts(f, k, way, name, total))
  {
    hide Starts, Run, Regular;
    var f := FileAt(env, as_, st, j);
    forall k: nat | k < i
      ensures RunStarts(env, as_, st, j, k, way, name, total) <==> Starts(f, k, way, name, total)
      ensures Before(j, k, j, i)
    {
    }
    BeforeGrows(env, as_, st, j, i, way, name, total);
  }

  lemma BeforeGrows(env: Env, as_: seq<Action>, st: State, j: nat, i: nat, way: Way, name: Name, total: int)
    requires Runs(env, as_, st)
    ensures StartedBefore(env, as_, st, j, i, way, name, total) <==>
      (StartedBefore(env, as_, st, j, 0, way, name, total) ||
        exists k: nat :: k < i && RunStarts(env, as_, st, j, k, way, name, total))
  {
    hide RunStarts;
    forall m: nat, k: nat ensures Before(m, k, j, i) <==> Before(m, k, j, 0) || (m == j && k < i) {}
  }

  /** Past the whole of action j. */
  lemma BeforeNext(env: Env, as_: seq<Action>, st: State, j: nat, way: Way, name: Name, total: int)
    requires Runs(env, as_, st) && j < |as_| && Run(env, as_, j, st).Some?
    ensures var i := if as_[j].Symbols? then |as_[j].input.syms| else 0;
      StartedBefore(env, as_, st, j + 1, 0, way, name, total) <==> StartedBefore(env, as_, st, j, i, way, name, total)
  {
    hide Starts, Run, Regular;
    var i := if as_[j].Symbols? then |as_[j].input.syms| else 0;
    forall m: nat, k: nat | Reached(env, as_, st, m, k) ensures Before(m, k, j + 1, 0) <==> Before(m, k, j, i) {}
  }

  lemma BeforeNone(env: Env, as_: seq<Action>, st: State, way: Way, name: Name, total: int)
    requires Runs(env, as_, st)
    ensures !StartedBefore(env, as_, st, 0, 0, way, name, total)
  {
  }

  /** After n actions the table of totals, and the blocks passed through, are told by the inputs. */
  lemma {:induction false} RunTable(env: Env, as_: seq<Action>, n: nat, st: State, name: Name, total: int)
    requires Runs(env, as_, st) && n <= |as_| && Run(env, as_, n, st).Some?
    ensures total in Totals(Run(env, as_, n, st).value.includes, name) <==>
      total in Totals(st.includes, name) || StartedBefore(env, as_, st, n, 0, Itself, name, total)
    ensures Block(name, total) in RunThrough(env, as_, n, st) <==>
      StartedBefore(env, as_, st, n, 0, PassedOn, name, total)
  {
    hide Starts, StartedBefore, Regular, Through, Totals, Act;
    if n == 0 {
      BeforeNone(env, as_, st, Itself, name, total);
      BeforeNone(env, as_, st, PassedOn, name, total);
    } else {
      RunTable(env, as_, n - 1, st, name, total);
      BeforeNext(env, as_, st, n - 1, Itself, name, total);
      BeforeNext(env, as_, st, n - 1, PassedOn, name, total);
      ActTable(env, as_, n - 1, st, name, total);
      if as_[n - 1].Symbols? {
        var f := FileAt(env, as_, st, n - 1);
        BeforeWithin(env, as_, st, n - 1, f.Count(), Itself, name, total);
        BeforeWithin(env, as_, st, n - 1, f.Count(), PassedOn, name, total);
        ThroughIff(f, f.Count(), name, total);
      }
    }
  }

  lemma ActTable(env: Env, as_: seq<Action>, j: nat, st: State, name: Name, total: int)
    requires Runs(env, as_, st) && j < |as_| && Run(env, as_, j, st).Some?
    requires Act(env, as_[j], Run(env, as_, j, st).value).Some?
    ensures var q, a := Run(env, as_, j, st).value, as_[j];
      var r := Act(env, a, q).value;
      if a.Symbols? then
        var f := FileAt(env, as_, st, j);
        total in Totals(r.includes, name) <==>
          (total in Totals(q.includes, name) || exists k :: 0 <= k < f.Count() && Starts(f, k, Itself, name, total))
      else r.includes == q.includes
  {
    hide Starts, Regular, Through, Totals, Seen, Run, WriteSymbols, WriteOther, RelocIndex, Harmless;
    var q, a := Run(env, as_, j, st).value, as_[j];
    if a.Symbols? {
      var f := FileAt(env, as_, st, j);
      TableAsTold(env, a.input, a.hashes, q, name, total);
      SeenIff(f, f.Count(), name, total);
    } else {
      ActHarmless(env, a, q);
      SameTable(q, Act(env, a, q).value);
    }
  }

  lemma SameTable(a: State, b: State)
    requires Harmless(a, b)
    ensures a.includes == b.includes
  {
  }

  /** A block of this name and total was there before the run, or an earlier symbol starts it. */
  ghost predicate Shown(env: Env, as_: seq<Action>, st: State, j: nat, i: nat, name: Name, total: int)
    requires Runs(env, as_, st)
  {
    || total in Totals(st.includes, name)
    || StartedBefore(env, as_, st, j, i, Itself, name, total)
    || StartedBefore(env, as_, st, j, i, PassedOn, name, total)
  }

  ghost function BaseAt(env: Env, as_: seq<Action>, st: State, j: nat): seq<Nlist>
    requires Runs(env, as_, st) && j < |as_| && Run(env, as_, j, st).Some? && as_[j].Symbols?
  {
    BaseOf(env, as_[j].input, Run(env, as_, j, st).value.syms)
  }

  /** What the output shows before symbol i of action j. */
  lemma UptoShown(env: Env, as_: seq<Action>, st: State, j: nat, i: nat, name: Name, total: int)
    requires Runs(env, as_, st) && Reached(env, as_, st, j, i) && Known(st.syms, st.includes, {})
    ensures var f, base := FileAt(env, as_, st, j), BaseAt(env, as_, st, j);
      && (Expanded(Upto(f, base, i), name, total) <==> Shown(env, as_, st, j, i, name, total))
      && (Block(name, total) in RunThrough(env, as_, j, st) + Through(f, i) <==>
            StartedBefore(env, as_, st, j, i, PassedOn, name, total))
      && (Seen(f, i, name, total) <==>
            total in Totals(st.includes, name) || StartedBefore(env, as_, st, j, i, Itself, name, total))
  {
    hide Starts, StartedBefore, Regular, Through, RunThrough, Totals, Run, Expanded, Upto, Seen, Known;
    var f, base, through := FileAt(env, as_, st, j), BaseAt(env, as_, st, j), RunThrough(env, as_, j, st);
    RunBlocks(env, as_, j, st);
    BaseKeeps(f, Run(env, as_, j, st).value, through);
    UniqueIff(f, base, through, i);
    assert Expanded(Upto(f, base, i), name, total) <==>
      Seen(f, i, name, total) || Block(name, total) in through + Through(f, i);
    SeenIff(f, i, name, total);
    ThroughIff(f, i, name, total);
    RunTable(env, as_, j, st, name, total);
    BeforeWithin(env, as_, st, j, i, Itself, name, total);
    BeforeWithin(env, as_, st, j, i, PassedOn, name, total);
  }

  // Each block at most once -----------------------------------------------------------------------------------

  /** No start that is passed through shares its block with another start, or with what was there before. */
  ghost predicate NoRepeats(env: Env, as_: seq<Action>, st: State)
    requires Runs(env, as_, st)
  {
    forall j: nat, i: nat, name, total | RunStarts(env, as_, st, j, i, PassedOn, name, total) ::
      && total !in Totals(st.includes, name)
      && forall m: nat, k: nat, way :: RunStarts(env, as_, st, m, k, way, name, total) ==> m == j && k == i
  }

  /** What Novel means at one symbol. */
  lemma NovelMeans(env: Env, as_: seq<Action>, st: State, j: nat, i: nat)
    requires Runs(env, as_, st) && Reached(env, as_, st, j, i) && Known(st.syms, st.includes, {})
    ensures var f, base := FileAt(env, as_, st, j), BaseAt(env, as_, st, j);
      var s := f.Syms()[i];
      Novel(f, base, RunThrough(env, as_, j, st), i) <==>
        && (Starts(f, i, PassedOn, s.name, s.value) ==> !Shown(env, as_, st, j, i, s.name, s.value))
        && (NewStart(f, i) ==> !StartedBefore(env, as_, st, j, i, PassedOn, s.name, Total(f.Syms(), i)))
  {
    hide Regular, Through, RunThrough, Run, Expanded, Upto, Passed, NewStart, Total, Shown, StartedBefore, Known;
    var s := FileAt(env, as_, st, j).Syms()[i];
    UptoShown(env, as_, st, j, i, s.name, s.value);
    UptoShown(env, as_, st, j, i, s.name, Total(FileAt(env, as_, st, j).Syms(), i));
  }

  ghost predicate AllActsNovel(env: Env, as_: seq<Action>, st: State)
    requires Runs(env, as_, st)
  {
    forall j :: 0 <= j < |as_| ==> ActNovel(env, as_, st, j)
  }

  lemma NovelAt(env: Env, as_: seq<Action>, st: State, j: nat, i: nat)
    requires Runs(env, as_, st) && Reached(env, as_, st, j, i) && AllActsNovel(env, as_, st)
    ensures Novel(FileAt(env, as_, st, j), BaseAt(env, as_, st, j), RunThrough(env, as_, j, st), i)
  {
    hide Regular, RunThrough, Run, Novel;
    assert ActNovel(env, as_, st, j);
  }

  /** A start of a block that is passed through elsewhere is a repeat. */
  lemma {:induction false} NoOther(env: Env, as_: seq<Action>, st: State, j: nat, i: nat, m: nat, k: nat, way: Way,
                                   name: Name, total: int)
    requires Runs(env, as_, st) && Known(st.syms, st.includes, {}) && AllActsNovel(env, as_, st)
    requires RunStarts(env, as_, st, j, i, PassedOn, name, total) && RunStarts(env, as_, st, m, k, way, name, total)
    ensures m == j && k == i
    decreases m, k
  {
    hide Regular, Through, RunThrough, Run, Novel, NewStart, Total, Known, AllActsNovel, Seen, Passed, Enters, Totals,
      Duplicate;
    NovelAt(env, as_, st, j, i);
    NovelMeans(env, as_, st, j, i);
    if Before(j, i, m, k) {
      NovelAt(env, as_, st, m, k);
      NovelMeans(env, as_, st, m, k);
      assert StartedBefore(env, as_, st, m, k, PassedOn, name, total);
      if way.Itself? {
        EntersIff(FileAt(env, as_, st, m), k, name, total);
        UptoShown(env, as_, st, m, k, name, total);
        var m', k' :| Before(m', k', m, k) && RunStarts(env, as_, st, m', k', Itself, name, total);
        NoOther(env, as_, st, j, i, m', k', Itself, name, total);
        NotBoth(FileAt(env, as_, st, j), i);
        EntersIff(FileAt(env, as_, st, j), i, name, total);
      }
    }
  }

  /** Conversely, without repeats every start is novel. */
  lemma NovelHere(env: Env, as_: seq<Action>, st: State, j: nat, i: nat)
    requires Runs(env, as_, st) && Known(st.syms, st.includes, {}) && NoRepeats(env, as_, st)
    requires Reached(env, as_, st, j, i)
    ensures Novel(FileAt(env, as_, st, j), BaseAt(env, as_, st, j), RunThrough(env, as_, j, st), i)
  {
    hide Regular, Through, RunThrough, Run, Novel, NewStart, Total, Known, Seen, Passed, Enters, Totals, Duplicate;
    NovelMeans(env, as_, st, j, i);
    var f := FileAt(env, as_, st, j);
    var s := f.Syms()[i];
    if Starts(f, i, PassedOn, s.name, s.value) {
      assert RunStarts(env, as_, st, j, i, PassedOn, s.name, s.value);
    }
    if NewStart(f, i) {
      EntersIff(f, i, s.name, Total(f.Syms(), i));
      assert RunStarts(env, as_, st, j, i, Itself, s.name, Total(f.Syms(), i));
    }
  }

  lemma NovelIffNoRepeats(env: Env, as_: seq<Action>, st: State)
    requires Runs(env, as_, st) && Known(st.syms, st.includes, {})
    ensures AllActsNovel(env, as_, st) <==> NoRepeats(env, as_, st)
  {
    hide Regular, RunThrough, Run, Novel, Known, Starts, FileAt, BaseAt, Totals;
    if AllActsNovel(env, as_, st) {
      forall j: nat, i: nat, name, total | RunStarts(env, as_, st, j, i, PassedOn, name, total)
        ensures total !in Totals(st.includes, name)
      {
        NotThereBefore(env, as_, st, j, i, name, total);
      }
      forall j: nat, i: nat, m: nat, k: nat, way, name, total
        | RunStarts(env, as_, st, j, i, PassedOn, name, total) && RunStarts(env, as_, st, m, k, way, name, total)
        ensures m == j && k == i
      {
        NoOther(env, as_, st, j, i, m, k, way, name, total);
      }
    }
    if NoRepeats(env, as_, st) {
      forall j | 0 <= j < |as_| ensures ActNovel(env, as_, st, j) { ActNovelHere(env, as_, st, j); }
    }
  }

  lemma NotThereBefore(env: Env, as_: seq<Action>, st: State, j: nat, i: nat, name: Name, total: int)
    requires Runs(env, as_, st) && Known(st.syms, st.includes, {}) && AllActsNovel(env, as_, st)
    requires RunStarts(env, as_, st, j, i, PassedOn, name, total)
    ensures total !in Totals(st.includes, name)
  {
    hide Regular, RunThrough, Run, Novel, NewStart, Total, Known, AllActsNovel, Totals, StartedBefore, Passed;
    NovelAt(env, as_, st, j, i);
    NovelMeans(env, as_, st, j, i);
  }

  lemma ActNovelHere(env: Env, as_: seq<Action>, st: State, j: nat)
    requires Runs(env, as_, st) && Known(st.syms, st.includes, {}) && NoRepeats(env, as_, st) && j < |as_|
    ensures ActNovel(env, as_, st, j)
  {
    hide Regular, RunThrough, Run, Novel, Known, NoRepeats;
    var q, a := Run(env, as_, j, st), as_[j];
    if q.Some? && a.Symbols? {
      forall i | 0 <= i < |a.input.syms|
        ensures Novel(ActFile(env, a, q.value), BaseOf(env, a.input, q.value.syms), RunThrough(env, as_, j, st), i)
      {
        NovelHere(env, as_, st, j, i);
      }
    }
  }

  // References ---------------------------------------------------------------------------------------------------

  /** Symbol i of action j is a reference that is copied. */
  ghost predicate RunRefers(env: Env, as_: seq<Action>, st: State, j: nat, i: nat)
    requires Runs(env, as_, st)
  {
    Reached(env, as_, st, j, i) && CopiedRef(FileAt(env, as_, st, j), i)
  }

  /** Every reference that is copied has an earlier start of its block. */
  ghost predicate NoLoneRefs(env: Env, as_: seq<Action>, st: State)
    requires Runs(env, as_, st)
  {
    forall j: nat, i: nat :: RunRefers(env, as_, st, j, i) ==>
      Shown(env, as_, st, j, i, as_[j].input.syms[i].name, as_[j].input.syms[i].value)
  }

  lemma RefsIffNoLone(env: Env, as_: seq<Action>, st: State)
    requires Runs(env, as_, st) && Known(st.syms, st.includes, {})
    ensures (forall j :: 0 <= j < |as_| ==> RefsBacked(env, as_, st, j)) <==> NoLoneRefs(env, as_, st)
  {
    hide Regular, Run, Known, Shown, CopiedRef, RefBacked;
    if NoLoneRefs(env, as_, st) {
      forall j, i: nat | 0 <= j < |as_| && RunCopied(env, as_, st, j, i) ensures RunBacked(env, as_, st, j, i) {
        assert RunRefers(env, as_, st, j, i);
        RefShown(env, as_, st, j, i);
      }
    }
    if forall j :: 0 <= j < |as_| ==> RefsBacked(env, as_, st, j) {
      forall j: nat, i: nat | RunRefers(env, as_, st, j, i)
        ensures Shown(env, as_, st, j, i, as_[j].input.syms[i].name, as_[j].input.syms[i].value)
      {
        assert RefsBacked(env, as_, st, j) && RunCopied(env, as_, st, j, i);
        RefShown(env, as_, st, j, i);
      }
    }
  }

  lemma RefShown(env: Env, as_: seq<Action>, st: State, j: nat, i: nat)
    requires Runs(env, as_, st) && Known(st.syms, st.includes, {}) && RunRefers(env, as_, st, j, i)
    ensures var s := as_[j].input.syms[i];
      RunBacked(env, as_, st, j, i) <==> Shown(env, as_, st, j, i, s.name, s.value)
  {
    hide Regular, Run, Known, Shown, CopiedRef, Expanded, Upto, Seen, RunThrough, Through, StartedBefore;
    UptoShown(env, as_, st, j, i, as_[j].input.syms[i].name, as_[j].input.syms[i].value);
  }

  // The theorem ---------------------------------------------------------------------------------------------------

  /** The state in which a link starts. */
  function Initial(env: Env): State { State(seq(|env.table|, _ => Entry(false, -1)), [], map[]) }

  lemma NothingKnown()
    ensures Known([], map[], {}) && UniqueBlocks([]) && AllBacked([])
  {
  }

  /**
   * Every link from its start: the symbol table is right throughout, each block is expanded at most once exactly if no
   * start that is passed through has its block started elsewhere too, and all references follow their blocks exactly if
   * each copied one has an earlier start of its block among the inputs.
   */
  lemma WholeLink(env: Env, as_: seq<Action>)
    requires GoodActions(env, as_)
    ensures var st := Initial(env);
      var r := Run(env, as_, |as_|, st);
      r.Some? ==>
        && Good(env, r.value)
        && (UniqueBlocks(r.value.syms) <==> NoRepeats(env, as_, st))
        && (AllBacked(r.value.syms) <==> NoLoneRefs(env, as_, st))
  {
    hide Run, ActNovel, RefsBacked, UniqueBlocks, AllBacked, Known, Regular, NoRepeats, NoLoneRefs;
    NothingKnown();
    RunKeeps(env, as_, |as_|, |as_|, Initial(env));
    RunBlocks(env, as_, |as_|, Initial(env));
    NovelIffNoRepeats(env, as_, Initial(env));
    RefsIffNoLone(env, as_, Initial(env));
  }

  // Told from the inputs alone -----------------------------------------------------------------------------------

  /** Symbol k of action m is a kept start of this block. */
  ghost predicate InputStarts(env: Env, as_: seq<Action>, m: nat, k: nat, name: Name, total: int) {
    && m < |as_| && as_[m].Symbols? && k < |as_[m].input.syms|
    && var s := as_[m].input.syms[k];
      s.typ == N_BINCL && Kept(env, s) && s.name == name && Total(as_[m].input.syms, k) == total
  }

  ghost predicate InputStartsBefore(env: Env, as_: seq<Action>, j: nat, i: nat, name: Name, total: int) {
    exists m: nat, k: nat :: Before(m, k, j, i) && InputStarts(env, as_, m, k, name, total)
  }

  ghost predicate PlainActions(as_: seq<Action>) { forall a :: a in as_ && a.Symbols? ==> PlainMarks(a.input.syms) }

  lemma {:induction false} RunPrefix(env: Env, as_: seq<Action>, m: nat, n: nat, st: State)
    requires Runs(env, as_, st) && m <= n <= |as_| && Run(env, as_, n, st).Some?
    ensures Run(env, as_, m, st).Some?
  {
    if m < n { RunPrefix(env, as_, m, n - 1, st); }
  }

  /** In such inputs the starts are the kept ones, and none is passed through. */
  lemma PlainStarts(env: Env, as_: seq<Action>, st: State, m: nat, k: nat, name: Name, total: int)
    requires Runs(env, as_, st) && PlainActions(as_) && Run(env, as_, |as_|, st).Some?
    ensures RunStarts(env, as_, st, m, k, Itself, name, total) <==> InputStarts(env, as_, m, k, name, total)
    ensures !RunStarts(env, as_, st, m, k, PassedOn, name, total)
  {
    hide Run, Passed, Skipped, Alone, Kept, Total, Regular, PlainMarks;
    if m < |as_| { RunPrefix(env, as_, m, |as_|, st); }
    if Reached(env, as_, st, m, k) && as_[m].input.syms[k].typ == N_BINCL {
      var f := FileAt(env, as_, st, m);
      MarkAlone(f, k);
      StartAlone(f, k);
    }
  }

  /** Each copied reference has an earlier kept start with its name, and its value as the total. */
  ghost predicate NoLoneInputRefs(env: Env, as_: seq<Action>)
    requires GoodActions(env, as_)
  {
    forall j: nat, i: nat :: RunRefers(env, as_, Initial(env), j, i) ==>
      InputStartsBefore(env, as_, j, i, as_[j].input.syms[i].name, as_[j].input.syms[i].value)
  }

  lemma LoneAlike(env: Env, as_: seq<Action>)
    requires GoodActions(env, as_)
    requires forall j: nat, i: nat, name, total {:trigger Shown(env, as_, Initial(env), j, i, name, total)} ::
      Shown(env, as_, Initial(env), j, i, name, total) <==> InputStartsBefore(env, as_, j, i, name, total)
    ensures NoLoneRefs(env, as_, Initial(env)) <==> NoLoneInputRefs(env, as_)
  {
    hide Shown, InputStartsBefore, CopiedRef, Regular;
  }

  /**
   * For inputs in which no mark follows a redirecting symbol: every block is expanded at most once, and all references
   * follow their blocks exactly if each copied one has an earlier kept start, in its own input or one before, with its
   * name and with its value as the total.
   */
  lemma PlainLink(env: Env, as_: seq<Action>)
    requires GoodActions(env, as_) && PlainActions(as_) && Run(env, as_, |as_|, Initial(env)).Some?
    ensures var r := Run(env, as_, |as_|, Initial(env)).value;
      && UniqueBlocks(r.syms)
      && (AllBacked(r.syms) <==> NoLoneInputRefs(env, as_))
  {
    hide Run, UniqueBlocks, AllBacked, Regular, RunStarts, InputStarts, PlainActions, RunRefers, NoLoneInputRefs;
    var st := Initial(env);
    WholeLink(env, as_);
    forall m: nat, k: nat, name, total
      ensures RunStarts(env, as_, st, m, k, Itself, name, total) <==> InputStarts(env, as_, m, k, name, total)
      ensures !RunStarts(env, as_, st, m, k, PassedOn, name, total)
    {
      PlainStarts(env, as_, st, m, k, name, total);
    }
    forall j: nat, i: nat, name, total
      ensures Shown(env, as_, st, j, i, name, total) <==> InputStartsBefore(env, as_, j, i, name, total)
    {
    }
    LoneAlike(env, as_);
    assert NoRepeats(env, as_, st);
  }

  // Inputs that fail ---------------------------------------------------------------------------------------------

  /** A debugging symbol of N_INDR's type bits at the start of a file, kept: the second symbol is passed through. */
  lemma SecondPassed(f: File)
    requires GoodFile(f) && f.Count() > 1 && f.Syms()[0].typ == 0x2a && f.env.strip == StripNone
    requires f.env.discard != DiscardAll
    ensures Passed(f, 1) && Emits(f, 1)
  {
    assert IsStab(0x2a) && SectionOf(0x2a) == None && TypeBits(0x2a) == AoutSymbols.N_INDR && SetSection(0x2a) == None;
    assert !Passed(f, 0) && !Skipped(f, 0) && !Dropped(f, 0, 0);
    assert Alone(f, 0);
    LocalNotWritten(f, 0);
  }

  /** N_MAIN and then the start of a block that is there already: it is passed through, and the block repeated. */
  lemma RepeatedByPassing(env: Env, input: Input, st: State)
    requires GoodFile(FileOf(env, input, [None, None], st)) && Known(st.syms, st.includes, {})
    requires |input.syms| == 2 && env.strip == StripNone && env.discard != DiscardAll
    requires input.syms[0].typ == 0x2a && input.syms[1].typ == N_BINCL
    requires Expanded(st.syms, input.syms[1].name, input.syms[1].value)
    ensures !UniqueBlocks(WriteSymbols(env, input, [None, None], st).st.syms)
  {
    hide WriteSymbols, UniqueBlocks, AllBacked, FileSymbol, Expanded, Emits, Passed, NewStart, Duplicate, Output;
    var f, base := FileOf(env, input, [None, None], st), BaseOf(env, input, st.syms);
    SecondPassed(f);
    FileBlocks(env, input, [None, None], st, {});
    StillExpanded(st.syms, FileSymbol(env, input) + Written(f, 1), input.syms[1].name, input.syms[1].value);
    Assoc(st.syms, FileSymbol(env, input), Written(f, 1));
    assert !Novel(f, base, {}, 1);
  }

  lemma StillExpanded(syms: seq<Nlist>, more: seq<Nlist>, name: Name, total: int)
    requires Expanded(syms, name, total)
    ensures Expanded(syms + more, name, total)
  {
    var a :| 0 <= a < |syms| && IsBlock(syms[a], name, total);
    assert IsBlock((syms + more)[a], name, total);
  }

  /** A file that refers to a block which no file before it contains: the reference is copied and follows nothing. */
  lemma LoneReference(env: Env, input: Input, st: State)
    requires GoodFile(FileOf(env, input, [None], st)) && Known(st.syms, st.includes, {})
    requires |input.syms| == 1 && env.strip == StripNone && env.discard != DiscardAll && input.syms[0].typ == N_EXCL
    requires !Expanded(st.syms, input.syms[0].name, input.syms[0].value)
    ensures !AllBacked(WriteSymbols(env, input, [None], st).st.syms)
  {
    hide WriteSymbols, UniqueBlocks, AllBacked, Expanded, Emits, Output;
    var f, base := FileOf(env, input, [None], st), BaseOf(env, input, st.syms);
    FileBlocks(env, input, [None], st, {});
    FirstCopied(f);
    UptoNone(f, base);
    BaseExpanded(env, input, st.syms, input.syms[0].name, input.syms[0].value);
    assert CopiedRef(f, 0) && !RefBacked(f, base, 0);
  }

  lemma FirstCopied(f: File)
    requires GoodFile(f) && f.Count() > 0 && f.Syms()[0].typ == N_EXCL && f.env.strip == StripNone
    requires f.env.discard != DiscardAll
    ensures Emits(f, 0)
  {
    assert IsStab(N_EXCL) && SetSection(N_EXCL) == None;
    assert Alone(f, 0);
    LocalNotWritten(f, 0);
    ClassFacts(f, 0);
  }

  lemma BaseExpanded(env: Env, input: Input, syms: seq<Nlist>, name: Name, total: int)
    ensures Expanded(BaseOf(env, input, syms), name, total) <==> Expanded(syms, name, total)
  {
    hide Expanded;
    if FileSymbol(env, input) == [] {
      assert BaseOf(env, input, syms) == syms;
    } else {
      var x := FileSymbol(env, input)[0];
      assert BaseOf(env, input, syms) == syms + [x];
      ExpandedSnoc(syms, x, name, total);
    }
  }
}
