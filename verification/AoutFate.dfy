/** What becomes of each symbol of an a.out input, told before the walk over its symbols starts (bfd/aoutx.h). */
module AoutFate {
  import opened Bytes
  import opened AoutReloc
  import opened AoutStabs
  import opened AoutSymbols

  /** The start or the end of a header block. */
  predicate IsMark(t: nat) { t == N_BINCL || t == N_EINCL }

  /** A file about to be linked, and the link's hash entries and table of totals at that moment. */
  datatype File = File(env: Env, entries: seq<Entry>, before: Includes, input: Input, hashes: seq<Option<nat>>) {
    function Count(): nat { |input.syms| }

    function Syms(): seq<Nlist> { input.syms }
  }

  /** Types are bytes, debugging symbols have no hash entries, and the absolute section stays. */
  ghost predicate Regular(input: Input, hashes: seq<Option<nat>>) {
    && |hashes| == |input.syms| && ValidLink(input.link)
    && forall i :: 0 <= i < |hashes| ==> input.syms[i].typ < 256 && (IsStab(input.syms[i].typ) ==> hashes[i].None?)
  }

  ghost predicate GoodFile(f: File) {
    GoodEnv(f.env) && |f.entries| == |f.env.table| && GoodHashes(f.env, f.input, f.hashes) && Regular(f.input, f.hashes)
  }

  /** A mark is neither stripped nor discarded. */
  predicate Kept(env: Env, s: Nlist) { !Stripped(env, s.typ, s.name) && env.discard != DiscardAll }

  function ClassOf(f: File, i: nat): Copied
    requires GoodFile(f) && i < f.Count()
  {
    Classify(f.env, f.input, f.Syms()[i], KindOf(f.env, f.hashes[i]))
  }

  /** A symbol that gets so far is written unless it is stripped or discarded. */
  predicate Copies(f: File, i: nat)
    requires GoodFile(f) && i < f.Count()
  {
    var sym, name := f.Syms()[i], NameOf(f.env, f.Syms()[i], f.hashes[i]);
    !Stripped(f.env, sym.typ, name) && (f.hashes[i].None? ==> !Discarded(f.env, f.input, ClassOf(f, i).typ, name))
  }

  // The symbols before decide -----------------------------------------------------------------------

  /** Symbol i is passed through for the one before it. */
  ghost predicate Passed(f: File, i: nat)
    requires GoodFile(f) && i <= f.Count()
    decreases i, 0
  {
    i > 0 && Alone(f, i - 1) && !WrittenBefore(f, i - 1) && Copies(f, i - 1) && ClassOf(f, i - 1).pass
  }

  /** Symbol i is skipped for the one before it. */
  ghost predicate Skipped(f: File, i: nat)
    requires GoodFile(f) && i <= f.Count()
    decreases i, 0
  {
    && i > 0 && Alone(f, i - 1)
    && if WrittenBefore(f, i - 1) then Redirects(f.Syms()[i - 1].typ) else Copies(f, i - 1) && ClassOf(f, i - 1).skip
  }

  /** Symbol i is handled for itself. */
  ghost predicate Alone(f: File, i: nat)
    requires GoodFile(f) && i < f.Count()
    decreases i, 2
  {
    !Dropped(f, i, i) && !Passed(f, i) && !Skipped(f, i)
  }

  /** Before symbol n, hash entry h is written. */
  ghost predicate WrittenAt(f: File, n: nat, h: nat)
    requires GoodFile(f) && n <= f.Count() && h < |f.entries|
    decreases n, 3
  {
    f.entries[h].written || exists k :: 0 <= k < n && f.hashes[k] == Some(h) && Alone(f, k)
  }

  ghost predicate WrittenBefore(f: File, i: nat)
    requires GoodFile(f) && i < f.Count()
    decreases i, 4
  {
    f.hashes[i].Some? && WrittenAt(f, i, f.hashes[i].value)
  }

  /** The block at k goes into the table of totals under this name and total. */
  ghost predicate Enters(f: File, k: nat, name: Name, total: nat)
    requires GoodFile(f) && k < f.Count()
    decreases k, 3
  {
    var s := f.Syms()[k];
    s.typ == N_BINCL && Kept(f.env, s) && s.name == name && Total(f.Syms(), k) == total && Alone(f, k)
  }

  /** Before symbol n: the name and total were in the table already, or a block of the file entered them. */
  ghost predicate Seen(f: File, n: nat, name: Name, total: int)
    requires GoodFile(f) && n <= f.Count()
    decreases n, 3
  {
    total in Totals(f.before, name) || exists k :: 0 <= k < n && total >= 0 && Enters(f, k, name, total)
  }

  /** A block whose name and total were seen. */
  ghost predicate Duplicate(f: File, k: nat)
    requires GoodFile(f) && k < f.Count()
    decreases k, 4
  {
    var s := f.Syms()[k];
    s.typ == N_BINCL && Kept(f.env, s) && Alone(f, k) && Seen(f, k, s.name, Total(f.Syms(), k))
  }

  /** Symbol j is directly in a duplicate block among the first n symbols, or ends it. */
  ghost predicate Dropped(f: File, n: nat, j: nat)
    requires GoodFile(f) && n <= f.Count() && j < f.Count()
    decreases n, 1
  {
    exists k :: 0 <= k < n && Duplicate(f, k) && Within(f.Syms(), k, j)
  }

  // Facts about types ---------------------------------------------------------------------------------

  lemma MarkTypes(t: nat)
    requires IsMark(t)
    ensures SectionOf(t) == Some(Abs) && IsStab(t) && !Redirects(t) && SetSection(t).None?
  {
  }

  /** Only marks come out as marks, and only references as references. */
  lemma ClassifyPlain(env: Env, input: Input, sym: Nlist, k: Option<HashKind>)
    requires sym.typ < 256
    ensures var c := Classify(env, input, sym, k);
      && (IsMark(sym.typ) ==> c.typ == sym.typ)
      && (!IsMark(sym.typ) ==> !IsMark(c.typ))
      && (c.typ == N_EXCL <==> sym.typ == N_EXCL)
      && !(c.pass && c.skip) && (c.pass || c.skip ==> Redirects(sym.typ)) && (k.None? ==> !c.skip)
  {
    if IsMark(sym.typ) { MarkTypes(sym.typ); }
    assert SectionOf(N_EXCL) == Some(Abs) && SectionOf(N_BINCL) == Some(Abs) && SectionOf(N_EINCL) == Some(Abs);
  }

  /** What Classify says of symbol i. */
  lemma ClassFacts(f: File, i: nat)
    requires GoodFile(f) && i < f.Count()
    ensures var c, t := ClassOf(f, i), f.Syms()[i].typ;
      && (c.typ == N_BINCL <==>
        t == N_BINCL) && (c.typ == N_EINCL <==> t == N_EINCL) && (c.typ == N_EXCL <==> t == N_EXCL)
      && !(c.pass && c.skip) && (c.pass || c.skip ==> Redirects(t)) && (f.hashes[i].None? ==> !c.skip)
  {
    hide Classify, Redirects, Resolve;
    ClassifyPlain(f.env, f.input, f.Syms()[i], KindOf(f.env, f.hashes[i]));
  }

  lemma MarkCopies(f: File, i: nat)
    requires GoodFile(f) && i < f.Count() && IsMark(f.Syms()[i].typ)
    ensures f.hashes[i].None? && (Copies(f, i) <==> Kept(f.env, f.Syms()[i])) && !Redirects(f.Syms()[i].typ)
  {
    hide Classify, Resolve, TypeBits;
    MarkTypes(f.Syms()[i].typ);
    ClassFacts(f, i);
  }

  // One more symbol -------------------------------------------------------------------------------------

  /** An ordinary symbol at the end does not matter to what is open before it. */
  lemma {:induction false} OwnPlainLast(syms: seq<Nlist>, a: nat, j: nat)
    requires a <= j < |syms| && !IsMark(syms[j].typ)
    ensures Own(syms, a, j + 1) == Own(syms, a, j)
    decreases j - a
  {
    if a < j {
      OwnPlainLast(syms, a + 1, j);
    } else {
      assert Own(syms, j + 1, j + 1) == Some(0);
    }
  }

  /** A symbol after a redirecting one is not dropped unless that one is. */
  lemma DroppedNext(f: File, i: nat)
    requires GoodFile(f) && 0 < i < f.Count() && Redirects(f.Syms()[i - 1].typ) && Dropped(f, i, i)
    ensures Dropped(f, i - 1, i - 1)
  {
    hide Duplicate;
    if IsMark(f.Syms()[i - 1].typ) { MarkTypes(f.Syms()[i - 1].typ); }
    var k :| 0 <= k < i && Duplicate(f, k) && Within(f.Syms(), k, i);
    DuplicateIsStart(f, k);
    assert k < i - 1;
    OwnPlainLast(f.Syms(), k + 1, i - 1);
    assert Within(f.Syms(), k, i - 1);
  }

  lemma DuplicateIsStart(f: File, k: nat)
    requires GoodFile(f) && k < f.Count() && Duplicate(f, k)
    ensures f.Syms()[k].typ == N_BINCL && Kept(f.env, f.Syms()[k]) && Alone(f, k)
  {
    hide Alone, Seen, Kept, Total;
  }

  /** At most one of the three ways not to be handled for itself applies. */
  lemma OneWay(f: File, i: nat)
    requires GoodFile(f) && i < f.Count()
    ensures !(Passed(f, i) && Skipped(f, i)) && (Dropped(f, i, i) ==> !Passed(f, i) && !Skipped(f, i))
  {
    hide Dropped, Redirects, Copies, WrittenBefore, ClassOf;
    if i > 0 && Alone(f, i - 1) {
      ClassFacts(f, i - 1);
      if Dropped(f, i, i) && Redirects(f.Syms()[i - 1].typ) { DroppedNext(f, i); }
    }
  }

  lemma SeenNext(f: File, i: nat, name: Name, total: int)
    requires GoodFile(f) && i < f.Count()
    ensures Seen(f, i + 1, name, total) <==> Seen(f, i, name, total) || (total >= 0 && Enters(f, i, name, total))
  {
    hide Enters, Totals;
  }

  lemma DroppedGrows(f: File, i: nat, j: nat)
    requires GoodFile(f) && i < f.Count() && j < f.Count()
    ensures Dropped(f, i + 1, j) <==> Dropped(f, i, j) || (Duplicate(f, i) && Within(f.Syms(), i, j))
  {
    hide Duplicate, Within;
  }

  lemma WrittenNext(f: File, i: nat, h: nat)
    requires GoodFile(f) && i < f.Count() && h < |f.entries|
    ensures WrittenAt(f, i + 1, h) <==> WrittenAt(f, i, h) || (f.hashes[i] == Some(h) && Alone(f, i))
  {
    hide Alone;
  }

  // Marks ------------------------------------------------------------------------------------------------

  /** No mark directly follows a symbol that can have the next one passed through or skipped. */
  ghost predicate PlainMarks(syms: seq<Nlist>) {
    forall i :: 0 < i < |syms| && IsMark(syms[i].typ) ==> !Redirects(syms[i - 1].typ)
  }

  lemma MarkAlone(f: File, i: nat)
    requires GoodFile(f) && i < f.Count() && PlainMarks(f.Syms()) && IsMark(f.Syms()[i].typ)
    ensures !Passed(f, i) && !Skipped(f, i)
  {
    hide Redirects, WrittenBefore, Copies, Duplicate;
    if i > 0 { ClassFacts(f, i - 1); }
  }

  /** A start that is neither passed through nor skipped is not dropped either. */
  lemma StartAlone(f: File, i: nat)
    requires GoodFile(f) && i < f.Count() && f.Syms()[i].typ == N_BINCL && !Passed(f, i) && !Skipped(f, i)
    ensures Alone(f, i)
  {
    hide Passed, Skipped, Duplicate;
  }

  // The walk does what was told --------------------------------------------------------------------------

  ghost predicate Shaped(f: File, w: Walk) {
    GoodFile(f) && Fits(f.env, f.input, w)
  }

  /** At symbol i the walk is as told. */
  ghost predicate AsTold(f: File, i: nat, w: Walk)
    requires Shaped(f, w) && i <= f.Count()
  {
    && TableAt(f, i, w) && EntriesAt(f, i, w)
    && (forall j :: i <= j < f.Count() ==> w.cells[j] == if Dropped(f, i, j) then -1 else 0)
    && (forall j :: i <= j < f.Count() ==> w.hashes[j] == f.hashes[j])
    && w.pass == Passed(f, i) && w.skip == Skipped(f, i)
  }

  ghost predicate TableAt(f: File, i: nat, w: Walk)
    requires Shaped(f, w) && i <= f.Count()
  {
    forall name, total {:trigger Seen(f, i, name, total)} {:trigger total in Totals(w.st.includes, name)} ::
      total in Totals(w.st.includes, name) <==> Seen(f, i, name, total)
  }

  ghost predicate EntriesAt(f: File, i: nat, w: Walk)
    requires Shaped(f, w) && i <= f.Count()
  {
    forall h :: 0 <= h < |f.entries| ==> (w.st.entries[h].written <==> WrittenAt(f, i, h))
  }

  /** Symbol i is written. */
  ghost predicate Emits(f: File, i: nat)
    requires GoodFile(f) && i < f.Count()
  {
    Passed(f, i) || (Alone(f, i) && !WrittenBefore(f, i) && Copies(f, i))
  }

  /** What is written for symbol i: the symbol as it stands, a block with its total, a reference, or its image. */
  ghost function Output(f: File, i: nat): Nlist
    requires GoodFile(f) && i < f.Count()
  {
    var sym, c := f.Syms()[i], ClassOf(f, i);
    var image := Nlist(c.typ, sym.other, sym.desc, OutName(f.env, sym, f.hashes[i]), c.value);
    if Passed(f, i) then sym
    else if sym.typ != N_BINCL then image
    else image.(typ := if Duplicate(f, i) then N_EXCL else N_BINCL, value := Total(f.Syms(), i))
  }

  /** The part of a step's effect that depends on the fate of symbol i. */
  ghost predicate Does(f: File, i: nat, w: Walk, r: Walk)
    requires Shaped(f, w) && Shaped(f, r) && i < f.Count()
  {
    && r.st.syms == w.st.syms + (if Emits(f, i) then [Output(f, i)] else [])
    && r.pass == Passed(f, i + 1) && r.skip == Skipped(f, i + 1)
    && r.st.includes == TableAfter(f, i, w.st.includes)
    && (forall j :: i < j < f.Count() ==>
          r.cells[j] == if Duplicate(f, i) && Within(f.Syms(), i, j) then -1 else w.cells[j])
    && (forall h :: 0 <= h < |f.entries| ==>
          (r.st.entries[h].written <==> w.st.entries[h].written || (f.hashes[i] == Some(h) && Alone(f, i))))
  }

  /** A new block is entered under its name. */
  ghost function TableAfter(f: File, i: nat, includes: Includes): Includes
    requires GoodFile(f) && i < f.Count()
  {
    var s := f.Syms()[i];
    if s.typ == N_BINCL && Kept(f.env, s) && Alone(f, i) && !Duplicate(f, i)
    then includes[s.name := [Total(f.Syms(), i)] + Totals(includes, s.name)] else includes
  }

  /** A symbol that is dropped, passed through or skipped leaves the tables as they are. */
  lemma NotAlone(f: File, i: nat)
    requires GoodFile(f) && i < f.Count() && !Alone(f, i)
    ensures !Passed(f, i + 1) && !Skipped(f, i + 1) && !Duplicate(f, i)
    ensures forall includes: Includes :: TableAfter(f, i, includes) == includes
    ensures Emits(f, i) <==> Passed(f, i)
  {
    hide Alone, Seen, Kept, Total, WrittenBefore, Copies, ClassOf, Dropped;
  }

  lemma StepNotAlone(f: File, i: nat, w: Walk)
    requires Shaped(f, w) && i < f.Count() && AsTold(f, i, w) && !Alone(f, i)
    ensures Does(f, i, w, Step(f.env, f.input, i, w))
  {
    hide Named, Dropped, Passed, Skipped, Duplicate, TableAt, EntriesAt, TableAfter, Emits, Within, ClassOf;
    NotAlone(f, i);
    OneWay(f, i);
    assert w.st.syms + [] == w.st.syms;
    if Passed(f, i) { OutputPassed(f, i); }
  }

  lemma OutputPassed(f: File, i: nat)
    requires GoodFile(f) && i < f.Count() && Passed(f, i)
    ensures Output(f, i) == f.Syms()[i]
  {
  }

  /** What handling a symbol for itself means for it and the next one. */
  lemma AloneNext(f: File, i: nat)
    requires GoodFile(f) && i < f.Count() && Alone(f, i)
    ensures var wb, c := WrittenBefore(f, i), ClassOf(f, i);
      && (Passed(f, i + 1) <==> !wb && Copies(f, i) && c.pass)
      && (Skipped(f, i + 1) <==> if wb then Redirects(f.Syms()[i].typ) else Copies(f, i) && c.skip)
      && (Emits(f, i) <==> !wb && Copies(f, i))
  {
    hide Dropped, WrittenBefore, Copies, ClassOf, Redirects;
  }

  /** The walk's view of symbol i, when it is handled for itself. */
  ghost predicate Ready(f: File, i: nat, w: Walk)
    requires Shaped(f, w) && i < f.Count()
  {
    var sym, h := f.Syms()[i], f.hashes[i];
    && !w.pass && !w.skip && w.cells[i] == 0 && w.hashes[i] == h
    && (h.Some? ==> (w.st.entries[h.value].written <==> WrittenBefore(f, i)))
    && (sym.typ == N_BINCL ==> h.None?)
    && (Total(f.Syms(), i) in Totals(w.st.includes, sym.name) <==> Seen(f, i, sym.name, Total(f.Syms(), i)))
  }

  lemma AloneReady(f: File, i: nat, w: Walk)
    requires Shaped(f, w) && i < f.Count() && AsTold(f, i, w) && Alone(f, i)
    ensures Ready(f, i, w)
  {
    hide Dropped, WrittenAt, Seen, Total, Totals;
    AloneFacts(f, i);
    if IsMark(f.Syms()[i].typ) { MarkCopies(f, i); }
  }

  /** A symbol whose entry is written, or that is stripped or discarded. */
  lemma StepLeftOut(f: File, i: nat, w: Walk)
    requires Shaped(f, w) && i < f.Count() && Ready(f, i, w) && Alone(f, i) && (WrittenBefore(f, i) || !Copies(f, i))
    ensures Does(f, i, w, Step(f.env, f.input, i, w))
  {
    hide Alone, Passed, Skipped, Dropped, WrittenBefore, Emits, Output, Seen, Total, Totals, Within, Classify, Stripped,
      Discarded, Resolve, Redirects, OutName, Kept, Header, TableAfter, Duplicate;
    AloneNext(f, i);
    ClassFacts(f, i);
    assert w.st.syms + [] == w.st.syms;
    if f.Syms()[i].typ == N_BINCL {
      MarkCopies(f, i);
      LocalNotWritten(f, i);
    }
    LeftOutTable(f, i, w.st.includes);
    if f.hashes[i].None? { LocalNotWritten(f, i); }
  }

  lemma LocalNotWritten(f: File, i: nat)
    requires GoodFile(f) && i < f.Count() && f.hashes[i].None?
    ensures !WrittenBefore(f, i)
  {
  }

  lemma LeftOutTable(f: File, i: nat, includes: Includes)
    requires GoodFile(f) && i < f.Count() && (f.Syms()[i].typ == N_BINCL ==> !Kept(f.env, f.Syms()[i]))
    ensures TableAfter(f, i, includes) == includes && !Duplicate(f, i)
  {
    hide Alone, Seen, Kept, Total;
  }

  lemma OutputAlone(f: File, i: nat)
    requires GoodFile(f) && i < f.Count() && !Passed(f, i)
    ensures var sym, c := f.Syms()[i], ClassOf(f, i);
      var image := Nlist(c.typ, sym.other, sym.desc, OutName(f.env, sym, f.hashes[i]), c.value);
      Output(f, i) == if sym.typ != N_BINCL then image
                      else image.(typ := if Duplicate(f, i) then N_EXCL else N_BINCL, value := Total(f.Syms(), i))
  {
    hide Passed, Duplicate, Total, ClassOf, OutName;
  }

  /** A symbol that is written for itself. */
  lemma StepCopied(f: File, i: nat, w: Walk)
    requires Shaped(f, w) && i < f.Count() && Ready(f, i, w) && Alone(f, i) && !WrittenBefore(f, i) && Copies(f, i)
    ensures Does(f, i, w, Step(f.env, f.input, i, w))
  {
    hide Alone, Passed, Skipped, Dropped, WrittenBefore, Emits, Output, Seen, Total, Totals, Within, Classify, Stripped,
      Discarded, Resolve, Redirects, OutName, Kept, TableAfter, Duplicate;
    AloneNext(f, i);
    AloneFacts(f, i);
    OutputAlone(f, i);
    ClassFacts(f, i);
    if f.Syms()[i].typ == N_BINCL {
      MarkCopies(f, i);
      HeaderNames(f, i);
      StartTable(f, i, w.st.includes);
    } else {
      LeftOutTable(f, i, w.st.includes);
    }
  }

  lemma HeaderNames(f: File, i: nat)
    requires GoodFile(f) && i < f.Count() && f.hashes[i].None?
    ensures NameOf(f.env, f.Syms()[i], None) == OutName(f.env, f.Syms()[i], None) == f.Syms()[i].name
  {
  }

  lemma StartTable(f: File, i: nat, includes: Includes)
    requires GoodFile(f) && i < f.Count() && f.Syms()[i].typ == N_BINCL && Kept(f.env, f.Syms()[i]) && Alone(f, i)
    ensures Duplicate(f, i) <==> Seen(f, i, f.Syms()[i].name, Total(f.Syms(), i))
    ensures TableAfter(f, i, includes) == if Duplicate(f, i) then includes
      else includes[f.Syms()[i].name := [Total(f.Syms(), i)] + Totals(includes, f.Syms()[i].name)]
  {
    hide Alone, Seen, Kept, Total, Totals;
  }

  lemma StepAlone(f: File, i: nat, w: Walk)
    requires Shaped(f, w) && i < f.Count() && AsTold(f, i, w) && Alone(f, i)
    ensures Does(f, i, w, Step(f.env, f.input, i, w))
  {
    hide AsTold, Alone, Ready, Does, Step, WrittenBefore, Copies;
    AloneReady(f, i, w);
    if WrittenBefore(f, i) || !Copies(f, i) { StepLeftOut(f, i, w); } else { StepCopied(f, i, w); }
  }

  lemma AloneFacts(f: File, i: nat)
    requires GoodFile(f) && i < f.Count() && Alone(f, i)
    ensures !Passed(f, i) && !Skipped(f, i) && !Dropped(f, i, i)
  {
  }

  lemma StepDoes(f: File, i: nat, w: Walk)
    requires Shaped(f, w) && i < f.Count() && AsTold(f, i, w)
    ensures Does(f, i, w, Step(f.env, f.input, i, w))
  {
    hide Step, AsTold, Does;
    if Alone(f, i) { StepAlone(f, i, w); } else { StepNotAlone(f, i, w); }
  }

  /** The walk does at every symbol what was told. */
  lemma StepAt(f: File, i: nat, w: Walk)
    requires Shaped(f, w) && i < f.Count() && AsTold(f, i, w)
    ensures AsTold(f, i + 1, Step(f.env, f.input, i, w))
  {
    hide Step, Dropped, Seen, WrittenAt, Within, Passed, Skipped, Emits, Output, Alone, Kept, Total;
    StepDoes(f, i, w);
    var r := Step(f.env, f.input, i, w);
    forall name, total ensures total in Totals(r.st.includes, name) <==> Seen(f, i + 1, name, total) {
      SeenNext(f, i, name, total);
      assert total in Totals(w.st.includes, name) <==> Seen(f, i, name, total);
    }
    forall h | 0 <= h < |f.entries| ensures r.st.entries[h].written <==>
      WrittenAt(f, i + 1, h) { WrittenNext(f, i, h); }
    forall j | i < j < f.Count()
      ensures r.cells[j] == if Dropped(f, i + 1, j) then -1 else 0
      ensures r.hashes[j] == f.hashes[j]
    {
      DroppedGrows(f, i, j);
      StepFrame(f.env, f.input, i, w, j);
    }
  }

  /** The file as it is met in a state of the link. */
  function FileOf(env: Env, input: Input, hashes: seq<Option<nat>>, st: State): File {
    File(env, st.entries, st.includes, input, hashes)
  }

  function StartOf(f: File, syms: seq<Nlist>): Walk { Start(f.env, f.input, f.hashes, State(f.entries, syms,
      f.before)) }

  lemma StartAt(f: File, syms: seq<Nlist>)
    requires GoodFile(f)
    ensures Shaped(f, StartOf(f, syms)) && AsTold(f, 0, StartOf(f, syms))
  {
    hide FileSymbol;
  }

  lemma {:induction false} StepsAt(f: File, n: nat, w: Walk)
    requires Shaped(f, w) && n <= f.Count() && AsTold(f, 0, w)
    ensures AsTold(f, n, Steps(f.env, f.input, n, w))
  {
    hide Step, AsTold;
    if n > 0 {
      StepsAt(f, n - 1, w);
      StepAt(f, n - 1, Steps(f.env, f.input, n - 1, w));
    }
  }

  /** The symbols written for the first n symbols of the file. */
  ghost function Written(f: File, n: nat): seq<Nlist>
    requires GoodFile(f) && n <= f.Count()
  {
    if n == 0 then [] else Written(f, n - 1) + if Emits(f, n - 1) then [Output(f, n - 1)] else []
  }

  lemma {:induction false} StepsWrite(f: File, n: nat, w: Walk)
    requires Shaped(f, w) && n <= f.Count() && AsTold(f, 0, w)
    ensures Steps(f.env, f.input, n, w).st.syms == w.st.syms + Written(f, n)
  {
    hide Step, AsTold, Emits, Output;
    if n == 0 {
      assert w.st.syms + [] == w.st.syms;
    } else {
      var m := Steps(f.env, f.input, n - 1, w);
      StepsWrite(f, n - 1, w);
      StepsAt(f, n - 1, w);
      StepDoes(f, n - 1, m);
      Assoc(w.st.syms, Written(f, n - 1), if Emits(f, n - 1) then [Output(f, n - 1)] else []);
    }
  }

  /** A file's whole contribution to the symbol table: its name, and each symbol written, in order, as told. */
  lemma WritesAsTold(env: Env, input: Input, hashes: seq<Option<nat>>, st: State)
    requires GoodFile(FileOf(env, input, hashes, st))
    ensures var f := FileOf(env, input, hashes, st);
      WriteSymbols(env, input, hashes, st).st.syms == st.syms + FileSymbol(env, input) + Written(f, f.Count())
  {
    hide Steps, AsTold, Written, FileSymbol;
    var f := FileOf(env, input, hashes, st);
    StartAt(f, st.syms);
    StepsWrite(f, f.Count(), StartOf(f, st.syms));
  }

  /** And the table of totals after it holds what was in it before and the blocks the file entered. */
  lemma TableAsTold(env: Env, input: Input, hashes: seq<Option<nat>>, st: State, name: Name, total: int)
    requires GoodFile(FileOf(env, input, hashes, st))
    ensures var f := FileOf(env, input, hashes, st);
      total in Totals(WriteSymbols(env, input, hashes, st).st.includes, name) <==> Seen(f, f.Count(), name, total)
  {
    hide Steps, Seen;
    var f := FileOf(env, input, hashes, st);
    StartAt(f, st.syms);
    StepsAt(f, f.Count(), StartOf(f, st.syms));
  }
}
