/** What each copied symbol holds: when a section symbol of an a.out input is relocated (bfd/aoutx.h). */
module AoutCopied {
  import opened Bytes
  import opened AoutReloc
  import opened AoutStabs
  import opened AoutSymbols
  import opened AoutFate

  /** Step i writes a symbol of its own. */
  ghost predicate Emitted(env: Env, input: Input, i: nat, w: Walk)
    requires Fits(env, input, w) && i < |input.syms|
  {
    Step(env, input, i, w).st.syms != w.st.syms
  }

  /** The symbol that is written when symbol i is not passed through. */
  function Image(env: Env, input: Input, i: nat, h: Option<nat>): Nlist
    requires GoodEnv(env) && i < |input.syms| && (h.Some? ==> h.value < |env.table|)
  {
    var sym := input.syms[i];
    var c := Classify(env, input, sym, KindOf(env, h));
    Nlist(c.typ, sym.other, sym.desc, OutName(env, sym, h), c.value)
  }

  /** One step: the symbol as it stands if it is passed through, else its image; header starts have their total. */
  lemma StepHolds(env: Env, input: Input, i: nat, w: Walk)
    requires Fits(env, input, w) && i < |input.syms| && Emitted(env, input, i, w)
    ensures var r, image := Step(env, input, i, w), Image(env, input, i, w.hashes[i]);
      && |r.st.syms| == |w.st.syms| + 1 && r.st.syms[..|w.st.syms|] == w.st.syms && r.cells[i] == |w.st.syms|
      && var x := r.st.syms[|w.st.syms|];
        if w.pass then x == input.syms[i]
        else if image.typ == N_BINCL then x == image.(typ := x.typ, value := Total(input.syms, i))
        else x == image
  {
    hide Named, Image;
    if !w.pass { NamedHolds(env, input, i, w.(cells := w.cells[i := -1])); }
  }

  lemma NamedHolds(env: Env, input: Input, i: nat, w: Walk)
    requires Fits(env, input, w) && i < |input.syms| && !w.pass && !w.skip
    ensures var r, image := Named(env, input, i, w), Image(env, input, i, w.hashes[i]);
      r.st.syms != w.st.syms ==>
        && |r.st.syms| == |w.st.syms| + 1 && r.st.syms[..|w.st.syms|] == w.st.syms && r.cells[i] == |w.st.syms|
        && var x := r.st.syms[|w.st.syms|];
          if image.typ == N_BINCL then x == image.(typ := x.typ, value := Total(input.syms, i)) else x == image
  {
    hide Classify, Stripped, Discarded, Resolve, OutName, NameOf, Redirects, Total, Totals, Within, MarkedCells;
  }

  /** When the next symbol will be passed through. */
  lemma StepPasses(env: Env, input: Input, i: nat, w: Walk)
    requires Fits(env, input, w) && i < |input.syms| && w.cells[i] != -1
    ensures Step(env, input, i, w).pass <==>
      !w.pass && !w.skip && Emitted(env, input, i, w) &&
        Classify(env, input, input.syms[i], KindOf(env, w.hashes[i])).pass
  {
    hide Classify, Stripped, Discarded, Resolve, OutName, NameOf, Redirects, Total, Totals, Within;
  }

  lemma StepExtends(env: Env, input: Input, i: nat, w: Walk)
    requires Fits(env, input, w) && i < |input.syms|
    ensures w.st.syms <= Step(env, input, i, w).st.syms
  {
    hide Step;
    if Emitted(env, input, i, w) { StepHolds(env, input, i, w); }
  }

  /** What step i wrote stays where it is. */
  lemma {:induction false} StepsHold(env: Env, input: Input, n: nat, w: Walk, i: nat)
    requires Fits(env, input, w) && i < n <= |input.syms|
    ensures var m, r := Steps(env, input, i + 1, w), Steps(env, input, n, w);
      m.st.syms <= r.st.syms && r.cells[i] == m.cells[i]
  {
    hide Step;
    if i + 1 < n {
      StepsHold(env, input, n - 1, w, i);
      StepExtends(env, input, n - 1, Steps(env, input, n - 1, w));
      StepFrame(env, input, n - 1, Steps(env, input, n - 1, w), i);
    }
  }

  lemma ImageOfSection(env: Env, input: Input, i: nat, h: Option<nat>, k: SecKind)
    requires GoodEnv(env) && i < |input.syms| && (h.Some? ==> h.value < |env.table|)
    requires SectionOf(input.syms[i].typ) == Some(k)
    ensures var image := Image(env, input, i, h);
      image.typ == input.syms[i].typ && image.value == Moved(input, input.syms[i], k)
  {
    hide SectionOf, OutName;
  }

  /**
   * After all n symbols, the slot of a copied section symbol holds its own value if it was passed through, else the
   * moved one.
   */
  lemma SectionSymbolHeld(env: Env, input: Input, n: nat, w: Walk, i: nat, k: SecKind)
    requires Fits(env, input, w) && i < n <= |input.syms| && Emitted(env, input, i, Steps(env, input, i, w))
    requires input.syms[i].typ != N_BINCL && SectionOf(input.syms[i].typ) == Some(k)
    ensures var m, r := Steps(env, input, i, w), Steps(env, input, n, w);
      && r.cells[i] == |m.st.syms| < |r.st.syms|
      && r.st.syms[r.cells[i]].typ == input.syms[i].typ
      && r.st.syms[r.cells[i]].value == if m.pass then input.syms[i].value else Moved(input, input.syms[i], k)
  {
    hide Step, Classify, SectionOf, OutName, NewVma;
    var m := Steps(env, input, i, w);
    StepHolds(env, input, i, m);
    ImageOfSection(env, input, i, m.hashes[i], k);
    StepsHold(env, input, n, w, i);
  }

  /** All copied section symbols have moved with their sections. */
  ghost predicate AllMoved(env: Env, input: Input, w: Walk)
    requires Fits(env, input, w)
  {
    var r := Steps(env, input, |input.syms|, w);
    forall i :: 0 <= i < |input.syms| && SectionSymbol(env, input, i, w) ==>
      r.cells[i] >= 0 && r.cells[i] < |r.st.syms|
      && r.st.syms[r.cells[i]].value == Moved(input, input.syms[i], SectionOf(input.syms[i].typ).value)
  }

  ghost predicate SectionSymbol(env: Env, input: Input, i: nat, w: Walk)
    requires Fits(env, input, w) && i < |input.syms|
  {
    && Emitted(env, input, i, Steps(env, input, i, w))
    && input.syms[i].typ != N_BINCL && SectionOf(input.syms[i].typ).Some?
  }

  lemma MovedUnlessPassed(env: Env, input: Input, w: Walk, i: nat)
    requires Fits(env, input, w) && i < |input.syms| && SectionSymbol(env, input, i, w)
    ensures var m, r := Steps(env, input, i, w), Steps(env, input, |input.syms|, w);
      var k := SectionOf(input.syms[i].typ).value;
      && 0 <= r.cells[i] < |r.st.syms|
      && (r.st.syms[r.cells[i]].value == Moved(input, input.syms[i], k) <==> !m.pass || Move(input.link, k) == 0)
  {
    hide Emitted, Steps, SectionOf, NewVma;
    SectionSymbolHeld(env, input, |input.syms|, w, i, SectionOf(input.syms[i].typ).value);
  }

  /** Symbol i names a section that moves, and is passed through. */
  ghost predicate LeftBehind(f: File, i: nat)
    requires GoodFile(f) && i < f.Count()
  {
    var t := f.Syms()[i].typ;
    t != N_BINCL && SectionOf(t).Some? && Move(f.input.link, SectionOf(t).value) != 0 && Passed(f, i)
  }

  /** The walk's own flags at symbol i are those told from the file. */
  lemma FlagsTold(f: File, i: nat, w: Walk)
    requires Shaped(f, w) && AsTold(f, 0, w) && i < f.Count()
    ensures var m := Steps(f.env, f.input, i, w);
      m.pass == Passed(f, i) && (Emitted(f.env, f.input, i, m) <==> Emits(f, i))
  {
    hide Passed, Skipped, Emits, Step, Dropped, TableAt, EntriesAt;
    var m := Steps(f.env, f.input, i, w);
    StepsAt(f, i, w);
    StepDoes(f, i, m);
  }

  lemma PassedEmits(f: File, i: nat)
    requires GoodFile(f) && i < f.Count() && Passed(f, i)
    ensures Emits(f, i)
  {
  }

  /** All copied section symbols have moved exactly if none is left behind; which is told before the walk starts. */
  lemma AllMovedIff(f: File, syms: seq<Nlist>)
    requires GoodFile(f)
    ensures Shaped(f, StartOf(f, syms))
    ensures AllMoved(f.env, f.input, StartOf(f, syms)) <==> forall i :: 0 <= i < f.Count() ==> !LeftBehind(f, i)
  {
    hide Emitted, Steps, SectionOf, NewVma, Passed, Emits, AsTold, Start;
    var w := StartOf(f, syms);
    StartAt(f, syms);
    forall i | 0 <= i < f.Count()
      ensures LeftBehind(f, i) ==> SectionSymbol(f.env, f.input, i, w)
      ensures SectionSymbol(f.env, f.input, i, w) ==>
        var r := Steps(f.env, f.input, f.Count(), w);
        && 0 <= r.cells[i] < |r.st.syms|
        && (r.st.syms[r.cells[i]].value == Moved(f.input, f.Syms()[i], SectionOf(f.Syms()[i].typ).value) <==>
              !LeftBehind(f, i))
    {
      FlagsTold(f, i, w);
      if Passed(f, i) { PassedEmits(f, i); }
      if SectionSymbol(f.env, f.input, i, w) { MovedUnlessPassed(f.env, f.input, w, i); }
    }
  }

  /** After a local symbol: the next is passed through exactly if this one redirects and is written for itself. */
  lemma LocalPassed(f: File, i: nat)
    requires GoodFile(f) && 0 < i < f.Count() && f.hashes[i - 1].None?
    ensures !Skipped(f, i)
    ensures Passed(f, i) <==>
      Alone(f, i - 1) && Copies(f, i - 1) && Redirects(f.Syms()[i - 1].typ)
  {
    hide Alone, Copies, Redirects, Classify;
    LocalNotWritten(f, i - 1);
    ClassifyPasses(f.env, f.input, f.Syms()[i - 1], None);
  }

  lemma ClassifyPasses(env: Env, input: Input, sym: Nlist, k: Option<HashKind>)
    ensures var c := Classify(env, input, sym, k);
      && (c.pass || c.skip ==> Redirects(sym.typ))
      && (k.None? ==> (c.pass <==> Redirects(sym.typ)) && !c.skip)
  {
  }

  /** Only a symbol with the type bits of N_INDR, or N_WARNING, has the next one passed through. */
  lemma {:induction false} NeverPasses(env: Env, input: Input, n: nat, w: Walk)
    requires Fits(env, input, w) && n <= |input.syms| && !w.pass
    requires forall i :: 0 <= i < n ==> !Redirects(input.syms[i].typ)
    ensures !Steps(env, input, n, w).pass
  {
    hide Step, Classify, Redirects;
    if n > 0 {
      NeverPasses(env, input, n - 1, w);
      var m := Steps(env, input, n - 1, w);
      ClassifyPasses(env, input, input.syms[n - 1], KindOf(env, m.hashes[n - 1]));
      if m.cells[n - 1] != -1 {
        StepPasses(env, input, n - 1, m);
      } else {
        MarkedStays(env, input, n - 1, m);
      }
    }
  }

  lemma MarkedStays(env: Env, input: Input, i: nat, w: Walk)
    requires Fits(env, input, w) && i < |input.syms| && w.cells[i] == -1
    ensures Step(env, input, i, w) == w
  {
  }

  /** So in a file without such symbols every copied section symbol moves with its section. */
  lemma PlainFileMoves(env: Env, input: Input, w: Walk)
    requires Fits(env, input, w) && !w.pass && forall i :: 0 <= i < |input.syms| ==> !Redirects(input.syms[i].typ)
    ensures AllMoved(env, input, w)
  {
    hide Emitted, Steps, Redirects, SectionOf, NewVma, SectionSymbol;
    forall i | 0 <= i < |input.syms| && SectionSymbol(env, input, i, w)
      ensures var r := Steps(env, input, |input.syms|, w);
        && 0 <= r.cells[i] < |r.st.syms| && SectionOf(input.syms[i].typ).Some?
        && r.st.syms[r.cells[i]].value == Moved(input, input.syms[i], SectionOf(input.syms[i].typ).value)
    {
      NeverPasses(env, input, i, w);
      IsOfSection(env, input, w, i);
      MovedUnlessPassed(env, input, w, i);
    }
  }

  lemma IsOfSection(env: Env, input: Input, w: Walk, i: nat)
    requires Fits(env, input, w) && i < |input.syms| && SectionSymbol(env, input, i, w)
    ensures SectionOf(input.syms[i].typ).Some?
  {
    hide Emitted, Steps, SectionOf;
  }

  /** A local symbol that is kept: written, and passing the next one on exactly if its type redirects. */
  lemma LocalStep(env: Env, input: Input, i: nat, w: Walk)
    requires Fits(env, input, w) && i < |input.syms| && env.strip == StripNone && env.discard != DiscardAll
    requires w.cells[i] != -1 && !w.pass && !w.skip && w.hashes[i].None?
    requires IsStab(input.syms[i].typ) && input.syms[i].typ < 256
    ensures Emitted(env, input, i, w)
    ensures var r := Step(env, input, i, w);
      (r.pass <==> Redirects(input.syms[i].typ)) && !r.skip
  {
    hide Classify, Resolve, Total, Totals, Within, Redirects, SectionOf, IsStab;
    ClassifyPasses(env, input, input.syms[i], None);
    StabStays(env, input, input.syms[i]);
  }

  lemma StabStays(env: Env, input: Input, sym: Nlist)
    requires IsStab(sym.typ) && sym.typ < 256
    ensures Classify(env, input, sym, None).typ == sym.typ
  {
  }

  /**
   * Of two kept debugging symbols in a row, the second, if its type names a section, is copied as it stands if the
   * first has the type bits of N_INDR, and otherwise moves with its section.
   */
  lemma AfterStabExact(env: Env, input: Input, i: nat, w: Walk, k: SecKind)
    requires Fits(env, input, w) && i + 1 < |input.syms| && env.strip == StripNone && env.discard != DiscardAll
    requires w.cells[i] == w.cells[i + 1] == 0 && !w.pass && !w.skip && w.hashes[i].None? && w.hashes[i + 1].None?
    requires IsStab(input.syms[i].typ) && IsStab(input.syms[i + 1].typ) && input.syms[i].typ < 256
    requires input.syms[i + 1].typ < 256
    requires input.syms[i].typ != N_BINCL && input.syms[i + 1].typ != N_BINCL
    requires SectionOf(input.syms[i + 1].typ) == Some(k)
    ensures var r, s := Step(env, input, i + 1, Step(env, input, i, w)), input.syms[i + 1];
      && |r.st.syms| == |w.st.syms| + 2
      && r.st.syms[|w.st.syms| + 1] ==
           if TypeBits(input.syms[i].typ) == N_INDR then s else s.(value := Moved(input, s, k))
  {
    hide Classify, SectionOf, NewVma, TypeBits, Named;
    var m := Step(env, input, i, w);
    LocalStep(env, input, i, w);
    StepHolds(env, input, i, w);
    NextUntouched(env, input, i, w);
    assert Redirects(input.syms[i].typ) <==> TypeBits(input.syms[i].typ) == N_INDR;
    if m.pass {
      PassedOn(env, input, i + 1, m);
    } else {
      LocalStep(env, input, i + 1, m);
    }
    StepHolds(env, input, i + 1, m);
    ImageOfSection(env, input, i + 1, None, k);
  }

  lemma NextUntouched(env: Env, input: Input, i: nat, w: Walk)
    requires Fits(env, input, w) && i + 1 < |input.syms| && w.hashes[i].None? && input.syms[i].typ != N_BINCL
    requires IsStab(input.syms[i].typ) && input.syms[i].typ < 256
    ensures var r := Step(env, input, i, w);
      r.cells[i + 1] == w.cells[i + 1] && r.hashes[i + 1] == w.hashes[i + 1]
  {
    hide Classify, Resolve, Header, Redirects;
    StabStays(env, input, input.syms[i]);
  }

  lemma PassedOn(env: Env, input: Input, i: nat, w: Walk)
    requires Fits(env, input, w) && i < |input.syms| && w.cells[i] != -1 && w.pass
    ensures Emitted(env, input, i, w)
  {
    hide Named;
  }

  /** N_MAIN, a debugging symbol, has N_INDR's type bits: an N_FUN after it keeps its old address. */
  lemma AfterMain(env: Env, input: Input, i: nat, w: Walk)
    requires Fits(env, input, w) && i + 1 < |input.syms| && env.strip == StripNone && env.discard != DiscardAll
    requires w.cells[i] == w.cells[i + 1] == 0 && !w.pass && !w.skip && w.hashes[i].None? && w.hashes[i + 1].None?
    requires input.syms[i].typ == 0x2a && input.syms[i + 1].typ == 0x24
    ensures var r, s := Step(env, input, i + 1, Step(env, input, i, w)), input.syms[i + 1];
      |r.st.syms| == |w.st.syms| + 2 && r.st.syms[|w.st.syms| + 1] == s
  {
    hide Step;
    assert IsStab(0x2a) && IsStab(0x24) && SectionOf(0x24) == Some(Text) && TypeBits(0x2a) == N_INDR;
    AfterStabExact(env, input, i, w, Text);
  }
}
