/** When the header blocks in an a.out link's output are well nested (bfd/aoutx.h). */
module AoutNesting {
  import opened Bytes
  import opened AoutStabs
  import opened AoutSymbols
  import opened AoutFate
  import opened AoutDedup
  import opened AoutBlocks

  // The open blocks -----------------------------------------------------------------------------

  /** The blocks open before symbol i, innermost first. */
  function Opens(syms: seq<Nlist>, i: nat): (r: seq<nat>)
    requires i <= |syms|
    ensures forall c :: 0 <= c < |r| ==> r[c] < i && syms[r[c]].typ == N_BINCL
  {
    if i == 0 then []
    else
      var r := Opens(syms, i - 1);
      if syms[i - 1].typ == N_BINCL then [i - 1] + r
      else if syms[i - 1].typ == N_EINCL then if r == [] then [] else r[1..]
      else r
  }

  lemma OpensNext(syms: seq<Nlist>, i: nat)
    requires i < |syms|
    ensures var r, q, t := Opens(syms, i), Opens(syms, i + 1), syms[i].typ;
      && (t == N_BINCL ==> |q| == |r| + 1 && q[0] == i && q[1..] == r)
      && (t == N_EINCL ==> q == if r == [] then [] else r[1..])
      && (!IsMark(t) ==> q == r)
  {
  }

  lemma OwnStep(syms: seq<Nlist>, i: nat, j: nat)
    requires i < j < |syms|
    ensures var c, d, t := Own(syms, i, j), Own(syms, i + 1, j), syms[i].typ;
      && (t == N_BINCL ==> c == Less(d, 1))
      && (t == N_EINCL ==> c == if d.Some? then Some(d.value + 1) else None)
      && (!IsMark(t) ==> c == d)
  {
  }

  /** The c-th open block owns what is c levels up from here. */
  lemma {:induction false} OpenOwns(syms: seq<Nlist>, i: nat, c: nat, j: nat)
    requires i <= j < |syms| && c < |Opens(syms, i)|
    ensures Own(syms, Opens(syms, i)[c] + 1, j) == Less(Own(syms, i, j), c)
    decreases i
  {
    hide Opens, Own;
    if i == 0 {
      NoneOpen(syms);
    } else {
      OpensNext(syms, i - 1);
      OwnStep(syms, i - 1, j);
      var t, r, q := syms[i - 1].typ, Opens(syms, i - 1), Opens(syms, i);
      if t == N_BINCL {
        if c > 0 {
          assert q[c] == q[1..][c - 1];
          OpenOwns(syms, i - 1, c - 1, j);
        }
      } else if t == N_EINCL {
        OpenOwns(syms, i - 1, c + 1, j);
      } else {
        OpenOwns(syms, i - 1, c, j);
      }
    }
  }

  /** A block stays open until its end. */
  lemma StaysOpen(syms: seq<Nlist>, i: nat, k: nat)
    requires i < |syms| && (k in Opens(syms, i) || (k == i && syms[i].typ == N_BINCL))
    ensures k in Opens(syms, i + 1) || (k < i && syms[i].typ == N_EINCL && Opens(syms, i)[0] == k)
  {
    var r := Opens(syms, i);
    if k in r && syms[i].typ == N_EINCL && r[0] != k {
      var c :| 0 <= c < |r| && r[c] == k;
      assert r[1..][c - 1] == k;
    }
  }

  /** A block that is not open any more owns nothing from here on. */
  lemma {:induction false} ClosedOwnsNothing(syms: seq<Nlist>, i: nat, k: nat, j: nat)
    requires k < i <= j < |syms| && syms[k].typ == N_BINCL && k !in Opens(syms, i)
    ensures Own(syms, k + 1, j) != Some(0)
    decreases i
  {
    hide Opens;
    if k < i - 1 && k !in Opens(syms, i - 1) {
      ClosedOwnsNothing(syms, i - 1, k, j);
    } else {
      StaysOpen(syms, i - 1, k);
      OpenOwns(syms, i - 1, 0, j);
    }
  }

  /** An end belongs to the innermost open block and to no other. */
  lemma EndOf(syms: seq<Nlist>, i: nat, k: nat)
    requires k < i < |syms| && syms[i].typ == N_EINCL && syms[k].typ == N_BINCL
    ensures Within(syms, k, i) <==> Opens(syms, i) != [] && Opens(syms, i)[0] == k
  {
    hide Opens;
    var r := Opens(syms, i);
    if k in r {
      var c :| 0 <= c < |r| && r[c] == k;
      OpenOwns(syms, i, c, i);
      if r[0] == k { OpenOwns(syms, i, 0, i); }
    } else {
      ClosedOwnsNothing(syms, i, k, i);
    }
  }

  /** In well-nested input every end finds an open block, and none is left open. */
  lemma {:induction false} OpensNest(syms: seq<Nlist>, i: nat)
    requires i <= |syms| && Nest(syms[..i]).Some?
    ensures Nest(syms[..i]) == Some(|Opens(syms, i)|)
  {
    if i > 0 {
      assert syms[..i] == syms[..i - 1] + [syms[i - 1]];
      NestFromSnoc(Some(0), syms[..i - 1], syms[i - 1]);
      OpensNest(syms, i - 1);
    }
  }

  lemma {:induction false} NestPrefix(syms: seq<Nlist>, n: nat)
    requires n <= |syms| && Nest(syms).Some?
    ensures Nest(syms[..n]).Some?
    decreases |syms|
  {
    if n < |syms| {
      NestPrefix(syms[..|syms| - 1], n);
      assert syms[..|syms| - 1][..n] == syms[..n];
    } else {
      assert syms[..n] == syms;
    }
  }

  lemma EndIsOpen(syms: seq<Nlist>, i: nat)
    requires i < |syms| && Nest(syms).Some? && syms[i].typ == N_EINCL
    ensures Opens(syms, i) != []
  {
    NestPrefix(syms, i + 1);
    NestPrefix(syms, i);
    assert syms[..i + 1] == syms[..i] + [syms[i]];
    NestFromSnoc(Some(0), syms[..i], syms[i]);
    OpensNest(syms, i);
  }

  // What survives ---------------------------------------------------------------------------------

  /** Mark i is written unless it is dropped with a duplicate block. */
  ghost predicate Goes(f: File, i: nat)
    requires GoodFile(f) && i < f.Count()
  {
    Passed(f, i) || (!Skipped(f, i) && Kept(f.env, f.Syms()[i]))
  }

  /** Symbol i is written as a mark. */
  ghost predicate Survives(f: File, i: nat)
    requires GoodFile(f) && i < f.Count()
  {
    IsMark(f.Syms()[i].typ) && Emits(f, i) && !Duplicate(f, i)
  }

  /** The marks among the first n symbols that survive. */
  ghost function Surviving(f: File, n: nat): seq<Nlist>
    requires GoodFile(f) && n <= f.Count()
  {
    if n == 0 then [] else Surviving(f, n - 1) + if Survives(f, n - 1) then [f.Syms()[n - 1]] else []
  }

  lemma StartSurvives(f: File, k: nat)
    requires GoodFile(f) && k < f.Count() && f.Syms()[k].typ == N_BINCL
    ensures Survives(f, k) <==> Goes(f, k) && !Duplicate(f, k)
    ensures Duplicate(f, k) ==> Goes(f, k)
  {
    hide Passed, Skipped, Seen, Dropped, Kept, Total, Emits;
    OutputKinds(f, k);
    NotBoth(f, k);
    if !Passed(f, k) && !Skipped(f, k) { StartAlone(f, k); }
  }

  /** An end survives if it goes and its block is no duplicate. */
  lemma EndSurvives(f: File, i: nat)
    requires GoodFile(f) && i < f.Count() && f.Syms()[i].typ == N_EINCL && Opens(f.Syms(), i) != []
    ensures Survives(f, i) <==> Goes(f, i) && !Duplicate(f, Opens(f.Syms(), i)[0])
  {
    hide Passed, Skipped, Dropped, Duplicate, Kept, Opens, Copies, WrittenBefore;
    EndDropped(f, i);
    OneWay(f, i);
    MarkCopies(f, i);
    LocalNotWritten(f, i);
    OnlyStartsRepeat(f, i);
  }

  lemma OnlyStartsRepeat(f: File, i: nat)
    requires GoodFile(f) && i < f.Count() && f.Syms()[i].typ != N_BINCL
    ensures !Duplicate(f, i)
  {
  }

  lemma EndDropped(f: File, i: nat)
    requires GoodFile(f) && i < f.Count() && f.Syms()[i].typ == N_EINCL && Opens(f.Syms(), i) != []
    ensures Dropped(f, i, i) <==> Duplicate(f, Opens(f.Syms(), i)[0])
  {
    hide Opens, Duplicate, Within;
    var top := Opens(f.Syms(), i)[0];
    EndOf(f.Syms(), i, top);
    if Dropped(f, i, i) {
      var k :| 0 <= k < i && Duplicate(f, k) && Within(f.Syms(), k, i);
      DuplicateIsStart(f, k);
      EndOf(f.Syms(), i, k);
    }
  }

  lemma NoneOpen(syms: seq<Nlist>)
    ensures Opens(syms, 0) == [] && NestFrom(Some(0), []) == Some(0)
  {
  }

  lemma SurvivingNest(f: File, i: nat)
    requires GoodFile(f) && i < f.Count()
    ensures Nest(Surviving(f, i + 1))
      == if Survives(f, i) then Opened(Nest(Surviving(f, i)), f.Syms()[i].typ) else Nest(Surviving(f, i))
  {
    hide Survives;
    var marks := Surviving(f, i);
    NestFromSnoc(Some(0), marks, f.Syms()[i]);
    assert marks + [] == marks;
  }

  lemma NoMarkSurvives(f: File, i: nat)
    requires GoodFile(f) && i < f.Count() && !IsMark(f.Syms()[i].typ)
    ensures !Survives(f, i)
  {
  }

  // Starts and ends kept alike ----------------------------------------------------------------------

  /** No block loses only its start or only its end. */
  ghost predicate KeptAlike(f: File)
    requires GoodFile(f)
  {
    forall k, j | 0 <= k < j < f.Count() && f.Syms()[k].typ == N_BINCL && f.Syms()[j].typ == N_EINCL ::
      Within(f.Syms(), k, j) ==> (Goes(f, k) <==> Goes(f, j))
  }

  /** The number of open blocks whose start survives. */
  ghost function Living(f: File, opens: seq<nat>): nat
    requires GoodFile(f) && forall c :: 0 <= c < |opens| ==> opens[c] < f.Count()
  {
    if opens == [] then 0 else Living(f, opens[1..]) + if Survives(f, opens[0]) then 1 else 0
  }

  lemma {:induction false} AlikeNest(f: File, n: nat)
    requires GoodFile(f) && n <= f.Count() && Nest(f.Syms()).Some? && KeptAlike(f)
    ensures Nest(Surviving(f, n)) == Some(Living(f, Opens(f.Syms(), n)))
  {
    hide Survives, Goes, Opens, NestFrom, Duplicate, Within;
    var syms := f.Syms();
    if n == 0 {
      NoneOpen(syms);
    } else {
      var i := n - 1;
      var r := Opens(syms, i);
      AlikeNest(f, i);
      SurvivingNest(f, i);
      OpensNext(syms, i);
      if syms[i].typ == N_EINCL {
        EndIsOpen(syms, i);
        EndSurvives(f, i);
        StartSurvives(f, r[0]);
        EndOf(syms, i, r[0]);
      } else if syms[i].typ != N_BINCL {
        NoMarkSurvives(f, i);
      }
    }
  }

  /** So a well-nested file whose blocks keep both their marks or neither leaves well-nested marks. */
  lemma AlikeWellNested(f: File)
    requires GoodFile(f) && WellNested(f.Syms()) && KeptAlike(f)
    ensures WellNested(Surviving(f, f.Count()))
  {
    hide Survives, Opens, NestFrom, KeptAlike;
    AlikeNest(f, f.Count());
    assert f.Syms()[..f.Count()] == f.Syms();
    OpensNest(f.Syms(), f.Count());
  }

  /** In a file in which no mark follows a redirecting symbol, the kept marks go. */
  lemma PlainGoes(f: File, i: nat)
    requires GoodFile(f) && i < f.Count() && PlainMarks(f.Syms()) && IsMark(f.Syms()[i].typ)
    ensures Goes(f, i) <==> Kept(f.env, f.Syms()[i])
  {
    hide Passed, Skipped, Kept, PlainMarks;
    MarkAlone(f, i);
  }

  /** Stripping and discarding treat all marks alike, unless symbols are kept by name. */
  lemma WholeStabsAlike(f: File)
    requires GoodFile(f) && PlainMarks(f.Syms()) && (f.env.strip != StripSome || f.env.discard == DiscardAll)
    ensures KeptAlike(f)
  {
    hide Goes, Within, PlainMarks;
    MarkTypes(N_BINCL);
    MarkTypes(N_EINCL);
    forall i | 0 <= i < f.Count() && IsMark(f.Syms()[i].typ) ensures Goes(f, i) <==> Kept(f.env, f.Syms()[i]) {
      PlainGoes(f, i);
    }
  }

  // Ends kept or lost together ------------------------------------------------------------------------

  /** Starts minus ends. */
  function Net(syms: seq<Nlist>): int {
    if syms == [] then 0
    else
      var t := syms[|syms| - 1].typ;
      Net(syms[..|syms| - 1]) + if t == N_BINCL then 1 else if t == N_EINCL then -1 else 0
  }

  lemma {:induction false} NestIsNet(syms: seq<Nlist>)
    ensures Nest(syms).Some? ==> Nest(syms).value == Net(syms)
  {
    if syms != [] { NestIsNet(syms[..|syms| - 1]); }
  }

  lemma SurvivingNet(f: File, i: nat)
    requires GoodFile(f) && i < f.Count()
    ensures var t := f.Syms()[i].typ;
      Net(Surviving(f, i + 1)) - Net(Surviving(f, i))
      == if !Survives(f, i) then 0 else if t == N_BINCL then 1 else if t == N_EINCL then -1 else 0
  {
    hide Survives;
    var marks := Surviving(f, i);
    assert (marks + [f.Syms()[i]])[..|marks|] == marks;
    assert marks + [] == marks;
  }

  /** The starts among the first n symbols that do not go. */
  ghost function Lost(f: File, n: nat): nat
    requires GoodFile(f) && n <= f.Count()
  {
    if n == 0 then 0 else Lost(f, n - 1) + if f.Syms()[n - 1].typ == N_BINCL && !Goes(f, n - 1) then 1 else 0
  }

  lemma {:induction false} LostNone(f: File, n: nat)
    requires GoodFile(f) && n <= f.Count()
    ensures Lost(f, n) == 0 <==> forall k :: 0 <= k < n && f.Syms()[k].typ == N_BINCL ==> Goes(f, k)
  {
    hide Goes;
    if n > 0 { LostNone(f, n - 1); }
  }

  /** The open blocks that are no duplicates. */
  ghost function Fresh(f: File, opens: seq<nat>): nat
    requires GoodFile(f) && forall c :: 0 <= c < |opens| ==> opens[c] < f.Count()
  {
    if opens == [] then 0 else Fresh(f, opens[1..]) + if Duplicate(f, opens[0]) then 0 else 1
  }

  /** All ends go, or none does. */
  ghost predicate EndsGo(f: File, b: bool)
    requires GoodFile(f)
  {
    forall j :: 0 <= j < f.Count() && f.Syms()[j].typ == N_EINCL ==> Goes(f, j) == b
  }

  lemma {:induction false} EndsGoNet(f: File, n: nat)
    requires GoodFile(f) && n <= f.Count() && Nest(f.Syms()).Some? && EndsGo(f, true)
    ensures Net(Surviving(f, n)) + Lost(f, n) == Fresh(f, Opens(f.Syms(), n))
  {
    hide Survives, Goes, Opens, NestFrom, Duplicate, Net;
    var syms := f.Syms();
    if n == 0 {
      NoneOpen(syms);
      assert Net([]) == 0 by { NestIsNet([]); NoneOpen([]); }
    } else {
      var i := n - 1;
      EndsGoNet(f, i);
      SurvivingNet(f, i);
      OpensNext(syms, i);
      if syms[i].typ == N_EINCL {
        EndIsOpen(syms, i);
        EndSurvives(f, i);
      } else if syms[i].typ == N_BINCL {
        StartSurvives(f, i);
      } else {
        NoMarkSurvives(f, i);
      }
    }
  }

  /** If all ends are kept, nesting is kept exactly if all starts are. */
  lemma EndsKeptIff(f: File)
    requires GoodFile(f) && WellNested(f.Syms()) && EndsGo(f, true)
    ensures WellNested(Surviving(f, f.Count())) <==>
      forall k :: 0 <= k < f.Count() && f.Syms()[k].typ == N_BINCL ==> Goes(f, k)
  {
    hide Goes, Surviving, Opens, Duplicate, NestFrom, Net;
    var marks := Surviving(f, f.Count());
    EndsGoNet(f, f.Count());
    assert f.Syms()[..f.Count()] == f.Syms();
    OpensNest(f.Syms(), f.Count());
    NestIsNet(marks);
    LostNone(f, f.Count());
    if forall k :: 0 <= k < f.Count() && f.Syms()[k].typ == N_BINCL ==> Goes(f, k) { AlikeWellNested(f); }
  }

  /** The starts among the first n symbols that survive. */
  ghost function Survivors(f: File, n: nat): nat
    requires GoodFile(f) && n <= f.Count()
  {
    if n == 0 then 0 else Survivors(f, n - 1) + if f.Syms()[n - 1].typ == N_BINCL && Survives(f, n - 1) then 1 else 0
  }

  lemma {:induction false} SurvivorsNone(f: File, n: nat)
    requires GoodFile(f) && n <= f.Count()
    ensures Survivors(f, n) == 0 <==>
      forall k :: 0 <= k < n && f.Syms()[k].typ == N_BINCL && Goes(f, k) ==> Duplicate(f, k)
  {
    hide Goes, Duplicate, Survives;
    if n > 0 {
      SurvivorsNone(f, n - 1);
      if f.Syms()[n - 1].typ == N_BINCL { StartSurvives(f, n - 1); }
    }
  }

  /** If no end is kept, every start that survives is left open. */
  lemma {:induction false} EndsLostNest(f: File, n: nat)
    requires GoodFile(f) && n <= f.Count() && EndsGo(f, false)
    ensures Nest(Surviving(f, n)) == Some(Survivors(f, n))
  {
    hide Goes, Survives, Duplicate, NestFrom, Dropped;
    if n == 0 {
      NoneOpen(f.Syms());
    } else {
      EndsLostNest(f, n - 1);
      SurvivingNest(f, n - 1);
      if f.Syms()[n - 1].typ == N_EINCL { LostEnd(f, n - 1); }
      if !IsMark(f.Syms()[n - 1].typ) { NoMarkSurvives(f, n - 1); }
    }
  }

  lemma LostEnd(f: File, i: nat)
    requires GoodFile(f) && i < f.Count() && f.Syms()[i].typ == N_EINCL && !Goes(f, i)
    ensures !Survives(f, i)
  {
    hide Passed, Skipped, Kept, Dropped, WrittenBefore, Copies;
    MarkCopies(f, i);
  }

  /**
   * Symbols kept by name, with ends that all have one name, as compilers write them: nesting is kept exactly if all
   * starts are kept with the ends, or without the ends none is but duplicates.
   */
  lemma StripSomeNestedIff(f: File, end: Name)
    requires GoodFile(f) && PlainMarks(f.Syms()) && WellNested(f.Syms())
    requires f.env.strip == StripSome && f.env.discard != DiscardAll
    requires forall j :: 0 <= j < f.Count() && f.Syms()[j].typ == N_EINCL ==> f.Syms()[j].name == end
    ensures var syms, keep := f.Syms(), f.env.keep;
      WellNested(Surviving(f, f.Count())) <==>
        if end in keep then forall k :: 0 <= k < |syms| && syms[k].typ == N_BINCL ==> syms[k].name in keep
        else forall k :: 0 <= k < |syms| && syms[k].typ == N_BINCL && syms[k].name in keep ==> Duplicate(f, k)
  {
    hide Surviving, Duplicate, NestFrom, Goes, PlainMarks;
    forall i | 0 <= i < f.Count() && IsMark(f.Syms()[i].typ) ensures Goes(f, i) <==> f.Syms()[i].name in f.env.keep {
      PlainGoes(f, i);
    }
    if end in f.env.keep {
      EndsKeptIff(f);
    } else {
      EndsLostNest(f, f.Count());
      SurvivorsNone(f, f.Count());
    }
  }

  // Files and runs ----------------------------------------------------------------------------------

  /** The output nests as the marks that survive. */
  lemma {:induction false} UptoNest(f: File, base: seq<Nlist>, n: nat)
    requires GoodFile(f) && n <= f.Count() && Nest(base) == Some(0)
    ensures Nest(Upto(f, base, n)) == Nest(Surviving(f, n))
  {
    hide Upto, Emits, Output, Survives, NestFrom, Duplicate, Passed;
    if n == 0 {
      UptoNone(f, base);
      NoneOpen([]);
    } else {
      var i := n - 1;
      UptoNest(f, base, i);
      UptoNext(f, base, i);
      SurvivingNest(f, i);
      NestOne(f, base, i);
    }
  }

  lemma NestOne(f: File, base: seq<Nlist>, i: nat)
    requires GoodFile(f) && i < f.Count()
    ensures var nest := Nest(Upto(f, base, i));
      var next := if Survives(f, i) then Opened(nest, f.Syms()[i].typ) else nest;
      Emits(f, i) ==> Nest(Upto(f, base, i) + [Output(f, i)]) == next
    ensures !Emits(f, i) ==> !Survives(f, i)
  {
    hide Upto, Emits, Output, NestFrom, Duplicate, Passed;
    OutputKinds(f, i);
    if f.Syms()[i].typ != N_BINCL { OnlyStartsRepeat(f, i); }
    NestFromSnoc(Some(0), Upto(f, base, i), Output(f, i));
  }

  lemma BaseNest(env: Env, input: Input, syms: seq<Nlist>)
    ensures Nest(BaseOf(env, input, syms)) == Nest(syms)
  {
    hide NestFrom;
    if FileSymbol(env, input) == [] {
      assert BaseOf(env, input, syms) == syms;
    } else {
      var x := FileSymbol(env, input)[0];
      assert BaseOf(env, input, syms) == syms + [x];
      NestFromSnoc(Some(0), syms, x);
    }
  }

  /** A file leaves the output well nested exactly if its surviving marks are. */
  lemma FileNestedIff(env: Env, input: Input, hashes: seq<Option<nat>>, st: State)
    requires GoodFile(FileOf(env, input, hashes, st)) && WellNested(st.syms)
    ensures var f := FileOf(env, input, hashes, st);
      WellNested(WriteSymbols(env, input, hashes, st).st.syms) <==> WellNested(Surviving(f, f.Count()))
  {
    hide WriteSymbols, Surviving, NestFrom, Written, FileSymbol;
    var f := FileOf(env, input, hashes, st);
    WritesAsTold(env, input, hashes, st);
    BaseNest(env, input, st.syms);
    UptoNest(f, BaseOf(env, input, st.syms), f.Count());
  }

  /** A block that is kept by its name, with an end that is not, is left open in the output. */
  lemma StripSomeBreaks(env: Env, input: Input, st: State)
    requires GoodFile(FileOf(env, input, [None, None], st)) && WellNested(st.syms)
    requires env.strip == StripSome && env.discard != DiscardAll
    requires |input.syms| == 2 && input.syms[0].typ == N_BINCL && input.syms[1].typ == N_EINCL
    requires input.syms[0].name in env.keep && input.syms[1].name !in env.keep
    requires Total(input.syms, 0) !in Totals(st.includes, input.syms[0].name)
    ensures WellNested(input.syms) && !WellNested(WriteSymbols(env, input, [None, None], st).st.syms)
  {
    hide WriteSymbols, Surviving, Total, Totals;
    var f, first, last := FileOf(env, input, [None, None], st), input.syms[0], input.syms[1];
    NestFromSnoc(Some(0), [], first);
    NestFromSnoc(Some(0), [first], last);
    assert [] + [first] == [first] && [first] + [last] == input.syms;
    MarkTypes(N_BINCL);
    StripSomeNestedIff(f, last.name);
    FirstIsNew(f);
    FileNestedIff(env, input, [None, None], st);
  }

  lemma FirstIsNew(f: File)
    requires GoodFile(f) && f.Count() > 0 && Total(f.Syms(), 0) !in Totals(f.before, f.Syms()[0].name)
    ensures !Duplicate(f, 0)
  {
  }

  /** The input is well nested and each of its blocks keeps both marks or neither. */
  ghost predicate NestedAt(env: Env, as_: seq<Action>, st: State, j: nat)
    requires Runs(env, as_, st) && j < |as_|
  {
    Run(env, as_, j, st).Some? && as_[j].Symbols? ==>
      WellNested(as_[j].input.syms) && KeptAlike(FileAt(env, as_, st, j))
  }

  lemma HarmlessNest(a: State, b: State)
    requires Harmless(a, b)
    ensures Nest(b.syms) == Nest(a.syms)
  {
    hide NestFrom;
    if b.syms != a.syms {
      var x :| b.syms == a.syms + [x] && !IsMark(x.typ) && x.typ != N_EXCL;
      NestFromSnoc(Some(0), a.syms, x);
    }
  }

  /** Over any run: well-nested files whose blocks keep both their marks or neither give a well-nested output. */
  lemma {:induction false} RunNested(env: Env, as_: seq<Action>, n: nat, st: State)
    requires Runs(env, as_, st) && n <= |as_| && WellNested(st.syms)
    requires forall j :: 0 <= j < n ==> NestedAt(env, as_, st, j)
    ensures Run(env, as_, n, st).Some? ==> WellNested(Run(env, as_, n, st).value.syms)
  {
    hide WriteSymbols, WriteOther, RelocIndex, NestFrom, Regular, KeptAlike, Surviving, Harmless;
    if n > 0 {
      RunNested(env, as_, n - 1, st);
      var q, a := Run(env, as_, n - 1, st), as_[n - 1];
      if q.Some? && Act(env, a, q.value).Some? {
        assert NestedAt(env, as_, st, n - 1);
        if a.Symbols? {
          FileNestedIff(env, a.input, a.hashes, q.value);
          AlikeWellNested(FileAt(env, as_, st, n - 1));
        } else {
          ActHarmless(env, a, q.value);
          HarmlessNest(q.value, Act(env, a, q.value).value);
        }
      }
    }
  }

  /** So, told from the inputs alone, when no mark follows a redirecting symbol and symbols are not kept by name. */
  lemma PlainNested(env: Env, as_: seq<Action>)
    requires GoodActions(env, as_) && PlainActions(as_) && (env.strip != StripSome || env.discard == DiscardAll)
    requires forall a :: a in as_ && a.Symbols? ==> WellNested(a.input.syms)
    ensures var r := Run(env, as_, |as_|, Initial(env));
      r.Some? ==> WellNested(r.value.syms)
  {
    hide Run, NestFrom, Regular, KeptAlike, PlainMarks;
    var st := Initial(env);
    NoneOpen([]);
    forall j | 0 <= j < |as_| ensures NestedAt(env, as_, st, j) {
      if Run(env, as_, j, st).Some? && as_[j].Symbols? { WholeStabsAlike(FileAt(env, as_, st, j)); }
    }
    RunNested(env, as_, |as_|, st);
  }
}
