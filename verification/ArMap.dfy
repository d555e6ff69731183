/**
 * Where members land in the file, and the three symbol-map writers that predict it (bfd/archive.c, bfd/archive64.c).
 */
module ArMap {
  import opened Bytes
  import opened ArHeader

  /** What the layout of a member depends on: its contents' size and the bytes of a BSD 4.4 name after its header. */
  datatype Shape = Shape(size: nat, extra: nat)

  /** One collected symbol: its name, the index of the member that defines it, its place among the strings. */
  datatype Orl = Orl(name: seq<byte>, member: nat, namidx: nat)

  // Positions ---------------------------------------------------------------

  /** The bytes the contents writer emits for one member. */
  function MemberLen(thin: bool, m: Shape): nat {
    HDR + m.extra + if thin then 0 else m.size + Odd(m.size)
  }

  /** Where the contents writer puts the header of member k. */
  function MemberPos(thin: bool, first: nat, ms: seq<Shape>, k: nat): nat
    requires k <= |ms|
  {
    if k == 0 then first else MemberPos(thin, first, ms, k - 1) + MemberLen(thin, ms[k - 1])
  }

  function Odd(p: nat): nat { p % 2 }

  /** The next even position. */
  function Even(p: nat): nat { p + Odd(p) }

  /** The position the System 5 map writer reckons for member k. */
  function CoffPos(thin: bool, first: nat, ms: seq<Shape>, k: nat): nat
    requires k <= |ms|
  {
    if k == 0 then first
    else
      var p := CoffPos(thin, first, ms, k - 1) + HDR;
      if thin then p else Even(p + ms[k - 1].size)
  }

  /** The position the 64-bit map writer reckons for member k. */
  function Sym64Pos(thin: bool, first: nat, ms: seq<Shape>, k: nat): nat
    requires k <= |ms|
  {
    if k == 0 then first
    else Even(Sym64Pos(thin, first, ms, k - 1) + HDR + if thin then 0 else ms[k - 1].size)
  }

  /** The position the Berkeley map writer reckons for member k. */
  function BsdPos(first: nat, ms: seq<Shape>, k: nat): nat
    requires k <= |ms|
  {
    if k == 0 then first
    else Even(BsdPos(first, ms, k - 1) + ms[k - 1].size + ms[k - 1].extra + HDR)
  }

  ghost predicate EvenExtras(ms: seq<Shape>) { forall j :: 0 <= j < |ms| ==> Odd(ms[j].extra) == 0 }

  ghost predicate NoExtraBefore(ms: seq<Shape>, k: nat)
    requires k <= |ms|
  {
    forall j :: 0 <= j < k ==> ms[j].extra == 0
  }

  ghost predicate EmptyBefore(ms: seq<Shape>, k: nat)
    requires k <= |ms|
  {
    forall j :: 0 <= j < k ==> ms[j].size == 0
  }

  lemma EvenIs(p: nat)
    requires p % 2 == 0
    ensures Even(p) == p && Odd(p) == 0
  {
  }

  lemma OddIs(p: nat)
    ensures Odd(p) == p % 2 <= 1 && Even(p) == p + Odd(p) && Even(p) % 2 == 0
  {
  }

  lemma EvenStep(p: nat, size: nat)
    requires Odd(p) == 0
    ensures Even(p + size) == p + size + Odd(size) && Odd(p + size + Odd(size)) == 0
  {
  }

  lemma OddSum(p: nat, q: nat)
    ensures Odd(p) == 0 && Odd(q) == 0 ==> Odd(p + q) == 0
    ensures Odd(HDR) == 0
  {
  }

  lemma {:induction false} MemberPosEven(thin: bool, first: nat, ms: seq<Shape>, k: nat)
    requires k <= |ms| && Odd(first) == 0 && EvenExtras(ms)
    ensures Odd(MemberPos(thin, first, ms, k)) == 0
  {
    if k > 0 {
      MemberPosEven(thin, first, ms, k - 1);
      var p, m := MemberPos(thin, first, ms, k - 1), ms[k - 1];
      OddSum(p + HDR, m.extra);
      OddSum(p, HDR);
      hide Odd;
      EvenStep(p + HDR + m.extra, m.size);
    }
  }

  lemma {:induction false} CoffPosEven(thin: bool, first: nat, ms: seq<Shape>, k: nat)
    requires k <= |ms| && Odd(first) == 0
    ensures Odd(CoffPos(thin, first, ms, k)) == 0
    ensures k > 0 ==>
      CoffPos(thin, first, ms, k) == CoffPos(thin, first, ms, k - 1) + MemberLen(thin, Shape(ms[k - 1].size, 0))
    ensures CoffPos(thin, first, ms, k) == Sym64Pos(thin, first, ms, k)
  {
    hide Even, Odd;
    if k > 0 {
      CoffPosEven(thin, first, ms, k - 1);
      var p, m := CoffPos(thin, first, ms, k - 1), ms[k - 1];
      OddSum(p, HDR);
      OddZero();
      EvenStep(p + HDR, if thin then 0 else m.size);
      assert Sym64Pos(thin, first, ms, k) == Even(p + HDR + if thin then 0 else m.size);
    }
  }

  lemma OddZero()
    ensures Odd(0) == 0
  {
  }

  /** The System 5 and 64-bit writers find every member exactly when no BSD 4.4 name precedes it. */
  lemma {:induction false} CoffPosRight(thin: bool, first: nat, ms: seq<Shape>, k: nat)
    requires k <= |ms| && Odd(first) == 0
    ensures CoffPos(thin, first, ms, k) == Sym64Pos(thin, first, ms, k) <= MemberPos(thin, first, ms, k)
    ensures CoffPos(thin, first, ms, k) == MemberPos(thin, first, ms, k) <==> NoExtraBefore(ms, k)
  {
    hide CoffPos, Sym64Pos;
    CoffPosEven(thin, first, ms, k);
    if k > 0 {
      CoffPosRight(thin, first, ms, k - 1);
      assert NoExtraBefore(ms, k) <==> NoExtraBefore(ms, k - 1) && ms[k - 1].extra == 0;
    } else {
      CoffPosStart(thin, first, ms);
    }
  }

  lemma CoffPosStart(thin: bool, first: nat, ms: seq<Shape>)
    ensures CoffPos(thin, first, ms, 0) == first
  {
  }

  lemma {:induction false} BsdPosEven(first: nat, ms: seq<Shape>, k: nat)
    requires k <= |ms| && Odd(first) == 0 && EvenExtras(ms)
    ensures Odd(BsdPos(first, ms, k)) == 0
    ensures k > 0 ==> BsdPos(first, ms, k) == BsdPos(first, ms, k - 1) + MemberLen(false, ms[k - 1])
  {
    if k > 0 {
      BsdPosEven(first, ms, k - 1);
      var p, m := BsdPos(first, ms, k - 1), ms[k - 1];
      OddSum(p, HDR);
      OddSum(p + HDR, m.extra);
      hide Even, Odd;
      EvenStep(p + HDR + m.extra, m.size);
    }
  }

  /**
   * The Berkeley writer is right for ordinary archives, and for thin ones exactly while every earlier member is
   * empty.
   */
  lemma {:induction false} BsdPosRight(thin: bool, first: nat, ms: seq<Shape>, k: nat)
    requires k <= |ms| && Odd(first) == 0 && EvenExtras(ms)
    ensures MemberPos(thin, first, ms, k) <= BsdPos(first, ms, k)
    ensures BsdPos(first, ms, k) == MemberPos(thin, first, ms, k) <==> (thin ==> EmptyBefore(ms, k))
  {
    hide BsdPos, EvenExtras;
    BsdPosEven(first, ms, k);
    if k > 0 {
      BsdPosRight(thin, first, ms, k - 1);
      assert EmptyBefore(ms, k) <==> EmptyBefore(ms, k - 1) && ms[k - 1].size == 0;
    } else {
      BsdPosStart(first, ms);
    }
  }

  lemma BsdPosStart(first: nat, ms: seq<Shape>)
    ensures BsdPos(first, ms, 0) == first
  {
  }

  // Collecting symbols ------------------------------------------------------

  datatype Symbol = Symbol(name: seq<byte>, exported: bool, common: bool, undefined: bool)

  predicate Wanted(s: Symbol) { (s.exported || s.common) && !s.undefined }

  /** All strings of a map, each with its terminating NUL. */
  function Strings(map0: seq<Orl>): seq<byte> { Concat(CName, map0) }

  function CName(o: Orl): seq<byte> { o.name + [NUL] }

  /** The map of the first k members, as _bfd_compute_and_write_armap gathers it. */
  function Collected(syms: seq<seq<Symbol>>, k: nat, j: nat): seq<Orl>
    requires k <= |syms| && (k < |syms| ==> j <= |syms[k]|) && (k == |syms| ==> j == 0)
    decreases k, j
  {
    if j > 0 then
      var m := Collected(syms, k, j - 1);
      if Wanted(syms[k][j - 1]) then m + [Orl(syms[k][j - 1].name, k, |Strings(m)|)] else m
    else if k > 0 then Collected(syms, k - 1, |syms[k - 1]|)
    else []
  }

  /** The map so far is the beginning of the whole map. */
  lemma {:induction false} CollectedSoFar(syms: seq<seq<Symbol>>, k: nat, j: nat)
    requires k <= |syms| && (k < |syms| ==> j <= |syms[k]|) && (k == |syms| ==> j == 0)
    ensures Collected(syms, k, j) <= Collected(syms, |syms|, 0)
    decreases |syms| - k, if k < |syms| then |syms[k]| - j else 0
  {
    hide Wanted, Strings;
    if k < |syms| {
      if j < |syms[k]| { CollectedSoFar(syms, k, j + 1); } else { CollectedSoFar(syms, k + 1, 0); }
    }
  }

  /**
   * Exactly the exported and common symbols that are not undefined are in the map, each with its name and member, in
   * the
   * order of members and symbols.
   */
  lemma CollectedExactly(syms: seq<seq<Symbol>>, k: nat, j: nat)
    requires k < |syms| && j < |syms[k]|
    ensures var s, all := syms[k][j], Collected(syms, |syms|, 0);
      var p := |Collected(syms, k, j)|;
      && p <= |Collected(syms, k, j + 1)| <= |all|
      && |Collected(syms, 0, 0)| == 0 && |Collected(syms, k + 1, 0)| == |Collected(syms, k, |syms[k]|)|
      && if (s.exported || s.common) && !s.undefined
         then |Collected(syms, k, j + 1)| == p + 1 && all[p].name == s.name && all[p].member == k
         else |Collected(syms, k, j + 1)| == p
  {
    hide Strings;
    CollectedSoFar(syms, k, j + 1);
  }

  method Collect(syms: seq<seq<Symbol>>) returns (map0: seq<Orl>, stridx: nat)
    ensures map0 == Collected(syms, |syms|, 0) && stridx == |Strings(map0)|
  {
    map0, stridx := [], 0;
    for k := 0 to |syms|
      invariant map0 == Collected(syms, k, 0) && stridx == |Strings(map0)|
    {
      for j := 0 to |syms[k]|
        invariant map0 == Collected(syms, k, j) && stridx == |Strings(map0)|
      {
        if Wanted(syms[k][j]) {
          ConcatSnoc(CName, map0, Orl(syms[k][j].name, k, stridx));
          map0 := map0 + [Orl(syms[k][j].name, k, stridx)];
          stridx := stridx + |syms[k][j].name| + 1;
        }
      }
    }
  }

  /** Symbols come in member order and know where their strings start: what the writers rely on. */
  ghost predicate GoodMap(map0: seq<Orl>, members: nat) {
    && (forall i :: 0 <= i < |map0| ==> map0[i].member < members)
    && (forall i, j :: 0 <= i <= j < |map0| ==> map0[i].member <= map0[j].member)
    && (forall i :: 0 <= i < |map0| ==> map0[i].namidx == |Strings(map0[..i])|)
  }

  lemma {:induction false} CollectedIsGood(syms: seq<seq<Symbol>>, k: nat, j: nat)
    requires k <= |syms| && (k < |syms| ==> j <= |syms[k]|) && (k == |syms| ==> j == 0)
    ensures GoodMap(Collected(syms, k, j), k + if j > 0 then 1 else 0)
    decreases k, j
  {
    hide GoodMap, Strings;
    if j > 0 {
      CollectedIsGood(syms, k, j - 1);
      var m := Collected(syms, k, j - 1);
      GoodMapWider(m, k + (if j > 1 then 1 else 0), k + 1);
      GoodMapSnoc(m, syms[k][j - 1].name, k);
    } else if k > 0 {
      CollectedIsGood(syms, k - 1, |syms[k - 1]|);
      GoodMapWider(Collected(syms, k, 0), k - 1 + (if |syms[k - 1]| > 0 then 1 else 0), k);
    } else {
      GoodMapEmpty();
    }
  }

  lemma GoodMapEmpty()
    ensures GoodMap([], 0)
  {
  }

  lemma GoodMapWider(map0: seq<Orl>, n: nat, members: nat)
    requires GoodMap(map0, n) && n <= members
    ensures GoodMap(map0, members)
  {
  }

  lemma GoodMapSnoc(m: seq<Orl>, name: seq<byte>, k: nat)
    requires GoodMap(m, k + 1)
    ensures GoodMap(m + [Orl(name, k, |Strings(m)|)], k + 1)
  {
    hide Strings;
    var m' := m + [Orl(name, k, |Strings(m)|)];
    forall i | 0 <= i < |m'| ensures m'[i].namidx == |Strings(m'[..i])| {
      if i < |m| {
        assert m'[..i] == m[..i];
      } else {
        assert m'[..i] == m;
      }
    }
  }

  // What the maps look like -------------------------------------------------

  /** The sizes a map writer settles on, in C's unsigned int arithmetic, before it writes anything. */
  datatype Plan = Plan(mapsize: nat, padding: nat, first: nat)

  function CoffPlan(n: nat, strings: nat, elength: nat): (p: Plan)
    ensures p.mapsize < TWO32
  {
    var size := U32(U32(strings) + U32(n * 4 + 4));
    var mapsize := U32(Even(size));
    Plan(mapsize, Odd(size), U32(mapsize + elength) + HDR + SARMAG)
  }

  function RoundUp8(size: nat): (r: nat)
    ensures size <= r < size + 8
  {
    (size + 7) / 8 * 8
  }

  function Sym64Plan(n: nat, strings: nat, elength: nat): (p: Plan)
    ensures p.mapsize < TWO32
  {
    var size := U32(U32(strings) + U32(n * 8 + 8));
    var padding := RoundUp8(size) - size;
    var mapsize := U32(size + padding);
    Plan(mapsize, padding, U32(mapsize + elength) + HDR + SARMAG)
  }

  function BsdPlan(n: nat, strings: nat, elength: nat): (p: Plan)
    ensures p.mapsize < TWO32
  {
    var padding := Odd(strings);
    var mapsize := U32(U32(n * 8) + U32(strings + padding) + 8);
    Plan(mapsize, padding, U32(mapsize + elength) + HDR + SARMAG)
  }

  /**
   * A thin archive of two members "a" and "b" of one byte each, with one symbol "f", on a Berkeley target: the name
   * table takes 64 bytes with its header, and the map sends the reader two bytes past the second header.
   */
  lemma BsdThinWrong()
    ensures var first, ms := BsdPlan(1, 2, 64).first, [Shape(1, 0), Shape(1, 0)];
      first == 150 && BsdPos(first, ms, 1) == 212 && MemberPos(true, first, ms, 1) == 210
  {
    var ms := [Shape(1, 0), Shape(1, 0)];
    assert BsdPos(150, ms, 0) == 150 && MemberPos(true, 150, ms, 0) == 150;
  }

  lemma SecondMember(first: nat, ms: seq<Shape>)
    requires |ms| > 1
    ensures MemberPos(false, first, ms, 1) == first + MemberLen(false, ms[0])
  {
    assert MemberPos(false, first, ms, 0) == first;
  }

  function CoffOffsets(thin: bool, first: nat, ms: seq<Shape>, map0: seq<Orl>): (r: seq<nat>)
    requires forall i :: 0 <= i < |map0| ==> map0[i].member < |ms|
    ensures |r| == |map0|
  {
    seq(|map0|, i requires 0 <= i < |map0| => CoffPos(thin, first, ms, map0[i].member))
  }

  function Sym64Offsets(thin: bool, first: nat, ms: seq<Shape>, map0: seq<Orl>): (r: seq<nat>)
    requires forall i :: 0 <= i < |map0| ==> map0[i].member < |ms|
    ensures |r| == |map0|
  {
    seq(|map0|, i requires 0 <= i < |map0| => Sym64Pos(thin, first, ms, map0[i].member))
  }

  /** The entries of a Berkeley map. */
  datatype Ranlib = Ranlib(namidx: nat, offset: nat)

  function Ranlibs(first: nat, ms: seq<Shape>, map0: seq<Orl>): (r: seq<Ranlib>)
    requires forall i :: 0 <= i < |map0| ==> map0[i].member < |ms|
    ensures |r| == |map0|
  {
    seq(|map0|, i requires 0 <= i < |map0| => Ranlib(map0[i].namidx, BsdPos(first, ms, map0[i].member)))
  }

  function RanlibPutter(put: nat -> seq<byte>): Ranlib -> seq<byte> { (r: Ranlib) => put(r.namidx) + put(r.offset) }

  /** A System 5 style map: a count and offsets of the given width, most significant byte first, then the strings. */
  function WordMap(width: nat, name: seq<byte>, plan: Plan, stat: seq<byte>, offsets: seq<nat>,
      strings: seq<byte>): seq<byte>
    requires |stat| == 32
  {
    var put := Putter(true, width);
    Header(PadTo(name, NAMELEN), stat, plan.mapsize)
    + put(|offsets|) + Concat<nat>(put, offsets) + strings + Repeat(NUL, plan.padding)
  }

  function BsdMap(plan: Plan, big: bool, stat: seq<byte>, entries: seq<Ranlib>, strings: seq<byte>): seq<byte>
    requires |stat| == 32
  {
    var put := Putter(big, 4);
    Header(PadTo(RANLIBMAG, NAMELEN), stat, plan.mapsize)
    + put(U32(|entries| * 8)) + Concat(RanlibPutter(put), entries)
    + put(U32(|strings| + plan.padding)) + strings + Repeat(NUL, plan.padding)
  }
}
