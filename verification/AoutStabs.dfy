/** Header-file blocks in a.out debugging symbols (aout_link_write_symbols, bfd/aoutx.h; include/aout/stab.def). */
module AoutStabs {
  import opened Bytes
  import opened Words

  const N_BINCL: nat := 0x82
  const N_EINCL: nat := 0xa2
  const N_EXCL: nat := 0xc2

  const PAREN: int := 40

  /** The characters of a name, as C's char, which may be signed. */
  type Name = seq<int>

  /** A symbol table entry, with its name in place of the string table index. */
  datatype Nlist = Nlist(typ: nat, other: nat, desc: nat, name: Name, value: int)

  // The total of a header block -------------------------------------------------------

  predicate IsDigitChar(c: int) { 48 <= c < 58 }

  /** Character i is part of a file number: a digit in a run of digits right after a parenthesis. */
  predicate InNumber(s: Name, i: nat)
    requires i < |s|
  {
    IsDigitChar(s[i]) && i > 0 && (s[i - 1] == PAREN || InNumber(s, i - 1))
  }

  /** The sum of the first n characters, file numbers left out. */
  function SumTo(s: Name, n: nat): int
    requires n <= |s|
  {
    if n == 0 then 0 else SumTo(s, n - 1) + if InNumber(s, n - 1) then 0 else s[n - 1]
  }

  function NameSum(s: Name): int { SumTo(s, |s|) }

  /** In a run of digits after a parenthesis, each is part of the file number; what comes before does not matter. */
  lemma {:induction false} InNumberAll(s: Name, k: nat, i: nat)
    requires 0 < k <= i < |s| && s[k - 1] == PAREN && forall x :: k <= x <= i ==> 48 <= s[x] < 58
    ensures InNumber(s, i)
  {
    if k < i { InNumberAll(s, k, i - 1); }
  }

  lemma {:induction false} InNumberPrefix(s: Name, t: Name, i: nat)
    requires i < |s| && s <= t
    ensures InNumber(s, i) == InNumber(t, i)
  {
    if i > 0 { InNumberPrefix(s, t, i - 1); }
  }

  /** A file number does not go on past another character. */
  lemma {:induction false} InNumberRest(s: Name, m: nat, j: nat)
    requires m + j < |s| && !(48 <= s[m] < 58)
    ensures InNumber(s, m + j) == InNumber(s[m..], j)
  {
    if j > 0 { InNumberRest(s, m, j - 1); }
  }

  lemma {:induction false} SumPrefix(s: Name, t: Name, n: nat)
    requires n <= |s| && s <= t
    ensures SumTo(s, n) == SumTo(t, n)
  {
    hide InNumber;
    if n > 0 {
      SumPrefix(s, t, n - 1);
      InNumberPrefix(s, t, n - 1);
    }
  }

  lemma {:induction false} SumNumber(s: Name, k: nat, m: nat)
    requires 0 < k <= m <= |s| && s[k - 1] == PAREN && forall x :: k <= x < m ==> 48 <= s[x] < 58
    ensures SumTo(s, m) == SumTo(s, k)
    decreases m
  {
    hide InNumber;
    if k < m {
      SumNumber(s, k, m - 1);
      InNumberAll(s, k, m - 1);
    }
  }

  lemma {:induction false} SumRest(s: Name, m: nat, j: nat)
    requires m + j <= |s| && (m < |s| ==> !(48 <= s[m] < 58))
    ensures SumTo(s, m + j) == SumTo(s, m) + SumTo(s[m..], j)
  {
    hide InNumber;
    if j > 0 {
      SumRest(s, m, j - 1);
      InNumberRest(s, m, j - 1);
    }
  }

  /** Digits right after a parenthesis add nothing to a name's sum, so files may be numbered differently. */
  lemma FileNumberIgnored(pre: Name, digits: Name, rest: Name)
    requires forall c :: c in digits ==> 48 <= c < 58
    requires rest != [] ==> !(48 <= rest[0] < 58)
    ensures NameSum(pre + [PAREN] + digits + rest) == NameSum(pre) + PAREN + NameSum(rest)
  {
    var head := pre + [PAREN];
    var s := head + digits + rest;
    var k, m := |head|, |head + digits|;
    assert s[m..] == rest && pre <= s && head <= s;
    forall x | k <= x < m ensures 48 <= s[x] < 58 { assert s[x] == digits[x - k] && digits[x - k] in digits; }
    SumPrefix(pre, s, |pre|);
    SumNumber(s, k, m);
    SumRest(s, m, |rest|);
  }

  /** Blocks whose symbols differ only in such digits have the same total. */
  lemma TotalRenumbered(a: seq<Nlist>, b: seq<Nlist>, i: nat)
    requires i < |a| == |b|
    requires forall p :: 0 <= p < |a| ==> a[p].typ == b[p].typ && NameSum(a[p].name) == NameSum(b[p].name)
    ensures Total(a, i) == Total(b, i)
  {
    FromRenumbered(a, b, i + 1, 0);
  }

  lemma {:induction false} FromRenumbered(a: seq<Nlist>, b: seq<Nlist>, p: nat, nest: nat)
    requires p <= |a| == |b|
    requires forall k :: 0 <= k < |a| ==> a[k].typ == b[k].typ && NameSum(a[k].name) == NameSum(b[k].name)
    ensures TotalFrom(a, p, nest) == TotalFrom(b, p, nest)
    decreases |a| - p
  {
    hide NameSum;
    if p < |a| {
      FromRenumbered(a, b, p + 1, nest);
      FromRenumbered(a, b, p + 1, nest + 1);
      if nest > 0 { FromRenumbered(a, b, p + 1, nest - 1); }
    }
  }

  method AddName(val: nat, s: Name) returns (r: nat)
    requires val < TWO64
    ensures r == U64(val + NameSum(s))
  {
    hide U64;
    r := val;
    U64Small(val);
    var i := 0;
    while i < |s|
      invariant i <= |s| && r == U64(val + SumTo(s, i)) && (i < |s| ==> !InNumber(s, i))
    {
      U64Add(s[i], val + SumTo(s, i));
      r := U64(r + s[i]);
      if s[i] == PAREN {
        ghost var sum := SumTo(s, i + 1);
        i := i + 1;
        while i < |s| && IsDigitChar(s[i])
          invariant 0 < i <= |s| && (s[i - 1] == PAREN || InNumber(s, i - 1)) && SumTo(s, i) == sum
        {
          i := i + 1;
        }
        i := i - 1;
      }
      i := i + 1;
    }
  }

  /**
   * The sum over the symbols of a block from p on, when `nest` blocks inside it are open; blocks inside do not count.
   */
  function TotalFrom(syms: seq<Nlist>, p: nat, nest: nat): int
    requires p <= |syms|
    decreases |syms| - p
  {
    if p == |syms| then 0
    else if syms[p].typ == N_EINCL then if nest == 0 then 0 else TotalFrom(syms, p + 1, nest - 1)
    else if syms[p].typ == N_BINCL then TotalFrom(syms, p + 1, nest + 1)
    else (if nest == 0 then NameSum(syms[p].name) else 0) + TotalFrom(syms, p + 1, nest)
  }

  /** The total that identifies the header block starting at i. */
  function Total(syms: seq<Nlist>, i: nat): nat
    requires i < |syms|
  {
    U64(TotalFrom(syms, i + 1, 0))
  }

  method HeaderTotal(syms: seq<Nlist>, i: nat) returns (val: nat)
    requires i < |syms|
    ensures val == Total(syms, i)
  {
    hide U64;
    val := 0;
    U64Small(0);
    var nest := 0;
    var p := i + 1;
    ghost var sum := 0;
    while p < |syms|
      invariant i < p <= |syms| && val == U64(sum) && val < TWO64
      invariant TotalFrom(syms, i + 1, 0) == sum + TotalFrom(syms, p, nest)
    {
      var t := syms[p].typ;
      if t == N_EINCL {
        if nest == 0 { break; }
        nest := nest - 1;
      } else if t == N_BINCL {
        nest := nest + 1;
      } else if nest == 0 {
        U64Add(NameSum(syms[p].name), sum);
        val := AddName(val, syms[p].name);
        sum := sum + NameSum(syms[p].name);
        U64Range(sum);
      }
      p := p + 1;
    }
  }

  lemma U64Range(x: int)
    ensures U64(x) < TWO64
  {
  }

  // Which block a symbol belongs to ---------------------------------------------------

  /**
   * Seen from position i: how many of the open blocks end before j, if j is not inside a block that starts in
   * between.
   */
  function Own(syms: seq<Nlist>, i: nat, j: nat): Option<nat>
    requires i <= j <= |syms|
    decreases j - i
  {
    if i == j then Some(0)
    else
      var c := Own(syms, i + 1, j);
      if syms[i].typ == N_BINCL then if c.Some? && c.value > 0 then Some(c.value - 1) else None
      else if syms[i].typ == N_EINCL then if c.Some? then Some(c.value + 1) else None
      else c
  }

  /** The same, when `nest` more blocks are open. */
  function Less(c: Option<nat>, nest: nat): Option<nat> {
    if c.Some? && c.value >= nest then Some(c.value - nest) else None
  }

  /** Symbol j is directly in the block that starts at i, or ends it. */
  predicate Within(syms: seq<Nlist>, i: nat, j: nat)
    requires j < |syms|
  {
    i < j && syms[j].typ != N_BINCL && Own(syms, i + 1, j) == Some(0)
  }

  /** Marks the symbols of a duplicate header block. */
  method MarkHeader(syms: seq<Nlist>, i: nat, cells: array<int>)
    requires i < |syms| <= cells.Length
    modifies cells
    ensures forall j :: 0 <= j < |syms| ==> cells[j] == if Within(syms, i, j) then -1 else old(cells[j])
  {
    ghost var was := cells[..];
    var nest, from := 0, i + 1;
    var p := from;
    while p < |syms|
      invariant i < p <= |syms|
      invariant forall j :: 0 <= j < p ==> cells[j] == if Within(syms, i, j) then -1 else was[j]
      invariant forall j :: p <= j < |syms| ==> cells[j] == was[j] && Own(syms, from, j) == Less(Own(syms, p, j), nest)
    {
      var t := syms[p].typ;
      assert Own(syms, p, p) == Some(0);
      if t == N_EINCL {
        if nest == 0 {
          cells[p] := -1;
          assert forall j :: p < j < |syms| ==> Own(syms, from, j) != Some(0);
          break;
        }
        nest := nest - 1;
      } else if t == N_BINCL {
        nest := nest + 1;
      } else if nest == 0 {
        cells[p] := -1;
      }
      p := p + 1;
    }
  }

  /** The sum over those of the symbols from j on that are directly in the block that starts at i. */
  function OwnedSum(syms: seq<Nlist>, i: nat, j: nat): int
    requires j <= |syms|
    decreases |syms| - j
  {
    if j == |syms| then 0
    else (if Within(syms, i, j) && syms[j].typ != N_EINCL then NameSum(syms[j].name) else 0) + OwnedSum(syms, i, j + 1)
  }

  /**
   * The walk that sums and the walk that marks agree: a block's total is over exactly the symbols a duplicate drops.
   */
  lemma TotalIsOwnedSum(syms: seq<Nlist>, i: nat)
    requires i < |syms|
    ensures Total(syms, i) == U64(OwnedSum(syms, i, i + 1))
  {
    TotalFromOwned(syms, i, i + 1, i + 1, 0);
  }

  lemma {:induction false} TotalFromOwned(syms: seq<Nlist>, i: nat, from: nat, p: nat, nest: nat)
    requires i + 1 == from <= p <= |syms|
    requires forall j :: p <= j < |syms| ==> Own(syms, from, j) == Less(Own(syms, p, j), nest)
    ensures TotalFrom(syms, p, nest) == OwnedSum(syms, i, p)
    decreases |syms| - p
  {
    hide NameSum;
    if p < |syms| {
      assert Own(syms, p, p) == Some(0);
      if syms[p].typ == N_BINCL {
        TotalFromOwned(syms, i, from, p + 1, nest + 1);
      } else if syms[p].typ != N_EINCL {
        TotalFromOwned(syms, i, from, p + 1, nest);
      } else if nest > 0 {
        TotalFromOwned(syms, i, from, p + 1, nest - 1);
      } else {
        NothingAfterEnd(syms, i, from, p + 1);
      }
    }
  }

  lemma {:induction false} NothingAfterEnd(syms: seq<Nlist>, i: nat, from: nat, p: nat)
    requires i + 1 == from <= p <= |syms| && forall j :: p <= j < |syms| ==> Own(syms, from, j) != Some(0)
    ensures OwnedSum(syms, i, p) == 0
    decreases |syms| - p
  {
    if p < |syms| { NothingAfterEnd(syms, i, from, p + 1); }
  }

  // Nesting -----------------------------------------------------------------------------

  /** How many header blocks are open after these symbols; None if one was ended that was not open. */
  function Nest(syms: seq<Nlist>): Option<nat> { NestFrom(Some(0), syms) }

  ghost predicate WellNested(syms: seq<Nlist>) { Nest(syms) == Some(0) }

  /** The same, when d blocks are open already. */
  function NestFrom(d: Option<nat>, syms: seq<Nlist>): Option<nat> {
    if syms == [] then d else Opened(NestFrom(d, syms[..|syms| - 1]), syms[|syms| - 1].typ)
  }

  /** The blocks open after one more symbol. */
  function Opened(d: Option<nat>, t: nat): Option<nat> {
    if d.None? then None
    else if t == N_BINCL then Some(d.value + 1)
    else if t == N_EINCL then if d.value == 0 then None else Some(d.value - 1)
    else d
  }

  lemma NestFromSnoc(d: Option<nat>, syms: seq<Nlist>, x: Nlist)
    ensures NestFrom(d, syms + [x]) == Opened(NestFrom(d, syms), x.typ)
  {
    assert (syms + [x])[..|syms|] == syms;
  }

  // Deduplication -----------------------------------------------------------------------

  /** The totals of the header blocks seen, by name. */
  type Includes = map<Name, seq<nat>>

  function Totals(includes: Includes, name: Name): seq<nat> { if name in includes then includes[name] else [] }

  /** A block of this name and total has been written out in full. */
  ghost predicate Expanded(syms: seq<Nlist>, name: Name, total: int) {
    exists a :: 0 <= a < |syms| && IsBlock(syms[a], name, total)
  }

  predicate IsBlock(s: Nlist, name: Name, total: int) { s.typ == N_BINCL && s.name == name && s.value == total }

  /** Each block is written out at most once. */
  ghost predicate UniqueBlocks(syms: seq<Nlist>) {
    forall a, b :: 0 <= a < b < |syms| && syms[a].typ == N_BINCL ==> !IsBlock(syms[b], syms[a].name, syms[a].value)
  }

  /** What the reference at b refers to has been written out before it. */
  ghost predicate Backed(syms: seq<Nlist>, b: nat)
    requires b < |syms|
  {
    Expanded(syms[..b], syms[b].name, syms[b].value)
  }

  /** Every reference comes after its block. */
  ghost predicate AllBacked(syms: seq<Nlist>) {
    forall b :: 0 <= b < |syms| && syms[b].typ == N_EXCL ==> Backed(syms, b)
  }


  lemma ExpandedSnoc(syms: seq<Nlist>, s: Nlist, name: Name, total: int)
    ensures Expanded(syms + [s], name, total) <==> Expanded(syms, name, total) || IsBlock(s, name, total)
  {
    if Expanded(syms, name, total) {
      var a :| 0 <= a < |syms| && IsBlock(syms[a], name, total);
      assert IsBlock((syms + [s])[a], name, total);
    }
    assert (syms + [s])[|syms|] == s;
  }

  /** One more symbol keeps blocks unique exactly if it does not start one written out before. */
  lemma UniqueSnocIff(syms: seq<Nlist>, s: Nlist)
    ensures UniqueBlocks(syms + [s]) <==>
      UniqueBlocks(syms) && (s.typ == N_BINCL ==> !Expanded(syms, s.name, s.value))
  {
    hide IsBlock;
    var all := syms + [s];
    if UniqueBlocks(all) {
      forall a, b | 0 <= a < b < |syms| && syms[a].typ == N_BINCL
        ensures !IsBlock(syms[b], syms[a].name, syms[a].value)
      {
        assert all[a] == syms[a] && all[b] == syms[b];
      }
    }
    if s.typ == N_BINCL && Expanded(syms, s.name, s.value) {
      var a :| 0 <= a < |syms| && IsBlock(syms[a], s.name, s.value);
      BlockFields(syms[a], s.name, s.value);
      BlockOfItself(s);
      assert all[a] == syms[a] && all[|syms|] == s;
    }
    if UniqueBlocks(syms) && (s.typ == N_BINCL ==> !Expanded(syms, s.name, s.value)) { UniqueSnoc(syms, s); }
  }

  lemma UniqueSnoc(syms: seq<Nlist>, s: Nlist)
    requires UniqueBlocks(syms)
    requires s.typ == N_BINCL ==> !Expanded(syms, s.name, s.value)
    ensures UniqueBlocks(syms + [s])
  {
    hide IsBlock;
    var all := syms + [s];
    forall a, b | 0 <= a < b < |all| && all[a].typ == N_BINCL ensures !IsBlock(all[b], all[a].name, all[a].value) {
      if b == |syms| && IsBlock(s, syms[a].name, syms[a].value) {
        BlockFields(s, syms[a].name, syms[a].value);
        BlockOfItself(syms[a]);
      }
    }
  }

  lemma BlockFields(s: Nlist, name: Name, total: int)
    requires IsBlock(s, name, total)
    ensures s.typ == N_BINCL && s.name == name && s.value == total
  {
  }

  lemma BlockOfItself(s: Nlist)
    requires s.typ == N_BINCL
    ensures IsBlock(s, s.name, s.value)
  {
  }
}
