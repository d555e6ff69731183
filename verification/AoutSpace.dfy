/** Space for relocs in a relocatable a.out link (final_link, aout_link_input_section, bfd/aoutx.h). */
module AoutSpace {
  import opened AoutReloc

  /** An input file's reloc sizes, and which of its sections are part of the link. */
  datatype Input = Input(trsize: nat, drsize: nat, textMarked: bool, dataMarked: bool)

  /** What an output section is made of: an input's section, a reloc the linker asks for, or plain data. */
  datatype Order = Indirect(input: nat) | RelocOrder | DataOrder

  datatype OutSection = OutSection(kind: SecKind, orders: seq<Order>)

  /** Relocs go to the text or the data section's region. */
  datatype Region = TextRelocs | DataRelocs

  function Size(x: Input, r: Region): nat { if r == TextRelocs then x.trsize else x.drsize }

  /** What aout_link_input_bfd writes for an input. */
  function Written(x: Input, r: Region): nat {
    if (if r == TextRelocs then x.textMarked else x.dataMarked) then Size(x, r) else 0
  }

  function KindOf(r: Region): SecKind { if r == TextRelocs then Text else Data }

  // What is reserved ------------------------------------------------------------------

  function Sum(inputs: seq<Input>, r: Region): nat {
    if inputs == [] then 0 else Sum(inputs[..|inputs| - 1], r) + Size(inputs[|inputs| - 1], r)
  }

  /** _bfd_count_link_order_relocs. */
  function CountRelocs(orders: seq<Order>): nat {
    if orders == [] then 0 else CountRelocs(orders[..|orders| - 1]) + if orders[|orders| - 1].RelocOrder? then 1 else 0
  }

  /** The reloc orders of the first n sections that go to a region. */
  function CountFor(sections: seq<OutSection>, n: nat, r: Region): nat
    requires n <= |sections|
  {
    if n == 0 then 0
    else CountFor(sections, n - 1, r) + if sections[n - 1].kind == KindOf(r) then CountRelocs(sections[n - 1].orders)
      else 0
  }

  /** The size of so many relocs. */
  function Times(count: nat, entry: nat): nat { count * entry }

  function Reserved(inputs: seq<Input>, sections: seq<OutSection>, entry: nat, r: Region): nat {
    Sum(inputs, r) + Times(CountFor(sections, |sections|, r), entry)
  }

  // What is used ----------------------------------------------------------------------

  /** What the inputs handled so far have written. */
  function Used(inputs: seq<Input>, begun: seq<bool>, r: Region): nat
    requires |begun| == |inputs|
  {
    if inputs == [] then 0
    else
      var k := |inputs| - 1;
      Used(inputs[..k], begun[..k], r) + if begun[k] then Written(inputs[k], r) else 0
  }

  lemma {:induction false} UsedWithin(inputs: seq<Input>, begun: seq<bool>, r: Region)
    requires |begun| == |inputs|
    ensures Used(inputs, begun, r) <= Sum(inputs, r)
  {
    if inputs != [] { UsedWithin(inputs[..|inputs| - 1], begun[..|inputs| - 1], r); }
  }

  /** All that was reserved is used exactly if every input with relocs is handled and marked. */
  lemma {:induction false} UsedAllIff(inputs: seq<Input>, begun: seq<bool>, r: Region)
    requires |begun| == |inputs|
    ensures Used(inputs, begun, r) == Sum(inputs, r) <==>
      forall i :: 0 <= i < |inputs| ==> (if begun[i] then Written(inputs[i], r) else 0) == Size(inputs[i], r)
  {
    if inputs != [] {
      var k := |inputs| - 1;
      UsedAllIff(inputs[..k], begun[..k], r);
      UsedWithin(inputs[..k], begun[..k], r);
    }
  }

  lemma {:induction false} UsedOneMore(inputs: seq<Input>, begun: seq<bool>, i: nat, r: Region)
    requires i < |begun| == |inputs| && !begun[i]
    ensures Used(inputs, begun[i := true], r) == Used(inputs, begun, r) + Written(inputs[i], r)
  {
    var k := |inputs| - 1;
    if i < k {
      UsedOneMore(inputs[..k], begun[..k], i, r);
      assert begun[i := true][..k] == begun[..k][i := true];
    } else {
      assert begun[i := true][..k] == begun[..k];
    }
  }

  lemma {:induction false} NoneUsed(inputs: seq<Input>, begun: seq<bool>, r: Region)
    requires |begun| == |inputs| && forall i :: 0 <= i < |begun| ==> !begun[i]
    ensures Used(inputs, begun, r) == 0
  {
    if inputs != [] { NoneUsed(inputs[..|inputs| - 1], begun[..|inputs| - 1], r); }
  }

  lemma {:induction false} CountGrows(sections: seq<OutSection>, m: nat, n: nat, r: Region)
    requires m <= n <= |sections|
    ensures CountFor(sections, m, r) <= CountFor(sections, n, r)
  {
    if m < n { CountGrows(sections, m, n - 1, r); }
  }

  lemma {:induction false} CountPrefix(orders: seq<Order>, k: nat)
    requires k <= |orders|
    ensures CountRelocs(orders[..k]) <= CountRelocs(orders)
    decreases |orders|
  {
    if k < |orders| {
      CountPrefix(orders[..|orders| - 1], k);
      assert orders[..|orders| - 1][..k] == orders[..k];
    } else {
      assert orders[..k] == orders;
    }
  }

  lemma Scale(a: nat, b: nat, entry: nat)
    requires a <= b
    ensures Times(a, entry) <= Times(b, entry)
  {
    assert (b - a) * entry >= 0;
    assert b * entry == a * entry + (b - a) * entry;
  }

  // The link ----------------------------------------------------------------------------

  class RelocSpace {
    const inputs: seq<Input>
    const sections: seq<OutSection>
    const entry: nat
    const textStart: int
    const dataStart: int
    const symStart: int
    var treloff: int
    var dreloff: int
    /** output_has_begun of each input. */
    var begun: seq<bool>

    /** The target's callback places text relocs, data relocs and symbols one after the other. */
    constructor (inputs: seq<Input>, sections: seq<OutSection>, entry: nat, start: int)
      ensures this.inputs == inputs && this.sections == sections && this.entry == entry
      ensures Placed() && treloff == textStart == start && dreloff == dataStart
      ensures |begun| == |inputs| && forall i :: 0 <= i < |begun| ==> !begun[i]
    {
      this.inputs, this.sections, this.entry, textStart := inputs, sections, entry, start;
      dataStart := start + Reserved(inputs, sections, entry, TextRelocs);
      symStart := start + Reserved(inputs, sections, entry, TextRelocs) + Reserved(inputs, sections, entry, DataRelocs);
      treloff, dreloff := start, start + Reserved(inputs, sections, entry, TextRelocs);
      begun := seq(|inputs|, _ => false);
    }

    ghost predicate Placed() {
      && dataStart == textStart + Reserved(inputs, sections, entry, TextRelocs)
      && symStart == dataStart + Reserved(inputs, sections, entry, DataRelocs)
    }

    /** Both cursors, when `text` and `data` reloc orders have been written. */
    ghost predicate Cursors(text: nat, data: nat)
      reads this
    {
      && |begun| == |inputs|
      && treloff == textStart + Used(inputs, begun, TextRelocs) + Times(text, entry)
      && dreloff == dataStart + Used(inputs, begun, DataRelocs) + Times(data, entry)
    }

    lemma WithinRegions(text: nat, data: nat)
      requires Placed() && Cursors(text, data)
      requires text <= CountFor(sections, |sections|, TextRelocs) && data <= CountFor(sections, |sections|, DataRelocs)
      ensures treloff <= dataStart && dreloff <= symStart && treloff <= symStart
    {
      UsedWithin(inputs, begun, TextRelocs);
      UsedWithin(inputs, begun, DataRelocs);
      Scale(text, CountFor(sections, |sections|, TextRelocs), entry);
      Scale(data, CountFor(sections, |sections|, DataRelocs), entry);
    }

    /** An input file's relocs, the first time one of its sections comes up. */
    method LinkInput(i: nat)
      requires Placed() && Cursors(0, 0) && i < |inputs|
      modifies this
      ensures Cursors(0, 0) && begun == old(begun)[i := true]
    {
      hide Times;
      NoTimes(entry);
      if begun[i] { return; }
      UsedOneMore(inputs, begun, i, TextRelocs);
      UsedOneMore(inputs, begun, i, DataRelocs);
      UsedWithin(inputs, begun[i := true], TextRelocs);
      UsedWithin(inputs, begun[i := true], DataRelocs);
      if inputs[i].textMarked {
        treloff := treloff + inputs[i].trsize;
        assert treloff <= symStart && treloff <= dataStart; // the source's run-time assertion
      }
      if inputs[i].dataMarked {
        dreloff := dreloff + inputs[i].drsize;
        assert dreloff <= symStart; // the source's run-time assertion
      }
      begun := begun[i := true];
    }

    /** The first pass over all link orders: each input is handled once. */
    method LinkInputs()
      requires Placed() && Cursors(0, 0)
      requires forall s, o :: s in sections && o in s.orders && o.Indirect? ==> o.input < |inputs|
      modifies this
      ensures Cursors(0, 0)
      ensures forall i :: 0 <= i < |inputs| ==> begun[i] == (old(begun)[i] || Mentioned(sections, |sections|, i))
    {
      var n := 0;
      while n < |sections|
        invariant n <= |sections| && Cursors(0, 0)
        invariant forall i :: 0 <= i < |inputs| ==> begun[i] == (old(begun)[i] || Mentioned(sections, n, i))
      {
        LinkOrders(sections[n].orders, sections[n]);
        n := n + 1;
      }
    }

    method LinkOrders(orders: seq<Order>, ghost s: OutSection)
      requires Placed() && Cursors(0, 0) && orders == s.orders
      requires forall o :: o in orders && o.Indirect? ==> o.input < |inputs|
      modifies this
      ensures Cursors(0, 0)
      ensures forall i :: 0 <= i < |inputs| ==> begun[i] == (old(begun)[i] || Indirect(i) in orders)
    {
      var k := 0;
      while k < |orders|
        invariant k <= |orders| && Cursors(0, 0)
        invariant forall i :: 0 <= i < |inputs| ==> begun[i] == (old(begun)[i] || Indirect(i) in orders[..k])
      {
        assert orders[..k + 1] == orders[..k] + [orders[k]];
        if orders[k].Indirect? { LinkInput(orders[k].input); }
        k := k + 1;
      }
      assert orders[..k] == orders;
    }

    /** The second pass: relocs the linker asked for; false where a section is neither text nor data. */
    method LinkRelocOrders() returns (ok: bool)
      requires Placed() && Cursors(0, 0)
      modifies this`treloff, this`dreloff
      ensures ok ==> Cursors(CountFor(sections, |sections|, TextRelocs), CountFor(sections, |sections|, DataRelocs))
      ensures ok ==> treloff <= dataStart && dreloff <= symStart
    {
      var n := 0;
      while n < |sections|
        invariant n <= |sections|
        invariant Cursors(CountFor(sections, n, TextRelocs), CountFor(sections, n, DataRelocs))
      {
        ok := RelocOrders(n);
        if !ok { return; }
        n := n + 1;
      }
      ok := true;
      WithinRegions(CountFor(sections, n, TextRelocs), CountFor(sections, n, DataRelocs));
    }

    /** aout_link_reloc_link_order: one more reloc in its section's region. */
    method RelocLinkOrder(r: Region, ghost text: nat, ghost data: nat)
      requires Placed() && Cursors(text, data)
      requires text + (if r == TextRelocs then 1 else 0) <= CountFor(sections, |sections|, TextRelocs)
      requires data + (if r == DataRelocs then 1 else 0) <= CountFor(sections, |sections|, DataRelocs)
      modifies this`treloff, this`dreloff
      ensures if r == TextRelocs then Cursors(text + 1, data) else Cursors(text, data + 1)
    {
      hide Times, CountFor, Used;
      if r == TextRelocs {
        treloff := treloff + entry;
        Distribute(text, entry);
        WithinRegions(text + 1, data);
        assert treloff <= symStart && treloff <= dataStart; // the source's run-time assertion
      } else {
        dreloff := dreloff + entry;
        Distribute(data, entry);
        WithinRegions(text, data + 1);
        assert dreloff <= symStart; // the source's run-time assertion
      }
    }

    method RelocOrders(n: nat) returns (ok: bool)
      requires Placed() && n < |sections|
      requires Cursors(CountFor(sections, n, TextRelocs), CountFor(sections, n, DataRelocs))
      modifies this`treloff, this`dreloff
      ensures ok ==> Cursors(CountFor(sections, n + 1, TextRelocs), CountFor(sections, n + 1, DataRelocs))
    {
      hide Times, Used, Placed, CountRelocs;
      var s := sections[n];
      ghost var t, d := CountFor(sections, n, TextRelocs), CountFor(sections, n, DataRelocs);
      CountGrows(sections, n + 1, |sections|, TextRelocs);
      CountGrows(sections, n + 1, |sections|, DataRelocs);
      var k := 0;
      NoRelocs();
      while k < |s.orders|
        invariant k <= |s.orders|
        invariant Cursors(t + if s.kind == Text then CountRelocs(s.orders[..k]) else 0,
                          d + if s.kind == Data then CountRelocs(s.orders[..k]) else 0)
      {
        CountNext(s.orders, k);
        if s.orders[k].RelocOrder? {
          ghost var c := CountRelocs(s.orders[..k]);
          if s.kind == Text {
            RelocLinkOrder(TextRelocs, t + c, d);
          } else if s.kind == Data {
            RelocLinkOrder(DataRelocs, t, d + c);
          } else {
            return false;
          }
        }
        k := k + 1;
      }
      assert s.orders[..k] == s.orders;
      ok := true;
    }
  }

  lemma NoTimes(entry: nat)
    ensures Times(0, entry) == 0
  {
  }

  lemma NoRelocs()
    ensures CountRelocs([]) == 0
  {
  }

  lemma CountNext(orders: seq<Order>, k: nat)
    requires k < |orders|
    ensures CountRelocs(orders[..k + 1]) == CountRelocs(orders[..k]) +
      (if orders[k].RelocOrder? then 1 else 0) <= CountRelocs(orders)
  {
    assert orders[..k + 1][..k] == orders[..k];
    CountPrefix(orders, k + 1);
  }

  lemma Distribute(a: nat, entry: nat)
    ensures Times(a + 1, entry) == Times(a, entry) + entry
  {
  }

  /** One of the first n sections contains a section of input i. */
  ghost predicate Mentioned(sections: seq<OutSection>, n: nat, i: nat)
    requires n <= |sections|
  {
    exists k :: 0 <= k < n && Indirect(i) in sections[k].orders
  }
}
