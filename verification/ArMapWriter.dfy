/** The symbol-map writers: position arithmetic done before any member is written. */
module ArMapWriter {
  import opened Bytes
  import opened ArHeader
  import opened ArMap

  ghost predicate Past4G(offsets: seq<nat>) { exists i :: 0 <= i < |offsets| && offsets[i] >= TWO32 }

  /** One step of the System 5 writer's running file pointer. */
  method CoffStep(thin: bool, first: nat, ms: seq<Shape>, cur: nat, at: nat) returns (ptr: nat)
    requires cur < |ms| && at == CoffPos(thin, first, ms, cur)
    ensures ptr == CoffPos(thin, first, ms, cur + 1)
  {
    ptr := at + HDR;
    if !thin {
      ptr := ptr + ms[cur].size;
      ptr := ptr + ptr % 2;
    }
  }

  /** The inner loop: one offset for each symbol of member `cur`; with `narrow`, stop at an offset past 4G. */
  method EmitRun(put: nat -> seq<byte>, narrow: bool, map0: seq<Orl>, cur: nat, ptr: nat, from: nat)
    returns (ok: bool, count: nat, out: seq<byte>)
    requires from <= |map0|
    ensures from <= count <= |map0| && forall i :: from <= i < count ==> map0[i].member == cur
    ensures ok <==> (narrow && from < |map0| && map0[from].member == cur ==> ptr < TWO32)
    ensures ok ==> (count < |map0| ==> map0[count].member != cur)
    ensures ok ==> out == Concat<nat>(put, seq(count - from, _ => ptr))
  {
    count, out := from, [];
    while count < |map0| && map0[count].member == cur
      invariant from <= count <= |map0| && forall i :: from <= i < count ==> map0[i].member == cur
      invariant narrow && from < count ==> ptr < TWO32
      invariant out == Concat<nat>(put, seq(count - from, _ => ptr))
    {
      if narrow && ptr != U32(ptr) { return false, count, out; }
      ConcatSnoc<nat>(put, seq(count - from, _ => ptr), ptr);
      assert seq(count - from, _ => ptr) + [ptr] == seq(count + 1 - from, _ => ptr);
      out := out + put(ptr);
      count := count + 1;
    }
    ok := true;
  }

  /** The emitting loop of _bfd_coff_write_armap: None is the "file truncated" error. */
  method CoffEmit(put: nat -> seq<byte>, thin: bool, first: nat, ms: seq<Shape>,
      map0: seq<Orl>) returns (r: Option<seq<byte>>)
    requires GoodMap(map0, |ms|)
    ensures r.None? <==> Past4G(CoffOffsets(thin, first, ms, map0))
    ensures r.Some? ==> r.value == Concat<nat>(put, CoffOffsets(thin, first, ms, map0))
  {
    ghost var offsets := CoffOffsets(thin, first, ms, map0);
    var out: seq<byte> := [];
    var cur, count, ptr := 0, 0, first;
    while cur < |ms| && count < |map0|
      invariant cur <= |ms| && count <= |map0| && ptr == CoffPos(thin, first, ms, cur)
      invariant forall i :: 0 <= i < count ==> offsets[i] < TWO32
      invariant forall i :: count <= i < |map0| ==> map0[i].member >= cur
      invariant cur == |ms| ==> count == |map0|
      invariant out == Concat<nat>(put, offsets[..count])
      decreases |ms| - cur
    {
      var ok, end, run := EmitRun(put, true, map0, cur, ptr, count);
      if !ok {
        assert offsets[count] == ptr;
        return None;
      }
      assert offsets[..end] == offsets[..count] + seq(end - count, _ => ptr);
      ConcatAppend<nat>(put, offsets[..count], seq(end - count, _ => ptr));
      out, count := out + run, end;
      ptr := CoffStep(thin, first, ms, cur, ptr);
      cur := cur + 1;
    }
    assert offsets[..count] == offsets;
    r := Some(out);
  }

  /** The BFD64 pre-pass of _bfd_coff_write_armap: does some offset need more than 32 bits? */
  method CoffPrepass(thin: bool, first: nat, ms: seq<Shape>, map0: seq<Orl>) returns (wide: bool)
    requires GoodMap(map0, |ms|)
    ensures wide <==> Past4G(CoffOffsets(thin, first, ms, map0))
  {
    ghost var offsets := CoffOffsets(thin, first, ms, map0);
    var cur, count, ptr := 0, 0, first;
    while cur < |ms| && count < |map0|
      invariant cur <= |ms| && count <= |map0| && ptr == CoffPos(thin, first, ms, cur)
      invariant forall i :: 0 <= i < count ==> offsets[i] < TWO32
      invariant forall i :: count <= i < |map0| ==> map0[i].member >= cur
      decreases |ms| - cur
    {
      while count < |map0| && map0[count].member == cur
        invariant count <= |map0|
        invariant forall i :: 0 <= i < count ==> offsets[i] < TWO32
        invariant forall i :: count <= i < |map0| ==> map0[i].member >= cur
      {
        assert offsets[count] == ptr;
        if ptr != U32(ptr) { return true; }
        count := count + 1;
      }
      ptr := CoffStep(thin, first, ms, cur, ptr);
      cur := cur + 1;
    }
    wide := false;
  }

  /** The loops that write the strings themselves. */
  method EmitStrings(map0: seq<Orl>) returns (out: seq<byte>)
    ensures out == Strings(map0)
  {
    out := [];
    for i := 0 to |map0|
      invariant out == Strings(map0[..i])
    {
      ConcatNext(CName, map0, i);
      out := out + (map0[i].name + [NUL]);
    }
    assert map0[..|map0|] == map0;
  }

  /** _bfd_ar_sizepad and the header of a map; a 32-bit size always fits its field. */
  method EmitHeader(name: seq<byte>, stat: seq<byte>, size: nat) returns (r: Result<seq<byte>>)
    requires |stat| == 32
    ensures size < TWO32 ==> r == Ok(Header(PadTo(name, NAMELEN), stat, size))
  {
    SizeFitsIff(size);
    if !SizeFits(size) { return Err(TooBig); }
    r := Ok(Header(PadTo(name, NAMELEN), stat, size));
  }

  ghost predicate Members(ms: seq<Shape>, map0: seq<Orl>) { forall i :: 0 <= i < |map0| ==> map0[i].member < |ms| }

  /** The map the 64-bit writer produces. */
  ghost function Sym64MapFor(thin: bool, ms: seq<Shape>, map0: seq<Orl>, elength: nat, stat: seq<byte>): seq<byte>
    requires |stat| == 32 && Members(ms, map0)
  {
    var plan := Sym64Plan(|map0|, |Strings(map0)|, elength);
    WordMap(8, SYM64, plan, stat, Sym64Offsets(thin, plan.first, ms, map0), Strings(map0))
  }

  /** The map the System 5 writer produces: its own format, or the 64-bit one when an offset does not fit. */
  ghost function CoffMapFor(thin: bool, ms: seq<Shape>, map0: seq<Orl>, elength: nat, stat: seq<byte>): seq<byte>
    requires |stat| == 32 && Members(ms, map0)
  {
    var plan := CoffPlan(|map0|, |Strings(map0)|, elength);
    var offsets := CoffOffsets(thin, plan.first, ms, map0);
    if Past4G(offsets) then Sym64MapFor(thin, ms, map0, elength, stat)
      else WordMap(4, [SLASH], plan, stat, offsets, Strings(map0))
  }

  ghost function BsdMapFor(big: bool, thin: bool, ms: seq<Shape>, map0: seq<Orl>, elength: nat,
      stat: seq<byte>): seq<byte>
    requires |stat| == 32 && Members(ms, map0)
  {
    var plan := BsdPlan(|map0|, |Strings(map0)|, elength);
    if Past4G(BsdOffsets(plan.first, ms, map0)) then Sym64MapFor(thin, ms, map0, elength, stat)
    else BsdMap(plan, big, stat, Ranlibs(plan.first, ms, map0), Strings(map0))
  }

  /** _bfd_archive_64_bit_write_armap. */
  method Sym64WriteArmap(thin: bool, ms: seq<Shape>, map0: seq<Orl>, elength: nat, stridx: nat, stat: seq<byte>)
    returns (r: Result<seq<byte>>)
    requires GoodMap(map0, |ms|) && stridx == |Strings(map0)| && |stat| == 32
    ensures r == Ok(Sym64MapFor(thin, ms, map0, elength, stat))
  {
    r := Sym64Write(Sym64Plan(|map0|, stridx, elength), thin, ms, map0, stat);
  }

  method Sym64Write(plan: Plan, thin: bool, ms: seq<Shape>, map0: seq<Orl>,
      stat: seq<byte>) returns (r: Result<seq<byte>>)
    requires GoodMap(map0, |ms|) && |stat| == 32 && plan.mapsize < TWO32
    ensures r == Ok(WordMap(8, SYM64, plan, stat, Sym64Offsets(thin, plan.first, ms, map0), Strings(map0)))
  {
    var put := Putter(true, 8);
    r := EmitHeader(SYM64, stat, plan.mapsize);
    if r.Err? { return; }
    var words := Sym64Emit(put, thin, plan.first, ms, map0);
    var strings := EmitStrings(map0);
    r := Ok(r.value + put(|map0|) + words + strings + Repeat(NUL, plan.padding));
  }

  method Sym64Emit(put: nat -> seq<byte>, thin: bool, first: nat, ms: seq<Shape>,
      map0: seq<Orl>) returns (out: seq<byte>)
    requires GoodMap(map0, |ms|)
    ensures out == Concat<nat>(put, Sym64Offsets(thin, first, ms, map0))
  {
    ghost var offsets := Sym64Offsets(thin, first, ms, map0);
    out := [];
    var cur, count, ptr := 0, 0, first;
    while cur < |ms| && count < |map0|
      invariant cur <= |ms| && count <= |map0| && ptr == Sym64Pos(thin, first, ms, cur)
      invariant forall i :: count <= i < |map0| ==> map0[i].member >= cur
      invariant cur == |ms| ==> count == |map0|
      invariant out == Concat<nat>(put, offsets[..count])
      decreases |ms| - cur
    {
      var ok, end, run := EmitRun(put, false, map0, cur, ptr, count);
      assert offsets[..end] == offsets[..count] + seq(end - count, _ => ptr);
      ConcatAppend<nat>(put, offsets[..count], seq(end - count, _ => ptr));
      out, count := out + run, end;
      ptr := Sym64Step(thin, first, ms, cur, ptr);
      cur := cur + 1;
    }
    assert offsets[..count] == offsets;
  }

  method Sym64Step(thin: bool, first: nat, ms: seq<Shape>, cur: nat, at: nat) returns (ptr: nat)
    requires cur < |ms| && at == Sym64Pos(thin, first, ms, cur)
    ensures ptr == Sym64Pos(thin, first, ms, cur + 1)
  {
    ptr := at + HDR;
    if !thin { ptr := ptr + ms[cur].size; }
    ptr := ptr + ptr % 2;
  }

  /** _bfd_coff_write_armap: never fails, and leaves the 32-bit format exactly when an offset reaches 2^32. */
  method CoffWriteArmap(thin: bool, ms: seq<Shape>, map0: seq<Orl>, elength: nat, stridx: nat, stat: seq<byte>)
    returns (r: Result<seq<byte>>)
    requires GoodMap(map0, |ms|) && stridx == |Strings(map0)| && |stat| == 32
    ensures r == Ok(CoffMapFor(thin, ms, map0, elength, stat))
  {
    var plan := CoffPlan(|map0|, stridx, elength);
    var wide := CoffPrepass(thin, plan.first, ms, map0);
    if wide {
      r := Sym64WriteArmap(thin, ms, map0, elength, stridx, stat);
    } else {
      r := CoffWrite(plan, thin, ms, map0, stat);
    }
  }

  method CoffWrite(plan: Plan, thin: bool, ms: seq<Shape>, map0: seq<Orl>,
      stat: seq<byte>) returns (r: Result<seq<byte>>)
    requires GoodMap(map0, |ms|) && |stat| == 32 && plan.mapsize < TWO32
    ensures var offsets := CoffOffsets(thin, plan.first, ms, map0);
      r == if Past4G(offsets) then Err(Truncated) else Ok(WordMap(4, [SLASH], plan, stat, offsets, Strings(map0)))
  {
    var put := Putter(true, 4);
    r := EmitHeader([SLASH], stat, plan.mapsize);
    if r.Err? { return; }
    var words := CoffEmit(put, thin, plan.first, ms, map0);
    if words.None? { return Err(Truncated); }
    var strings := EmitStrings(map0);
    r := Ok(r.value + put(|map0|) + words.value + strings + Repeat(NUL, plan.padding));
  }

  // The Berkeley writer -----------------------------------------------------

  function BsdOffsets(first: nat, ms: seq<Shape>, map0: seq<Orl>): (r: seq<nat>)
    requires forall i :: 0 <= i < |map0| ==> map0[i].member < |ms|
    ensures |r| == |map0|
  {
    seq(|map0|, i requires 0 <= i < |map0| => BsdPos(first, ms, map0[i].member))
  }

  /** The do-while loop that walks the chain up to the member of the next symbol. */
  method BsdAdvance(first: nat, ms: seq<Shape>, from: nat, at: nat, to: nat) returns (firstreal: nat)
    requires from < to <= |ms| && at == BsdPos(first, ms, from)
    ensures firstreal == BsdPos(first, ms, to)
  {
    var cur := from;
    firstreal := at;
    while cur != to
      invariant from <= cur <= to && firstreal == BsdPos(first, ms, cur)
    {
      firstreal := firstreal + (ms[cur].size + ms[cur].extra + HDR);
      firstreal := firstreal + firstreal % 2;
      cur := cur + 1;
    }
  }

  method BsdPrepass(first: nat, ms: seq<Shape>, map0: seq<Orl>) returns (wide: bool)
    requires GoodMap(map0, |ms|)
    ensures wide <==> Past4G(BsdOffsets(first, ms, map0))
  {
    ghost var offsets := BsdOffsets(first, ms, map0);
    var cur: nat, firstreal := 0, first;
    for count := 0 to |map0|
      invariant cur <= |ms| && firstreal == BsdPos(first, ms, cur)
      invariant count < |map0| ==> cur <= map0[count].member
      invariant forall i :: 0 <= i < count ==> offsets[i] < TWO32
    {
      if map0[count].member != cur {
        firstreal := BsdAdvance(first, ms, cur, firstreal, map0[count].member);
        cur := map0[count].member;
      }
      assert offsets[count] == firstreal;
      if firstreal != U32(firstreal) { return true; }
    }
    wide := false;
  }

  method BsdEmit(put: nat -> seq<byte>, first: nat, ms: seq<Shape>, map0: seq<Orl>) returns (r: Option<seq<byte>>)
    requires GoodMap(map0, |ms|)
    ensures r.None? <==> Past4G(BsdOffsets(first, ms, map0))
    ensures r.Some? ==> r.value == Concat(RanlibPutter(put), Ranlibs(first, ms, map0))
  {
    hide BsdPos, Concat, Strings;
    BsdPosStart(first, ms);
    NoEntries(put);
    ghost var entries := Ranlibs(first, ms, map0);
    ghost var offsets := BsdOffsets(first, ms, map0);
    var out: seq<byte> := [];
    var cur: nat, firstreal := 0, first;
    for count := 0 to |map0|
      invariant cur <= |ms| && firstreal == BsdPos(first, ms, cur)
      invariant count < |map0| ==> cur <= map0[count].member
      invariant forall i :: 0 <= i < count ==> offsets[i] < TWO32
      invariant out == Concat(RanlibPutter(put), entries[..count])
    {
      if map0[count].member != cur {
        firstreal := BsdAdvance(first, ms, cur, firstreal, map0[count].member);
        cur := map0[count].member;
      }
      assert offsets[count] == firstreal;
      if firstreal != U32(firstreal) { return None; }
      ConcatNext(RanlibPutter(put), entries, count);
      out := out + (put(map0[count].namidx) + put(firstreal));
    }
    assert entries[..|map0|] == entries;
    r := Some(out);
  }

  /**
   * A BSD 4.4 target, whose maps are Berkeley ones: a member of 4 GiB with a name of twenty bytes after its header, and
   * one after it that defines "f". The writer falls back to the 64-bit map, which misses the member by the name's
   * bytes.
   */
  lemma Bsd64Wrong()
    ensures var ms, map0 := [Shape(TWO32, 20), Shape(2, 0)], [Orl([102], 1, 0)];
      && Past4G(BsdOffsets(BsdPlan(1, 2, 0).first, ms, map0))
      && var first := Sym64Plan(1, 2, 0).first;
        Sym64Offsets(false, first, ms, map0)[0] + 20 == MemberPos(false, first, ms, 1)
  {
    hide BsdPos, Sym64Pos, CoffPos, MemberPos, BsdPlan, Sym64Plan;
    var ms, map0 := [Shape(TWO32, 20), Shape(2, 0)], [Orl([102], 1, 0)];
    OneSymbolPlans();
    var first, first64 := BsdPlan(1, 2, 0).first, Sym64Plan(1, 2, 0).first;
    BsdPosStart(first, ms);
    BsdPosEven(first, ms, 1);
    assert BsdOffsets(first, ms, map0)[0] >= TWO32;
    CoffPosStart(false, first64, ms);
    CoffPosEven(false, first64, ms, 1);
    SecondMember(first64, ms);
  }

  lemma OneSymbolPlans()
    ensures BsdPlan(1, 2, 0).first == 86 && Sym64Plan(1, 2, 0).first == 92
  {
    hide U32;
    U32Small(2);
    U32Small(8);
    U32Small(16);
    U32Small(18);
    U32Small(24);
    assert RoundUp8(18) == 24;
  }

  lemma NoEntries(put: nat -> seq<byte>)
    ensures Concat(RanlibPutter(put), []) == []
  {
  }

  /** _bfd_bsd_write_armap. */
  method BsdWriteArmap(big: bool, thin: bool, ms: seq<Shape>, map0: seq<Orl>, elength: nat, stridx: nat,
      stat: seq<byte>)
    returns (r: Result<seq<byte>>)
    requires GoodMap(map0, |ms|) && stridx == |Strings(map0)| && |stat| == 32
    ensures r == Ok(BsdMapFor(big, thin, ms, map0, elength, stat))
  {
    var plan := BsdPlan(|map0|, stridx, elength);
    var wide := BsdPrepass(plan.first, ms, map0);
    if wide {
      r := Sym64WriteArmap(thin, ms, map0, elength, stridx, stat);
    } else {
      r := BsdWrite(plan, big, ms, map0, stridx, stat);
    }
  }

  method BsdWrite(plan: Plan, big: bool, ms: seq<Shape>, map0: seq<Orl>, stridx: nat, stat: seq<byte>)
    returns (r: Result<seq<byte>>)
    requires GoodMap(map0, |ms|) && stridx == |Strings(map0)| && |stat| == 32 && plan.mapsize < TWO32
    ensures r == if Past4G(BsdOffsets(plan.first, ms, map0)) then Err(Truncated)
                 else Ok(BsdMap(plan, big, stat, Ranlibs(plan.first, ms, map0), Strings(map0)))
  {
    var put := Putter(big, 4);
    r := EmitHeader(RANLIBMAG, stat, plan.mapsize);
    if r.Err? { return; }
    var entries := BsdEmit(put, plan.first, ms, map0);
    if entries.None? { return Err(Truncated); }
    var strings := EmitStrings(map0);
    r := Ok(r.value + put(U32(|map0| * 8)) + entries.value + put(U32(stridx + plan.padding)) + strings
            + Repeat(NUL, plan.padding));
  }
}
