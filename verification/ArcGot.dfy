/**
 * The ARC global offset table (bfd/arc-got.h): slots and dynamic relocs are reserved first, and filled or emitted
 * later.
 */
module ArcGot {
  import opened Bytes
  import opened Align

  /** The kind of a GOT entry: enum tls_type_e. */
  datatype Kind = Unknown | Normal | TlsGd | TlsIe | TlsLe

  /** enum tls_got_entries. */
  datatype Existing = NoTls | Mod | Off | ModAndOff

  /** A symbol that can have GOT entries: a link hash entry, or the n-th local symbol of an input. */
  datatype Sym = Global(id: nat) | Local(input: nat, id: nat)

  datatype Entry = Entry(kind: Kind, offset: nat, existing: Existing, processed: bool, created: bool)

  datatype RelaType = Relative | GlobDat | DtpMod | DtpOff | TpOff

  datatype Rela = Rela(offset: nat, sym: int, rtype: RelaType, addend: nat)

  // Lists of entries ------------------------------------------------------------

  /** The position of the entry of a kind, or the length of the list. */
  function Find(list: seq<Entry>, kind: Kind): (k: nat)
    ensures k <= |list| && (k < |list| ==> list[k].kind == kind) && forall i :: 0 <= i < k ==> list[i].kind != kind
  {
    if list == [] || list[0].kind == kind then 0 else 1 + Find(list[1..], kind)
  }

  method GotEntryForType(list: seq<Entry>, kind: Kind) returns (k: nat)
    ensures k == Find(list, kind)
  {
    k := 0;
    while k < |list|
      invariant k <= |list| && Find(list, kind) == k + Find(list[k..], kind)
    {
      if list[k].kind == kind { return; }
      k := k + 1;
    }
  }

  /** Appends a new entry, unless one of the kind is there. */
  method NewGotEntryToList(list: seq<Entry>, kind: Kind, offset: nat, existing: Existing) returns (r: seq<Entry>)
    ensures r == if Find(list, kind) < |list| then list else list + [Entry(kind, offset, existing, false, false)]
  {
    var k := GotEntryForType(list, kind);
    r := if k < |list| then list else list + [Entry(kind, offset, existing, false, false)];
  }

  ghost predicate OnePerKind(list: seq<Entry>) { forall i, j :: 0 <= i < j < |list| ==> list[i].kind != list[j].kind }

  // Slots in the order of their allocation --------------------------------------

  datatype Slot = Slot(sym: Sym, kind: Kind, offset: nat)

  function Width(kind: Kind): nat { if kind == TlsGd then 8 else 4 }

  function ExistingFor(kind: Kind): Existing {
    match kind case Normal => NoTls case TlsGd => ModAndOff case _ => Off
  }

  /** Relocs counted into the reloc section when the slot is made. */
  function Cost(pic: bool, sym: Sym, kind: Kind): nat {
    match kind case Normal => (if pic || sym.Global? then 1 else 0) case TlsGd => 2 case _ => 1
  }

  function End(base: nat, slots: seq<Slot>): nat {
    if slots == [] then base else End(base, slots[..|slots| - 1]) + Width(slots[|slots| - 1].kind)
  }

  /** The slots follow one another from base on, without gap or overlap. */
  ghost predicate Tiled(base: nat, slots: seq<Slot>) {
    forall i :: 0 <= i < |slots| ==> slots[i].offset == End(base, slots[..i])
  }

  lemma {:induction false} EndGrows(base: nat, slots: seq<Slot>, i: nat)
    requires i <= |slots|
    ensures base <= End(base, slots[..i]) <= End(base, slots)
    ensures i < |slots| ==> End(base, slots[..i]) + Width(slots[i].kind) <= End(base, slots)
    decreases |slots|, i
  {
    if i < |slots| {
      var front := slots[..|slots| - 1];
      EndGrows(base, front, i);
      assert front[..i] == slots[..i];
    } else if i > 0 {
      EndGrows(base, slots[..i], i - 1);
      assert slots[..i] == slots;
    } else {
      assert slots[..i] == slots;
    }
  }

  /** Tiling means pairwise disjoint, and inside the grown part. */
  lemma TiledDisjoint(base: nat, slots: seq<Slot>, i: nat, j: nat)
    requires Tiled(base, slots) && i < j < |slots|
    ensures base <= slots[i].offset && slots[i].offset + Width(slots[i].kind) <= slots[j].offset
    ensures slots[j].offset + Width(slots[j].kind) <= End(base, slots)
  {
    EndGrows(base, slots[..j], i);
    assert slots[..j][..i] == slots[..i];
    EndGrows(base, slots, j);
  }

  ghost predicate InSlot(p: nat, s: Slot) { s.offset <= p < s.offset + Width(s.kind) }

  lemma {:induction false} TiledCovered(base: nat, slots: seq<Slot>, p: nat)
    requires Tiled(base, slots) && base <= p < End(base, slots)
    ensures exists i :: 0 <= i < |slots| && InSlot(p, slots[i])
  {
    var front, last := slots[..|slots| - 1], slots[|slots| - 1];
    assert last.offset == End(base, front);
    if InSlot(p, last) {
      assert InSlot(p, slots[|slots| - 1]);
    } else {
      assert forall i :: 0 <= i < |front| ==> front[..i] == slots[..i];
      TiledCovered(base, front, p);
      var i :| 0 <= i < |front| && InSlot(p, front[i]);
      assert InSlot(p, slots[i]);
    }
  }

  /** The slots' bytes are exactly those of the grown part. */
  lemma TiledCovers(base: nat, slots: seq<Slot>, p: nat)
    requires Tiled(base, slots)
    ensures base <= p < End(base, slots) <==> exists i :: 0 <= i < |slots| && InSlot(p, slots[i])
  {
    if base <= p < End(base, slots) { TiledCovered(base, slots, p); }
    forall i | 0 <= i < |slots| && InSlot(p, slots[i]) ensures base <= p < End(base, slots) { EndGrows(base, slots,
      i); }
  }

  // What the lists say about the slots --------------------------------------------

  type Lists = map<Sym, seq<Entry>>

  function ListOf(lists: Lists, sym: Sym): seq<Entry> { if sym in lists then lists[sym] else [] }

  function SlotOf(sym: Sym, e: Entry): Slot { Slot(sym, e.kind, e.offset) }

  /** The entry's slot, and what has been done with it. */
  ghost predicate Tracked(slots: seq<Slot>, made: set<Slot>, filled: set<Slot>, sym: Sym, e: Entry) {
    && SlotOf(sym, e) in slots && e.kind != Unknown && e.existing == ExistingFor(e.kind)
    && (e.created <==> SlotOf(sym, e) in made) && (e.processed <==> SlotOf(sym, e) in filled)
  }

  /** Every slot belongs to an entry of its symbol. */
  ghost predicate Owned(lists: Lists, slot: Slot) {
    exists k :: 0 <= k < |ListOf(lists, slot.sym)| && SlotOf(slot.sym, ListOf(lists, slot.sym)[k]) == slot
  }

  /** Entries and slots correspond; `made` slots have their dynamic relocs, `filled` ones their contents. */
  ghost predicate Listed(lists: Lists, slots: seq<Slot>, made: set<Slot>, filled: set<Slot>) {
    && (forall sym :: sym in lists ==> OnePerKind(lists[sym]))
    && (forall sym, k :: sym in lists && 0 <= k < |lists[sym]| ==> Tracked(slots, made, filled, sym, lists[sym][k]))
    && (forall slot :: slot in slots ==> Owned(lists, slot))
    && (forall slot :: slot in made ==> slot in slots)
    && (forall slot :: slot in filled ==> slot in slots)
  }

  ghost predicate Unique(slots: seq<Slot>) { forall i, j :: 0 <= i < j < |slots| ==> slots[i] != slots[j] }

  /** A slot's entry keeps its place when a list grows or has flags set. */
  lemma OwnedStill(lists: Lists, slot: Slot, sym: Sym, list: seq<Entry>)
    requires Owned(lists, slot) && |ListOf(lists, sym)| <= |list|
    requires forall k :: 0 <= k < |ListOf(lists, sym)| ==> SlotOf(sym, list[k]) == SlotOf(sym, ListOf(lists, sym)[k])
    ensures Owned(lists[sym := list], slot)
  {
    var k :| 0 <= k < |ListOf(lists, slot.sym)| && SlotOf(slot.sym, ListOf(lists, slot.sym)[k]) == slot;
    assert SlotOf(slot.sym, ListOf(lists[sym := list], slot.sym)[k]) == slot;
  }

  lemma ListedAdd(lists: Lists, slots: seq<Slot>, made: set<Slot>, filled: set<Slot>, sym: Sym, kind: Kind, offset: nat)
    requires Listed(lists, slots, made, filled) && kind != Unknown
    requires forall i :: 0 <= i < |ListOf(lists, sym)| ==> ListOf(lists, sym)[i].kind != kind
    ensures var e := Entry(kind, offset, ExistingFor(kind), false, false);
      Listed(lists[sym := ListOf(lists, sym) + [e]], slots + [SlotOf(sym, e)], made, filled)
    ensures Slot(sym, kind, offset) !in slots
  {
    var e := Entry(kind, offset, ExistingFor(kind), false, false);
    var list, slot := ListOf(lists, sym), SlotOf(sym, e);
    var lists', slots' := lists[sym := list + [e]], slots + [slot];
    assert slot in slots ==> Owned(lists, slot);
    assert slot !in slots;
    forall x | x in slots' ensures Owned(lists', x) {
      if x == slot {
        assert SlotOf(sym, ListOf(lists', sym)[|list|]) == slot;
      } else {
        OwnedStill(lists, x, sym, list + [e]);
      }
    }
    forall t, k | t in lists' && 0 <= k < |lists'[t]| ensures Tracked(slots', made, filled, t, lists'[t][k]) {
      if t == sym && k == |list| {
        assert slots'[|slots|] == slot;
      } else {
        assert Tracked(slots, made, filled, t, lists[t][k]);
      }
    }
  }

  /** Setting an entry's flags, and recording its slot accordingly. */
  lemma ListedMark(lists: Lists, slots: seq<Slot>, made: set<Slot>, filled: set<Slot>, sym: Sym, k: nat, e: Entry,
                   made': set<Slot>, filled': set<Slot>)
    requires Listed(lists, slots, made, filled) && sym in lists && k < |lists[sym]|
    requires var was := lists[sym][k];
      && e == was.(processed := e.processed, created := e.created)
      && made' == (if e.created then made + {SlotOf(sym, e)} else made) && (was.created ==> e.created)
      && filled' == (if e.processed then filled + {SlotOf(sym, e)} else filled) && (was.processed ==> e.processed)
    ensures Listed(lists[sym := lists[sym][k := e]], slots, made', filled')
  {
    hide Owned;
    var list := lists[sym];
    var lists' := lists[sym := list[k := e]];
    assert Tracked(slots, made, filled, sym, list[k]);
    forall x | x in slots ensures Owned(lists', x) { OwnedStill(lists, x, sym, list[k := e]); }
    forall t, j | t in lists' && 0 <= j < |lists'[t]| ensures Tracked(slots, made', filled', t, lists'[t][j]) {
      assert Tracked(slots, made, filled, t, lists[t][j]);
      assert t == sym && j != k ==> list[j].kind != list[k].kind;
    }
  }

  // Reserved and emitted relocs -----------------------------------------------------

  function Budget(pic: bool, slots: seq<Slot>): nat {
    if slots == [] then 0
    else
      var last := slots[|slots| - 1];
      Budget(pic, slots[..|slots| - 1]) + Cost(pic, last.sym, last.kind)
  }

  /** The part of the budget that belongs to slots in `made`. */
  ghost function Spent(pic: bool, slots: seq<Slot>, made: set<Slot>): nat {
    if slots == [] then 0
    else
      var last := slots[|slots| - 1];
      Spent(pic, slots[..|slots| - 1], made) + if last in made then Cost(pic, last.sym, last.kind) else 0
  }

  lemma {:induction false} SpentWithin(pic: bool, slots: seq<Slot>, made: set<Slot>)
    ensures Spent(pic, slots, made) <= Budget(pic, slots)
  {
    if slots != [] { SpentWithin(pic, slots[..|slots| - 1], made); }
  }

  lemma {:induction false} SpentSame(pic: bool, slots: seq<Slot>, made: set<Slot>, slot: Slot)
    requires slot !in slots
    ensures Spent(pic, slots, made + {slot}) == Spent(pic, slots, made)
  {
    if slots != [] { SpentSame(pic, slots[..|slots| - 1], made, slot); }
  }

  lemma {:induction false} SpentMore(pic: bool, slots: seq<Slot>, made: set<Slot>, slot: Slot)
    requires Unique(slots) && slot in slots && slot !in made
    ensures Spent(pic, slots, made + {slot}) == Spent(pic, slots, made) + Cost(pic, slot.sym, slot.kind)
  {
    var front, last := slots[..|slots| - 1], slots[|slots| - 1];
    if last == slot {
      SpentSame(pic, front, made, slot);
    } else {
      SpentMore(pic, front, made, slot);
    }
  }

  lemma SlotAdded(base: nat, pic: bool, slots: seq<Slot>, slot: Slot, made: set<Slot>)
    requires Tiled(base, slots) && Unique(slots) && slot !in slots && slot.offset == End(base, slots)
    ensures var slots' := slots + [slot];
      && Tiled(base, slots') && Unique(slots') && End(base, slots') == End(base, slots) + Width(slot.kind)
      && Budget(pic, slots') == Budget(pic, slots) + Cost(pic, slot.sym, slot.kind)
      && Spent(pic, slots', made) >= Spent(pic, slots, made)
  {
    hide Width, Cost;
    var slots' := slots + [slot];
    assert slots'[..|slots|] == slots;
    assert forall i :: 0 <= i < |slots| ==> slots'[..i] == slots[..i];
  }

  lemma KnownKind(lists: Lists, slots: seq<Slot>, made: set<Slot>, filled: set<Slot>, sym: Sym, k: nat)
    requires Listed(lists, slots, made, filled) && k < |ListOf(lists, sym)|
    ensures Tracked(slots, made, filled, sym, ListOf(lists, sym)[k])
  {
  }

  // The bytes ---------------------------------------------------------------------

  ghost predicate Shows(buf: seq<byte>, slot: Slot, bytes: seq<byte>) {
    slot.offset + Width(slot.kind) <= |buf| && buf[slot.offset..slot.offset + Width(slot.kind)] == bytes
  }

  /** What a slot's bytes are: what was put there once, or zero. */
  ghost function Image(filled: map<Slot, seq<byte>>, slot: Slot): seq<byte> {
    if slot in filled then filled[slot] else Repeat(0, Width(slot.kind))
  }

  ghost predicate Shown(buf: seq<byte>, slots: seq<Slot>, filled: map<Slot, seq<byte>>) {
    forall slot :: slot in slots ==> Shows(buf, slot, Image(filled, slot))
  }

  function Splice(buf: seq<byte>, at: nat, bytes: seq<byte>): (r: seq<byte>)
    requires at + |bytes| <= |buf|
    ensures |r| == |buf|
  {
    buf[..at] + bytes + buf[at + |bytes|..]
  }

  method Put32(buf: array<byte>, big: bool, value: int, at: nat)
    requires at + 4 <= buf.Length
    modifies buf
    ensures buf[..] == Splice(old(buf[..]), at, PutWord(big, U32(value), 4))
  {
    var bytes := PutWord(big, U32(value), 4);
    ghost var was := buf[..];
    buf[at], buf[at + 1], buf[at + 2], buf[at + 3] := bytes[0], bytes[1], bytes[2], bytes[3];
    hide PutWord, U32;
    assert buf[..] == was[..at] + bytes + was[at + 4..];
  }

  lemma SlotWithin(base: nat, slots: seq<Slot>, x: Slot)
    requires Tiled(base, slots) && x in slots
    ensures base <= x.offset && x.offset + Width(x.kind) <= End(base, slots)
  {
    var i :| 0 <= i < |slots| && slots[i] == x;
    EndGrows(base, slots, i);
  }

  lemma SlotsApart(base: nat, slots: seq<Slot>, x: Slot, y: Slot)
    requires Tiled(base, slots) && x in slots && y in slots && x != y
    ensures x.offset + Width(x.kind) <= y.offset || y.offset + Width(y.kind) <= x.offset
  {
    var i :| 0 <= i < |slots| && slots[i] == x;
    var j :| 0 <= j < |slots| && slots[j] == y;
    if i < j { TiledDisjoint(base, slots, i, j); } else { TiledDisjoint(base, slots, j, i); }
  }

  /** A word put into one slot shows there and changes no other slot. */
  lemma SpliceShows(base: nat, buf: seq<byte>, slots: seq<Slot>, filled: map<Slot, seq<byte>>, slot: Slot, d: nat,
      word: seq<byte>)
    requires Tiled(base, slots) && Shown(buf, slots, filled) && slot in slots && |word| == 4
    requires d + 4 <= Width(slot.kind) && |buf| == End(base, slots)
    ensures slot.offset + d + 4 <= |buf| && base <= |buf|
    ensures |Image(filled, slot)| == Width(slot.kind)
    ensures Shown(Splice(buf, slot.offset + d, word), slots, filled[slot := Splice(Image(filled, slot), d, word)])
    ensures Splice(buf, slot.offset + d, word)[..base] == buf[..base]
  {
    hide Splice, Tiled, End, Width, Shows;
    SlotWithin(base, slots, slot);
    var at := slot.offset + d;
    assert Shows(buf, slot, Image(filled, slot));
    ShowsWithin(buf, slot, Image(filled, slot), d, word);
    ApartSame(buf, at, word, 0, base);
    var filled' := filled[slot := Splice(Image(filled, slot), d, word)];
    forall x | x in slots
      ensures Shows(Splice(buf, at, word), x, Image(filled', x))
    {
      if x != slot {
        assert Shows(buf, x, Image(filled, x));
        SlotsApart(base, slots, slot, x);
        ShowsApart(buf, x, Image(filled, x), at, word);
      }
    }
  }

  lemma ShowsWithin(buf: seq<byte>, slot: Slot, bytes: seq<byte>, d: nat, word: seq<byte>)
    requires Shows(buf, slot, bytes) && d + |word| <= Width(slot.kind)
    ensures |bytes| == Width(slot.kind) && slot.offset + d + |word| <= |buf|
    ensures Shows(Splice(buf, slot.offset + d, word), slot, Splice(bytes, d, word))
  {
    hide Splice, Width;
    WithinSame(buf, slot.offset + d, word, slot.offset, slot.offset + Width(slot.kind));
  }

  lemma ShowsApart(buf: seq<byte>, x: Slot, bytes: seq<byte>, at: nat, word: seq<byte>)
    requires Shows(buf, x, bytes) && at + |word| <= |buf| && (x.offset + Width(x.kind) <= at || at + |word| <= x.offset)
    ensures Shows(Splice(buf, at, word), x, bytes)
  {
    hide Splice, Width;
    ApartSame(buf, at, word, x.offset, x.offset + Width(x.kind));
  }

  lemma WithinSame(buf: seq<byte>, at: nat, word: seq<byte>, lo: nat, hi: nat)
    requires lo <= at && at + |word| <= hi <= |buf|
    ensures Splice(buf, at, word)[lo..hi] == Splice(buf[lo..hi], at - lo, word)
  {
  }

  lemma ApartSame(buf: seq<byte>, at: nat, word: seq<byte>, lo: nat, hi: nat)
    requires at + |word| <= |buf| && lo <= hi <= |buf| && (hi <= at || at + |word| <= lo)
    ensures Splice(buf, at, word)[lo..hi] == buf[lo..hi]
  {
  }

  // The emitted relocs ---------------------------------------------------------------

  /** Each emitted reloc is for a word of a slot whose relocs were made, and no two are for the same word. */
  ghost predicate Placed(relocs: seq<Rela>, origin: seq<Slot>, made: set<Slot>) {
    && |origin| == |relocs|
    && (forall i :: 0 <= i < |relocs| ==> origin[i] in made && InSlot(relocs[i].offset, origin[i]))
    && (forall i, j :: 0 <= i < j < |relocs| ==> relocs[i].offset != relocs[j].offset)
  }

  lemma PlacedMore(base: nat, slots: seq<Slot>, relocs: seq<Rela>, origin: seq<Slot>, made: set<Slot>, slot: Slot,
      more: seq<Rela>)
    requires Tiled(base, slots) && slot in slots && slot !in made && made <= (set x | x in slots)
    requires Placed(relocs, origin, made)
    requires forall i :: 0 <= i < |more| ==> InSlot(more[i].offset, slot)
    requires forall i, j :: 0 <= i < j < |more| ==> more[i].offset != more[j].offset
    ensures Placed(relocs + more, origin + seq(|more|, _ => slot), made + {slot})
  {
    hide Tiled, Width;
    var all, org := relocs + more, origin + seq(|more|, _ => slot);
    forall i, j | 0 <= i < j < |all|
      ensures all[i].offset != all[j].offset
    {
      if i < |relocs| <= j {
        SlotsApart(base, slots, origin[i], slot);
        assert InSlot(more[j - |relocs|].offset, slot);
      }
    }
  }

  /** What the linker knows of a global symbol when it relocates; None for a local one. */
  datatype Hash = Hash(dynindx: int, defRegular: bool, forcedLocal: bool, undefWeak: bool, refsLocal: bool)

  datatype Values = Values(normal: int, value: int, tlsVma: int, tlsAlign: nat)

  /** create_got_dynrelocs_for_single_entry: the relocs of an entry that has none yet. */
  function Emits(pic: bool, symbolic: bool, e: Entry, h: Option<Hash>, word: nat): (r: seq<Rela>)
    requires e.existing == ExistingFor(e.kind)
    ensures forall i :: 0 <= i < |r| ==> e.offset <= r[i].offset < e.offset + Width(e.kind)
    ensures forall i, j :: 0 <= i < j < |r| ==> r[i].offset != r[j].offset
    ensures forall sym: Sym :: sym.Global? == h.Some? ==> |r| <= Cost(pic, sym, e.kind)
  {
    if e.kind == Normal then
      if pic && h.Some? && (symbolic || h.value.dynindx == -1) && h.value.defRegular
        then [Rela(e.offset, 0, Relative, 0)]
      else if h.Some? && h.value.dynindx != -1 then [Rela(e.offset, h.value.dynindx, GlobDat, 0)]
      else []
    else
      var dynindx := if h.None? || h.value.dynindx == -1 then 0 else h.value.dynindx;
      if e.existing == ModAndOff then [Rela(e.offset, dynindx, DtpMod, 0), Rela(e.offset + 4, dynindx, DtpOff, 0)]
      else [Rela(e.offset, dynindx, if e.kind == TlsIe then TpOff else DtpOff, if e.kind == TlsIe then word else 0)]
  }

  /** Which relocs an entry gets, of which type, against which symbol and with which addend. */
  lemma EmitsWhat(pic: bool, symbolic: bool, e: Entry, h: Option<Hash>, word: nat, r: Rela)
    requires e.existing == ExistingFor(e.kind) && e.kind != Unknown
    ensures var relative := pic && h.Some? && (symbolic || h.value.dynindx == -1) && h.value.defRegular;
      var index := if h.Some? && h.value.dynindx != -1 then h.value.dynindx else 0;
      r in Emits(pic, symbolic, e, h, word) <==>
        match r.rtype
        case Relative => e.kind == Normal && relative && r == Rela(e.offset, 0, Relative, 0)
        case GlobDat =>
          && e.kind == Normal && !relative && h.Some? && h.value.dynindx != -1
          && r == Rela(e.offset, index, GlobDat, 0)
        case DtpMod => e.kind == TlsGd && r == Rela(e.offset, index, DtpMod, 0)
        case DtpOff =>
          || (e.kind == TlsGd && r == Rela(e.offset + 4, index, DtpOff, 0))
          || (e.kind == TlsLe && r == Rela(e.offset, index, DtpOff, 0))
        case TpOff => e.kind == TlsIe && r == Rela(e.offset, index, TpOff, word)
  {
  }

  /** What was counted for an entry is used up exactly unless it is a normal one that needs no reloc after all. */
  lemma CostUsedIff(pic: bool, symbolic: bool, sym: Sym, e: Entry, h: Option<Hash>, word: nat)
    requires e.existing == ExistingFor(e.kind) && e.kind != Unknown && h.Some? == sym.Global?
    ensures |Emits(pic, symbolic, e, h, word)| == Cost(pic, sym, e.kind) <==>
      || e.kind != Normal
      || (h.None? && !pic)
      || (h.Some? && (h.value.dynindx != -1 || (pic && h.value.defRegular)))
  {
  }

  /** The entry's contents are known at link time. */
  predicate Resolved(pic: bool, dynamic: bool, h: Option<Hash>) {
    h.None? || h.value.forcedLocal || !dynamic || (pic && h.value.refsLocal)
  }

  /** Which word of a resolved entry is stored, and its value; None if it is left as it is. */
  function Stored(dynamic: bool, kind: Kind, h: Option<Hash>, v: Values): (r: Option<(nat, int)>)
    ensures r.Some? ==> r.value.0 + 4 <= Width(kind)
  {
    match kind
    case TlsGd =>
      if h.None? || h.value.forcedLocal || !dynamic then
        Some((4, v.value - v.tlsVma + if dynamic then 0 else AlignPower(0, v.tlsAlign)))
      else None
    case TlsIe => Some((0, v.value - v.tlsVma + if dynamic then 0 else AlignPower(8, v.tlsAlign)))
    case Normal => if h.Some? && h.value.undefWeak then None else Some((0, v.normal))
    case _ => None
  }

  /** What the single fill of an entry makes of its bytes, all zero before. */
  function FilledBytes(big: bool, dynamic: bool, kind: Kind, h: Option<Hash>, v: Values): seq<byte> {
    var zeros := Repeat(0, Width(kind));
    match Stored(dynamic, kind, h, v)
    case None => zeros
    case Some((d, value)) => Splice(zeros, d, PutWord(big, U32(value), 4))
  }

  /**
   * The filling of an entry as the words it leaves; a TLS offset counts from the TLS section, and the TCB before it.
   */
  ghost predicate Holds(big: bool, dynamic: bool, kind: Kind, h: Option<Hash>, v: Values, buf: seq<byte>, at: nat) {
    var fixed := h.None? || h.value.forcedLocal || !dynamic;
    && at + Width(kind) <= |buf|
    && (kind == Normal ==> Word(big, buf, at) == if h.Some? && h.value.undefWeak then 0 else U32(v.normal))
    && (kind == TlsIe ==>
          Word(big, buf, at) == U32(v.value - v.tlsVma + if dynamic then 0 else AlignPower(8, v.tlsAlign)))
    && (kind == TlsGd ==>
          && Word(big, buf, at) == 0
          && Word(big, buf, at + 4) ==
               if fixed then U32(v.value - v.tlsVma + if dynamic then 0 else AlignPower(0, v.tlsAlign)) else 0)
  }

  lemma WordPut(big: bool, value: int)
    ensures |PutWord(big, U32(value), 4)| == 4 && GetWord(big, PutWord(big, U32(value), 4)) == U32(value)
  {
    WordSizes();
    GetPutWord(big, U32(value), 4);
  }

  lemma WordZero(big: bool)
    ensures GetWord(big, Repeat(0, 4)) == 0
  {
    PutZero(big, 4);
    GetPutWord(big, 0, 4);
  }

  lemma {:induction false} PutZero(big: bool, k: nat)
    ensures PutWord(big, 0, k) == Repeat(0, k)
  {
    if k > 0 { PutZero(big, k - 1); }
  }

  /** The words of eight or four bytes that were zero but for one word. */
  lemma FilledHolds(big: bool, dynamic: bool, kind: Kind, h: Option<Hash>, v: Values, buf: seq<byte>, at: nat)
    requires at + Width(kind) <= |buf| && buf[at..at + Width(kind)] == FilledBytes(big, dynamic, kind, h, v)
    ensures Holds(big, dynamic, kind, h, v, buf, at)
  {
    hide PutWord, GetWord, U32, AlignPower, Repeat;
    var bytes, stored := FilledBytes(big, dynamic, kind, h, v), Stored(dynamic, kind, h, v);
    WordZero(big);
    ZeroSplit();
    assert buf[at..at + 4] == bytes[..4];
    if kind == TlsGd { assert buf[at + 4..at + 8] == bytes[4..8]; }
    if stored.Some? {
      WordPut(big, stored.value.1);
      assert kind != TlsGd ==> bytes[..4] == PutWord(big, U32(stored.value.1), 4);
      assert kind == TlsGd ==> bytes[..4] == Repeat(0, 8)[..4] && bytes[4..8] == PutWord(big, U32(stored.value.1), 4);
    }
  }

  lemma ZeroSplit()
    ensures |Repeat(0, 8)| == 8 && |Repeat(0, 4)| == 4
    ensures Repeat(0, 8)[..4] == Repeat(0, 4) == Repeat(0, 8)[4..8] && Repeat(0, 4)[..4] == Repeat(0, 4)
  {
  }

  lemma SpliceElsewhere(was: seq<byte>, at: nat, word: seq<byte>, now: seq<byte>)
    requires at + |word| <= |was| && now == Splice(was, at, word)
    ensures |now| == |was| && forall p :: 0 <= p < |was| && !(at <= p < at + |word|) ==> now[p] == was[p]
  {
  }

  lemma FilledShows(buf: seq<byte>, slots: seq<Slot>, filled: map<Slot, seq<byte>>, slot: Slot, bytes: seq<byte>)
    requires Shown(buf, slots, filled[slot := bytes]) && slot in slots
    ensures slot.offset + Width(slot.kind) <= |buf| && buf[slot.offset..slot.offset + Width(slot.kind)] == bytes
  {
    assert Shows(buf, slot, Image(filled[slot := bytes], slot));
  }

  lemma ShownSame(buf: seq<byte>, slots: seq<Slot>, filled: map<Slot, seq<byte>>, slot: Slot)
    requires Shown(buf, slots, filled) && slot !in filled
    ensures Shown(buf, slots, filled[slot := Repeat(0, Width(slot.kind))])
  {
    forall x | x in slots ensures Shows(buf, x, Image(filled[slot := Repeat(0, Width(slot.kind))], x)) {
      assert Shows(buf, x, Image(filled, x));
    }
  }

  lemma ZerosShown(base: nat, slots: seq<Slot>, buf: seq<byte>)
    requires Tiled(base, slots) && |buf| == End(base, slots) && forall i :: 0 <= i < |buf| ==> buf[i] == 0
    ensures Shown(buf, slots, map[])
  {
    hide Tiled, End;
    forall x | x in slots ensures Shows(buf, x, Image(map[], x)) {
      SlotWithin(base, slots, x);
      assert buf[x.offset..x.offset + Width(x.kind)] == Repeat(0, Width(x.kind));
    }
  }

  class Got {
    const pic: bool
    const symbolic: bool
    const dynamic: bool
    const big: bool
    const base: nat
    var size: nat
    var reserved: nat
    var lists: Lists
    var sized: bool
    var contents: array<byte>
    var relocs: seq<Rela>
    /** The slots in the order of their allocation. */
    ghost var slots: seq<Slot>
    /** Slots whose dynamic relocs were made, and what was put into the filled ones. */
    ghost var made: set<Slot>
    ghost var filled: map<Slot, seq<byte>>
    ghost var origin: seq<Slot>

    ghost predicate Valid()
      reads this, contents
    {
      && Tiled(base, slots) && size == End(base, slots) && Unique(slots)
      && Listed(lists, slots, made, filled.Keys)
      && reserved == Budget(pic, slots)
      && |relocs| <= Spent(pic, slots, made) && Placed(relocs, origin, made)
      && (if sized then contents.Length == size && Shown(contents[..], slots, filled)
          else made == {} && filled == map[])
    }

    constructor (pic: bool, symbolic: bool, dynamic: bool, big: bool, base: nat)
      ensures Valid() && !sized && size == base && reserved == 0 && lists == map[] && relocs == []
      ensures this.pic == pic && this.symbolic == symbolic && this.dynamic == dynamic && this.big == big
      ensures this.base == base
    {
      this.pic, this.symbolic, this.dynamic, this.big, this.base := pic, symbolic, dynamic, big, base;
      size, reserved, lists, sized, contents, relocs := base, 0, map[], false, new byte[0], [];
      slots, made, filled, origin := [], {}, map[], [];
    }

    /** arc_fill_got_info_for_reloc, while the section is being sized. */
    method FillGotInfo(kind: Kind, sym: Sym) returns (ok: bool)
      requires Valid() && !sized
      modifies this
      ensures Valid() && !sized
      ensures ok <==> kind != Unknown
      ensures var list := ListOf(old(lists), sym);
        if Find(list, kind) < |list| || kind == Unknown then
          lists == old(lists) && slots == old(slots) && size == old(size) && reserved == old(reserved)
        else
          && lists == old(lists)[sym := list + [Entry(kind, old(size), ExistingFor(kind), false, false)]]
          && slots == old(slots) + [Slot(sym, kind, old(size))]
          && size == old(size) + (if kind == TlsGd then 8 else 4)
          && reserved == old(reserved) +
               (match kind case Normal => (if pic || sym.Global? then 1 else 0) case TlsGd => 2 case _ => 1)
          && lists[sym][|list|].existing ==
               (match kind case Normal => NoTls case TlsGd => ModAndOff case _ => Off)
      ensures contents == old(contents) && relocs == old(relocs)
    {
      hide Tiled, End, Unique, Listed, Budget, Spent, Placed, Shown, Find, ListOf;
      var list := ListOf(lists, sym);
      var k := GotEntryForType(list, kind);
      if k < |list| {
        KnownKind(lists, slots, made, filled.Keys, sym, k);
        return true;
      }
      if kind != Unknown {
        ListedAdd(lists, slots, made, filled.Keys, sym, kind, size);
        SlotAdded(base, pic, slots, Slot(sym, kind, size), made);
      }
      var offset, existing;
      match kind {
        case Normal =>
          offset := AddSymbolRef(pic || sym.Global?);
          existing := NoTls;
        case TlsGd =>
          offset := AddSymbolRef(true);
          var _ := AddSymbolRef(true);
          existing := ModAndOff;
        case TlsIe =>
          offset := AddSymbolRef(true);
          existing := Off;
        case TlsLe =>
          offset := AddSymbolRef(true);
          existing := Off;
        case Unknown =>
          return false;
      }
      list := NewGotEntryToList(list, kind, offset, existing);
      lists := lists[sym := list];
      slots := slots + [Slot(sym, kind, offset)];
      ok := true;
    }

    /** ADD_SYMBOL_REF_SEC_AND_RELOC: one word, and the space of one reloc if needed. */
    method AddSymbolRef(needsReloc: bool) returns (offset: nat)
      modifies this`size, this`reserved
      ensures offset == old(size) && size == old(size) + 4
      ensures reserved == old(reserved) + if needsReloc then 1 else 0
    {
      offset := size;
      if needsReloc { reserved := reserved + 1; }
      size := size + 4;
    }

    /** The section gets its contents, all zero, once its size is known. */
    method Allocate()
      requires Valid() && !sized
      modifies this`contents, this`sized
      ensures Valid() && sized && fresh(contents)
    {
      contents := new byte[size](_ => 0);
      sized := true;
      ZerosShown(base, slots, contents[..]);
    }

    /** Stores an entry's link-time value, if it has one. */
    method StoreEntry(e: Entry, h: Option<Hash>, v: Values, ghost slot: Slot)
      requires Valid() && sized && slot in slots && slot !in filled && slot.kind == e.kind && slot.offset == e.offset
      modifies contents
      ensures Shown(contents[..], slots, filled[slot := FilledBytes(big, dynamic, e.kind, h, v)])
      ensures base <= contents.Length && contents[..base] == old(contents[..])[..base]
      ensures forall p :: 0 <= p < contents.Length && !(e.offset <= p < e.offset + Width(e.kind)) ==>
        contents[p] == old(contents[p])
      ensures Holds(big, dynamic, e.kind, h, v, contents[..], e.offset)
    {
      hide Tiled, End, Unique, Listed, Budget, Spent, Placed, Shown, Splice, PutWord, U32, AlignPower, Image, Width,
        Holds;
      BaseWithin(base, slots);
      var stored := Stored(dynamic, e.kind, h, v);
      if stored.Some? {
        var (d, value) := stored.value;
        SpliceShows(base, contents[..], slots, filled, slot, d, PutWord(big, U32(value), 4));
        ZeroImage(filled, slot);
        Put32(contents, big, value, e.offset + d);
        SpliceElsewhere(old(contents[..]), e.offset + d, PutWord(big, U32(value), 4), contents[..]);
      } else {
        ShownSame(contents[..], slots, filled, slot);
      }
      FilledShows(contents[..], slots, filled, slot, FilledBytes(big, dynamic, e.kind, h, v));
      FilledHolds(big, dynamic, e.kind, h, v, contents[..], e.offset);
    }

    /** relocate_fix_got_relocs_for_got_info: an entry is filled at most once, and only its own bytes change. */
    method Relocate(sym: Sym, kind: Kind, h: Option<Hash>, v: Values) returns (offset: nat)
      requires Valid() && sized && h.Some? == sym.Global?
      requires kind != Unknown && kind != TlsLe ==> Find(ListOf(lists, sym), kind) < |ListOf(lists, sym)|
      modifies this`lists, this`filled, contents
      ensures Valid() && contents == old(contents)
      ensures forall x :: x in old(filled) ==> x in filled && filled[x] == old(filled)[x]
      ensures contents.Length >= base && contents[..base] == old(contents[..])[..base]
      ensures kind == Unknown || kind == TlsLe ==>
        offset == 0 && filled == old(filled) && contents[..] == old(contents[..])
      ensures kind != Unknown && kind != TlsLe ==>
        var e := ListOf(old(lists), sym)[Find(ListOf(old(lists), sym), kind)];
        && offset == e.offset
        && if e.processed || !(h.None? || h.value.forcedLocal || !dynamic || (pic && h.value.refsLocal)) then
             filled == old(filled) && lists == old(lists) && contents[..] == old(contents[..])
           else
             && filled == old(filled)[SlotOf(sym, e) := FilledBytes(big, dynamic, kind, h, v)]
             && Holds(big, dynamic, kind, h, v, contents[..], offset)
             && forall p :: 0 <= p < contents.Length && !(offset <= p < offset + Width(kind)) ==>
                  contents[p] == old(contents[p])
    {
      hide Tiled, End, Unique, Listed, Budget, Spent, Placed, Shown, Find, FilledBytes, Holds, Width;
      BaseWithin(base, slots);
      if kind == Unknown || kind == TlsLe { return 0; }
      var list := ListOf(lists, sym);
      var k := GotEntryForType(list, kind);
      var e := list[k];
      KnownKind(lists, slots, made, filled.Keys, sym, k);
      offset := e.offset;
      if !Resolved(pic, dynamic, h) || e.processed { return; }
      ghost var slot := SlotOf(sym, e);
      StoreEntry(e, h, v, slot);
      ListedMark(lists, slots, made, filled.Keys, sym, k, e.(processed := true), made, filled.Keys + {slot});
      lists := lists[sym := list[k := e.(processed := true)]];
      filled := filled[slot := FilledBytes(big, dynamic, kind, h, v)];
      assert filled.Keys == old(filled).Keys + {slot};
    }

    /** ADD_RELA: the reloc section has room for one more. */
    method AddRela(r: Rela)
      requires dynamic ==> |relocs| < reserved
      modifies this`relocs
      ensures relocs == old(relocs) + if dynamic then [r] else []
    {
      if dynamic { relocs := relocs + [r]; }
    }

    /** The relocs of one entry, as its kind calls for. */
    method EmitRelocs(e: Entry, h: Option<Hash>)
      requires e.existing == ExistingFor(e.kind) && e.offset + 4 <= contents.Length
      requires dynamic ==> |relocs| + |Emits(pic, symbolic, e, h, Word(big, contents[..], e.offset))| <= reserved
      modifies this`relocs
      ensures relocs == old(relocs) + if dynamic then Emits(pic, symbolic, e, h, Word(big, contents[..], e.offset))
        else []
    {
      hide Word;
      if e.kind == Normal {
        if pic && h.Some? && (symbolic || h.value.dynindx == -1) && h.value.defRegular {
          AddRela(Rela(e.offset, 0, Relative, 0));
        } else if h.Some? && h.value.dynindx != -1 {
          AddRela(Rela(e.offset, h.value.dynindx, GlobDat, 0));
        }
      } else if e.existing != NoTls {
        var dynindx := if h.None? || h.value.dynindx == -1 then 0 else h.value.dynindx;
        if e.existing == ModAndOff || e.existing == Mod {
          AddRela(Rela(e.offset, dynindx, DtpMod, 0));
        }
        if e.existing == ModAndOff || e.existing == Off {
          var addend := 0;
          if e.kind == TlsIe { addend := Word(big, contents[..], e.offset); }
          AddRela(Rela(e.offset + if e.existing == ModAndOff then 4 else 0, dynindx, if e.kind == TlsIe then TpOff
            else DtpOff, addend));
        }
      }
    }

    /** create_got_dynrelocs_for_single_entry: each entry's relocs are emitted once, within what was reserved. */
    method CreateDynRelocs(sym: Sym, k: nat, h: Option<Hash>)
      requires Valid() && sized && h.Some? == sym.Global? && k < |ListOf(lists, sym)|
      modifies this`lists, this`made, this`relocs, this`origin
      ensures Valid() && |relocs| <= reserved
      ensures var e := ListOf(old(lists), sym)[k];
        if e.created then lists == old(lists) && relocs == old(relocs)
        else
          && lists == old(lists)[sym := ListOf(old(lists), sym)[k := e.(created := true)]]
          && e.existing == ExistingFor(e.kind) && e.offset + 4 <= contents.Length
          && relocs == old(relocs) + if dynamic then Emits(pic, symbolic, e, h, Word(big, contents[..], e.offset))
            else []
    {
      hide Tiled, End, Unique, Listed, Budget, Spent, Placed, Shown, Word, Emits, Cost;
      var list := ListOf(lists, sym);
      var e := list[k];
      KnownKind(lists, slots, made, filled.Keys, sym, k);
      SpentWithin(pic, slots, made);
      if e.created { return; }
      ghost var slot, was := SlotOf(sym, e), relocs;
      SlotWithin(base, slots, slot);
      RoomFor(pic, symbolic, slots, made, sym, e, h, Word(big, contents[..], e.offset));
      EmitRelocs(e, h);
      ghost var more := if dynamic then Emits(pic, symbolic, e, h, Word(big, contents[..], e.offset)) else [];
      assert relocs == was + more;
      MadeWithin(lists, slots, made, filled.Keys);
      PlacedMore(base, slots, was, origin, made, slot, more);
      ListedMark(lists, slots, made, filled.Keys, sym, k, e.(created := true), made + {slot}, filled.Keys);
      lists := lists[sym := list[k := e.(created := true)]];
      made, origin := made + {slot}, origin + seq(|more|, _ => slot);
    }

    /** create_got_dynrelocs_for_got_info: all entries of a symbol. */
    method CreateForSymbol(sym: Sym, h: Option<Hash>)
      requires Valid() && sized && h.Some? == sym.Global?
      modifies this`lists, this`made, this`relocs, this`origin
      ensures Valid() && |relocs| <= reserved && old(relocs) <= relocs
      ensures |ListOf(lists, sym)| == |ListOf(old(lists), sym)|
      ensures forall i :: 0 <= i < |ListOf(lists, sym)| ==>
        ListOf(lists, sym)[i] == ListOf(old(lists), sym)[i].(created := true)
    {
      hide Valid, Emits, Word, ExistingFor;
      WithinReserved();
      var k := 0;
      while k < |ListOf(lists, sym)|
        invariant Valid() && |relocs| <= reserved && old(relocs) <= relocs
        invariant k <= |ListOf(lists, sym)| == |ListOf(old(lists), sym)|
        invariant forall i :: 0 <= i < k ==> ListOf(lists, sym)[i] == ListOf(old(lists), sym)[i].(created := true)
        invariant forall i :: k <= i < |ListOf(lists, sym)| ==> ListOf(lists, sym)[i] == ListOf(old(lists), sym)[i]
      {
        CreateDynRelocs(sym, k, h);
        k := k + 1;
      }
    }

    lemma WithinReserved()
      requires Valid()
      ensures |relocs| <= reserved
    {
      SpentWithin(pic, slots, made);
    }

    /** In every reachable state: entries of whatever symbols tile the grown part, and each has its own bytes. */
    lemma EntriesApart(sym: Sym, k: nat, other: Sym, j: nat)
      requires Valid() && k < |ListOf(lists, sym)| && j < |ListOf(lists, other)| && (sym != other || k != j)
      ensures var e, f := ListOf(lists, sym)[k], ListOf(lists, other)[j];
        && (sym == other ==> e.kind != f.kind)
        && base <= e.offset && e.offset + Width(e.kind) <= size
        && (e.offset + Width(e.kind) <= f.offset || f.offset + Width(f.kind) <= e.offset)
    {
      KnownKind(lists, slots, made, filled.Keys, sym, k);
      KnownKind(lists, slots, made, filled.Keys, other, j);
      var e, f := ListOf(lists, sym)[k], ListOf(lists, other)[j];
      SlotWithin(base, slots, SlotOf(sym, e));
      SlotsApart(base, slots, SlotOf(sym, e), SlotOf(other, f));
    }

    /** No byte of the grown part is left over. */
    lemma EntriesCover(p: nat)
      requires Valid() && base <= p < size
      ensures exists sym, k :: 0 <= k < |ListOf(lists, sym)| && InSlot(p, SlotOf(sym, ListOf(lists, sym)[k]))
    {
      TiledCovered(base, slots, p);
      var i :| 0 <= i < |slots| && InSlot(p, slots[i]);
      assert Owned(lists, slots[i]);
      var k :| 0 <= k < |ListOf(lists, slots[i].sym)| && SlotOf(slots[i].sym, ListOf(lists, slots[i].sym)[k]) ==
        slots[i];
      assert InSlot(p, SlotOf(slots[i].sym, ListOf(lists, slots[i].sym)[k]));
    }

    /** In every reachable state the emitted relocs fit the reservation, and each is for another word of the table. */
    lemma RelocsFit()
      requires Valid()
      ensures |relocs| <= reserved
      ensures forall i :: 0 <= i < |relocs| ==> base <= relocs[i].offset < size
      ensures forall i, j :: 0 <= i < j < |relocs| ==> relocs[i].offset != relocs[j].offset
    {
      WithinReserved();
      MadeWithin(lists, slots, made, filled.Keys);
      forall i | 0 <= i < |relocs| ensures base <= relocs[i].offset < size { SlotWithin(base, slots, origin[i]); }
    }
  }

  lemma MadeWithin(lists: Lists, slots: seq<Slot>, made: set<Slot>, filled: set<Slot>)
    requires Listed(lists, slots, made, filled)
    ensures made <= set x | x in slots
  {
  }

  /** What an entry emits fits into what is left of the budget. */
  lemma RoomFor(pic: bool, symbolic: bool, slots: seq<Slot>, made: set<Slot>, sym: Sym, e: Entry, h: Option<Hash>,
      word: nat)
    requires Unique(slots) && SlotOf(sym, e) in slots && SlotOf(sym, e) !in made && e.existing == ExistingFor(e.kind)
    requires h.Some? == sym.Global?
    ensures var more := |Emits(pic, symbolic, e, h, word)|;
      Spent(pic, slots, made) + more <= Spent(pic, slots, made + {SlotOf(sym, e)}) <= Budget(pic, slots)
  {
    hide Emits, Cost;
    SpentMore(pic, slots, made, SlotOf(sym, e));
    SpentWithin(pic, slots, made + {SlotOf(sym, e)});
  }

  function Word(big: bool, buf: seq<byte>, at: nat): nat { if at + 4 <= |buf| then GetWord(big, buf[at..at + 4])
      else 0 }

  lemma BaseWithin(base: nat, slots: seq<Slot>)
    ensures base <= End(base, slots)
  {
    EndGrows(base, slots, |slots|);
    assert slots[..|slots|] == slots;
  }

  lemma ZeroImage(filled: map<Slot, seq<byte>>, slot: Slot)
    requires slot !in filled
    ensures Image(filled, slot) == Repeat(0, Width(slot.kind))
  {
  }
}
