/** Section addresses, file positions and header sizes of an a.out file (bfd/aoutx.h). */
module AoutLayout {
  import opened Bytes
  import opened Align
  import opened Words

  datatype Magic = Undecided | OMagic | NMagic | ZMagic | QMagic

  /** What the target fixes: sizes in bytes, and how demand-paged files are laid out. */
  datatype Target = Target(execSize: nat, pageSize: nat, segmentSize: nat, diskBlock: nat, defaultTextVma: nat,
                           textIncludesHeader: bool, qmagic: bool, contiguous: bool, headerNotCounted: bool,
                           hasReloc: bool)

  /** Pages and segments are powers of two: divisors of 2^64. */
  predicate ValidTarget(t: Target) { PowerOfTwo(t.pageSize) && PowerOfTwo(t.segmentSize) }

  /** A section before the layout. */
  datatype Sec = Sec(size: nat, vma: nat, userSetVma: bool, alignmentPower: nat)

  datatype Layout = Layout(textVma: nat, textFile: int, dataVma: nat, dataFile: int, bssVma: nat,
                           aText: nat, aData: nat, aBss: nat, magic: Magic)

  function Max(x: int, y: int): int { if x < y then y else x }

  // OMAGIC and NMAGIC ---------------------------------------------------------------

  /** The padding an OMAGIC data section gets to reach a bss placed by the user; an int in the source. */
  function OPad(end: nat, bss: Sec): nat { if bss.userSetVma then Max(0, S32(bss.vma - end)) else 0 }

  function OLayout(t: Target, text: Sec, data: Sec, bss: Sec, aText: nat): Layout {
    var textVma := if text.userSetVma then text.vma else 0;
    var dataVma := if data.userSetVma then data.vma else U64(textVma + aText);
    var end := U64(dataVma + data.size);
    Layout(textVma, t.execSize, dataVma, S64(t.execSize + aText), if bss.userSetVma then bss.vma else end,
           aText, U64(data.size + OPad(end, bss)), bss.size, OMagic)
  }

  /** The padding that aligns the end of NMAGIC data for the bss; an int in the source. */
  function NPad(end: nat, p: nat): int { S32(AlignPower(end, p) - end) }

  function NLayout(t: Target, text: Sec, data: Sec, bss: Sec, aText: nat): Layout
    requires ValidTarget(t)
  {
    var textVma := if text.userSetVma then text.vma else 0;
    var dataVma := if data.userSetVma then data.vma else BfdAlign(U64(textVma + aText), t.segmentSize);
    var end := U64(dataVma + data.size);
    Layout(textVma, t.execSize, dataVma, S64(t.execSize + aText), if bss.userSetVma then bss.vma else end,
           aText, U64(data.size + NPad(end, bss.alignmentPower)), bss.size, NMagic)
  }

  // ZMAGIC --------------------------------------------------------------------------

  /** The text segment includes the exec header. */
  predicate Ztih(t: Target) { t.textIncludesHeader || t.qmagic }

  function ZTextFile(t: Target): nat { if Ztih(t) then t.execSize else t.diskBlock }

  function ZTextVma(t: Target, text: Sec): nat {
    if text.userSetVma then text.vma
    else if t.hasReloc then 0
    else U64(t.defaultTextVma + if Ztih(t) then t.execSize else 0)
  }

  /** Padding because the text is loaded at an unusual address. */
  function ZSkew(t: Target, text: Sec): nat
    requires ValidTarget(t)
  {
    if text.userSetVma then U64((if Ztih(t) then t.execSize else 0) - text.vma) % t.pageSize else 0
  }

  /** Where the text ends, counted from where its pages start. */
  function ZTextEnd(t: Target, aText: nat): nat { if Ztih(t) then t.execSize + aText else aText }

  /** a_text, padded to the end of a page. */
  function ZPadded(t: Target, text: Sec, aText: nat): nat
    requires ValidTarget(t)
  {
    U64(aText + ZSkew(t, text) + BfdAlign(ZTextEnd(t, aText), t.pageSize) - ZTextEnd(t, aText))
  }

  function ZDataVma(t: Target, text: Sec, data: Sec, aText: nat): nat
    requires ValidTarget(t)
  {
    if data.userSetVma then data.vma
    else BfdAlign(U64(ZTextVma(t, text) + ZPadded(t, text, aText)), t.segmentSize)
  }

  /** a_text when the data follows the text in memory without a hole: the difference is unsigned. */
  function ZFinal(t: Target, text: Sec, data: Sec, aText: nat): nat
    requires ValidTarget(t)
  {
    var padded := ZPadded(t, text, aText);
    if t.contiguous then
      var pad := U64(ZDataVma(t, text, data, aText) - U64(ZTextVma(t, text) + padded));
      if pad > 0 then U64(padded + pad) else padded
    else padded
  }

  function ZData(t: Target, data: Sec, bss: Sec): nat
    requires ValidTarget(t)
  {
    BfdAlign(AlignPower(data.size, bss.alignmentPower), t.pageSize)
  }

  function ZBssVma(t: Target, text: Sec, data: Sec, bss: Sec, aText: nat): nat
    requires ValidTarget(t)
  {
    if bss.userSetVma then bss.vma else U64(ZDataVma(t, text, data, aText) + ZData(t, data, bss))
  }

  /** The bss starts where the padded data ends. */
  predicate ZAbuts(t: Target, text: Sec, data: Sec, bss: Sec, aText: nat)
    requires ValidTarget(t)
  {
    AlignPower(ZBssVma(t, text, data, bss, aText), bss.alignmentPower)
    == U64(ZDataVma(t, text, data, aText) + ZData(t, data, bss))
  }

  function ZLayout(t: Target, text: Sec, data: Sec, bss: Sec, aText: nat): Layout
    requires ValidTarget(t)
  {
    var final, aData := ZFinal(t, text, data, aText), ZData(t, data, bss);
    var pad := U64(aData - data.size);
    Layout(ZTextVma(t, text), ZTextFile(t), ZDataVma(t, text, data, aText), S64(ZTextFile(t) + final),
           ZBssVma(t, text, data, bss, aText),
           if Ztih(t) && !t.headerNotCounted then U64(final + t.execSize) else final, aData,
           if !ZAbuts(t, text, data, bss, aText) then bss.size else if pad > bss.size then 0 else bss.size - pad,
           if t.qmagic then QMagic else ZMagic)
  }

  // The layout code -------------------------------------------------------------------

  class Section {
    const size: nat
    const userSetVma: bool
    const alignmentPower: nat
    var vma: nat
    var filepos: int

    constructor (s: Sec)
      ensures Value() == s
    {
      size, userSetVma, alignmentPower, vma, filepos := s.size, s.userSetVma, s.alignmentPower, s.vma, 0;
    }

    function Value(): Sec reads this { Sec(size, vma, userSetVma, alignmentPower) }
  }

  class ExecHeader {
    var aText: nat
    var aData: nat
    var aBss: nat
    var magic: Magic

    constructor (aText: nat)
      ensures this.aText == aText && magic == Undecided
    {
      this.aText, aData, aBss, magic := aText, 0, 0, Undecided;
    }
  }

  function Result(text: Section, data: Section, bss: Section, exec: ExecHeader): Layout
    reads text, data, bss, exec
  {
    Layout(text.vma, text.filepos, data.vma, data.filepos, bss.vma, exec.aText, exec.aData, exec.aBss, exec.magic)
  }

  method AdjustO(t: Target, text: Section, data: Section, bss: Section, exec: ExecHeader)
    requires text != data && text != bss && data != bss
    modifies text, data, bss, exec
    ensures Result(text, data, bss, exec) == old(OLayout(t, text.Value(), data.Value(), bss.Value(), exec.aText))
    ensures bss.filepos >= data.filepos + data.size
  {
    hide U64, S32;
    var pos: int, vma: nat, pad: int := t.execSize, 0, 0;
    text.filepos := pos;
    if !text.userSetVma { text.vma := vma; } else { vma := text.vma; }
    pos := S64(pos + exec.aText);
    vma := U64(vma + exec.aText);
    if !data.userSetVma { data.vma := vma; } else { vma := data.vma; }
    data.filepos := pos;
    pos := pos + data.size;
    vma := U64(vma + data.size);
    if !bss.userSetVma {
      bss.vma := vma;
    } else {
      pad := S32(bss.vma - vma);
      if pad < 0 { pad := 0; }
      pos := pos + pad;
    }
    exec.aData := U64(data.size + pad);
    bss.filepos := pos;
    exec.aBss := bss.size;
    exec.magic := OMagic;
  }

  method AdjustN(t: Target, text: Section, data: Section, bss: Section, exec: ExecHeader)
    requires ValidTarget(t) && text != data && text != bss && data != bss
    modifies text, data, bss, exec
    ensures Result(text, data, bss, exec) == old(NLayout(t, text.Value(), data.Value(), bss.Value(), exec.aText))
  {
    hide U64, S32, BfdAlign, AlignPower;
    var pos: int, vma: nat := t.execSize, 0;
    text.filepos := pos;
    if !text.userSetVma { text.vma := vma; } else { vma := text.vma; }
    pos := S64(pos + exec.aText);
    vma := U64(vma + exec.aText);
    data.filepos := pos;
    if !data.userSetVma { data.vma := BfdAlign(vma, t.segmentSize); }
    vma := data.vma;
    vma := U64(vma + data.size);
    var pad := S32(AlignPower(vma, bss.alignmentPower) - vma);
    exec.aData := U64(data.size + pad);
    if !bss.userSetVma { bss.vma := vma; } else { vma := bss.vma; }
    exec.aBss := bss.size;
    exec.magic := NMagic;
  }

  /** The text section of a ZMAGIC file, and its padding. */
  method AdjustZText(t: Target, text: Section, exec: ExecHeader)
    requires ValidTarget(t)
    modifies text, exec`aText
    ensures text.filepos == ZTextFile(t) && text.vma == old(ZTextVma(t, text.Value()))
    ensures exec.aText == old(ZPadded(t, text.Value(), exec.aText))
  {
    hide U64, BfdAlign;
    var ztih := t.textIncludesHeader || t.qmagic;
    text.filepos := if ztih then t.execSize else t.diskBlock;
    var textPad: nat := 0;
    if !text.userSetVma {
      text.vma := if t.hasReloc then 0 else U64(t.defaultTextVma + if ztih then t.execSize else 0);
    } else if ztih {
      textPad := U64(text.filepos - text.vma) % t.pageSize;
    } else {
      textPad := U64(-(text.vma as int)) % t.pageSize;
    }
    var textEnd := if ztih then t.execSize + exec.aText else exec.aText;
    exec.aText := U64(exec.aText + textPad + BfdAlign(textEnd, t.pageSize) - textEnd);
  }

  /** The bss section, and the part of it that fits into the padding after the data. */
  method AdjustZBss(t: Target, data: Section, bss: Section, exec: ExecHeader)
    requires ValidTarget(t) && data != bss
    modifies bss`vma, exec`aData, exec`aBss
    ensures exec.aData == old(ZData(t, data.Value(), bss.Value()))
    ensures bss.vma == if bss.userSetVma then old(bss.vma) else U64(data.vma + exec.aData)
    ensures var pad := U64(exec.aData - data.size);
      exec.aBss == if AlignPower(bss.vma, bss.alignmentPower) != U64(data.vma + exec.aData) then bss.size
                   else if pad > bss.size then 0 else bss.size - pad
  {
    hide U64, BfdAlign, AlignPower;
    exec.aData := AlignPower(data.size, bss.alignmentPower);
    exec.aData := BfdAlign(exec.aData, t.pageSize);
    var dataPad := U64(exec.aData - data.size);
    if !bss.userSetVma { bss.vma := U64(data.vma + exec.aData); }
    if AlignPower(bss.vma, bss.alignmentPower) == U64(data.vma + exec.aData) {
      exec.aBss := if dataPad > bss.size then 0 else bss.size - dataPad;
    } else {
      exec.aBss := bss.size;
    }
  }

  /** The data section, and the text's padding up to it. */
  method AdjustZData(t: Target, text: Section, data: Section, exec: ExecHeader, ghost was: Sec, ghost aText: nat)
    requires ValidTarget(t) && text != data && text.filepos == ZTextFile(t)
    requires text.vma == ZTextVma(t, was) && exec.aText == ZPadded(t, was, aText)
    modifies data, exec`aText, exec`magic
    ensures data.vma == ZDataVma(t, was, old(data.Value()), aText)
    ensures var final := ZFinal(t, was, old(data.Value()), aText);
      && data.filepos == S64(ZTextFile(t) + final)
      && exec.aText == if Ztih(t) && !t.headerNotCounted then U64(final + t.execSize) else final
    ensures exec.magic == if t.qmagic then QMagic else ZMagic
  {
    hide U64, S64, BfdAlign, ZTextVma, ZPadded, ZTextFile;
    if !data.userSetVma { data.vma := BfdAlign(U64(text.vma + exec.aText), t.segmentSize); }
    if t.contiguous {
      var textPad := U64(data.vma - U64(text.vma + exec.aText));
      if textPad > 0 { exec.aText := U64(exec.aText + textPad); }
    }
    data.filepos := S64(text.filepos + exec.aText);
    if (t.textIncludesHeader || t.qmagic) && !t.headerNotCounted { exec.aText := U64(exec.aText + t.execSize); }
    exec.magic := if t.qmagic then QMagic else ZMagic;
  }

  method AdjustZ(t: Target, text: Section, data: Section, bss: Section, exec: ExecHeader)
    requires ValidTarget(t) && text != data && text != bss && data != bss
    modifies text, data, bss, exec
    ensures Result(text, data, bss, exec) == old(ZLayout(t, text.Value(), data.Value(), bss.Value(), exec.aText))
  {
    hide U64, S64, BfdAlign, AlignPower, ZTextVma, ZPadded, ZTextFile, ZFinal, ZDataVma;
    ghost var was, aText := text.Value(), exec.aText;
    AdjustZText(t, text, exec);
    AdjustZData(t, text, data, exec, was, aText);
    AdjustZBss(t, data, bss, exec);
  }

  // Without overflow ------------------------------------------------------------------

  const BIG: nat := 0x0800_0000_0000_0000

  ghost predicate SmallSec(s: Sec) { s.size < BIG && s.vma < BIG && Pow(2, s.alignmentPower) <= BIG }

  /** Sizes and addresses far enough below 2^64 for no sum here to wrap around. */
  ghost predicate Small(t: Target, text: Sec, data: Sec, bss: Sec, aText: nat) {
    && ValidTarget(t) && SmallSec(text) && SmallSec(data) && SmallSec(bss) && text.size <= aText < BIG
    && t.execSize < BIG && t.pageSize <= BIG && t.segmentSize <= BIG && t.diskBlock < BIG && t.defaultTextVma < BIG
  }

  /** A page divides 2^64, so wrapping around keeps the offset into a page. */
  lemma PageOfU64(x: int, page: nat)
    requires page > 0 && TWO64 % page == 0
    ensures U64(x) % page == x % page
  {
    var k, q, r := TWO64 / page, x / TWO64, U64(x) % page;
    assert TWO64 == k * page;
    assert x == q * TWO64 + U64(x);
    assert U64(x) == (U64(x) / page) * page + r;
    assert x == q * (k * page) + (U64(x) / page) * page + r;
    assert x == (q * k + U64(x) / page) * page + r by { Factor(q, k, U64(x) / page, page); }
    ModUnique(x, page, q * k + U64(x) / page, r);
  }

  lemma Factor(q: int, k: int, j: int, page: int)
    ensures q * (k * page) + j * page == (q * k + j) * page
  {
  }

  lemma MultipleSum(a: int, b: int, m: nat)
    requires m > 0 && a % m == 0
    ensures (a + b) % m == b % m
  {
    var q, j := a / m, b / m;
    assert a + b == (q + j) * m + b % m;
    ModUnique(a + b, m, q + j, b % m);
  }

  lemma NegatedMultiple(a: int, m: nat)
    requires m > 0
    ensures a % m == 0 <==> (-a) % m == 0
  {
    if a % m == 0 {
      assert -a == (-(a / m)) * m + 0;
      ModUnique(-a, m, -(a / m), 0);
    }
    if (-a) % m == 0 {
      assert a == (-((-a) / m)) * m + 0;
      ModUnique(a, m, -((-a) / m), 0);
    }
  }

  lemma MinusRemainder(x: int, m: nat)
    requires m > 0
    ensures (x - x % m) % m == 0
  {
    ModUnique(x - x % m, m, x / m, 0);
  }

  /** ZPadded without the wrap-around. */
  lemma ZPaddedIs(t: Target, text: Sec, aText: nat)
    requires ValidTarget(t) && text.size <= aText < BIG && t.execSize < BIG && t.pageSize <= BIG
    ensures var end := ZTextEnd(t, aText);
      && BfdAlign(end, t.pageSize) % t.pageSize == 0
      && ZPadded(t, text, aText) == aText + ZSkew(t, text) + BfdAlign(end, t.pageSize) - end
      && aText <= ZPadded(t, text, aText) < 3 * BIG
  {
    BfdAlignRounds(ZTextEnd(t, aText), t.pageSize);
    U64Small(aText + ZSkew(t, text) + BfdAlign(ZTextEnd(t, aText), t.pageSize) - ZTextEnd(t, aText));
  }

  lemma ZTextVmaIs(t: Target, text: Sec)
    requires text.vma < BIG && t.execSize < BIG && t.defaultTextVma < BIG
    ensures ZTextVma(t, text) < 2 * BIG
    ensures ZTextVma(t, text) == if text.userSetVma then text.vma else if t.hasReloc then 0
                                 else t.defaultTextVma + if Ztih(t) then t.execSize else 0
  {
    U64Small(t.defaultTextVma + if Ztih(t) then t.execSize else 0);
  }

  /** The page boundary after the padded text is found exactly when the source can count on it. */
  lemma ZTextEndAlignedIff(t: Target, text: Sec, data: Sec, bss: Sec, aText: nat)
    requires Small(t, text, data, bss, aText)
    ensures (ZTextVma(t, text) + ZPadded(t, text, aText)) % t.pageSize == 0 <==>
      || text.userSetVma
      || (if t.hasReloc then (Ztih(t) ==> t.execSize % t.pageSize == 0) else t.defaultTextVma % t.pageSize == 0)
  {
    hide BfdAlign, U64, ZPadded, ZTextVma, Pow;
    ZPaddedIs(t, text, aText);
    ZTextVmaIs(t, text);
    var page, end, start := t.pageSize, ZTextEnd(t, aText), if Ztih(t) then t.execSize else 0;
    var up := BfdAlign(end, page);
    var vma := ZTextVma(t, text);
    assert ZPadded(t, text, aText) == up - start + ZSkew(t, text);
    MultipleSum(up, vma - start + ZSkew(t, text), page);
    if text.userSetVma {
      PageOfU64(start - text.vma, page);
      MinusRemainder(start - text.vma, page);
      NegatedMultiple(start - text.vma - ZSkew(t, text), page);
    } else if t.hasReloc && Ztih(t) {
      NegatedMultiple(t.execSize, page);
    }
  }

  lemma ZDataVmaIs(t: Target, text: Sec, data: Sec, bss: Sec, aText: nat)
    requires Small(t, text, data, bss, aText)
    ensures ZTextVma(t, text) + ZPadded(t, text, aText) < 5 * BIG && ZDataVma(t, text, data, aText) < 6 * BIG
    ensures if data.userSetVma then ZDataVma(t, text, data, aText) == data.vma
      else RoundedUp(ZTextVma(t, text) + ZPadded(t, text, aText), t.segmentSize, ZDataVma(t, text, data, aText))
  {
    hide BfdAlign, U64, ZPadded, ZTextVma, Pow, RoundedUp;
    ZPaddedIs(t, text, aText);
    ZTextVmaIs(t, text);
    var end := ZTextVma(t, text) + ZPadded(t, text, aText);
    U64Small(end);
    if !data.userSetVma {
      BfdAlignRounds(end, t.segmentSize);
      RoundedBelow(end, t.segmentSize, BfdAlign(end, t.segmentSize));
    }
  }

  /** How far the data starts after the text in the file: as far as in memory if contiguous, else by the padded size. */
  lemma ZGap(t: Target, text: Sec, data: Sec, bss: Sec, aText: nat)
    requires Small(t, text, data, bss, aText)
    ensures var l := ZLayout(t, text, data, bss, aText);
      l.dataFile - l.textFile == if t.contiguous then l.dataVma - l.textVma else ZPadded(t, text, aText)
  {
    hide BfdAlign, U64, S64, ZPadded, ZTextVma, Pow, RoundedUp, ZData, AlignPower, ZDataVma, ZFinal, ZBssVma, ZAbuts;
    ZPaddedIs(t, text, aText);
    ZTextVmaIs(t, text);
    ZDataVmaIs(t, text, data, bss, aText);
    ZFinalIs(t, text, data, aText);
    var padded: int, vma: int, dataVma: int := ZPadded(t, text, aText), ZTextVma(t, text),
      ZDataVma(t, text, data, aText);
    S64OfU64(ZTextFile(t), dataVma - vma);
    S64Small(ZTextFile(t) + (dataVma - vma));
    S64Small(ZTextFile(t) + padded);
  }

  lemma RoundedBelow(x: nat, b: nat, r: nat)
    requires b > 0 && RoundedUp(x, b, r)
    ensures x <= r < x + b
  {
  }

  lemma ZFinalIs(t: Target, text: Sec, data: Sec, aText: nat)
    requires ValidTarget(t) && ZTextVma(t, text) + ZPadded(t, text, aText) < TWO64 && ZPadded(t, text, aText) < TWO64
    ensures ZFinal(t, text, data, aText) ==
      if t.contiguous then U64(ZDataVma(t, text, data, aText) - ZTextVma(t, text)) else ZPadded(t, text, aText)
  {
    hide U64, ZPadded, ZTextVma, ZDataVma;
    var padded: int, vma: int, dataVma: int := ZPadded(t, text, aText), ZTextVma(t, text),
      ZDataVma(t, text, data, aText);
    U64Small(vma + padded);
    var d := dataVma - (vma + padded);
    U64Add(padded, d);
    assert padded + d == dataVma - vma;
    if U64(d) == 0 {
      U64Small(padded);
    }
  }

  /** In a ZMAGIC file the exec header, the text and the data do not overlap, except exactly in two cases. */
  lemma ZApartIff(t: Target, text: Sec, data: Sec, bss: Sec, aText: nat)
    requires Small(t, text, data, bss, aText)
    ensures var l := ZLayout(t, text, data, bss, aText);
      && (t.execSize <= l.textFile <==> Ztih(t) || t.execSize <= t.diskBlock)
      && (l.textFile + text.size <= l.dataFile <==>
            !(t.contiguous && data.userSetVma && data.vma < ZTextVma(t, text) + text.size))
  {
    hide BfdAlign, U64, S64, ZPadded, ZTextVma, Pow, RoundedUp, ZFinal, ZDataVma, ZData, ZAbuts, ZBssVma;
    ZGap(t, text, data, bss, aText);
    ZPaddedIs(t, text, aText);
    ZDataVmaIs(t, text, data, bss, aText);
    if !data.userSetVma {
      RoundedBelow(ZTextVma(t, text) + ZPadded(t, text, aText), t.segmentSize, ZDataVma(t, text, data, aText));
    }
  }

  /** The data's pages are displaced in the file as the text's are, so one mapping serves both. */
  lemma ZSamePhase(t: Target, text: Sec, data: Sec, bss: Sec, aText: nat)
    requires Small(t, text, data, bss, aText)
    requires t.contiguous || (t.segmentSize % t.pageSize == 0 && !data.userSetVma)
    requires t.contiguous || (ZTextVma(t, text) + ZPadded(t, text, aText)) % t.pageSize == 0
    ensures var l := ZLayout(t, text, data, bss, aText);
      ((l.dataFile - l.dataVma) - (l.textFile - l.textVma)) % t.pageSize == 0
  {
    hide BfdAlign, U64, S64, ZPadded, ZTextVma, Pow, ZFinal, ZDataVma, ZData, ZAbuts, ZBssVma;
    ZGap(t, text, data, bss, aText);
    ZDataVmaIs(t, text, data, bss, aText);
    if !t.contiguous {
      var end: int, dataVma: int := ZTextVma(t, text) + ZPadded(t, text, aText), ZDataVma(t, text, data, aText);
      MultipleOfMultiple(dataVma, t.segmentSize, t.pageSize);
      NegatedMultiple(dataVma, t.pageSize);
      MultipleSum(end, -dataVma, t.pageSize);
    }
  }

  lemma MultipleOfMultiple(x: int, b: nat, m: nat)
    requires b > 0 && m > 0 && x % b == 0 && b % m == 0
    ensures x % m == 0
  {
    var k, j := x / b, b / m;
    assert x == k * (j * m) == (k * j) * m;
    ModUnique(x, m, k * j, 0);
  }

  /** a_data is a whole number of pages; bss that starts right after it has its first part counted there. */
  lemma ZDataSizes(t: Target, text: Sec, data: Sec, bss: Sec, aText: nat)
    requires Small(t, text, data, bss, aText)
    ensures var l := ZLayout(t, text, data, bss, aText);
      && l.aData % t.pageSize == 0 && data.size <= l.aData
      && l.aData + l.aBss ==
           if AlignPower(l.bssVma, bss.alignmentPower) == U64(l.dataVma + l.aData)
           then if l.aData < data.size + bss.size then data.size + bss.size else l.aData
           else l.aData + bss.size
  {
    hide BfdAlign, U64, S64, ZPadded, ZTextVma, Pow, ZFinal, ZDataVma, ZBssVma, AlignPower;
    AlignPowerRounds(data.size, bss.alignmentPower);
    var up := AlignPower(data.size, bss.alignmentPower);
    BfdAlignRounds(up, t.pageSize);
    U64Small(ZData(t, data, bss) - data.size);
  }

  /** In a ZMAGIC layout the user's addresses are kept, and what has none follows what comes before it. */
  lemma ZPlaced(t: Target, text: Sec, data: Sec, bss: Sec, aText: nat)
    requires Small(t, text, data, bss, aText)
    ensures var l := ZLayout(t, text, data, bss, aText);
      && l.textVma == (if text.userSetVma then text.vma else if t.hasReloc then 0
                       else t.defaultTextVma + if t.textIncludesHeader || t.qmagic then t.execSize else 0)
      && l.textFile == (if t.textIncludesHeader || t.qmagic then t.execSize else t.diskBlock)
      && (if data.userSetVma then l.dataVma == data.vma
          else l.dataVma % t.segmentSize == 0 && l.textVma + text.size <= l.dataVma)
      && l.bssVma == (if bss.userSetVma then bss.vma else U64(l.dataVma + l.aData))
      && (if t.qmagic then l.magic == QMagic else l.magic == ZMagic)
  {
    hide BfdAlign, U64, S64, ZPadded, Pow, ZFinal, ZDataVma, ZData, ZAbuts;
    ZPaddedIs(t, text, aText);
    ZDataVmaIs(t, text, data, bss, aText);
    ZTextVmaIs(t, text);
    U64Small(t.defaultTextVma + if Ztih(t) then t.execSize else 0);
    if !data.userSetVma {
      RoundedBelow(ZTextVma(t, text) + ZPadded(t, text, aText), t.segmentSize, ZDataVma(t, text, data, aText));
    }
  }

  /** The text size in the header is what lies between text and data in the file, and the header if it counts. */
  lemma ZTextSize(t: Target, text: Sec, data: Sec, bss: Sec, aText: nat)
    requires Small(t, text, data, bss, aText)
    ensures var l := ZLayout(t, text, data, bss, aText);
      l.aText == U64((l.dataFile - l.textFile) + if Ztih(t) && !t.headerNotCounted then t.execSize else 0)
  {
    hide BfdAlign, U64, S64, ZPadded, ZTextVma, Pow, ZFinal, ZDataVma, ZData, ZAbuts, ZBssVma, RoundedUp;
    ZGap(t, text, data, bss, aText);
    ZPaddedIs(t, text, aText);
    ZTextVmaIs(t, text);
    ZDataVmaIs(t, text, data, bss, aText);
    ZFinalIs(t, text, data, aText);
    if !data.userSetVma {
      RoundedBelow(ZTextVma(t, text) + ZPadded(t, text, aText), t.segmentSize, ZDataVma(t, text, data, aText));
    }
    var d := if t.contiguous then ZDataVma(t, text, data, aText) - ZTextVma(t, text) else ZPadded(t, text, aText);
    U64Small(ZPadded(t, text, aText));
    U64Add(t.execSize, d);
  }

  /** Where the text ends in memory. */
  function TextEnd(text: Sec, aText: nat): nat { (if text.userSetVma then text.vma else 0) + aText }

  /** Where the data ends in memory, if it starts at the user's address or else at the given one. */
  function DataEnd(data: Sec, start: nat): nat { (if data.userSetVma then data.vma else start) + data.size }

  /**
   * An OMAGIC data section reaches the bss, and the memory of both ends where the bss does, exactly if the hole between
   * them fits a non-negative int.
   */
  lemma OReachesBssIff(t: Target, text: Sec, data: Sec, bss: Sec, aText: nat)
    requires Small(t, text, data, bss, aText)
    ensures var l := OLayout(t, text, data, bss, aText);
      var reaches := !bss.userSetVma || 0 <= bss.vma - DataEnd(data, TextEnd(text, aText)) < TWO32 / 2;
      && t.execSize == l.textFile && l.textFile + text.size <= l.textFile + l.aText == l.dataFile
      && l.textVma == (if text.userSetVma then text.vma else 0)
      && l.dataVma == (if data.userSetVma then data.vma else l.textVma + l.aText) && l.magic == OMagic
      && (l.dataVma + l.aData == l.bssVma <==> reaches)
      && (l.dataVma + l.aData + l.aBss == l.bssVma + bss.size <==> reaches)
  {
    hide U64, S64, S32, Pow;
    S64Small(t.execSize + aText);
    U64Small(TextEnd(text, aText));
    var end := DataEnd(data, TextEnd(text, aText));
    U64Small(end);
    S32Bounds(bss.vma - end);
    U64Small(data.size + OPad(end, bss));
  }

  /** In an NMAGIC layout the user's addresses are kept, and the data starts at the next segment. */
  lemma NPlaced(t: Target, text: Sec, data: Sec, bss: Sec, aText: nat)
    requires Small(t, text, data, bss, aText)
    ensures var l := NLayout(t, text, data, bss, aText);
      && l.textVma == (if text.userSetVma then text.vma else 0) && l.magic == NMagic
      && (if data.userSetVma then l.dataVma == data.vma else RoundedUp(l.textVma + l.aText, t.segmentSize, l.dataVma))
      && l.bssVma == (if bss.userSetVma then bss.vma else U64(l.dataVma + data.size))
  {
    hide U64, S64, S32, Pow, BfdAlign, AlignPower, RoundedUp, NPad;
    var vma := TextEnd(text, aText);
    U64Small(vma);
    BfdAlignRounds(vma, t.segmentSize);
  }

  /** An NMAGIC data section is padded for the bss, whose own address is left unpadded. */
  lemma NReachesBssIff(t: Target, text: Sec, data: Sec, bss: Sec, aText: nat)
    requires Small(t, text, data, bss, aText) && Pow(2, bss.alignmentPower) <= TWO32 / 2
    ensures Pow(2, bss.alignmentPower) > 0
    ensures var l := NLayout(t, text, data, bss, aText);
      var aligned := DataEnd(data, BfdAlign(TextEnd(text, aText), t.segmentSize)) % Pow(2, bss.alignmentPower) == 0;
      && t.execSize == l.textFile && l.textFile + text.size <= l.textFile + l.aText == l.dataFile
      && (l.dataVma + l.aData) % Pow(2, bss.alignmentPower) == 0
      && (!bss.userSetVma ==> (l.dataVma + l.aData == l.bssVma <==> aligned))
      && (!bss.userSetVma ==> (l.dataVma + l.aData + l.aBss == l.bssVma + bss.size <==> aligned))
  {
    hide U64, S64, S32, Pow, BfdAlign, AlignPower, RoundedUp, NPad;
    S64Small(t.execSize + aText);
    var vma := TextEnd(text, aText);
    U64Small(vma);
    BfdAlignRounds(vma, t.segmentSize);
    RoundedBelow(vma, t.segmentSize, BfdAlign(vma, t.segmentSize));
    var end := DataEnd(data, BfdAlign(vma, t.segmentSize));
    U64Small(end);
    NPadIs(end, bss.alignmentPower);
    U64Small(data.size + NPad(end, bss.alignmentPower));
  }

  lemma NPadIs(end: nat, p: nat)
    requires end < TWO64 / 2 && Pow(2, p) <= TWO32 / 2
    ensures Pow(2, p) > 0 && 0 <= NPad(end, p) < Pow(2, p)
    ensures (end + NPad(end, p)) % Pow(2, p) == 0 && (NPad(end, p) == 0 <==> end % Pow(2, p) == 0)
  {
    hide S32, Pow, AlignPower;
    AlignPowerRounds(end, p);
    S32Bounds(AlignPower(end, p) - end);
  }

  /** A target with pages and segments of 4096 bytes. */
  function PlainTarget(): Target { Target(32, 4096, 4096, 4096, 4096, false, false, false, false, false) }

  /** An OMAGIC file whose bss is 2^31 bytes after the data: the padding, cut to an int, does not reach it. */
  lemma OMissesBss()
    ensures var text, data, bss := Sec(16, 0, false, 0), Sec(16, 0, false, 0), Sec(8, 0x8000_0020, true, 0);
      var l := OLayout(PlainTarget(), text, data, bss, 16);
      Small(PlainTarget(), text, data, bss, 16) && l.dataVma + l.aData != l.bssVma
  {
    assert Pow(2, 0) == 1;
    OReachesBssIff(PlainTarget(), Sec(16, 0, false, 0), Sec(16, 0, false, 0), Sec(8, 0x8000_0020, true, 0), 16);
  }

  /**
   * An NMAGIC file with seventeen bytes of data before a bss aligned to four: the bss address is not where the data
   * ends.
   */
  lemma NMissesBss()
    ensures var text, data, bss := Sec(16, 0, false, 0), Sec(17, 8192, true, 0), Sec(8, 0, false, 2);
      var l := NLayout(PlainTarget(), text, data, bss, 16);
      Small(PlainTarget(), text, data, bss, 16) && l.dataVma + l.aData != l.bssVma
  {
    assert Pow(2, 0) == 1 && Pow(2, 2) == 4;
    NReachesBssIff(PlainTarget(), Sec(16, 0, false, 0), Sec(17, 8192, true, 0), Sec(8, 0, false, 2), 16);
  }

  /**
   * The comment in the source has the text padded only if the data comes after it; the unsigned pad shrinks it
   * instead.
   */
  lemma ZOverlapExample()
    ensures exists t, text, data, bss, aText ::
      && Small(t, text, data, bss, aText)
      && ZLayout(t, text, data, bss, aText).dataFile < ZLayout(t, text, data, bss, aText).textFile + text.size
  {
    hide ZLayout;
    var t := Target(32, 4096, 4096, 4096, 4096, false, false, true, false, false);
    var text, data, bss := Sec(8192, 4096, true, 0), Sec(16, 8192, true, 0), Sec(0, 0, false, 0);
    assert Pow(2, 0) == 1;
    assert Small(t, text, data, bss, 8192);
    ZApartIff(t, text, data, bss, 8192);
    assert ZTextVma(t, text) == 4096;
    assert ZLayout(t, text, data, bss, 8192).dataFile < ZLayout(t, text, data, bss, 8192).textFile + text.size;
  }
}
