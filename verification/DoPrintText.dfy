/** What the specifiers handed to the print callback have to do with the text of the format (bfd/bfd.c). */
module DoPrintText {
  import opened Bytes
  import opened DoPrint

  // A directive's text -----------------------------------------------------------------

  /** s without its argument numbers "n$", and with its stars replaced by the given texts, one after the other. */
  function Spelled(s: string, stars: seq<string>): string {
    if s == "" then ""
    else if |s| > 1 && '1' <= s[0] <= '9' && s[1] == '$' then Spelled(s[2..], stars)
    else if s[0] == '*' && stars != [] then stars[0] + Spelled(s[1..], stars[1..])
    else [s[0]] + Spelled(s[1..], stars)
  }

  predicate NoDollarAt(f: string, k: nat, j: nat) { k < j && k < |f| ==> f[k] != '$' }

  lemma {:induction false} SpelledPlain(f: string, k: nat, m: nat, j: nat, stars: seq<string>)
    requires k <= m <= j <= |f| && NoDollarAt(f, m, j)
    requires forall x :: k <= x < m ==> f[x] != '*' && f[x] != '$'
    ensures Spelled(f[k..j], stars) == f[k..m] + Spelled(f[m..j], stars)
    ensures NoDollarAt(f, k, j)
    decreases m - k
  {
    if k < m {
      SpelledPlain(f, k + 1, m, j, stars);
      assert f[k..j][1..] == f[k + 1..j] && f[k..m] == [f[k]] + f[k + 1..m];
    } else {
      assert f[k..m] == "";
    }
  }

  lemma SpelledStar(f: string, k: nat, j: nat, stars: seq<string>)
    requires k < j <= |f| && f[k] == '*' && stars != []
    ensures Spelled(f[k..j], stars) == stars[0] + Spelled(f[k + 1..j], stars[1..])
  {
    assert f[k..j][1..] == f[k + 1..j];
  }

  lemma SpelledNumber(f: string, k: nat, j: nat, stars: seq<string>)
    requires k <= |f| && PastPositional(f, k) <= j <= |f| && NoDollarAt(f, PastPositional(f, k), j)
    ensures Spelled(f[k..j], stars) == Spelled(f[PastPositional(f, k)..j], stars) && NoDollarAt(f, k, j)
  {
    if IsPositional(f, k) { assert f[k..j][2..] == f[k + 2..j]; }
  }

  /** The stars of a width or precision. */
  function StarText(a: Amount, text: string): seq<string> { if a.Star? then [text] else [] }

  /** A width or precision is spelled as its digits, or as the text for its star. */
  lemma SpelledAmount(f: string, k: nat, j: nat, text: string, more: seq<string>)
    requires k <= |f| && AmountAt(f, k).1 <= j <= |f| && NoDollarAt(f, AmountAt(f, k).1, j)
    requires AmountAt(f, k).0.Digits? ==> text == AmountAt(f, k).0.text
    ensures var (a, m) := AmountAt(f, k);
      Spelled(f[k..j], StarText(a, text) + more) == text + Spelled(f[m..j], more) && NoDollarAt(f, k, j)
  {
    var (a, m) := AmountAt(f, k);
    if a.Star? {
      SpelledNumber(f, k + 1, j, more);
      SpelledStar(f, k, j, [text] + more);
      assert ([text] + more)[1..] == more;
    } else {
      assert [] + more == more;
      SpelledPlain(f, k, m, j, more);
    }
  }

  lemma SpelledPrec(f: string, k: nat, j: nat, text: string)
    requires k <= |f| && PrecAt(f, k).1 <= j <= |f| && NoDollarAt(f, PrecAt(f, k).1, j)
    requires PrecAt(f, k).0.Digits? ==> text == PrecAt(f, k).0.text
    ensures var (a, m) := PrecAt(f, k);
      && Spelled(f[k..j], StarText(a, text)) == (if IsDot(f, k) then "." else "") + text + Spelled(f[m..j], [])
      && NoDollarAt(f, k, j)
  {
    hide AmountAt, Spelled, StarText;
    var (a, m) := PrecAt(f, k);
    if IsDot(f, k) {
      SpelledAmount(f, k + 1, j, text, []);
      assert StarText(a, text) + [] == StarText(a, text);
      SpelledPlain(f, k, k + 1, j, StarText(a, text));
      assert f[k..k + 1] == ".";
    } else {
      NoStars();
    }
  }

  lemma NoStars()
    ensures StarText(Digits(""), "") == []
  {
  }

  lemma SpelledConv(f: string, d: nat)
    requires d <= |f| && ConvAt(f, d, Run(IsLength, f, d))
    ensures var e := Run(IsLength, f, d);
      var j := PastConv(f, e);
      Spelled(f[d..j], []) == f[d..e] + [f[e]] + f[e + 1..j] && NoDollarAt(f, d, j)
  {
    var e := Run(IsLength, f, d);
    var j := PastConv(f, e);
    ConvIsLetter(f[d..e], f[e]);
    SpelledPlain(f, j, j, j, []);
    SpelledPlain(f, e, j, j, []);
    SpelledPlain(f, d, e, j, []);
    assert f[e..j] == [f[e]] + f[e + 1..j] && f[j..j] == "";
  }

  lemma ConvIsLetter(len: string, conv: char)
    requires KindOf(len, conv).Some?
    ensures conv != '*' && conv != '$'
  {
  }

  lemma Flat(p: string, flags: string, w: string, dot: string, v: string, len: string, conv: string, suffix: string)
    ensures (p + flags + w + dot + v + len + conv) + suffix ==
      p + (flags + (w + ((dot + v) + ((len + conv) + suffix))))
  {
    Assoc(p + flags + w + dot + v, len, conv);
    Assoc(p + flags + w + dot + v, len + conv, suffix);
    Assoc(p + flags + w, dot, v);
    Assoc(p + flags + w, dot + v, (len + conv) + suffix);
    Assoc(p + flags, w, (dot + v) + ((len + conv) + suffix));
    Assoc(p, flags, w + ((dot + v) + ((len + conv) + suffix)));
  }

  /** Where the parts of a directive are, and what they are. */
  ghost predicate Parts(f: string, i: nat, d: Directive, j: nat, a: nat, b: nat, c: nat, m: nat, e: nat) {
    && i < a <= b <= c <= m <= e < j <= |f|
    && a == PastPositional(f, i + 1) && b == Run(IsFlag, f, a) && AmountAt(f, b) == (d.width, c)
    && PrecAt(f, c) == (d.prec, m) && e == Run(IsLength, f, m) && ConvAt(f, m, e) && j == PastConv(f, e)
    && d.flags == f[a..b] && d.dot == IsDot(f, c) && d.len == f[m..e] && d.conv == f[e] && d.suffix == f[e + 1..j]
  }

  lemma PartsOf(f: string, i: nat) returns (a: nat, b: nat, c: nat, m: nat, e: nat)
    requires i < |f| && DirectiveAt(f, i).Some?
    ensures Parts(f, i, DirectiveAt(f, i).value.0, DirectiveAt(f, i).value.1, a, b, c, m, e)
  {
    hide AmountAt, PrecAt, KindOf, PastConv, IsDot, Positional, PastPositional, Run;
    a := PastPositional(f, i + 1);
    b := Run(IsFlag, f, a);
    c := AmountAt(f, b).1;
    m := PrecAt(f, c).1;
    e := Run(IsLength, f, m);
  }

  /** From the width on. */
  lemma TailSpells(f: string, i: nat, d: Directive, j: nat, a: nat, b: nat, c: nat, m: nat, e: nat, width: string,
                   prec: string)
    requires Parts(f, i, d, j, a, b, c, m, e)
    requires (d.width.Digits? ==> width == d.width.text) && (d.prec.Digits? ==> prec == d.prec.text)
    ensures Spelled(f[b..j], StarText(d.width, width) + StarText(d.prec, prec)) ==
      width + (((if d.dot then "." else "") + prec) + ((d.len + [d.conv]) + d.suffix))
    ensures NoDollarAt(f, b, j)
  {
    hide Spelled, AmountAt, PrecAt, ConvAt, KindOf, PastConv, IsDot, PastPositional, Run, StarText;
    SpelledConv(f, m);
    SpelledPrec(f, c, j, prec);
    SpelledAmount(f, b, j, width, StarText(d.prec, prec));
  }

  lemma FlagsArePlain(f: string, a: nat)
    requires a <= |f|
    ensures forall x :: a <= x < Run(IsFlag, f, a) ==> f[x] != '*' && f[x] != '$'
  {
    hide Run;
    assert forall x :: a <= x < Run(IsFlag, f, a) ==> IsFlag(f[x]);
  }

  /** The specifier and suffix of a directive are its slice of the format, so spelled. */
  lemma SpecifierSpells(f: string, i: nat, width: string, prec: string)
    requires i < |f| && f[i] == '%' && DirectiveAt(f, i).Some?
    requires var d := DirectiveAt(f, i).value.0;
      (d.width.Digits? ==> width == d.width.text) && (d.prec.Digits? ==> prec == d.prec.text)
    ensures var (d, j) := DirectiveAt(f, i).value;
      Specifier(d, width, prec) + d.suffix == Spelled(f[i..j], StarText(d.width, width) + StarText(d.prec, prec))
  {
    hide Spelled, DirectiveAt, AmountAt, PrecAt, ConvAt, KindOf, PastConv, IsDot, Positional, PastPositional, Run,
      StarText;
    var (d, j) := DirectiveAt(f, i).value;
    var a, b, c, m, e := PartsOf(f, i);
    var stars := StarText(d.width, width) + StarText(d.prec, prec);
    TailSpells(f, i, d, j, a, b, c, m, e, width, prec);
    FlagsArePlain(f, a);
    SpelledPlain(f, a, b, j, stars);
    SpelledNumber(f, i + 1, j, stars);
    SpelledPlain(f, i, i + 1, j, stars);
    assert f[i..i + 1] == "%";
    Flat("%", d.flags, width, if d.dot then "." else "", prec, d.len, [d.conv], d.suffix);
  }

  // Every piece of a format ---------------------------------------------------------------

  /** The decimal value of a star's argument, without its sign. */
  function StarValue(r: Request, src: Source): string {
    var v := src(r.index, r.kind);
    if v.Some? then DoPrint.Number(Abs(v.value)) else ""
  }

  function StarValues(rs: seq<Request>, src: Source): (r: seq<string>)
    ensures |r| == |rs|
  {
    seq(|rs|, i requires 0 <= i < |rs| => StarValue(rs[i], src))
  }

  /** "%pA" and "%pB" are directives of this library's own: their last character is not for printf. */
  function SuffixOf(f: string, j: nat): string
    requires j <= |f|
  {
    if j > 1 && f[j - 2] == 'p' && (f[j - 1] == 'A' || f[j - 1] == 'B') then [f[j - 1]] else ""
  }

  lemma SuffixIs(f: string, i: nat)
    requires i < |f| && f[i] == '%' && DirectiveAt(f, i).Some?
    ensures var (d, j) := DirectiveAt(f, i).value;
      && d.suffix == SuffixOf(f, j)
      && (j < |f| && f[j - 1] == 'p' ==> f[j] != 'A' && f[j] != 'B')
  {
    hide AmountAt, PrecAt, KindOf, IsDot, PastPositional, Run;
    var (d, j) := DirectiveAt(f, i).value;
    var a, b, c, m, e := PartsOf(f, i);
    ConvIsLetter(f[m..e], f[e]);
    ConvIsNoSuffix(f[m..e], f[e]);
    assert f[e + 1..j] == if j == e + 2 then [f[e + 1]] else "";
  }

  lemma ConvIsNoSuffix(len: string, conv: char)
    requires KindOf(len, conv).Some?
    ensures conv != 'A' && conv != 'B'
  {
  }

  /** The kinds of argument the conversions take, as the C standard has them. */
  lemma KindsAre(conv: char)
    ensures conv in "dioxuXc" ==>
      && KindOf("", conv) == Some(Int) && KindOf("h", conv) == Some(Int) && KindOf("hh", conv) == Some(Int)
      && KindOf("l", conv) == Some(Long) && KindOf("ll", conv) == Some(LongLong)
    ensures conv in "feEgG" ==> KindOf("", conv) == Some(Double) && KindOf("L", conv) == Some(LongDouble)
    ensures conv in "sp" ==> KindOf("", conv) == Some(Ptr)
    ensures conv !in "dioxuXcfeEgGsp" ==> forall len :: KindOf(len, conv) == None
  {
    assert Wide("") == 0;
    assert "l"[..0] == "" && "ll"[..1] == "l" && "L"[..0] == "" && "h"[..0] == "" && "hh"[..1] == "h";
    assert Wide("l") == 1 && Wide("ll") == 2 && Wide("L") == 2 && Wide("h") == 0 && Wide("hh") == 0;
  }

  /**
   * What is printed for f[i..j]: characters as they stand, a percent sign for two, or the value of the last request, to
   * be printed as the directive says, with the values of the requests before it in place of its stars.
   */
  ghost predicate PrintedFor(f: string, i: nat, j: nat, rs: seq<Request>, src: Source, o: Out)
    requires i < j <= |f|
  {
    if f[i] != '%' then rs == [] && o == Chars(f[i..j]) && '%' !in f[i..j] && (j < |f| ==> f[j] == '%')
    else if i + 1 < |f| && f[i + 1] == '%' then rs == [] && j == i + 2 && o == Chars("%")
    else
      && rs != [] && o.Item?
      && var stars, last := rs[..|rs| - 1], rs[|rs| - 1];
        && o.spec + o.suffix == Spelled(f[i..j], StarValues(stars, src)) && o.suffix == SuffixOf(f, j)
        && o.kind == last.kind && src(last.index, last.kind) == Some(o.value)
        && forall k :: 0 <= k < |stars| ==> stars[k].kind == Int && src(stars[k].index, Int).Some?
  }

  lemma PiecePrinted(f: string, i: nat, count: nat, src: Source)
    requires i < |f| && PieceAt(f, i).Some? && GoodPiece(PieceAt(f, i).value.0)
    requires RenderPiece(PieceAt(f, i).value.0, count, src).Some?
    ensures var (p, j) := PieceAt(f, i).value;
      PrintedFor(f, i, j, PieceRequests(p, count), src, RenderPiece(p, count, src).value)
  {
    hide Spelled, DirectiveAt, KindOf, Specifier, DoPrint.Number;
    var (p, j) := PieceAt(f, i).value;
    if p.Dir? {
      var d, o, rs := p.d, RenderPiece(p, count, src).value, PieceRequests(p, count);
      var width, prec := AmountText(d.width, count, src).value, AmountText(d.prec, count + Stars(d.width), src).value;
      SpecifierSpells(f, i, width, prec);
      SuffixIs(f, i);
      var w := StarRequests(d.width, count);
      var v := StarRequests(d.prec, count + |w|);
      assert rs[..|rs| - 1] == w + v;
      assert StarValues(w + v, src) == StarText(d.width, width) + StarText(d.prec, prec);
    }
  }

  /** The format from i on is printed as outs, in pieces that follow one another and use up the requests in order. */
  ghost predicate PrintedFrom(f: string, i: nat, rs: seq<Request>, src: Source, outs: seq<Out>)
    requires i <= |f|
    decreases |f| - i
  {
    if i == |f| then outs == [] && rs == []
    else
      && outs != []
      && exists j, n :: i < j <= |f| && 0 <= n <= |rs|
           && PrintedFor(f, i, j, rs[..n], src, outs[0]) && PrintedFrom(f, j, rs[n..], src, outs[1..])
  }

  /** One piece's requests follow those of the pieces before it. */
  lemma RequestsAt(ps: seq<Piece>, k: nat)
    requires GoodPieces(ps) && k < |ps|
    ensures GoodPieces(ps[..k]) && GoodPieces(ps[..k + 1]) && GoodPiece(ps[k])
    ensures var m, all := |Requests(ps[..k])|, Requests(ps);
      var n := m + |PieceRequests(ps[k], m)|;
      n <= |all| && all[m..n] == PieceRequests(ps[k], m) && n == |Requests(ps[..k + 1])|
  {
    hide PieceRequests, Requests;
    var front, all := Requests(ps[..k]), Requests(ps);
    assert ps[..k + 1] == ps[..k] + [ps[k]] && ps == ps[..k + 1] + ps[k + 1..];
    RequestsSnoc(ps[..k], ps[k]);
    RequestsPrefix(ps[..k + 1], ps[k + 1..]);
    var mine := PieceRequests(ps[k], |front|);
    assert all[|front|..|front| + |mine|] == (front + mine)[|front|..|front| + |mine|];
  }

  lemma {:induction false} RenderAt(ps: seq<Piece>, k: nat, src: Source)
    requires GoodPieces(ps) && k < |ps| && Render(ps, src).Some?
    ensures GoodPieces(ps[..k]) && GoodPiece(ps[k])
    ensures RenderPiece(ps[k], |Requests(ps[..k])|, src) == Some(Render(ps, src).value[k])
  {
    hide RenderPiece, Requests;
    var front := ps[..|ps| - 1];
    if k < |front| {
      RenderAt(front, k, src);
      assert front[..k] == ps[..k];
    }
  }

  /** From piece k on, which begins at i. */
  lemma {:induction false} PrintedFromPiece(f: string, i: nat, ps: seq<Piece>, k: nat, src: Source)
    requires i <= |f| && k <= |ps| && GoodPieces(ps) && Pieces(f, i) == Some(ps[k..]) && Render(ps, src).Some?
    ensures GoodPieces(ps[..k]) && |Requests(ps[..k])| <= |Requests(ps)|
    ensures PrintedFrom(f, i, Requests(ps)[|Requests(ps[..k])|..], src, Render(ps, src).value[k..])
    decreases |f| - i
  {
    hide PieceAt, PieceRequests, Requests, RenderPiece, Render, PrintedFor;
    var all, outs := Requests(ps), Render(ps, src).value;
    assert ps == ps[..k] + ps[k..];
    RequestsPrefix(ps[..k], ps[k..]);
    if i == |f| {
      assert ps[..k] == ps;
    } else {
      var (p, j) := PieceAt(f, i).value;
      assert ps[k..] == [p] + Pieces(f, j).value;
      assert ps[k] == p && ps[k + 1..] == Pieces(f, j).value;
      PrintedFromPiece(f, j, ps, k + 1, src);
      RequestsAt(ps, k);
      RenderAt(ps, k, src);
      PiecePrinted(f, i, |Requests(ps[..k])|, src);
      var m, n := |Requests(ps[..k])|, |Requests(ps[..k + 1])|;
      assert all[m..][..n - m] == all[m..n] && all[m..][n - m..] == all[n..];
      assert outs[k..][0] == outs[k] && outs[k..][1..] == outs[k + 1..];
    }
  }

  /**
   * Scan and print: what comes out is the format, piece by piece, each directive without its argument number and with
   * its stars replaced by the varargs asked for, and with the vararg asked for last to be printed.
   */
  lemma PrintedAsWritten(f: string, va: Varargs)
    requires DoPrint.Scanned(f, va).Some?
    ensures Pieces(f, 0).Some?
    ensures var r := Printed(f, DoPrint.Scanned(f, va).value);
      && r.Some? && r == Render(Pieces(f, 0).value, Direct(va))
      && PrintedFrom(f, 0, Requests(Pieces(f, 0).value), Direct(va), r.value)
  {
    hide Pieces, Render, DoPrint.Scanned, Requests, PrintedFrom;
    PrintsTheVarargs(f, va);
    var ps := Pieces(f, 0).value;
    assert ps[0..] == ps && ps[..0] == [];
    NothingRendered(Direct(va));
    PrintedFromPiece(f, 0, ps, 0, Direct(va));
    var r := Render(ps, Direct(va)).value;
    assert r[0..] == r && Requests(ps)[0..] == Requests(ps);
  }

  // Formats without argument numbers and stars ----------------------------------------------

  predicate Bare(p: Piece) { p.Dir? ==> p.d.pos.None? && p.d.width.Digits? && p.d.prec.Digits? }

  /** The text printed for, with the two characters that stand for a percent sign. */
  function TextOf(o: Out): string {
    match o
    case Chars(text) => if text == "%" then "%%" else text
    case Item(spec, _, _, suffix) => spec + suffix
  }

  function Joined(outs: seq<Out>): string { if outs == [] then "" else TextOf(outs[0]) + Joined(outs[1..]) }

  lemma {:induction false} SpelledSame(s: string)
    requires '$' !in s
    ensures Spelled(s, []) == s
  {
    if s != "" {
      SpelledSame(s[1..]);
      assert s == [s[0]] + s[1..];
    }
  }

  lemma DigitsArePlain(f: string, b: nat)
    requires b <= |f| && AmountAt(f, b).0.Digits?
    ensures forall x :: b <= x < AmountAt(f, b).1 ==> f[x] != '$'
  {
    hide Run;
    assert forall x :: b <= x < Run(DoPrint.IsDigit, f, b) ==> DoPrint.IsDigit(f[x]);
  }

  lemma PrecIsPlain(f: string, c: nat)
    requires c <= |f| && PrecAt(f, c).0.Digits?
    ensures forall x :: c <= x < PrecAt(f, c).1 ==> f[x] != '$'
  {
    hide AmountAt;
    if IsDot(f, c) { DigitsArePlain(f, c + 1); }
  }

  lemma ConvIsPlain(f: string, m: nat)
    requires m <= |f| && ConvAt(f, m, Run(IsLength, f, m))
    ensures forall x :: m <= x < PastConv(f, Run(IsLength, f, m)) ==> f[x] != '$'
  {
    hide Run, KindOf;
    var e := Run(IsLength, f, m);
    assert forall x :: m <= x < e ==> IsLength(f[x]);
    ConvIsLetter(f[m..e], f[e]);
  }

  lemma BareText(f: string, i: nat)
    requires i < |f| && f[i] == '%' && DirectiveAt(f, i).Some? && Bare(Dir(DirectiveAt(f, i).value.0))
    ensures '$' !in f[i..DirectiveAt(f, i).value.1]
  {
    hide DirectiveAt, AmountAt, PrecAt, ConvAt, KindOf, PastConv, IsDot, Run;
    var (d, j) := DirectiveAt(f, i).value;
    var a, b, c, m, e := PartsOf(f, i);
    NoNumber(f, i);
    FlagsArePlain(f, a);
    DigitsArePlain(f, b);
    PrecIsPlain(f, c);
    ConvIsPlain(f, m);
  }

  lemma NoNumber(f: string, i: nat)
    requires i < |f| && DirectiveAt(f, i).Some? && DirectiveAt(f, i).value.0.pos.None?
    ensures PastPositional(f, i + 1) == i + 1
  {
    hide AmountAt, PrecAt, ConvAt, KindOf, PastConv, IsDot, Run;
  }

  lemma BareDirective(f: string, i: nat)
    requires i < |f| && f[i] == '%' && DirectiveAt(f, i).Some? && Bare(Dir(DirectiveAt(f, i).value.0))
    ensures var (d, j) := DirectiveAt(f, i).value;
      Specifier(d, d.width.text, d.prec.text) + d.suffix == f[i..j]
  {
    hide KindOf, Run, DirectiveAt, Specifier;
    var (d, j) := DirectiveAt(f, i).value;
    SpecifierSpells(f, i, d.width.text, d.prec.text);
    BareText(f, i);
    SpelledSame(f[i..j]);
  }

  lemma BarePiece(f: string, i: nat, count: nat, src: Source)
    requires i < |f| && PieceAt(f, i).Some? && GoodPiece(PieceAt(f, i).value.0) && Bare(PieceAt(f, i).value.0)
    requires RenderPiece(PieceAt(f, i).value.0, count, src).Some?
    ensures var (p, j) := PieceAt(f, i).value;
      TextOf(RenderPiece(p, count, src).value) == f[i..j]
  {
    hide DirectiveAt, KindOf, Specifier;
    var (p, j) := PieceAt(f, i).value;
    if p.Dir? {
      BareDirective(f, i);
    } else if p.Percent? {
      assert f[i..j] == "%%";
    } else {
      assert f[i..j][0] != '%';
    }
  }

  lemma {:induction false} JoinedFrom(f: string, i: nat, ps: seq<Piece>, k: nat, src: Source)
    requires i <= |f| && k <= |ps| && GoodPieces(ps) && Pieces(f, i) == Some(ps[k..]) && Render(ps, src).Some?
    requires forall p :: p in ps ==> Bare(p)
    ensures Joined(Render(ps, src).value[k..]) == f[i..]
    decreases |f| - i
  {
    hide PieceAt, Requests, RenderPiece, Render, TextOf, Bare;
    var outs := Render(ps, src).value;
    if i == |f| {
      assert f[i..] == "" && outs[k..] == [];
    } else {
      var (p, j) := PieceAt(f, i).value;
      assert ps[k..] == [p] + Pieces(f, j).value;
      assert ps[k] == p && ps[k + 1..] == Pieces(f, j).value;
      JoinedFrom(f, j, ps, k + 1, src);
      RenderAt(ps, k, src);
      BarePiece(f, i, |Requests(ps[..k])|, src);
      assert outs[k..][0] == outs[k] && outs[k..][1..] == outs[k + 1..];
      assert f[i..] == f[i..j] + f[j..];
    }
  }

  /** Without argument numbers and stars the texts printed for are the format itself. */
  lemma FormatBack(f: string, args: seq<Cell>)
    requires Printed(f, args).Some? && forall p :: p in Pieces(f, 0).value ==> Bare(p)
    ensures Joined(Printed(f, args).value) == f
  {
    hide Pieces, Render, Joined, Bare;
    var ps := Pieces(f, 0).value;
    assert ps[0..] == ps;
    JoinedFrom(f, 0, ps, 0, Through(args));
    var outs := Render(ps, Through(args)).value;
    assert outs[0..] == outs && f[0..] == f;
  }

  // Decimal numbers ----------------------------------------------------------------------------

  function ValueOf(s: string): int {
    if s == "" then 0 else ValueOf(s[..|s| - 1]) * 10 + (s[|s| - 1] as int - '0' as int)
  }

  /** A star's text is the decimal form of its value: digits, without leading zeros. */
  lemma {:induction false} NumberIsDecimal(n: nat)
    ensures var s := DoPrint.Number(n);
      s != "" && ValueOf(s) == n && (forall c :: c in s ==> DoPrint.IsDigit(c)) && (n > 0 ==> s[0] != '0')
  {
    var s := DoPrint.Number(n);
    if n >= 10 {
      NumberIsDecimal(n / 10);
      assert s[..|s| - 1] == DoPrint.Number(n / 10);
    }
  }
}
