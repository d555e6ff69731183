/** The two-pass printf of bfd/bfd.c: _bfd_doprnt_scan gathers the arguments, _bfd_doprnt prints them. */
module DoPrint {
  import opened Bytes

  const MAX_ARGS: nat := 9

  datatype Kind = Int | Long | LongLong | Double | LongDouble | Ptr

  /** A slot of the argument array: first marked with the kind wanted, then filled. */
  datatype Cell = Bad | Wanted(kind: Kind) | Held(kind: Kind, value: int)

  /** A width or precision: digits, or '*' with an optional argument number. */
  datatype Amount = Digits(text: string) | Star(pos: Option<nat>)

  datatype Directive = Directive(pos: Option<nat>, flags: string, width: Amount, dot: bool, prec: Amount, len: string,
                                 conv: char, suffix: string)

  datatype Piece = Text(text: string) | Percent | Dir(d: Directive)

  /** The argument of number `index` is wanted as a `kind`. */
  datatype Request = Request(index: nat, kind: Kind)

  // The grammar -----------------------------------------------------------------

  predicate IsFlag(c: char) { c == '-' || c == '+' || c == ' ' || c == '#' || c == '0' || c == '\'' || c == 'I' }

  predicate IsDigit(c: char) { '0' <= c <= '9' }

  predicate IsLength(c: char) { c == 'h' || c == 'l' || c == 'L' }

  predicate IsPlain(c: char) { c != '%' }

  /** The end of the longest run of characters from i on that satisfy p. */
  function Run(p: char -> bool, f: string, i: nat): (j: nat)
    requires i <= |f|
    ensures i <= j <= |f| && (j < |f| ==> !p(f[j])) && (forall k :: i <= k < j ==> p(f[k]))
    decreases |f| - i
  {
    if i < |f| && p(f[i]) then Run(p, f, i + 1) else i
  }

  /** "n$" with n from 1 to 9. */
  predicate IsPositional(f: string, i: nat) { i + 1 < |f| && '1' <= f[i] <= '9' && f[i + 1] == '$' }

  function Positional(f: string, i: nat): (r: Option<nat>)
    requires i <= |f|
    ensures r.Some? ==> i + 2 <= |f| && r.value < MAX_ARGS
  {
    if IsPositional(f, i) then Some((f[i] as int - '1' as int) as nat) else None
  }

  function PastPositional(f: string, i: nat): (j: nat)
    requires i <= |f|
    ensures i <= j <= |f|
  {
    if IsPositional(f, i) then i + 2 else i
  }

  function AmountAt(f: string, i: nat): (r: (Amount, nat))
    requires i <= |f|
    ensures i <= r.1 <= |f|
  {
    if i < |f| && f[i] == '*' then (Star(Positional(f, i + 1)), PastPositional(f, i + 1))
    else (Digits(f[i..Run(IsDigit, f, i)]), Run(IsDigit, f, i))
  }

  /** A precision follows a period. */
  function PrecAt(f: string, i: nat): (r: (Amount, nat))
    requires i <= |f|
    ensures i <= r.1 <= |f|
  {
    if IsDot(f, i) then AmountAt(f, i + 1) else (Digits(""), i)
  }

  predicate Short(len: string) { 'h' in len }

  /** 'l' counts up, 'L' sets two. */
  function Wide(len: string): nat {
    if len == "" then 0
    else
      var w := Wide(len[..|len| - 1]);
      match len[|len| - 1] case 'l' => w + 1 case 'L' => 2 case _ => w
  }

  predicate IsInteger(c: char) { c == 'd' || c == 'i' || c == 'o' || c == 'x' || c == 'u' || c == 'X' || c == 'c' }

  predicate IsReal(c: char) { c == 'f' || c == 'e' || c == 'E' || c == 'g' || c == 'G' }

  predicate IsPointer(c: char) { c == 's' || c == 'p' }

  function KindOf(len: string, conv: char): Option<Kind> {
    if IsInteger(conv) then
      Some(if Short(len) || Wide(len) == 0 then Int else if Wide(len) == 1 then Long else LongLong)
    else if IsReal(conv) then Some(if Wide(len) == 0 then Double else LongDouble)
    else if IsPointer(conv) then Some(Ptr)
    else None
  }

  /** The directive whose '%' is at i, and where it ends; None where the source aborts or runs past the format's end. */
  function DirectiveAt(f: string, i: nat): (r: Option<(Directive, nat)>)
    requires i < |f|
    ensures r.Some? ==> i < r.value.1 <= |f| && KindOf(r.value.0.len, r.value.0.conv).Some?
  {
    var a := PastPositional(f, i + 1);
    var b := Run(IsFlag, f, a);
    var (width, c) := AmountAt(f, b);
    var (prec, d) := PrecAt(f, c);
    var e := Run(IsLength, f, d);
    if !ConvAt(f, d, e) then None
    else
      Some((Directive(Positional(f, i + 1), f[a..b], width, IsDot(f, c), prec, f[d..e], f[e], f[e + 1..PastConv(f, e)]),
            PastConv(f, e)))
  }

  /** A known conversion character follows the length modifiers f[d..e]. */
  predicate ConvAt(f: string, d: nat, e: nat)
    requires d <= e <= |f|
  {
    e < |f| && KindOf(f[d..e], f[e]).Some?
  }

  predicate IsDot(f: string, i: nat) { i < |f| && f[i] == '.' }

  /** "%pA" and "%pB" take one more character. */
  function PastConv(f: string, e: nat): (j: nat)
    requires e < |f|
    ensures e < j <= |f|
  {
    if f[e] == 'p' && e + 1 < |f| && (f[e + 1] == 'A' || f[e + 1] == 'B') then e + 2 else e + 1
  }

  /** The next piece of the format. */
  function PieceAt(f: string, i: nat): (r: Option<(Piece, nat)>)
    requires i < |f|
    ensures r.Some? ==> i < r.value.1 <= |f|
    ensures r.Some? && r.value.0.Dir? ==> GoodPiece(r.value.0)
  {
    if f[i] != '%' then Some((Text(f[i..Run(IsPlain, f, i)]), Run(IsPlain, f, i)))
    else if i + 1 < |f| && f[i + 1] == '%' then Some((Percent, i + 2))
    else
      var d := DirectiveAt(f, i);
      if d.None? then None else Some((Dir(d.value.0), d.value.1))
  }

  predicate GoodPiece(p: Piece) { p.Dir? ==> KindOf(p.d.len, p.d.conv).Some? }

  ghost predicate GoodPieces(ps: seq<Piece>) { forall i :: 0 <= i < |ps| ==> GoodPiece(ps[i]) }

  /** The whole format from i on; None if it is malformed. */
  function Pieces(f: string, i: nat): (r: Option<seq<Piece>>)
    requires i <= |f|
    ensures r.Some? ==> GoodPieces(r.value)
    decreases |f| - i
  {
    if i == |f| then Some([])
    else
      var p := PieceAt(f, i);
      if p.None? then None
      else
        var rest := Pieces(f, p.value.1);
        if rest.None? then None else Some([p.value.0] + rest.value)
  }

  // What a format asks for --------------------------------------------------------

  function Index(pos: Option<nat>, count: nat): nat { if pos.Some? then pos.value else count }

  function StarRequests(a: Amount, count: nat): seq<Request> {
    if a.Star? then [Request(Index(a.pos, count), Int)] else []
  }

  function PieceRequests(p: Piece, count: nat): seq<Request>
    requires GoodPiece(p)
  {
    if !p.Dir? then []
    else
      var w := StarRequests(p.d.width, count);
      var v := StarRequests(p.d.prec, count + |w|);
      w + v + [Request(Index(p.d.pos, count + |w| + |v|), KindOf(p.d.len, p.d.conv).value)]
  }

  /** Every (argument number, kind) in the order in which the format asks for them. */
  function Requests(ps: seq<Piece>): (rs: seq<Request>)
    requires GoodPieces(ps)
  {
    if ps == [] then []
    else
      var rs := Requests(ps[..|ps| - 1]);
      rs + PieceRequests(ps[|ps| - 1], |rs|)
  }

  lemma RequestsSnoc(ps: seq<Piece>, p: Piece)
    requires GoodPieces(ps) && GoodPiece(p)
    ensures GoodPieces(ps + [p]) && Requests(ps + [p]) == Requests(ps) + PieceRequests(p, |Requests(ps)|)
  {
    assert (ps + [p])[..|ps|] == ps;
  }

  lemma {:induction false} RequestsPrefix(ps: seq<Piece>, qs: seq<Piece>)
    requires GoodPieces(ps) && GoodPieces(qs)
    ensures GoodPieces(ps + qs) && Requests(ps) <= Requests(ps + qs)
    decreases |qs|
  {
    hide PieceRequests, Requests;
    if qs == [] {
      assert ps + qs == ps;
    } else {
      var front, last := qs[..|qs| - 1], qs[|qs| - 1];
      RequestsPrefix(ps, front);
      assert ps + qs == (ps + front) + [last];
      RequestsSnoc(ps + front, last);
    }
  }

  ghost predicate InRange(rs: seq<Request>) { forall i :: 0 <= i < |rs| ==> rs[i].index < MAX_ARGS }

  // The scanner -------------------------------------------------------------------

  function Blank(): seq<Cell> { seq(MAX_ARGS, i => Bad) }

  /** The array after marking every request, later ones winning. */
  function Marked(rs: seq<Request>): (cells: seq<Cell>)
    requires InRange(rs)
    ensures |cells| == MAX_ARGS && forall i :: 0 <= i < MAX_ARGS ==> !cells[i].Held?
  {
    if rs == [] then Blank()
    else
      var r := rs[|rs| - 1];
      Marked(rs[..|rs| - 1])[r.index := Wanted(r.kind)]
  }

  /** What va_arg gives for the i-th argument read as a kind. */
  type Varargs = (nat, Kind) -> int

  function Filled(cells: seq<Cell>, n: nat, va: Varargs): (r: seq<Cell>)
    ensures |r| == |cells|
  {
    seq(|cells|, i requires 0 <= i < |cells| =>
      if i < n && cells[i].Wanted? then Held(cells[i].kind, va(i, cells[i].kind)) else cells[i])
  }

  ghost predicate AllWanted(cells: seq<Cell>, n: nat) { n <= |cells| && forall i :: 0 <= i < n ==> cells[i].Wanted? }

  /** The scan's outcome: None where the source aborts or leaves the format or the array. */
  ghost function Scanned(f: string, va: Varargs): Option<seq<Cell>> {
    var ps := Pieces(f, 0);
    if ps.None? || !InRange(Requests(ps.value)) then None
    else
      var rs := Requests(ps.value);
      if AllWanted(Marked(rs), |rs|) then Some(Filled(Marked(rs), |rs|, va)) else None
  }

  lemma MarkedSnoc(rs: seq<Request>, r: Request)
    requires InRange(rs) && r.index < MAX_ARGS
    ensures InRange(rs + [r]) && Marked(rs + [r]) == Marked(rs)[r.index := Wanted(r.kind)]
  {
    assert (rs + [r])[..|rs|] == rs;
  }

  method SkipRun(p: char -> bool, f: string, i: nat) returns (j: nat)
    requires i <= |f|
    ensures j == Run(p, f, i)
  {
    j := i;
    while j < |f| && p(f[j])
      invariant i <= j <= |f| && Run(p, f, i) == Run(p, f, j)
    {
      j := j + 1;
    }
  }

  lemma NoLengths(f: string, i: nat)
    requires i <= |f|
    ensures !Short(f[i..i]) && Wide(f[i..i]) == 0
  {
    assert f[i..i] == "";
  }

  /** One more length modifier. */
  lemma LengthSnoc(f: string, i: nat, j: nat)
    requires i <= j < |f|
    ensures f[i..j + 1] == f[i..j] + [f[j]]
    ensures Short(f[i..j + 1]) == (Short(f[i..j]) || f[j] == 'h')
    ensures Wide(f[i..j + 1]) == match f[j] case 'l' => Wide(f[i..j]) + 1 case 'L' => 2 case _ => Wide(f[i..j])
  {
    var len := f[i..j + 1];
    assert len[..|len| - 1] == f[i..j] && len == f[i..j] + [f[j]];
  }

  /** The length modifiers from i on. */
  method ScanLengths(f: string, i: nat) returns (j: nat, short: bool, wide: nat)
    requires i <= |f|
    ensures j == Run(IsLength, f, i) && short == Short(f[i..j]) && wide == Wide(f[i..j])
  {
    hide Short, Wide;
    j, short, wide := i, false, 0;
    NoLengths(f, i);
    while j < |f| && IsLength(f[j])
      invariant i <= j <= |f| && Run(IsLength, f, i) == Run(IsLength, f, j)
      invariant short == Short(f[i..j]) && wide == Wide(f[i..j])
    {
      LengthSnoc(f, i, j);
      match f[j] {
        case 'h' => short := true;
        case 'l' => wide := wide + 1;
        case _ => wide := 2;
      }
      j := j + 1;
    }
  }

  /** A width or precision: '*' marks an int. */
  method ScanAmount(f: string, i: nat, args: array<Cell>, count: nat, ghost rs: seq<Request>)
      returns (ok: bool, j: nat, n: nat)
    requires i <= |f| && args.Length == MAX_ARGS && InRange(rs) && args[..] == Marked(rs) && count == |rs|
    modifies args
    ensures j == AmountAt(f, i).1
    ensures var rs' := rs + StarRequests(AmountAt(f, i).0, count);
      n == |rs'| && ok == InRange(rs') && (ok ==> args[..] == Marked(rs'))
  {
    ok, n := true, count;
    if i < |f| && f[i] == '*' {
      j := i + 1;
      var index := count;
      if IsPositional(f, j) {
        index := f[j] as int - '1' as int;
        j := j + 2;
      }
      n := count + 1;
      assert StarRequests(AmountAt(f, i).0, count) == [Request(index, Int)];
      if index >= MAX_ARGS {
        assert (rs + [Request(index, Int)])[|rs|].index == index;
        return false, j, n;
      }
      MarkedSnoc(rs, Request(index, Int));
      args[index] := Wanted(Int);
    } else {
      j := SkipRun(IsDigit, f, i);
      assert rs + [] == rs;
    }
  }

  /** An optional precision. */
  method ScanPrec(f: string, i: nat, args: array<Cell>, count: nat, ghost rs: seq<Request>)
      returns (ok: bool, j: nat, n: nat)
    requires i <= |f| && args.Length == MAX_ARGS && InRange(rs) && args[..] == Marked(rs) && count == |rs|
    modifies args
    ensures j == PrecAt(f, i).1
    ensures var rs' := rs + StarRequests(PrecAt(f, i).0, count);
      n == |rs'| && ok == InRange(rs') && (ok ==> args[..] == Marked(rs'))
  {
    ok, j, n := true, i, count;
    if i < |f| && f[i] == '.' {
      ok, j, n := ScanAmount(f, i + 1, args, count, rs);
    } else {
      assert rs + [] == rs;
    }
  }

  /** The kind the scanner's switch picks. */
  method ScanKind(conv: char, short: bool, wide: nat, ghost len: string) returns (kind: Option<Kind>)
    requires short == Short(len) && wide == Wide(len)
    ensures kind == KindOf(len, conv)
  {
    match conv {
      case 'd' | 'i' | 'o' | 'u' | 'x' | 'X' | 'c' =>
        if short { return Some(Int); }
        match wide {
          case 0 => kind := Some(Int);
          case 1 => kind := Some(Long);
          case _ => kind := Some(LongLong);
        }
      case 'f' | 'e' | 'E' | 'g' | 'G' => kind := Some(if wide == 0 then Double else LongDouble);
      case 's' | 'p' => kind := Some(Ptr);
      case _ => kind := None;
    }
  }

  /** The length modifiers and the conversion from d on. */
  method ScanConv(f: string, d: nat) returns (e: nat, next: nat, kind: Option<Kind>)
    requires d <= |f|
    ensures e == Run(IsLength, f, d)
    ensures kind.Some? <==> ConvAt(f, d, e)
    ensures kind.Some? ==> kind == KindOf(f[d..e], f[e]) && next == PastConv(f, e)
  {
    hide Run, Wide, Short, KindOf;
    var short, wide;
    e, short, wide := ScanLengths(f, d);
    if e == |f| { return e, e, None; }
    next := e + 1;
    kind := ScanKind(f[e], short, wide, f[d..e]);
    if f[e] == 'p' && next < |f| && (f[next] == 'A' || f[next] == 'B') { next := next + 1; }
  }

  lemma InRangeAppend(a: seq<Request>, b: seq<Request>)
    ensures InRange(a + b) <==> InRange(a) && InRange(b)
  {
    assert forall i :: 0 <= i < |a| ==> (a + b)[i] == a[i];
    assert forall i :: 0 <= i < |b| ==> (a + b)[|a| + i] == b[i];
  }

  lemma InRangeOne(r: Request)
    ensures InRange([r]) <==> r.index < MAX_ARGS
  {
    assert [r][0] == r;
  }

  /** The argument number at the start of a directive, if there is one. */
  method TakePosition(f: string, i: nat) returns (pos: Option<nat>, j: nat)
    requires i <= |f|
    ensures pos == Positional(f, i) && j == PastPositional(f, i)
  {
    pos, j := None, i;
    if IsPositional(f, i) {
      pos := Some((f[i] as int - '1' as int) as nat);
      j := i + 2;
    }
  }

  /** A directive's requests, star by star; all are in range exactly if each is. */
  lemma DirectiveRequests(d: Directive, rs: seq<Request>)
    requires KindOf(d.len, d.conv).Some?
    ensures var rs1 := rs + StarRequests(d.width, |rs|);
      var rs2 := rs1 + StarRequests(d.prec, |rs1|);
      var r := Request(Index(d.pos, |rs2|), KindOf(d.len, d.conv).value);
      var all := rs + PieceRequests(Dir(d), |rs|);
      all == rs2 + [r] && (InRange(rs2) ==> InRange(rs1)) && (InRange(all) <==> InRange(rs2) && r.index < MAX_ARGS)
  {
    hide KindOf, StarRequests, InRange;
    var w := StarRequests(d.width, |rs|);
    var v := StarRequests(d.prec, |rs| + |w|);
    var r := Request(Index(d.pos, |rs| + |w| + |v|), KindOf(d.len, d.conv).value);
    Assoc(rs, w + v, [r]);
    Assoc(rs, w, v);
    InRangeAppend(rs + w + v, [r]);
    InRangeAppend(rs + w, v);
    InRangeOne(r);
  }

  method ScanDirective(f: string, i: nat, args: array<Cell>, count: nat, ghost rs: seq<Request>)
      returns (ok: bool, next: nat, n: nat)
    requires i < |f| && args.Length == MAX_ARGS && InRange(rs) && args[..] == Marked(rs) && count == |rs|
    modifies args
    ensures ok ==> DirectiveAt(f, i).Some? && next == DirectiveAt(f, i).value.1
    ensures DirectiveAt(f, i).Some? ==>
      var rs' := rs + PieceRequests(Dir(DirectiveAt(f, i).value.0), count);
      ok == InRange(rs') && (ok ==> n == |rs'| && args[..] == Marked(rs'))
  {
    hide PieceRequests, InRange, Marked, KindOf, Run, StarRequests, AmountAt, PrecAt, PastConv, ConvAt, Positional,
      PastPositional, IsDot;
    if DirectiveAt(f, i).Some? { DirectiveRequests(DirectiveAt(f, i).value.0, rs); }
    var argNo, a := TakePosition(f, i + 1);
    var b := SkipRun(IsFlag, f, a);
    var c, d, e, kind;
    ok, c, n := ScanAmount(f, b, args, count, rs);
    if !ok { return false, 0, n; }
    ghost var rs1 := rs + StarRequests(AmountAt(f, b).0, count);
    ok, d, n := ScanPrec(f, c, args, n, rs1);
    if !ok { return false, 0, n; }
    ghost var rs2 := rs1 + StarRequests(PrecAt(f, c).0, |rs1|);
    e, next, kind := ScanConv(f, d);
    if kind.None? { return false, next, n; }
    var index := if argNo.Some? then argNo.value else n;
    n := n + 1;
    ghost var r := Request(index, kind.value);
    if index >= MAX_ARGS { return false, next, n; }
    MarkedSnoc(rs2, r);
    args[index] := Wanted(kind.value);
  }

  // Walking over the pieces ---------------------------------------------------------

  ghost function After(done: seq<Piece>, rest: Option<seq<Piece>>): Option<seq<Piece>> {
    if rest.None? then None else Some(done + rest.value)
  }

  /** Having passed `done`, a walk is at i. */
  ghost predicate Passed(f: string, done: seq<Piece>, i: nat) {
    i <= |f| && GoodPieces(done) && Pieces(f, 0) == After(done, Pieces(f, i))
  }

  lemma PassedNone(f: string)
    ensures Passed(f, [], 0)
  {
    assert Pieces(f, 0).Some? ==> [] + Pieces(f, 0).value == Pieces(f, 0).value;
  }

  lemma PassedPiece(f: string, done: seq<Piece>, i: nat)
    requires Passed(f, done, i) && i < |f| && PieceAt(f, i).Some?
    ensures Passed(f, done + [PieceAt(f, i).value.0], PieceAt(f, i).value.1)
    ensures var p := PieceAt(f, i).value.0;
      GoodPiece(p) && Requests(done + [p]) == Requests(done) + PieceRequests(p, |Requests(done)|)
  {
    hide PieceAt, PieceRequests, Requests, GoodPiece;
    var (p, j) := PieceAt(f, i).value;
    assert GoodPiece(p) by { GoodPieceAt(f, i); }
    RequestsSnoc(done, p);
    var rest := Pieces(f, j);
    if rest.Some? { Assoc(done, [p], rest.value); }
  }

  lemma GoodPieceAt(f: string, i: nat)
    requires i < |f| && PieceAt(f, i).Some?
    ensures GoodPiece(PieceAt(f, i).value.0)
  {
    hide DirectiveAt, Run, KindOf;
  }

  lemma PassedAll(f: string, done: seq<Piece>)
    requires Passed(f, done, |f|)
    ensures Pieces(f, 0) == Some(done)
  {
    assert done + [] == done;
  }

  /** What has been asked for stays asked for. */
  lemma PassedPrefix(f: string, done: seq<Piece>, i: nat)
    requires Passed(f, done, i) && Pieces(f, 0).Some?
    ensures Requests(done) <= Requests(Pieces(f, 0).value)
  {
    RequestsPrefix(done, Pieces(f, i).value);
  }

  lemma OutOfRangeStays(rs: seq<Request>, all: seq<Request>)
    requires rs <= all && InRange(all)
    ensures InRange(rs)
  {
    assert all == rs + all[|rs|..];
    InRangeAppend(rs, all[|rs|..]);
  }

  /** One directive of the scan loop; a failure here is a failure of the whole scan. */
  lemma ScanFails(f: string, done: seq<Piece>, i: nat, va: Varargs)
    requires Passed(f, done, i) && i < |f|
    requires PieceAt(f, i).None?
      || (var p := PieceAt(f, i).value.0; GoodPiece(p) && !InRange(Requests(done) + PieceRequests(p, |Requests(done)|)))
    ensures Scanned(f, va) == None
  {
    hide PieceAt, PieceRequests, Requests, InRange, Marked, GoodPiece;
    if PieceAt(f, i).Some? && Pieces(f, 0).Some? {
      var (p, j) := PieceAt(f, i).value;
      PassedPiece(f, done, i);
      PassedPrefix(f, done + [p], j);
      if InRange(Requests(Pieces(f, 0).value)) {
        OutOfRangeStays(Requests(done + [p]), Requests(Pieces(f, 0).value));
      }
    }
  }

  /** The second loop of the scan: fetch the arguments in order, by the kinds recorded. */
  method Fetch(args: array<Cell>, count: nat, va: Varargs) returns (ok: bool)
    requires args.Length == MAX_ARGS && forall i :: 0 <= i < MAX_ARGS ==> !args[i].Held?
    modifies args
    ensures ok == AllWanted(old(args[..]), count)
    ensures ok ==> args[..] == Filled(old(args[..]), count, va)
  {
    ghost var was := args[..];
    var i := 0;
    while i < count
      invariant i <= count && i <= MAX_ARGS && AllWanted(was, i)
      invariant forall k :: 0 <= k < MAX_ARGS ==> args[k] == Filled(was, i, va)[k]
    {
      if i == MAX_ARGS { return false; }
      match args[i] {
        case Wanted(kind) => args[i] := Held(kind, va(i, kind));
        case _ => return false;
      }
      i := i + 1;
    }
    ok := true;
  }

  method Scan(f: string, va: Varargs) returns (r: Option<seq<Cell>>)
    ensures r == Scanned(f, va)
  {
    hide DirectiveAt, Requests, InRange, Marked, PieceRequests, Pieces, Passed, Filled, AllWanted, GoodPiece, Run;
    var args := new Cell[MAX_ARGS](_ => Bad);
    var i, count, ok: bool := 0, 0, true;
    ghost var done: seq<Piece> := [];
    PassedNone(f);
    NothingMarked(args[..]);
    while i < |f|
      invariant i <= |f| && GoodPieces(done) && Passed(f, done, i) && InRange(Requests(done))
      invariant args[..] == Marked(Requests(done)) && count == |Requests(done)|
      decreases |f| - i
    {
      ghost var was, rs := i, Requests(done);
      if f[i] != '%' {
        i := SkipRun(IsPlain, f, i);
      } else if i + 1 < |f| && f[i + 1] == '%' {
        i := i + 2;
      } else {
        ok, i, count := ScanDirective(f, i, args, count, rs);
        if !ok {
          ScanFails(f, done, was, va);
          return None;
        }
      }
      PassedPiece(f, done, was);
      NoRequests(PieceAt(f, was).value.0, rs);
      done := done + [PieceAt(f, was).value.0];
    }
    PassedAll(f, done);
    ok := Fetch(args, count, va);
    r := if ok then Some(args[..]) else None;
  }

  lemma NothingMarked(cells: seq<Cell>)
    requires |cells| == MAX_ARGS && forall i :: 0 <= i < MAX_ARGS ==> cells[i] == Bad
    ensures cells == Marked(Requests([])) && Requests([]) == [] && InRange(Requests([])) && GoodPieces([])
  {
  }

  lemma NoRequests(p: Piece, rs: seq<Request>)
    requires GoodPiece(p)
    ensures !p.Dir? ==> rs + PieceRequests(p, |rs|) == rs
  {
  }

  // What is printed -----------------------------------------------------------------

  /** Characters as they stand, or a value handed to the print callback with a specifier. */
  datatype Out = Chars(text: string) | Item(spec: string, kind: Kind, value: int, suffix: string)

  /** Where a directive's values come from. */
  type Source = (nat, Kind) -> Option<int>

  function Direct(va: Varargs): Source { (i: nat, k: Kind) => Some(va(i, k)) }

  /** Reading a union member that was not the one stored gives no value. */
  function ReadAs(cell: Cell, kind: Kind): Option<int> {
    if cell.Held? && cell.kind == kind then Some(cell.value) else None
  }

  function Through(args: seq<Cell>): Source { (i: nat, k: Kind) => if i < |args| then ReadAs(args[i], k) else None }

  function Number(n: nat): string {
    if n < 10 then [(n + '0' as int) as char] else Number(n / 10) + [(n % 10 + '0' as int) as char]
  }

  function Abs(x: int): nat { if x < 0 then -x else x }

  function AmountText(a: Amount, count: nat, src: Source): Option<string> {
    match a
    case Digits(text) => Some(text)
    case Star(pos) =>
      var v := src(Index(pos, count), Int);
      if v.None? then None else Some(Number(Abs(v.value)))
  }

  function Stars(a: Amount): nat { if a.Star? then 1 else 0 }

  /** The piece whose requests start at number `count`; None if a value is missing. */
  function RenderPiece(p: Piece, count: nat, src: Source): Option<Out>
    requires GoodPiece(p)
  {
    match p
    case Text(text) => Some(Chars(text))
    case Percent => Some(Chars("%"))
    case Dir(d) =>
      var w := AmountText(d.width, count, src);
      var v := AmountText(d.prec, count + Stars(d.width), src);
      var kind := KindOf(d.len, d.conv).value;
      var x := src(Index(d.pos, count + Stars(d.width) + Stars(d.prec)), kind);
      if w.None? || v.None? || x.None? then None
      else Some(Item(Specifier(d, w.value, v.value), kind, x.value, d.suffix))
  }

  /** The specifier: the directive without argument numbers, and with stars replaced by their values. */
  function Specifier(d: Directive, width: string, prec: string): string {
    "%" + d.flags + width + (if d.dot then "." else "") + prec + d.len + [d.conv]
  }

  function Render(ps: seq<Piece>, src: Source): (r: Option<seq<Out>>)
    requires GoodPieces(ps)
    ensures r.Some? ==> |r.value| == |ps|
  {
    if ps == [] then Some([])
    else
      var front := ps[..|ps| - 1];
      var r, p := Render(front, src), RenderPiece(ps[|ps| - 1], |Requests(front)|, src);
      if r.None? || p.None? then None else Some(r.value + [p.value])
  }

  // The main results ------------------------------------------------------------------

  /** Each argument number below |rs| is asked for exactly once. */
  ghost predicate Permutation(rs: seq<Request>) {
    && (forall i :: 0 <= i < |rs| ==> rs[i].index < |rs|)
    && (forall i, j :: 0 <= i < j < |rs| ==> rs[i].index != rs[j].index)
  }

  ghost function Indices(rs: seq<Request>): set<nat> { set i | 0 <= i < |rs| :: rs[i].index }

  ghost function Below(n: nat): (s: set<nat>)
    ensures |s| == n && forall i: nat :: i in s <==> i < n
  {
    if n == 0 then {} else Below(n - 1) + {n - 1}
  }

  lemma {:induction false} FewIndices(rs: seq<Request>)
    ensures |Indices(rs)| <= |rs|
    ensures |Indices(rs)| == |rs| ==> forall i, j :: 0 <= i < j < |rs| ==> rs[i].index != rs[j].index
  {
    if rs != [] {
      var front, x := rs[..|rs| - 1], rs[|rs| - 1].index;
      FewIndices(front);
      assert Indices(rs) == Indices(front) + {x};
      if |Indices(rs)| == |rs| {
        assert x !in Indices(front);
        assert forall i :: 0 <= i < |front| ==> front[i].index in Indices(front);
        assert forall i :: 0 <= i < |front| ==> rs[i] == front[i];
      }
    }
  }

  lemma SubsetSize(a: set<nat>, b: set<nat>)
    requires a <= b
    ensures |a| <= |b| && (|a| == |b| ==> a == b)
  {
    assert b == a + (b - a);
    if |a| == |b| { assert |b - a| == 0; }
  }

  /** n requests that reach each of 0..n-1 reach each of them once, and nothing else. */
  lemma Pigeonhole(rs: seq<Request>)
    requires forall k: nat :: k < |rs| ==> k in Indices(rs)
    ensures Permutation(rs)
  {
    FewIndices(rs);
    SubsetSize(Below(|rs|), Indices(rs));
    assert forall i :: 0 <= i < |rs| ==> rs[i].index in Indices(rs);
  }

  lemma PermutationCovers(rs: seq<Request>, k: nat)
    requires Permutation(rs) && k < |rs|
    ensures k in Indices(rs)
  {
    DistinctIndices(rs);
    assert forall i :: i in Indices(rs) ==> i in Below(|rs|);
    SubsetSize(Indices(rs), Below(|rs|));
    assert k in Below(|rs|);
  }

  lemma {:induction false} DistinctIndices(rs: seq<Request>)
    requires forall i, j :: 0 <= i < j < |rs| ==> rs[i].index != rs[j].index
    ensures |Indices(rs)| == |rs|
  {
    if rs != [] {
      var front, x := rs[..|rs| - 1], rs[|rs| - 1].index;
      DistinctIndices(front);
      assert Indices(rs) == Indices(front) + {x};
      assert x !in Indices(front);
    }
  }

  /** A cell is marked exactly if it was asked for. */
  lemma {:induction false} MarkedIff(rs: seq<Request>, k: nat)
    requires InRange(rs) && k < MAX_ARGS
    ensures Marked(rs)[k].Wanted? <==> k in Indices(rs)
  {
    if rs != [] {
      var front, r := rs[..|rs| - 1], rs[|rs| - 1];
      MarkedIff(front, k);
      assert Indices(rs) == Indices(front) + {r.index};
    }
  }

  /** A cell asked for once is marked with the kind asked for. */
  lemma {:induction false} MarkedKind(rs: seq<Request>, i: nat)
    requires InRange(rs) && i < |rs|
    requires forall j :: i < j < |rs| ==> rs[j].index != rs[i].index
    ensures Marked(rs)[rs[i].index] == Wanted(rs[i].kind)
  {
    var front := rs[..|rs| - 1];
    if i < |front| { MarkedKind(front, i); }
  }

  /** The scan succeeds exactly on well-formed formats that ask for each of at most nine arguments exactly once. */
  lemma ScanSucceedsIff(f: string, va: Varargs)
    ensures Scanned(f, va).Some? <==>
      Pieces(f, 0).Some? && |Requests(Pieces(f, 0).value)| <= MAX_ARGS && Permutation(Requests(Pieces(f, 0).value))
  {
    hide Pieces, Requests, Marked;
    if Pieces(f, 0).Some? {
      var rs := Requests(Pieces(f, 0).value);
      if Scanned(f, va).Some? {
        forall k: nat | k < |rs| ensures k in Indices(rs) {
          assert Marked(rs)[k].Wanted?;
          MarkedIff(rs, k);
        }
        Pigeonhole(rs);
      } else if |rs| <= MAX_ARGS && Permutation(rs) {
        assert InRange(rs);
        forall k | 0 <= k < |rs| ensures Marked(rs)[k].Wanted? {
          PermutationCovers(rs, k);
          MarkedIff(rs, k);
        }
      }
    }
  }

  /** So a format that asks twice for one argument is never accepted. */
  lemma ReusedRefused(f: string, va: Varargs, i: nat, j: nat)
    requires Pieces(f, 0).Some?
    requires var rs := Requests(Pieces(f, 0).value);
      i < j < |rs| && rs[i].index == rs[j].index
    ensures Scanned(f, va) == None
  {
    hide Pieces, Requests, Marked, Scanned;
    ScanSucceedsIff(f, va);
  }

  /** The directive "%1$d" at i. */
  lemma FirstAsInt(f: string, i: nat)
    requires i + 4 <= |f| && f[i..i + 4] == "%1$d"
    ensures var d := Directive(Some(0), "", Digits(""), false, Digits(""), "", 'd', "");
      PieceAt(f, i) == Some((Dir(d), i + 4)) && GoodPiece(Dir(d))
      && forall count :: PieceRequests(Dir(d), count) == [Request(0, Int)]
  {
    assert f[i] == f[i..i + 4][0] && f[i + 1] == f[i..i + 4][1] && f[i + 2] == f[i..i + 4][2] && f[i + 3] ==
      f[i..i + 4][3];
    assert Run(IsFlag, f, i + 3) == i + 3 && Run(IsDigit, f, i + 3) == i + 3 && Run(IsLength, f, i + 3) == i + 3;
    assert f[i + 3..i + 3] == "" && f[i + 4..i + 4] == "";
  }

  /** "%1$d%1$d" is well formed, and refused. */
  lemma ReusedExample(va: Varargs)
    ensures Pieces("%1$d%1$d", 0).Some? && Scanned("%1$d%1$d", va) == None
  {
    hide PieceAt, PieceRequests, Scanned, GoodPiece;
    var f := "%1$d%1$d";
    assert f[0..4] == "%1$d" && f[4..8] == "%1$d" && |f| == 8;
    FirstAsInt(f, 0);
    FirstAsInt(f, 4);
    var p := PieceAt(f, 0).value.0;
    assert Pieces(f, 8) == Some([]);
    assert Pieces(f, 4) == Some([p] + []);
    assert Pieces(f, 0) == Some([p] + ([p] + []));
    assert [p] + ([p] + []) == [p, p];
    RequestsSnoc([], p);
    RequestsSnoc([p], p);
    assert [] + [p] == [p] && [p] + [p] == [p, p];
    ReusedRefused(f, va, 0, 1);
  }

  /** After a successful scan, the array holds for each request the vararg at its position, as the kind asked for. */
  lemma ScanHolds(f: string, va: Varargs, i: nat)
    requires Scanned(f, va).Some?
    ensures Pieces(f, 0).Some?
    ensures var rs := Requests(Pieces(f, 0).value);
      i < |rs| ==> Through(Scanned(f, va).value)(rs[i].index, rs[i].kind) == Some(va(rs[i].index, rs[i].kind))
  {
    hide Pieces, Requests, Marked;
    ScanSucceedsIff(f, va);
    var rs := Requests(Pieces(f, 0).value);
    if i < |rs| { MarkedKind(rs, i); }
  }

  ghost predicate Agree(rs: seq<Request>, a: Source, b: Source) {
    forall i :: 0 <= i < |rs| ==> a(rs[i].index, rs[i].kind) == b(rs[i].index, rs[i].kind)
  }

  lemma RenderPieceAgrees(p: Piece, count: nat, a: Source, b: Source)
    requires GoodPiece(p) && Agree(PieceRequests(p, count), a, b)
    ensures RenderPiece(p, count, a) == RenderPiece(p, count, b)
  {
    hide KindOf, Specifier, Number;
    if p.Dir? {
      var rs, d := PieceRequests(p, count), p.d;
      var w, v := StarRequests(d.width, count), StarRequests(d.prec, count + Stars(d.width));
      assert |w| == Stars(d.width) && |v| == Stars(d.prec);
      assert rs[|w| + |v|] == Request(Index(d.pos, count + |w| + |v|), KindOf(d.len, d.conv).value);
      assert d.width.Star? ==> rs[0] == w[0];
      assert d.prec.Star? ==> rs[|w|] == v[0];
    }
  }

  /** Sources that agree on all a format asks for print the same. */
  lemma {:induction false} RenderAgrees(ps: seq<Piece>, a: Source, b: Source)
    requires GoodPieces(ps) && Agree(Requests(ps), a, b)
    ensures Render(ps, a) == Render(ps, b)
  {
    if ps != [] {
      hide RenderPiece, PieceRequests, Agree;
      var front, p := ps[..|ps| - 1], ps[|ps| - 1];
      AgreeAppend(Requests(front), PieceRequests(p, |Requests(front)|), a, b);
      RenderAgrees(front, a, b);
      RenderPieceAgrees(p, |Requests(front)|, a, b);
    }
  }

  lemma AgreeAppend(r: seq<Request>, s: seq<Request>, a: Source, b: Source)
    requires Agree(r + s, a, b)
    ensures Agree(r, a, b) && Agree(s, a, b)
  {
    assert forall i :: 0 <= i < |r| ==> (r + s)[i] == r[i];
    assert forall i :: 0 <= i < |s| ==> (r + s)[|r| + i] == s[i];
  }

  lemma {:induction false} DirectRenders(ps: seq<Piece>, va: Varargs)
    requires GoodPieces(ps)
    ensures Render(ps, Direct(va)).Some?
  {
    if ps != [] { DirectRenders(ps[..|ps| - 1], va); }
  }

  /** Lock-step: printing through the scanned array prints every vararg at its position, as if read directly. */
  lemma PrintsTheVarargs(f: string, va: Varargs)
    requires Scanned(f, va).Some?
    ensures Pieces(f, 0).Some?
    ensures var ps := Pieces(f, 0).value;
      Render(ps, Through(Scanned(f, va).value)) == Render(ps, Direct(va)) && Render(ps, Direct(va)).Some?
  {
    hide Pieces, Render, Scanned, Requests;
    ScanHolds(f, va, 0);
    var ps, args := Pieces(f, 0).value, Scanned(f, va).value;
    var rs := Requests(ps);
    forall i | 0 <= i < |rs|
      ensures Through(args)(rs[i].index, rs[i].kind) == Direct(va)(rs[i].index, rs[i].kind)
    {
      ScanHolds(f, va, i);
    }
    RenderAgrees(ps, Through(args), Direct(va));
    DirectRenders(ps, va);
  }

  ghost predicate Unnumbered(p: Piece) {
    p.Dir? ==> p.d.pos.None? && (p.d.width.Star? ==> p.d.width.pos.None?) && (p.d.prec.Star? ==> p.d.prec.pos.None?)
  }

  lemma UnnumberedPiece(p: Piece, count: nat, i: nat)
    requires GoodPiece(p) && Unnumbered(p) && i < |PieceRequests(p, count)|
    ensures PieceRequests(p, count)[i].index == count + i
  {
    hide KindOf;
  }

  /** Without argument numbers, arguments are asked for in order. */
  lemma {:induction false} UnnumberedRequests(ps: seq<Piece>, i: nat)
    requires GoodPieces(ps) && forall p :: p in ps ==> Unnumbered(p)
    ensures i < |Requests(ps)| ==> Requests(ps)[i].index == i
  {
    hide KindOf, PieceRequests, Unnumbered, GoodPiece;
    if ps != [] {
      var front, p := ps[..|ps| - 1], ps[|ps| - 1];
      UnnumberedRequests(front, i);
      var rs := Requests(front);
      if |rs| <= i < |Requests(ps)| { UnnumberedPiece(p, |rs|, i - |rs|); }
    }
  }

  /** So a well-formed format without argument numbers is accepted exactly if it asks for at most nine. */
  lemma UnnumberedAccepted(f: string, va: Varargs)
    requires Pieces(f, 0).Some? && forall p :: p in Pieces(f, 0).value ==> Unnumbered(p)
    ensures Scanned(f, va).Some? <==> |Requests(Pieces(f, 0).value)| <= MAX_ARGS
  {
    hide Pieces, Requests, Scanned;
    var ps := Pieces(f, 0).value;
    forall i | 0 <= i < |Requests(ps)| ensures Requests(ps)[i].index == i { UnnumberedRequests(ps, i); }
    ScanSucceedsIff(f, va);
  }

  // The printer -------------------------------------------------------------------------

  lemma RenderSnoc(ps: seq<Piece>, p: Piece, src: Source)
    requires GoodPieces(ps) && GoodPiece(p)
    ensures GoodPieces(ps + [p])
    ensures Render(ps, src).None? || RenderPiece(p, |Requests(ps)|, src).None? ==> Render(ps + [p], src).None?
    ensures Render(ps, src).Some? && RenderPiece(p, |Requests(ps)|, src).Some? ==>
      Render(ps + [p], src) == Some(Render(ps, src).value + [RenderPiece(p, |Requests(ps)|, src).value])
  {
    hide RenderPiece, Requests;
    assert (ps + [p])[..|ps|] == ps;
  }

  lemma {:induction false} RenderNone(ps: seq<Piece>, qs: seq<Piece>, src: Source)
    requires GoodPieces(ps) && GoodPieces(qs) && Render(ps, src).None?
    ensures GoodPieces(ps + qs) && Render(ps + qs, src).None?
    decreases |qs|
  {
    hide RenderPiece, Requests, Render, GoodPiece;
    if qs == [] {
      assert ps + qs == ps;
    } else {
      var front, last := qs[..|qs| - 1], qs[|qs| - 1];
      RenderNone(ps, front, src);
      assert ps + qs == (ps + front) + [last];
      RenderSnoc(ps + front, last, src);
    }
  }

  /** What the printer's run over the whole format gives. */
  ghost function Printed(f: string, args: seq<Cell>): Option<seq<Out>> {
    if Pieces(f, 0).None? then None else Render(Pieces(f, 0).value, Through(args))
  }

  /** Copies a width or precision into the specifier, fetching a star's value. */
  method PrintAmount(f: string, i: nat, args: seq<Cell>, count: nat, spec: string) returns (r: Option<string>, j: nat,
      n: nat)
    requires i <= |f|
    ensures var (a, k) := AmountAt(f, i);
      var text := AmountText(a, count, Through(args));
      && j == k && n == count + Stars(a)
      && r == if text.None? then None else Some(spec + text.value)
  {
    if i < |f| && f[i] == '*' {
      j := i + 1;
      var index := count;
      if IsPositional(f, j) {
        index := f[j] as int - '1' as int;
        j := j + 2;
      }
      n := count + 1;
      if index >= |args| || ReadAs(args[index], Int).None? { return None, j, n; }
      r := Some(spec + Number(Abs(ReadAs(args[index], Int).value)));
    } else {
      j := i;
      n := count;
      var out := spec;
      while j < |f| && IsDigit(f[j])
        invariant i <= j <= |f| && Run(IsDigit, f, i) == Run(IsDigit, f, j) && out == spec + f[i..j]
      {
        out := out + [f[j]];
        j := j + 1;
      }
      r := Some(out);
    }
  }

  /** The union member the printer's switch reads. */
  method PrintValue(conv: char, short: bool, wide: nat, cell: Cell, ghost len: string) returns (v: Option<int>)
    requires short == Short(len) && wide == Wide(len)
    ensures v == if KindOf(len, conv).None? then None else ReadAs(cell, KindOf(len, conv).value)
  {
    match conv {
      case 'd' | 'i' | 'o' | 'u' | 'x' | 'X' | 'c' =>
        if short {
          v := ReadAs(cell, Int);
        } else {
          match wide {
            case 0 => v := ReadAs(cell, Int);
            case 1 => v := ReadAs(cell, Long);
            case _ => v := ReadAs(cell, LongLong);
          }
        }
      case 'f' | 'e' | 'E' | 'g' | 'G' =>
        if wide == 0 { v := ReadAs(cell, Double); } else { v := ReadAs(cell, LongDouble); }
      case 's' => v := ReadAs(cell, Ptr);
      case 'p' => v := ReadAs(cell, Ptr);
      case _ => v := None;
    }
  }

  /** Copies the flags into the specifier. */
  method PrintFlags(f: string, i: nat, spec: string) returns (j: nat, out: string)
    requires i <= |f|
    ensures j == Run(IsFlag, f, i) && out == spec + f[i..j]
  {
    j, out := i, spec;
    while j < |f| && IsFlag(f[j])
      invariant i <= j <= |f| && Run(IsFlag, f, i) == Run(IsFlag, f, j) && out == spec + f[i..j]
    {
      out := out + [f[j]];
      j := j + 1;
    }
  }

  /** An optional precision, with its period. */
  method PrintPrec(f: string, i: nat, args: seq<Cell>, count: nat, spec: string) returns (r: Option<string>, j: nat,
      n: nat)
    requires i <= |f|
    ensures var (a, k) := PrecAt(f, i);
      var text := AmountText(a, count, Through(args));
      && j == k && n == count + Stars(a)
      && r == if text.None? then None else Some(spec + (if IsDot(f, i) then "." else "") + text.value)
  {
    hide AmountAt, Through;
    if i < |f| && f[i] == '.' {
      r, j, n := PrintAmount(f, i + 1, args, count, spec + ".");
    } else {
      r, j, n := Some(spec), i, count;
      assert spec + "" + "" == spec;
    }
  }

  /** Copies the length modifiers. */
  method PrintLengths(f: string, i: nat, spec: string) returns (j: nat, short: bool, wide: nat, out: string)
    requires i <= |f|
    ensures j == Run(IsLength, f, i) && short == Short(f[i..j]) && wide == Wide(f[i..j]) && out == spec + f[i..j]
  {
    hide Short, Wide;
    j, short, wide, out := i, false, 0, spec;
    NoLengths(f, i);
    while j < |f| && IsLength(f[j])
      invariant i <= j <= |f| && Run(IsLength, f, i) == Run(IsLength, f, j)
      invariant short == Short(f[i..j]) && wide == Wide(f[i..j]) && out == spec + f[i..j]
    {
      LengthSnoc(f, i, j);
      match f[j] {
        case 'h' => short := true;
        case 'l' => wide := wide + 1;
        case _ => wide := 2;
      }
      out := out + [f[j]];
      j := j + 1;
    }
  }

  /** The conversion from d on, of the argument `pos`, or of the next one. */
  method PrintConv(f: string, d: nat, args: seq<Cell>, pos: Option<nat>, n: nat, spec: string)
      returns (r: Option<Out>, next: nat)
    requires d <= |f|
    ensures var e := Run(IsLength, f, d);
      && (!ConvAt(f, d, e) ==> r.None?)
      && (ConvAt(f, d, e) ==>
            var kind := KindOf(f[d..e], f[e]).value;
            var v := Through(args)(Index(pos, n), kind);
            && next == PastConv(f, e)
            && r == if v.None? then None
                    else Some(Item(spec + f[d..e] + [f[e]], kind, v.value, f[e + 1..next])))
  {
    hide Run, Wide, Short, KindOf;
    var e, short, wide, out := PrintLengths(f, d, spec);
    if e == |f| { return None, e; }
    out := out + [f[e]];
    next := e + 1;
    if f[e] == 'p' && next < |f| && (f[next] == 'A' || f[next] == 'B') { next := next + 1; }
    var index := Index(pos, n);
    if index >= |args| { return None, next; }
    var v := PrintValue(f[e], short, wide, args[index], f[d..e]);
    if v.None? { return None, next; }
    var kind := KindOf(f[d..e], f[e]);
    if kind.Some? { r := Some(Item(out, kind.value, v.value, f[e + 1..next])); } else { r := None; }
  }

  lemma RequestCount(d: Directive, count: nat)
    requires KindOf(d.len, d.conv).Some?
    ensures |PieceRequests(Dir(d), count)| == Stars(d.width) + Stars(d.prec) + 1
  {
    hide KindOf;
  }

  method PrintDirective(f: string, i: nat, args: seq<Cell>, count: nat) returns (r: Option<Out>, next: nat, n: nat)
    requires i < |f|
    ensures DirectiveAt(f, i).None? ==> r.None?
    ensures DirectiveAt(f, i).Some? ==>
      var (d, j) := DirectiveAt(f, i).value;
      && r == RenderPiece(Dir(d), count, Through(args))
      && (r.Some? ==> next == j && n == count + |PieceRequests(Dir(d), count)|)
  {
    hide PieceRequests, KindOf, Run, AmountAt, PrecAt, AmountText, Through, ConvAt, PastConv, Positional,
      PastPositional, IsDot;
    if DirectiveAt(f, i).Some? { RequestCount(DirectiveAt(f, i).value.0, count); }
    var argNo, a := TakePosition(f, i + 1);
    var b, spec := PrintFlags(f, a, "%");
    var w, c, n1 := PrintAmount(f, b, args, count, spec);
    if w.None? { return None, 0, 0; }
    var v, d, n2 := PrintPrec(f, c, args, n1, w.value);
    if v.None? { return None, 0, 0; }
    r, next := PrintConv(f, d, args, argNo, n2, v.value);
    n := n2 + 1;
  }

  /** A piece that cannot be printed stops the whole run. */
  lemma PrintFails(f: string, done: seq<Piece>, i: nat, args: seq<Cell>)
    requires Passed(f, done, i) && i < |f|
    requires PieceAt(f, i).None?
      || (var p := PieceAt(f, i).value.0; GoodPiece(p) && RenderPiece(p, |Requests(done)|, Through(args)).None?)
    ensures Printed(f, args) == None
  {
    hide PieceAt, PieceRequests, Requests, Render, GoodPiece, RenderPiece;
    if PieceAt(f, i).Some? && Pieces(f, 0).Some? {
      var (p, j) := PieceAt(f, i).value;
      PassedPiece(f, done, i);
      RenderSnoc(done, p, Through(args));
      RenderNone(done + [p], Pieces(f, j).value, Through(args));
    }
  }

  /** _bfd_doprnt, with a callback that prints all it is given. */
  method Print(f: string, args: seq<Cell>) returns (r: Option<seq<Out>>)
    ensures r == Printed(f, args)
  {
    hide DirectiveAt, Requests, PieceRequests, Pieces, Passed, GoodPiece, Run, Render, RenderPiece;
    var i, count := 0, 0;
    var out: seq<Out> := [];
    ghost var done: seq<Piece> := [];
    PassedNone(f);
    NothingRendered(Through(args));
    while i < |f|
      invariant i <= |f| && GoodPieces(done) && Passed(f, done, i)
      invariant Render(done, Through(args)) == Some(out) && count == |Requests(done)|
      decreases |f| - i
    {
      var was := i;
      var piece;
      if f[i] != '%' {
        i := SkipRun(IsPlain, f, i);
        piece := Some(Chars(f[was..i]));
      } else if i + 1 < |f| && f[i + 1] == '%' {
        i := i + 2;
        piece := Some(Chars("%"));
      } else {
        piece, i, count := PrintDirective(f, i, args, count);
        if piece.None? {
          PrintFails(f, done, was, args);
          return None;
        }
      }
      ghost var p := PieceAt(f, was).value.0;
      PassedPiece(f, done, was);
      NoRequests(p, Requests(done));
      PlainRenders(p, count, Through(args));
      RenderSnoc(done, p, Through(args));
      done := done + [p];
      out := out + [piece.value];
    }
    PassedAll(f, done);
    r := Some(out);
  }

  lemma NothingRendered(src: Source)
    ensures GoodPieces([]) && Requests([]) == [] && Render([], src) == Some([])
  {
  }

  lemma PlainRenders(p: Piece, count: nat, src: Source)
    requires GoodPiece(p)
    ensures p.Text? ==> RenderPiece(p, count, src) == Some(Chars(p.text))
    ensures p.Percent? ==> RenderPiece(p, count, src) == Some(Chars("%"))
  {
  }

  /** _bfd_print: a scan and then a print; whenever the scan succeeds, the varargs are printed as if read directly. */
  method PrintFormat(f: string, va: Varargs) returns (r: Option<seq<Out>>)
    ensures r.Some? <==> Scanned(f, va).Some?
    ensures r.Some? ==> Pieces(f, 0).Some? && r == Render(Pieces(f, 0).value, Direct(va))
  {
    hide Scanned, Render, Pieces;
    var args := Scan(f, va);
    if args.None? { return None; }
    PrintsTheVarargs(f, va);
    r := Print(f, args.value);
  }
}
