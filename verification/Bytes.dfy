/** Byte strings, C string helpers and the number formats used by archive headers and maps. */
module Bytes {

  type byte = b: nat | b < 256

  datatype Option<+T> = None | Some(value: T)

  const NUL: byte := 0
  const NEWLINE: byte := 10
  const SPACE: byte := 32
  const SLASH: byte := 47
  const ZERO: byte := 48
  const COLON: byte := 58
  const BACKSLASH: byte := 92

  /** 2^32 and 2^64: the ranges of the C types `unsigned int` and `bfd_size_type`. */
  const TWO32: nat := 0x1_0000_0000
  const TWO64: nat := 0x1_0000_0000_0000_0000

  function U32(x: int): nat { x % TWO32 }
  function U64(x: int): nat { x % TWO64 }

  lemma U64Small(x: nat)
    requires x < TWO64
    ensures U64(x) == x
  {
  }

  lemma U32Small(x: nat)
    requires x < TWO32
    ensures U32(x) == x
  {
  }

  function Repeat(c: byte, n: nat): (s: seq<byte>)
    ensures |s| == n && forall i :: 0 <= i < n ==> s[i] == c
  {
    seq(n, _ => c)
  }

  /** memchr: the position of the first c in s, or |s| when there is none. */
  function IndexOf(s: seq<byte>, c: byte): (i: nat)
    ensures i <= |s| && (i < |s| ==> s[i] == c) && forall j :: 0 <= j < i ==> s[j] != c
  {
    if s == [] || s[0] == c then 0 else IndexOf(s[1..], c) + 1
  }

  /** The first c is where it is, if nothing before it is a c. */
  lemma IndexOfAt(s: seq<byte>, c: byte, k: nat)
    requires k <= |s| && (k < |s| ==> s[k] == c) && forall j :: 0 <= j < k ==> s[j] != c
    ensures IndexOf(s, c) == k
  {
  }

  /** The C string that starts at `at`; the end of the buffer acts as a terminator. */
  function CString(buf: seq<byte>, at: nat): (s: seq<byte>)
    requires at <= |buf|
    ensures NUL !in s && at + |s| <= |buf| && s == buf[at..at + |s|]
    ensures at + |s| < |buf| ==> buf[at + |s|] == NUL
  {
    buf[at..][..IndexOf(buf[at..], NUL)]
  }

  lemma CStringIs(buf: seq<byte>, at: nat, s: seq<byte>)
    requires NUL !in s && at + |s| <= |buf| && buf[at..at + |s|] == s
    requires at + |s| < |buf| ==> buf[at + |s|] == NUL
    ensures CString(buf, at) == s
  {
    assert buf[at..][..|s|] == s;
    IndexOfAt(buf[at..], NUL, |s|);
  }

  lemma Assoc<T>(a: seq<T>, b: seq<T>, c: seq<T>)
    ensures a + (b + c) == (a + b) + c
  {
  }

  /** The images of the elements of xs, one after the other. */
  function Concat<T>(put: T -> seq<byte>, xs: seq<T>): seq<byte> {
    if xs == [] then [] else put(xs[0]) + Concat(put, xs[1..])
  }

  lemma {:induction false} ConcatAppend<T>(put: T -> seq<byte>, a: seq<T>, b: seq<T>)
    ensures Concat(put, a + b) == Concat(put, a) + Concat(put, b)
  {
    if a == [] {
      assert a + b == b;
    } else {
      assert (a + b)[1..] == a[1..] + b;
      ConcatAppend(put, a[1..], b);
      Assoc(put(a[0]), Concat(put, a[1..]), Concat(put, b));
    }
  }

  lemma ConcatSnoc<T>(put: T -> seq<byte>, a: seq<T>, x: T)
    ensures Concat(put, a + [x]) == Concat(put, a) + put(x)
  {
    ConcatAppend(put, a, [x]);
    assert Concat(put, [x][1..]) == [];
  }

  /** One more element of xs. */
  lemma ConcatNext<T>(put: T -> seq<byte>, xs: seq<T>, i: nat)
    requires i < |xs|
    ensures Concat(put, xs[..i + 1]) == Concat(put, xs[..i]) + put(xs[i])
  {
    assert xs[..i + 1] == xs[..i] + [xs[i]];
    ConcatSnoc(put, xs[..i], xs[i]);
  }

  /** s is what the file holds at pos. */
  ghost predicate At(file: seq<byte>, pos: nat, s: seq<byte>) {
    pos + |s| <= |file| && file[pos..pos + |s|] == s
  }

  lemma AtSplit(file: seq<byte>, pos: nat, a: seq<byte>, b: seq<byte>)
    requires At(file, pos, a + b)
    ensures At(file, pos, a) && At(file, pos + |a|, b)
  {
    var ab := file[pos..pos + |a + b|];
    assert file[pos..pos + |a|] == ab[..|a|] == a;
    assert file[pos + |a|..pos + |a| + |b|] == ab[|a|..] == b;
  }

  /** Element k of a concatenation is in the file after the elements before it. */
  lemma ConcatAt<T>(put: T -> seq<byte>, file: seq<byte>, pos: nat, xs: seq<T>, k: nat)
    requires k < |xs| && At(file, pos, Concat(put, xs))
    ensures At(file, pos + |Concat(put, xs[..k])|, put(xs[k]))
  {
    assert xs == xs[..k + 1] + xs[k + 1..];
    ConcatAppend(put, xs[..k + 1], xs[k + 1..]);
    AtSplit(file, pos, Concat(put, xs[..k + 1]), Concat(put, xs[k + 1..]));
    ConcatNext(put, xs, k);
    AtSplit(file, pos, Concat(put, xs[..k]), put(xs[k]));
  }

  // Decimal numbers ---------------------------------------------------------

  predicate IsDigit(c: byte) { 48 <= c < 58 }

  predicate IsSpaceChar(c: byte) { c == 32 || 9 <= c <= 13 }

  ghost predicate AllDigits(s: seq<byte>) { forall i :: 0 <= i < |s| ==> IsDigit(s[i]) }

  function Pow(b: nat, k: nat): nat { if k == 0 then 1 else b * Pow(b, k - 1) }

  /** printf's "%lu". */
  function Decimal(n: nat): (s: seq<byte>)
    ensures s != [] && AllDigits(s)
  {
    if n < 10 then [ZERO + n] else Decimal(n / 10) + [ZERO + n % 10]
  }

  /** The value of a run of digits. */
  function Value(s: seq<byte>): nat
    requires AllDigits(s)
  {
    if s == [] then 0 else Value(s[..|s| - 1]) * 10 + (s[|s| - 1] - ZERO)
  }

  lemma {:induction false} ValueOfDecimal(n: nat)
    ensures Value(Decimal(n)) == n
  {
    if n < 10 {
      assert Decimal(n)[..0] == [];
    } else {
      ValueOfDecimal(n / 10);
      var s := Decimal(n);
      assert s[..|s| - 1] == Decimal(n / 10);
    }
  }

  lemma {:induction false} DecimalLength(n: nat, k: nat)
    requires k > 0
    ensures |Decimal(n)| <= k <==> n < Pow(10, k)
  {
    if k == 1 {
      assert Pow(10, 1) == 10 * Pow(10, 0);
    } else if n >= 10 {
      DecimalLength(n / 10, k - 1);
      var p := Pow(10, k - 1);
      assert Pow(10, k) == 10 * p;
    } else {
      PowPositive(10, k - 1);
    }
  }

  lemma {:induction false} PowPositive(b: nat, k: nat)
    requires b > 0
    ensures Pow(b, k) > 0
  {
    if k > 0 { PowPositive(b, k - 1); }
  }

  lemma Pow10At10()
    ensures Pow(10, 10) == 10_000_000_000
  {
    assert Pow(10, 5) == 100000;
    assert Pow(10, 10) == 100000 * Pow(10, 5);
  }

  /** What strtol and sscanf see: leading white space, an optional sign, a run of digits. */
  datatype Scanned = NoNumber | Number(negative: bool, magnitude: nat, rest: seq<byte>)

  function SkipSpace(s: seq<byte>): seq<byte> {
    if s != [] && IsSpaceChar(s[0]) then SkipSpace(s[1..]) else s
  }

  function DigitRun(s: seq<byte>): (k: nat)
    ensures k <= |s| && (k < |s| ==> !IsDigit(s[k])) && forall j :: 0 <= j < k ==> IsDigit(s[j])
  {
    if s == [] || !IsDigit(s[0]) then 0 else DigitRun(s[1..]) + 1
  }

  function ScanNumber(s: seq<byte>): (r: Scanned)
  {
    var s1 := SkipSpace(s);
    var signed := s1 != [] && (s1[0] == 43 || s1[0] == 45);
    var s2 := if signed then s1[1..] else s1;
    var k := DigitRun(s2);
    if k == 0 then NoNumber
    else Number(signed && s1[0] == 45, Value(s2[..k]), s2[k..])
  }

  /** Print then scan. */
  lemma ScanDecimal(n: nat, tail: seq<byte>)
    requires tail != [] ==> !IsDigit(tail[0])
    ensures ScanNumber(Decimal(n) + tail) == Number(false, n, tail)
  {
    var d := Decimal(n);
    var s := d + tail;
    assert IsDigit(s[0]);
    assert s[..|d|] == d && s[|d|..] == tail;
    assert forall j :: 0 <= j < |d| ==> IsDigit(s[j]);
    assert DigitRun(s) == |d|;
    ValueOfDecimal(n);
  }

  // Fixed-width binary words ------------------------------------------------

  /** bfd_putb32/bfd_putl32 and their 64-bit forms: the low k bytes of n. */
  function PutWord(big: bool, n: nat, k: nat): (s: seq<byte>)
    ensures |s| == k
  {
    if k == 0 then []
    else if big then PutWord(big, n / 256, k - 1) + [n % 256]
    else [n % 256] + PutWord(big, n / 256, k - 1)
  }

  /** The word printer as a value. */
  function Putter(big: bool, k: nat): nat -> seq<byte> { n => PutWord(big, n, k) }

  function GetWord(big: bool, s: seq<byte>): (n: nat)
  {
    if s == [] then 0
    else if big then GetWord(big, s[..|s| - 1]) * 256 + s[|s| - 1]
    else s[0] + GetWord(big, s[1..]) * 256
  }

  lemma {:induction false} GetPutWord(big: bool, n: nat, k: nat)
    ensures GetWord(big, PutWord(big, n, k)) == n % Pow256(k)
  {
    if k > 0 {
      GetPutWord(big, n / 256, k - 1);
      var s := PutWord(big, n, k);
      assert big ==> s[..|s| - 1] == PutWord(big, n / 256, k - 1);
      assert !big ==> s[1..] == PutWord(big, n / 256, k - 1);
      ModSplit(n, Pow256(k - 1));
    }
  }

  function Pow256(k: nat): (p: nat)
    ensures p > 0
  {
    if k == 0 then 1 else 256 * Pow256(k - 1)
  }

  lemma ModSplit(n: nat, p: nat)
    requires p > 0
    ensures n % (256 * p) == (n / 256 % p) * 256 + n % 256
  {
    var q := n / 256 / p;
    var r := (n / 256 % p) * 256 + n % 256;
    assert n / 256 == q * p + n / 256 % p;
    assert n == q * (256 * p) + r;
    assert 0 <= r < 256 * p;
    ModUnique(n, 256 * p, q, r);
  }

  lemma ModUnique(n: int, m: int, q: int, r: int)
    requires m > 0 && n == q * m + r && 0 <= r < m
    ensures n % m == r
  {
    SmallMultiple(n / m - q, m, r - n % m);
  }

  lemma SmallMultiple(d: int, m: int, e: int)
    requires m > 0 && d * m == e && -m < e < m
    ensures d == 0
  {
    assert d <= 0 || (d - 1) * m >= 0;
    assert d >= 0 || (-d - 1) * m >= 0;
  }

  lemma WordSizes()
    ensures Pow256(4) == TWO32 && Pow256(8) == TWO64
  {
    assert Pow256(2) == 65536;
    assert Pow256(4) == 65536 * Pow256(2);
    assert Pow256(8) == 65536 * 65536 * Pow256(4);
  }
}
