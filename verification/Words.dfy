/** Machine words: wrap-around, and conversion to signed. */
module Words {
  import opened Bytes

  /** Conversion to int and to file_ptr: the low bits, as a signed number. */
  function S32(x: int): int { var y := U32(x); if y < TWO32 / 2 then y else y - TWO32 }

  function S64(x: int): int { var y := U64(x); if y < TWO64 / 2 then y else y - TWO64 }

  lemma U64Add(a: int, b: int)
    ensures U64(a + U64(b)) == U64(a + b)
  {
    var q := b / TWO64;
    assert b == q * TWO64 + U64(b);
    assert a + b == ((a + U64(b)) / TWO64 + q) * TWO64 + U64(a + U64(b));
    ModUnique(a + b, TWO64, (a + U64(b)) / TWO64 + q, U64(a + U64(b)));
  }

  lemma S64Small(x: int)
    requires -(TWO64 / 2) <= x < TWO64 / 2
    ensures S64(x) == x
  {
    if x < 0 { ModUnique(x, TWO64, -1, x + TWO64); }
  }

  lemma S64OfU64(a: int, b: int)
    ensures S64(a + U64(b)) == S64(a + b)
  {
    U64Add(a, b);
  }

  lemma S32Bounds(x: int)
    ensures -(TWO32 / 2) <= S32(x) < TWO32 / 2
    ensures S32(x) == x <==> -(TWO32 / 2) <= x < TWO32 / 2
  {
    if x < 0 && x >= -(TWO32 / 2) { ModUnique(x, TWO32, -1, x + TWO32); }
  }

  lemma U32Add(a: int, b: int)
    ensures U32(a + U32(b)) == U32(a + b)
  {
    var q := b / TWO32;
    assert b == q * TWO32 + U32(b);
    assert a + b == ((a + U32(b)) / TWO32 + q) * TWO32 + U32(a + U32(b));
    ModUnique(a + b, TWO32, (a + U32(b)) / TWO32 + q, U32(a + U32(b)));
  }

  /** Storing a word and reading it back sign-extended changes nothing modulo 2^32. */
  lemma U32OfStored(a: int, b: int)
    ensures U32(a + S32(U32(b))) == U32(a + b)
  {
    hide U32;
    U32Add(a, b);
    U32Twice(b);
    var y := U32(b);
    if S32(y) == y - TWO32 { U32Minus(a + y); }
  }

  lemma U32Twice(b: int)
    ensures U32(U32(b)) == U32(b)
  {
  }

  lemma U32Minus(a: int)
    ensures U32(a - TWO32) == U32(a)
  {
    ModUnique(a - TWO32, TWO32, a / TWO32 - 1, U32(a));
  }

  /** Words are equal exactly if their difference is zero as a word. */
  lemma U32Equal(a: int, b: int)
    ensures U32(a) == U32(b) <==> U32(a - b) == 0
  {
    var p, q, r := a / TWO32, b / TWO32, (a - b) / TWO32;
    assert a == p * TWO32 + U32(a) && b == q * TWO32 + U32(b) && a - b == r * TWO32 + U32(a - b);
    if U32(a) == U32(b) {
      ModUnique(a - b, TWO32, p - q, 0);
    }
    if U32(a - b) == 0 {
      ModUnique(a, TWO32, r + q, U32(b));
    }
  }

  lemma S32OfZero()
    ensures S32(0) == 0
  {
  }
}
