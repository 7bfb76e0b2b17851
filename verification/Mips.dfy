// The multiplier of the simulated processor: 32 shift-and-add steps over two
// 32-bit words, with a sign fixed up at the end.

module Mips {
  import opened MachineWords

  predicate Int32(x: int) {
    -0x8000_0000 <= x < 0x8000_0000
  }

  predicate Word32(x: int) {
    0 <= x < W32
  }

  // A number in two words.
  function Wide(hi: int, lo: int): int {
    hi * W32 + lo
  }

  function Abs(x: int): nat {
    if x < 0 then -x else x
  }

  // C's negation of an int, which wraps at the most negative one.
  function Negate(a: int): int {
    S32(-a)
  }

  lemma NegateMagnitude(a: int)
    requires Int32(a)
    ensures Int32(Negate(a)) && (a < 0 ==> U32(Negate(a)) == -a) && (a >= 0 ==> U32(a) == a)
  {
  }

  lemma Pow2Of32()
    ensures Pow2(32) == W32
  {
    assert Pow2(8) == 256;
    assert Pow2(16) == 65536;
    assert Pow2(24) == 16777216;
  }

  const W64: int := W32 * W32

  // hi:lo += bHi:bLo; the low words carried out exactly when their sum came
  // out below bLo.
  method AddWide(hi: int, lo: int, bHi: int, bLo: int) returns (hi': int, lo': int)
    requires Word32(hi) && Word32(lo) && Word32(bHi) && Word32(bLo)
    requires Wide(hi, lo) + Wide(bHi, bLo) < W64
    ensures Word32(hi') && Word32(lo') && Wide(hi', lo') == Wide(hi, lo) + Wide(bHi, bLo)
  {
    hi', lo' := hi, (lo + bLo) % W32;
    if lo' < bLo {
      assert lo' == lo + bLo - W32;
      hi' := (hi' + 1) % W32;
    } else {
      assert lo' == lo + bLo;
    }
    hi' := (hi' + bHi) % W32;
  }

  // bHi:bLo <<= 1
  method DoubleWide(bHi: int, bLo: int) returns (bHi': int, bLo': int)
    requires Word32(bHi) && Word32(bLo) && 2 * Wide(bHi, bLo) < W64
    ensures Word32(bHi') && Word32(bLo') && Wide(bHi', bLo') == 2 * Wide(bHi, bLo)
  {
    bHi' := (2 * bHi) % W32 + if bLo >= 0x8000_0000 then 1 else 0;
    bLo' := (2 * bLo) % W32;
  }

  lemma {:induction false} AtMost(a: nat, b: nat, c: nat, d: nat)
    requires a <= c && b <= d
    ensures a * b <= c * d
    decreases d - b, c - a
  {
    if b < d {
      AtMost(a, b + 1, c, d);
      assert a * (b + 1) == a * b + a;
    } else if a < c {
      AtMost(a + 1, b, c, d);
      assert (a + 1) * b == a * b + b;
    }
  }

  function Times(x: nat, r: nat): nat {
    if r == 0 then 0 else x + Times(x, r - 1)
  }

  lemma {:induction false} TimesIsProduct(x: nat, r: nat)
    ensures Times(x, r) == x * r
    decreases r
  {
    if r > 0 {
      TimesIsProduct(x, r - 1);
      assert x * r == x + x * (r - 1);
    }
  }

  lemma {:induction false} TimesHalf(x: nat, k: nat)
    ensures Times(x, 2 * k) == Times(2 * x, k)
    decreases k
  {
    if k > 0 {
      TimesHalf(x, k - 1);
      assert Times(x, 2 * k - 1) == x + Times(x, 2 * (k - 1));
    }
  }

  // What has been added up and what is still to be added: acc so far, x the
  // shifted multiplicand, r the remaining bits of the multiplier, of which
  // there are q values.
  ghost predicate Adding(acc: nat, x: nat, r: nat, q: nat, product: nat, cap: nat) {
    r < q && acc + Times(x, r) == product < W64 && Times(x, q) == cap < W64
  }

  lemma AddFits(acc: nat, x: nat, r: nat, q: nat, product: nat, cap: nat)
    requires Adding(acc, x, r, q, product, cap) && r > 0
    ensures acc + x <= product
    ensures r == 1 ==> acc + x == product
  {
    assert Times(x, r) == x + Times(x, r - 1);
  }

  lemma ShiftStep(acc: nat, x: nat, r: nat, q: nat, product: nat, cap: nat)
    requires Adding(acc, x, r, q, product, cap) && q % 2 == 0
    ensures 2 * x < W64
    ensures Adding(if r % 2 == 1 then acc + x else acc, 2 * x, r / 2, q / 2, product, cap)
  {
    var h, k := r / 2, q / 2;
    TimesHalf(x, k);
    TimesHalf(x, h);
    assert q == 2 * k;
    if r % 2 == 1 {
      assert r == 2 * h + 1;
      assert Times(x, 2 * h + 1) == x + Times(x, 2 * h);
    } else {
      assert r == 2 * h;
    }
    assert Times(2 * x, k) == 2 * x + Times(2 * x, k - 1);
  }

  // The remaining bits as the register shows them: sign bits may have been
  // shifted in on top.
  predicate Shown(a: int, r: nat, q: nat) {
    a == r || a == r - q
  }

  lemma ShownStart(a: int)
    requires Int32(a)
    ensures Shown(a, U32(a), W32) && U32(a) < W32
  {
  }

  lemma ShownStep(a: int, r: nat, q: nat)
    requires Shown(a, r, q) && r < q && q % 2 == 0
    ensures a % 2 == r % 2 && Shown(a / 2, r / 2, q / 2) && (a == 1 ==> r == 1)
  {
  }

  // The loop: a is shifted arithmetically, and the loop stops at its last bit.
  method Magnitude(multiplier: int, b: int) returns (hi: int, lo: int)
    requires Int32(multiplier) && Int32(b)
    ensures Word32(hi) && Word32(lo) && Wide(hi, lo) == U32(multiplier) * U32(b)
  {
    ghost var product, cap := U32(multiplier) * U32(b), U32(b) * W32;
    ghost var acc, x, r, q: nat := 0, U32(b), U32(multiplier), W32;
    StartAdding(U32(multiplier), U32(b));
    ShownStart(multiplier);
    ShownStart(b);
    Pow2Of32();
    var a := multiplier;
    var bLo, bHi := U32(b), 0;
    hi, lo := 0, 0;
    var i := 0;
    while i < 32
      invariant 0 <= i <= 32 && Word32(hi) && Word32(lo) && Word32(bHi) && Word32(bLo)
      invariant Wide(hi, lo) == acc && Wide(bHi, bLo) == x && q == Pow2(32 - i) && Shown(a, r, q)
      invariant Adding(acc, x, r, q, product, cap)
    {
      assert q == 2 * Pow2(31 - i);
      ShownStep(a, r, q);
      ShiftStep(acc, x, r, q, product, cap);
      if a % 2 == 1 {
        AddFits(acc, x, r, q, product, cap);
        hi, lo := AddWide(hi, lo, bHi, bLo);
        acc := acc + x;
        if a == 1 {
          return;
        }
      }
      bHi, bLo := DoubleWide(bHi, bLo);
      a := a / 2;
      x, r, q := 2 * x, r / 2, q / 2;
      i := i + 1;
    }
  }

  lemma StartAdding(a: nat, b: nat)
    requires a < W32 && b < W32
    ensures Adding(0, b, a, W32, a * b, b * W32)
  {
    AtMost(a, b, W32 - 1, W32 - 1);
    TimesIsProduct(b, a);
    TimesIsProduct(b, W32);
    assert b * W32 < W64;
    assert b * a == a * b;
  }

  // The two's complement of a double word.
  lemma ComplementWide(hi: int, lo: int)
    requires Word32(hi) && Word32(lo) && Wide(hi, lo) > 0
    ensures var lo' := (W32 - 1 - lo + 1) % W32;
      var hi' := (W32 - 1 - hi + if lo' == 0 then 1 else 0) % W32;
      Word32(lo') && Word32(hi') && Wide(hi', lo') == W64 - Wide(hi, lo)
  {
  }

  // Attach the sign to a magnitude.
  function Signed(negative: bool, m: nat): int {
    if negative then 0 - m else m
  }

  lemma WordBack(x: int)
    requires Word32(x)
    ensures Int32(S32(x)) && U32(S32(x)) == x
  {
  }

  lemma SignRule(a: int, b: int)
    ensures a * b == Signed((a < 0) != (b < 0), Abs(a) * Abs(b))
  {
  }

  // MAIN: the double word is the true product: of the two signed numbers, read
  // as a signed double word, or of the two unsigned ones.
  method Mult(a: int, b: int, signedArith: bool) returns (hi: int, lo: int)
    requires Int32(a) && Int32(b)
    ensures Int32(hi) && Int32(lo)
    ensures signedArith ==> Wide(hi, U32(lo)) == a * b
    ensures !signedArith ==> Wide(U32(hi), U32(lo)) == U32(a) * U32(b)
  {
    if a == 0 || b == 0 {
      return 0, 0;
    }
    var p, q, negative := Positive(a, b, signedArith);
    var uHi, uLo := Magnitude(p, q);
    ghost var m := U32(p) * U32(q);
    if signedArith {
      SmallProduct(a, b);
      SignRule(a, b);
    }
    uHi, uLo := WithSign(uHi, uLo, negative);
    WordBack(uHi);
    WordBack(uLo);
    hi, lo := S32(uHi), S32(uLo);
    if signedArith {
      SignedWide(negative, m, uHi, uLo);
      assert Signed(negative, m) == a * b;
    } else {
      assert Wide(U32(hi), U32(lo)) == m;
    }
  }

  // The sign of the result, and both numbers made positive.
  method Positive(a: int, b: int, signedArith: bool) returns (p: int, q: int, negative: bool)
    requires Int32(a) && Int32(b)
    ensures Int32(p) && Int32(q) && negative == (signedArith && ((a < 0) != (b < 0)))
    ensures if signedArith then U32(p) == Abs(a) && U32(q) == Abs(b) else p == a && q == b
  {
    negative := false;
    p, q := a, b;
    NegateMagnitude(a);
    NegateMagnitude(b);
    if signedArith {
      if p < 0 {
        negative := !negative;
        p := Negate(p);
      }
      if q < 0 {
        negative := !negative;
        q := Negate(q);
      }
    }
  }

  // Negates the double word if the result is to be negative.
  method WithSign(uHi: int, uLo: int, negative: bool) returns (hi: int, lo: int)
    requires Word32(uHi) && Word32(uLo) && (negative ==> Wide(uHi, uLo) > 0)
    ensures Word32(hi) && Word32(lo) && Wide(hi, lo) == if negative then W64 - Wide(uHi, uLo) else Wide(uHi, uLo)
  {
    hi, lo := uHi, uLo;
    if negative {
      ComplementWide(uHi, uLo);
      hi := W32 - 1 - hi;
      lo := W32 - 1 - lo;
      lo := (lo + 1) % W32;
      if lo == 0 {
        hi := (hi + 1) % W32;
      }
    }
  }

  lemma SmallProduct(a: int, b: int)
    requires Int32(a) && Int32(b) && a != 0 && b != 0
    ensures 0 < Abs(a) * Abs(b) <= 0x4000_0000_0000_0000
  {
    AtMost(Abs(a), Abs(b), 0x8000_0000, 0x8000_0000);
    AtMost(1, 1, Abs(a), Abs(b));
  }

  lemma SignedWide(negative: bool, m: nat, hi: int, lo: int)
    requires Word32(hi) && Word32(lo) && 0 < m <= 0x4000_0000_0000_0000
    requires Wide(hi, lo) == if negative then W64 - m else m
    ensures Wide(S32(hi), lo) == Signed(negative, m)
  {
  }
}
