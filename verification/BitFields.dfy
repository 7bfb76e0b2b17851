// Bit fields packed into 32-bit words, first field first and high bits first,
// and taken apart again.

module BitFields {
  import opened MachineWords

  type word = x: int | 0 <= x < 0x1_0000_0000

  type Bits = seq<bool>

  // ----------------------------------------------------------------- bit strings

  // The n low bits of x, high bit first.
  function Low(x: int, n: nat): (s: Bits)
    ensures |s| == n
    decreases n, x
  {
    if n == 0 then [] else Low(x / 2, n - 1) + [x % 2 == 1]
  }

  // The number that a bit string writes down.
  function Number(s: Bits): (v: nat)
    ensures v < Pow2(|s|)
    decreases |s|
  {
    if s == [] then 0 else 2 * Number(s[..|s| - 1]) + if s[|s| - 1] then 1 else 0
  }

  function Zeros(n: nat): (s: Bits)
    ensures |s| == n
  {
    seq(n, _ => false)
  }

  function AllBits(words: seq<word>): (s: Bits)
    ensures |s| == 32 * |words|
    decreases |words|
  {
    if words == [] then [] else AllBits(words[..|words| - 1]) + Low(words[|words| - 1], 32)
  }

  lemma {:induction false} NumberOfLow(v: nat, n: nat)
    requires v < Pow2(n)
    ensures Number(Low(v, n)) == v
  {
    if n > 0 {
      NumberOfLow(v / 2, n - 1);
      assert Low(v, n)[..n - 1] == Low(v / 2, n - 1);
    }
  }

  lemma {:induction false} LowOfZero(n: nat)
    ensures Low(0, n) == Zeros(n)
  {
    if n > 0 {
      LowOfZero(n - 1);
    }
  }

  // x times 2 to the k, and x divided by it and rounded down: k steps of one bit.
  function Up(x: int, k: nat): int
    decreases k, x
  {
    if k == 0 then x else 2 * Up(x, k - 1)
  }

  function Down(x: int, k: nat): int
    decreases k, x
  {
    if k == 0 then x else Down(x / 2, k - 1)
  }

  // Appending bits is shifting and adding.
  lemma {:induction false} LowAppend(x: int, c: nat, v: nat, w: nat)
    requires v < Pow2(w)
    ensures Low(Up(x, w) + v, c + w) == Low(x, c) + Low(v, w)
    decreases w
  {
    if w == 0 {
      assert Low(x, c) + [] == Low(x, c);
    } else {
      var y := Up(x, w) + v;
      assert y / 2 == Up(x, w - 1) + v / 2 && y % 2 == v % 2;
      LowAppend(x, c, v / 2, w - 1);
      assert Low(x, c) + (Low(v / 2, w - 1) + [v % 2 == 1]) == Low(x, c) + Low(v / 2, w - 1) + [v % 2 == 1];
    }
  }

  // High bits do not matter.
  lemma {:induction false} LowIgnores(x: int, y: int, m: nat, c: nat)
    requires c <= m
    ensures Low(x + Up(y, m), c) == Low(x, c)
    decreases c
  {
    if c > 0 {
      var z := x + Up(y, m);
      assert z / 2 == x / 2 + Up(y, m - 1) && z % 2 == x % 2;
      LowIgnores(x / 2, y, m - 1, c - 1);
    }
  }

  // The high part and the low part.
  lemma {:induction false} LowCut(x: int, a: nat, b: nat)
    ensures Low(x, a + b) == Low(Down(x, b), a) + Low(x, b)
    decreases b
  {
    if b == 0 {
      assert Low(x, a) + [] == Low(x, a);
    } else {
      LowCut(x / 2, a, b - 1);
      assert Low(Down(x, b), a) + (Low(x / 2, b - 1) + [x % 2 == 1]) == Low(Down(x, b), a) + Low(x / 2, b - 1) + [x % 2 == 1];
    }
  }

  lemma {:induction false} UpTwice(x: int, a: nat, b: nat)
    ensures Up(Up(x, a), b) == Up(x, a + b)
    decreases b
  {
    if b > 0 {
      UpTwice(x, a, b - 1);
    }
  }

  lemma {:induction false} UpSum(x: int, y: int, k: nat)
    ensures Up(x + y, k) == Up(x, k) + Up(y, k)
  {
    if k > 0 {
      UpSum(x, y, k - 1);
    }
  }

  lemma {:induction false} UpOrder(x: int, y: int, k: nat)
    ensures x < y <==> Up(x, k) < Up(y, k)
  {
    if k > 0 {
      UpOrder(x, y, k - 1);
    }
  }

  lemma {:induction false} DownUp(x: int, k: nat)
    ensures Down(Up(x, k), k) == x
  {
    if k > 0 {
      DownUp(x, k - 1);
      assert Up(x, k) / 2 == Up(x, k - 1);
    }
  }

  lemma {:induction false} Pow2Up(k: nat)
    ensures Up(1, k) == Pow2(k)
  {
    if k > 0 {
      Pow2Up(k - 1);
    }
  }

  // A number of a + b bits loses the b low ones.
  lemma {:induction false} DownFits(v: nat, a: nat, b: nat)
    requires v < Pow2(a + b)
    ensures 0 <= Down(v, b) < Pow2(a) && Down(v, b) <= v
    decreases b
  {
    if b > 0 {
      DownFits(v / 2, a, b - 1);
    }
  }

  lemma Up32(x: int)
    ensures Up(x, 32) == W32 * x
  {
    Up8(x);
    Up8(Up(x, 8));
    Up8(Up(x, 16));
    Up8(Up(x, 24));
    UpTwice(x, 8, 8);
    UpTwice(x, 16, 8);
    UpTwice(x, 24, 8);
  }

  lemma Up8(x: int)
    ensures Up(x, 8) == 256 * x
  {
    assert Up(x, 1) == 2 * x;
    assert Up(x, 2) == 4 * x;
    UpTwice(x, 2, 2);
    assert Up(Up(x, 2), 1) == 8 * x;
    assert Up(Up(x, 2), 2) == 16 * x;
    UpTwice(x, 4, 4);
    UpTwice(Up(x, 4), 2, 2);
    assert Up(Up(x, 4), 1) == 32 * x;
    assert Up(Up(x, 4), 2) == 64 * x;
    assert Up(Up(Up(x, 4), 2), 1) == 128 * x;
    assert Up(Up(Up(x, 4), 2), 2) == 256 * x;
  }

  lemma Pow2Of32()
    ensures Pow2(32) == W32 && Pow2(31) == 0x8000_0000
  {
    Up32(1);
    Pow2Up(32);
  }

  lemma Wraps(x: int) returns (t: int)
    ensures U32(x) == x + Up(t, 32)
  {
    t := -(x / W32);
    Up32(t);
  }

  lemma LowOfU32(x: int, c: nat)
    requires c <= 32
    ensures Low(U32(x), c) == Low(x, c)
  {
    var t := Wraps(x);
    LowIgnores(x, t, 32, c);
  }

  lemma LowOfSum(x: int, v: int, c: nat)
    requires c <= 32
    ensures Low(U32(U32(x) + v), c) == Low(x + v, c)
  {
    LowOfU32(U32(x) + v, c);
    var t := Wraps(x);
    LowIgnores(x + v, t, 32, c);
  }

  // ----------------------------------------------------- the shifts of the C code

  function Shl(x: int, k: nat): (r: word) {
    U32(Up(x, k))
  }

  // The shift of an unsigned word.
  function Shr(x: word, k: nat): (r: word) {
    Pow2Of32();
    Pow2Grows(32, 32 + k);
    DownFits(x, 32, k);
    Down(x, k)
  }

  // The shift of a signed int, which keeps the sign.
  function Sar(x: int, k: nat): (r: word) {
    U32(Down(S32(x), k))
  }

  lemma {:induction false} Pow2Grows(a: nat, b: nat)
    requires a <= b
    ensures Pow2(a) <= Pow2(b)
    decreases b
  {
    if a < b {
      Pow2Grows(a, b - 1);
    }
  }

  lemma ShlBits(x: int, v: nat, c: nat, w: nat)
    requires v < Pow2(w) && c + w <= 32
    ensures Low(U32(Shl(x, w) + v), c + w) == Low(x, c) + Low(v, w)
  {
    LowOfSum(Up(x, w), v, c + w);
    LowAppend(x, c, v, w);
  }

  lemma Signed(x: int) returns (t: int)
    ensures S32(x) == x + Up(t, 32)
  {
    t := Wraps(x);
    if U32(x) >= 0x8000_0000 {
      UpSum(t, -1, 32);
      Up32(-1);
      t := t - 1;
    }
  }

  lemma ShlSigned(x: int, k: nat) returns (t: int)
    ensures S32(Shl(x, k)) == Up(x, k) + Up(t, 32)
  {
    var t1 := Wraps(Up(x, k));
    var t2 := Signed(Shl(x, k));
    t := t1 + t2;
    UpSum(t1, t2, 32);
  }

  lemma DownAgain(s: int, x: int, t: int, b: nat)
    requires 0 < b <= 32 && s == Up(x, 32 - b) + Up(t, 32) && -0x8000_0000 <= s < 0x8000_0000
    ensures Down(s, 32 - b) == x + Up(t, b) && 0 <= x + Up(t, b) + Pow2(b - 1) < Pow2(b)
  {
    var k, q := 32 - b, x + Up(t, b);
    UpTwice(t, b, k);
    UpSum(x, Up(t, b), k);
    assert s == Up(q, k);
    DownUp(q, k);
    SignRange(q, b);
  }

  // Up and down again: what is left are the b low bits, with copies of the
  // highest of them in front.
  lemma SignExtended(x: int, b: nat) returns (t: int)
    requires 0 < b <= 32
    ensures Down(S32(Shl(x, 32 - b)), 32 - b) == x + Up(t, b)
    ensures 0 <= x + Up(t, b) + Pow2(b - 1) < Pow2(b)
  {
    t := ShlSigned(x, 32 - b);
    DownAgain(S32(Shl(x, 32 - b)), x, t, b);
  }

  lemma SignRange(q: int, b: nat)
    requires 0 < b <= 32 && -0x8000_0000 <= Up(q, 32 - b) < 0x8000_0000
    ensures 0 <= q + Pow2(b - 1) < Pow2(b)
  {
    var k := 32 - b;
    Pow2Up(b - 1);
    Pow2Up(31);
    Pow2Of32();
    UpTwice(1, b - 1, k);
    UpSum(q, Pow2(b - 1), k);
    UpOrder(q, Pow2(b - 1), k);
    UpOrder(q + Pow2(b - 1), 0, k);
    UpZero(k);
  }

  lemma {:induction false} UpZero(k: nat)
    ensures Up(0, k) == 0
  {
    if k > 0 {
      UpZero(k - 1);
    }
  }

  // ------------------------------------------------------------------------ pack

  // Fields that the driver lets through: 1 to 31 bits, and values that fit.
  predicate Widths(widths: seq<nat>) {
    forall i :: 0 <= i < |widths| ==> 1 <= widths[i] <= 31
  }

  predicate Fields(widths: seq<nat>, values: seq<nat>) {
    && Widths(widths) && |values| == |widths|
    && forall i :: 0 <= i < |widths| ==> values[i] < Pow2(widths[i])
  }

  // The bits in the first n fields.
  function Total(widths: seq<nat>, n: nat): nat
    requires n <= |widths|
  {
    if n == 0 then 0 else Total(widths, n - 1) + widths[n - 1]
  }

  // The first n fields written one after another.
  function Stream(widths: seq<nat>, values: seq<nat>, n: nat): (s: Bits)
    requires n <= |widths| == |values|
    ensures |s| == Total(widths, n)
  {
    if n == 0 then [] else Stream(widths, values, n - 1) + Low(values[n - 1], widths[n - 1])
  }

  lemma {:induction false} TotalGrows(widths: seq<nat>, m: nat, n: nat)
    requires m <= n <= |widths|
    ensures Total(widths, m) <= Total(widths, n)
    decreases n
  {
    if m < n {
      TotalGrows(widths, m, n - 1);
    }
  }

  // The part of a field that goes to the next word: whatever the shift back
  // leaves in front of its bits is not among them.
  lemma SecondPart(y: word, v: nat, b: nat)
    requires 0 < b < 32
    ensures Low(U32(Shl(y, b) + Sar(Shl(v, 32 - b), 32 - b)), b) == Low(v, b)
  {
    var z := Sar(Shl(v, 32 - b), 32 - b);
    LowOfSum(Up(y, b), z, b);
    LowIgnores(z, y, b, b);
    BackAgain(v, b);
  }

  lemma BackAgain(v: nat, b: nat)
    requires 0 < b < 32
    ensures Low(Sar(Shl(v, 32 - b), 32 - b), b) == Low(v, b)
  {
    var t := SignExtended(v, b);
    LowOfU32(v + Up(t, b), b);
    LowIgnores(v, t, b, b);
  }

  lemma SarPositive(v: nat, b1: nat, b2: nat)
    requires v < Pow2(b1 + b2) <= 0x8000_0000
    ensures Sar(v, b2) == Down(v, b2) < Pow2(b1)
  {
    DownFits(v, b1, b2);
  }

  lemma FirstPart(x: word, c: nat, v: nat, b1: nat, b2: nat)
    requires c + b1 == 32 && v < Pow2(b1 + b2) <= 0x8000_0000
    ensures Low(U32(Shl(x, b1) + Sar(v, b2)), 32) == Low(x, c) + Low(Down(v, b2), b1)
  {
    SarPositive(v, b1, b2);
    ShlBits(x, Down(v, b2), c, b1);
  }

  lemma {:induction false} AllBitsConcat(a: seq<word>, x: word)
    ensures AllBits(a + [x]) == AllBits(a) + Low(x, 32)
  {
    assert (a + [x])[..|a|] == a;
  }

  // The full words before the present one, and the c bits in it.
  function Packed(full: seq<word>, x: word, c: nat): Bits {
    AllBits(full) + Low(x, c)
  }

  lemma PackWithin(full: seq<word>, x: word, c: nat, v: nat, w: nat, x': word)
    requires Low(x', c + w) == Low(x, c) + Low(v, w)
    ensures Packed(full, x', c + w) == Packed(full, x, c) + Low(v, w)
  {
    assert AllBits(full) + (Low(x, c) + Low(v, w)) == Packed(full, x, c) + Low(v, w);
  }

  lemma PackAcross(full: seq<word>, x: word, c: nat, v: nat, b1: nat, b2: nat, x': word, y: word)
    requires c + b1 == 32
    requires Low(x', 32) == Low(x, c) + Low(Down(v, b2), b1) && Low(y, b2) == Low(v, b2)
    ensures Packed(full + [x'], y, b2) == Packed(full, x, c) + Low(v, b1 + b2)
  {
    AllBitsConcat(full, x');
    LowCut(v, b1, b2);
    Rejoin(AllBits(full), Low(x, c), Low(Down(v, b2), b1), Low(v, b2));
  }

  lemma Rejoin(a: Bits, b: Bits, c: Bits, d: Bits)
    ensures a + (b + c) + d == (a + b) + (c + d)
  {
  }

  lemma PackEnd(full: seq<word>, x: word, c: nat, x': word)
    requires c <= 32 && Low(x', 32) == Low(x, c) + Zeros(32 - c)
    ensures AllBits(full + [x']) == Packed(full, x, c) + Zeros(32 - c)
  {
    AllBitsConcat(full, x');
    assert AllBits(full) + (Low(x, c) + Zeros(32 - c)) == (AllBits(full) + Low(x, c)) + Zeros(32 - c);
  }

  // A field that fits behind the c bits in use.
  method AddField(x: word, ghost c: nat, v: nat, w: nat) returns (x': word)
    requires v < Pow2(w) && c + w <= 32
    ensures Low(x', c + w) == Low(x, c) + Low(v, w)
  {
    ShlBits(x, v, c, w);
    x' := Shl(x, w);
    x' := U32(x' + v);
  }

  // A field of which b1 bits fit; the others begin the next word.
  method SplitField(x: word, z: word, ghost c: nat, v: nat, b1: nat, b2: nat) returns (x': word, y: word)
    requires c + b1 == 32 && 0 < b2 && b1 + b2 <= 31 && v < Pow2(b1 + b2)
    ensures Low(x', 32) == Low(x, c) + Low(Down(v, b2), b1) && Low(y, b2) == Low(v, b2)
  {
    x' := FirstShare(x, c, v, b1, b2);
    y := SecondShare(z, v, b2);
  }

  method FirstShare(x: word, ghost c: nat, v: nat, b1: nat, b2: nat) returns (x': word)
    requires c + b1 == 32 && b1 + b2 <= 31 && v < Pow2(b1 + b2)
    ensures Low(x', 32) == Low(x, c) + Low(Down(v, b2), b1)
  {
    Pow2Of32();
    Pow2Grows(b1 + b2, 31);
    FirstPart(x, c, v, b1, b2);
    var w1 := Sar(v, b2);
    x' := Shl(x, b1);
    x' := U32(x' + w1);
  }

  // What was in the next word moves up and out of the way.
  method SecondShare(z: word, v: nat, b2: nat) returns (y: word)
    requires 0 < b2 < 32
    ensures Low(y, b2) == Low(v, b2)
  {
    SecondPart(z, v, b2);
    var w2 := Shl(v, 32 - b2);
    w2 := Sar(w2, 32 - b2);
    y := Shl(z, b2);
    y := U32(y + w2);
  }

  lemma FilledUp(x: word, c: nat)
    requires c <= 32
    ensures Low(Shl(x, 32 - c), 32) == Low(x, c) + Zeros(32 - c)
  {
    var k := 32 - c;
    LowOfU32(Up(x, k), 32);
    LowAppend(x, c, 0, k);
    LowOfZero(k);
  }

  // Zeros behind the bits in use.
  method FillUp(x: word, c: nat) returns (x': word)
    requires c <= 32
    ensures Low(x', 32) == Low(x, c) + Zeros(32 - c)
  {
    FilledUp(x, c);
    x' := Shl(x, 32 - c);
  }

  // The first field needs no shift.
  method FirstField(x: word, v: nat, w: nat) returns (x': word)
    requires x == 0 && v < Pow2(w) && w <= 31
    ensures Low(x', w) == Low(x, 0) + Low(v, w)
  {
    LowOfU32(x + v, w);
    x' := U32(x + v);
  }

  // What is in the words before j and in the cb bits of word j.
  function Written(words: seq<word>, j: nat, cb: nat): Bits
    requires j < |words|
  {
    Packed(words[..j], words[j], cb)
  }

  lemma WrittenWithin(words: seq<word>, j: nat, c: nat, v: nat, w: nat, words': seq<word>)
    requires j < |words| == |words'| && words'[..j] == words[..j] && Low(words'[j], c + w) == Low(words[j], c) + Low(v, w)
    ensures Written(words', j, c + w) == Written(words, j, c) + Low(v, w)
  {
    PackWithin(words[..j], words[j], c, v, w, words'[j]);
  }

  lemma WrittenAcross(words: seq<word>, j: nat, c: nat, v: nat, b1: nat, b2: nat, words': seq<word>)
    requires j + 1 < |words| == |words'| && words'[..j] == words[..j] && c + b1 == 32
    requires Low(words'[j], 32) == Low(words[j], c) + Low(Down(v, b2), b1) && Low(words'[j + 1], b2) == Low(v, b2)
    ensures Written(words', j + 1, b2) == Written(words, j, c) + Low(v, b1 + b2)
  {
    PackAcross(words[..j], words[j], c, v, b1, b2, words'[j], words'[j + 1]);
    assert words'[..j + 1] == words[..j] + [words'[j]];
  }

  // One round of the loop of pack.
  method PackField(words: array<word>, first: bool, j: nat, c: nat, v: nat, w: nat) returns (j': nat, cb: nat)
    requires j < words.Length && c <= 32 && 1 <= w <= 31 && v < Pow2(w)
    requires c + w > 32 ==> j + 1 < words.Length
    requires first ==> c == 0 && words[j] == 0
    modifies words
    ensures j' == (if c + w <= 32 then j else j + 1) && 0 < cb <= 32 && 32 * j' + cb == 32 * j + c + w
    ensures Written(words[..], j', cb) == old(Written(words[..], j, c)) + Low(v, w)
  {
    j', cb := j, c + w;
    ghost var before := words[..];
    if cb <= 32 {
      var x;
      if first {
        x := FirstField(words[j], v, w);
      } else {
        x := AddField(words[j], c, v, w);
      }
      words[j] := x;
      WrittenWithin(before, j, c, v, w, words[..]);
    } else {
      var b1 := 32 - (cb - w);
      var b2 := w - b1;
      var x, y := SplitField(words[j], words[j + 1], c, v, b1, b2);
      words[j], words[j + 1] := x, y;
      WrittenAcross(before, j, c, v, b1, b2, words[..]);
      j', cb := j + 1, b2;
    }
  }

  // The last lines of pack.
  method CleanUp(words: array<word>, j: nat, cb: nat) returns (n: nat)
    requires j < words.Length && cb <= 32
    modifies words
    ensures n == j + 1 && AllBits(words[..n]) == old(Written(words[..], j, cb)) + Zeros(32 - cb)
  {
    ghost var full, x := words[..j], words[j];
    words[j] := FillUp(words[j], cb);
    n := j + 1;
    assert words[..n] == full + [words[j]];
    PackEnd(full, x, cb, words[j]);
  }

  // The main loop of pack.
  method PackFields(widths: seq<nat>, values: seq<nat>, words: array<word>) returns (j: nat, cb: nat)
    requires Fields(widths, values) && 0 < |widths| <= words.Length && words[0] == 0
    modifies words
    ensures j < words.Length && 0 < cb <= 32 && 32 * j + cb == Total(widths, |widths|)
    ensures Written(words[..], j, cb) == Stream(widths, values, |widths|)
  {
    j, cb := 0, 0;
    ghost var bits: Bits := [];
    assert Written(words[..], 0, 0) == [];
    for i := 0 to |widths|
      invariant 32 * j + cb == Total(widths, i) && cb <= 32 && j < words.Length
      invariant if i == 0 then j == cb == 0 && words[0] == 0 else j < i && cb > 0
      invariant bits == Stream(widths, values, i) && Written(words[..], j, cb) == bits
    {
      bits := bits + Low(values[i], widths[i]);
      j, cb := PackField(words, i == 0, j, cb, values[i], widths[i]);
    }
  }

  // MAIN: the words are the fields one after another, with zeros behind them, in
  // as few words as hold them.  The source reserves fewer words than it fills;
  // here words must have room.
  method Pack(widths: seq<nat>, values: seq<nat>, words: array<word>) returns (n: nat)
    requires Fields(widths, values) && 0 < |widths| <= words.Length
    modifies words
    ensures 0 < n <= words.Length && 32 * (n - 1) < Total(widths, |widths|) <= 32 * n
    ensures AllBits(words[..n]) == Stream(widths, values, |widths|) + Zeros(32 * n - Total(widths, |widths|))
  {
    for i := 0 to |widths|
      invariant forall q :: 0 <= q < i ==> words[q] == 0
    {
      words[i] := 0;
    }
    var j, cb := PackFields(widths, values, words);
    n := CleanUp(words, j, cb);
  }

  // ---------------------------------------------------------------------- unpack

  // How many bits of its word are in use when this many bits have been read.
  function Used(from: nat): (u: nat)
    ensures u <= 32
  {
    if from <= 32 then from else Used(from - 32)
  }

  // The number that a bit string writes down in two's complement: its first bit
  // counts as minus one.
  function TwosComplement(s: Bits): int
    decreases |s|
  {
    if s == [] then 0
    else if |s| == 1 then if s[0] then -1 else 0
    else 2 * TwosComplement(s[..|s| - 1]) + if s[|s| - 1] then 1 else 0
  }

  // What unpack makes of a field, if u bits of the word where it begins are used
  // before it: its number, if it ends in the same word; if it goes on in the
  // next, its first bit is taken for a sign.  When none of it is in the word
  // before, the source shifts by 32, which C leaves open: stray is what the
  // machine then has left of that word.
  function Taken(field: Bits, u: nat, stray: int): int {
    if u + |field| <= 32 then Number(field)
    else if u < 32 then TwosComplement(field)
    else S32(Up(stray, |field|) + Number(field))
  }

  function FieldRead(bits: Bits, from: nat, w: nat, stray: int): int
    requires from + w <= |bits|
  {
    Taken(bits[from..from + w], Used(from), stray)
  }

  lemma {:induction false} TwosComplementAppend(a: Bits, b: Bits)
    requires a != []
    ensures TwosComplement(a + b) == Up(TwosComplement(a), |b|) + Number(b)
    decreases |b|
  {
    if b == [] {
      assert a + b == a;
    } else {
      var s := b[..|b| - 1];
      assert (a + b)[..|a + b| - 1] == a + s;
      TwosComplementAppend(a, s);
    }
  }

  // A first bit makes the number smaller by what all the bits can count.
  lemma {:induction false} SignOf(s: Bits)
    requires s != []
    ensures TwosComplement(s) == Number(s) - if s[0] then Pow2(|s|) else 0
    ensures s[0] <==> Number(s) >= Pow2(|s| - 1)
    decreases |s|
  {
    if |s| > 1 {
      SignOf(s[..|s| - 1]);
    } else {
      assert s[..0] == [];
    }
  }

  lemma {:induction false} TwosComplementRange(s: Bits)
    requires s != []
    ensures 0 <= TwosComplement(s) + Pow2(|s| - 1) < Pow2(|s|)
    decreases |s|
  {
    if |s| > 1 {
      TwosComplementRange(s[..|s| - 1]);
    }
  }

  // A number in this range is known by its low bits.
  lemma SignedUnique(x: int, y: int, t: int, b: nat)
    requires b > 0 && x == y + Up(t, b)
    requires 0 <= x + Pow2(b - 1) < Pow2(b) && 0 <= y + Pow2(b - 1) < Pow2(b)
    ensures x == y
  {
    Pow2Up(b);
    UpOrder(t, 1, b);
    UpOrder(-1, t, b);
    UpSum(-1, 1, b);
    UpZero(b);
  }

  lemma {:induction false} LowSigned(x: int, n: nat) returns (t: int)
    requires n > 0
    ensures x == TwosComplement(Low(x, n)) + Up(t, n)
    decreases n
  {
    var s := Low(x, n);
    assert s[n - 1] == (x % 2 == 1) && s[..n - 1] == Low(x / 2, n - 1);
    if n == 1 {
      t := x / 2 + x % 2;
      assert Up(t, 1) == 2 * t;
    } else {
      t := LowSigned(x / 2, n - 1);
    }
  }

  lemma Extended(x: int, b: nat, t: int)
    requires 0 < b && 0 <= x + Up(t, b) + Pow2(b - 1) < Pow2(b)
    ensures x + Up(t, b) == TwosComplement(Low(x, b))
  {
    var t2 := LowSigned(x, b);
    TwosComplementRange(Low(x, b));
    UpSum(t, t2, b);
    SignedUnique(x + Up(t, b), TwosComplement(Low(x, b)), t + t2, b);
  }

  // Sign extension reads b low bits as two's complement.
  lemma SignedLow(x: int, b: nat)
    requires 0 < b <= 32
    ensures Down(S32(Shl(x, 32 - b)), 32 - b) == TwosComplement(Low(x, b))
  {
    var t := SignExtended(x, b);
    Extended(x, b, t);
  }

  lemma {:induction false} WordAt(words: seq<word>, k: nat, base: nat)
    requires k < |words| && base == 32 * k
    ensures AllBits(words)[base..base + 32] == Low(words[k], 32)
    decreases |words|
  {
    var init, last := words[..|words| - 1], Low(words[|words| - 1], 32);
    if k < |words| - 1 {
      WordAt(init, k, base);
      SliceOfPrefix(AllBits(init), last, base, base + 32);
    } else {
      TailOf(AllBits(init), last);
    }
  }

  lemma SliceOfSlice(s: Bits, base: nat, end: nat, from: nat, to: nat)
    requires base + from <= base + to <= end <= |s|
    ensures s[base + from..base + to] == s[base..end][from..to]
  {
    var a, b, part := s[base + from..base + to], s[base..end][from..to], s[base..end];
    forall k | 0 <= k < |a|
      ensures a[k] == b[k]
    {
      assert part[from + k] == s[base + (from + k)];
    }
  }

  lemma InWord(words: seq<word>, k: nat, base: nat, u: nat, c: nat)
    requires k < |words| && base == 32 * k && u <= c <= 32
    ensures AllBits(words)[base + u..base + c] == Low(words[k], 32)[u..c]
  {
    WordAt(words, k, base);
    SliceOfSlice(AllBits(words), base, base + 32, u, c);
  }

  lemma CutSlice(s: Bits, a: nat, b: nat, c: nat)
    requires a <= b <= c <= |s|
    ensures s[a..c] == s[a..b] + s[b..c]
  {
  }

  lemma InTwoWords(words: seq<word>, k: nat, base: nat, u: nat, b2: nat, from: nat, w: nat)
    requires k + 1 < |words| && base == 32 * k && u <= 32 && b2 <= 32 && from == base + u && u + w == 32 + b2
    ensures AllBits(words)[from..from + w] == Low(words[k], 32 - u) + Low(words[k + 1], 32)[..b2]
  {
    InWord(words, k, base, u, 32);
    InWord(words, k + 1, base + 32, 0, b2);
    LastBits(words[k], u);
    CutSlice(AllBits(words), base + u, base + 32, base + 32 + b2);
  }

  lemma LastBits(x: int, u: nat)
    requires u <= 32
    ensures Low(x, 32)[u..32] == Low(x, 32 - u)
  {
    LowCut(x, u, 32 - u);
    TailOf(Low(Down(x, 32 - u), u), Low(x, 32 - u));
  }

  lemma TailOf(a: Bits, b: Bits)
    ensures (a + b)[..|a|] == a && (a + b)[|a|..|a| + |b|] == b
  {
  }

  lemma WordFits(y: word, a: nat, b: nat)
    requires a + b == 32
    ensures 0 <= Down(y, b) < Pow2(a)
  {
    Pow2Of32();
    DownFits(y, a, b);
  }

  lemma FirstBits(y: word, b: nat)
    requires b <= 32
    ensures Shr(y, 32 - b) == Number(Low(y, 32)[..b]) < Pow2(b)
  {
    var r := 32 - b;
    WordFits(y, b, r);
    LowCut(y, b, r);
    TailOf(Low(Down(y, r), b), Low(y, r));
    NumberOfLow(Down(y, r), b);
  }

  // Up by u and down again leaves the bits behind the first u.
  lemma UpDown(x: word, u: nat) returns (t: int)
    requires u <= 32
    ensures Shr(Shl(x, u), u) == x + Up(t, 32 - u) && 0 <= x + Up(t, 32 - u) < Pow2(32 - u)
  {
    Pow2Of32();
    t := Wraps(Up(x, u));
    UpTwice(t, 32 - u, u);
    UpSum(x, Up(t, 32 - u), u);
    DownUp(x + Up(t, 32 - u), u);
    DownFits(Shl(x, u), 32 - u, u);
  }

  lemma MiddleBits(x: word, u: nat, w: nat)
    requires u + w <= 32
    ensures Shr(Shr(Shl(x, u), u), 32 - (u + w)) == Number(Low(x, 32)[u..u + w])
  {
    var t := UpDown(x, u);
    MiddleOf(x, Shr(Shl(x, u), u), t, u, w);
  }

  lemma MiddlePiece(a: Bits, b: Bits, c: Bits)
    ensures (a + (b + c))[|a|..|a| + |b|] == b
  {
  }

  lemma MiddleOf(x: word, m: word, t: int, u: nat, w: nat)
    requires u + w <= 32 && m == x + Up(t, 32 - u) && m < Pow2(32 - u)
    ensures Shr(m, 32 - (u + w)) == Number(Low(x, 32)[u..u + w])
  {
    var rest := 32 - (u + w);
    LowIgnores(x, t, 32 - u, 32 - u);
    DownFits(m, w, rest);
    LowCut(m, w, rest);
    LowCut(x, u, 32 - u);
    MiddlePiece(Low(Down(x, 32 - u), u), Low(Down(m, rest), w), Low(m, rest));
    NumberOfLow(Down(m, rest), w);
  }

  lemma S32Of(z: int, v: int, t: int)
    requires z == v + Up(t, 32) && -0x8000_0000 <= v < 0x8000_0000
    ensures S32(z) == v
  {
    var t' := Signed(z);
    UpSum(t, t', 32);
    Up32(t + t');
  }

  // Adding to a wrapped word.
  lemma S32Sum(a: int, b: int)
    ensures S32(U32(a) + b) == S32(a + b)
  {
    var t1 := Wraps(a);
    var t2 := Signed(a + b);
    UpSum(t1, -t2, 32);
    UpSum(t2, -t2, 32);
    UpZero(32);
    S32Of(U32(a) + b, S32(a + b), t1 - t2);
  }

  lemma UpWrapped(x: int, k: nat) returns (t: int)
    ensures Shl(U32(x), k) == Up(x, k) + Up(t, 32)
  {
    var t1 := Wraps(x);
    var t2 := Wraps(Up(U32(x), k));
    UpSum(x, Up(t1, 32), k);
    UpTwice(t1, 32, k);
    UpTwice(t1, k, 32);
    t := Up(t1, k) + t2;
    UpSum(Up(t1, k), t2, 32);
  }

  // The bits of a field that goes over two words.
  lemma TwoShares(x: word, b1: nat, y: word, b2: nat)
    requires 0 < b1 && b1 + b2 <= 31
    ensures S32(Shl(Sar(Shl(x, 32 - b1), 32 - b1), b2) + Shr(y, 32 - b2)) == TwosComplement(Low(x, b1) + Low(y, 32)[..b2])
  {
    var p, q := Low(x, b1), Low(y, 32)[..b2];
    SignedLow(x, b1);
    FirstBits(y, b2);
    var t := UpWrapped(TwosComplement(p), b2);
    TwosComplementAppend(p, q);
    TwosComplementRange(p + q);
    Pow2Grows(b1 + b2, 31);
    Pow2Grows(b1 + b2 - 1, 31);
    Pow2Of32();
    S32Of(Up(TwosComplement(p), b2) + Up(t, 32) + Number(q), TwosComplement(p + q), t);
  }

  // A field in one word.
  method ReadWithin(x: word, u: nat, w: nat) returns (v: int)
    requires u + w <= 32
    ensures v == Number(Low(x, 32)[u..u + w])
  {
    MiddleBits(x, u, w);
    var j := Shl(x, u);
    j := Shr(j, u);
    v := Shr(j, 32 - (u + w));
  }

  // A field with b1 bits in one word and b2 in the next.
  method ReadAcross(x: word, b1: nat, y: word, b2: nat, stray: int) returns (v: int)
    requires 0 < b2 && b1 + b2 <= 31
    ensures b1 > 0 ==> v == TwosComplement(Low(x, b1) + Low(y, 32)[..b2])
    ensures b1 == 0 ==> v == S32(Up(stray, b2) + Number(Low(y, 32)[..b2]))
  {
    var temp1 := if b1 == 0 then stray else Sar(Shl(x, 32 - b1), 32 - b1);
    temp1 := Shl(temp1, b2);
    var temp2 := Shr(y, 32 - b2);
    v := S32(temp1 + temp2);
    FirstBits(y, b2);
    if b1 == 0 {
      S32Sum(Up(stray, b2), temp2);
    } else {
      TwoShares(x, b1, y, b2);
    }
  }

  // The first n fields, read from the bits; stray(i) is what the open shift leaves
  // at field i.
  function AllRead(widths: seq<nat>, bits: Bits, n: nat, stray: nat -> int): (s: seq<int>)
    requires n <= |widths| && Total(widths, n) <= |bits|
    ensures |s| == n
  {
    if n == 0 then []
    else AllRead(widths, bits, n - 1, stray) + [FieldRead(bits, Total(widths, n - 1), widths[n - 1], stray(n - 1))]
  }

  lemma {:induction false} UsedIs(from: nat, k: nat, cb: nat)
    requires from == 32 * k + cb && cb <= 32 && (cb == 0 ==> k == 0)
    ensures Used(from) == cb
    decreases k
  {
    if k > 0 {
      UsedIs(from - 32, k - 1, cb);
    }
  }

  // One round of the loop of unpack.
  method UnpackField(words: seq<word>, k: nat, c: nat, w: nat, stray: int, ghost from: nat) returns (v: int, k': nat, cb: nat)
    requires 1 <= w <= 31 && c <= 32 && from == 32 * k + c && from + w <= 32 * |words|
    ensures v == Taken(AllBits(words)[from..from + w], c, stray)
    ensures 32 * k' + cb == from + w && 0 < cb <= 32
  {
    k', cb := k, c + w;
    if cb > 32 {
      var b2 := cb - 32;
      var b1 := w - b2;
      v := ReadAcross(words[k], b1, words[k + 1], b2, stray);
      InTwoWords(words, k, 32 * k, c, b2, from, w);
      TakenAcross(Low(words[k], b1), Low(words[k + 1], 32)[..b2], v, stray);
      k', cb := k + 1, b2;
    } else {
      v := ReadWithin(words[k], cb - w, w);
      InWord(words, k, 32 * k, c, c + w);
      TakenWithin(AllBits(words)[from..from + w], c, stray);
    }
  }

  lemma TakenWithin(field: Bits, u: nat, stray: int)
    requires u + |field| <= 32
    ensures Taken(field, u, stray) == Number(field)
  {
  }

  lemma TakenAcross(p: Bits, q: Bits, v: int, stray: int)
    requires q != [] && |p| <= 32
    requires |p| > 0 ==> v == TwosComplement(p + q)
    requires |p| == 0 ==> v == S32(Up(stray, |q|) + Number(q))
    ensures v == Taken(p + q, 32 - |p|, stray)
  {
    if |p| == 0 {
      assert p + q == q;
    }
  }

  lemma FieldReadIs(bits: Bits, from: nat, w: nat, stray: int, k: nat, c: nat)
    requires from + w <= |bits| && from == 32 * k + c && c <= 32 && (c == 0 ==> k == 0)
    ensures FieldRead(bits, from, w, stray) == Taken(bits[from..from + w], c, stray)
  {
    UsedIs(from, k, c);
  }

  method Unpack(widths: seq<nat>, words: seq<word>, stray: nat -> int) returns (values: seq<int>)
    requires Widths(widths) && Total(widths, |widths|) <= 32 * |words|
    ensures values == AllRead(widths, AllBits(words), |widths|, stray)
  {
    ghost var bits := AllBits(words);
    var cb, k := 0, 0;
    values := [];
    for i := 0 to |widths|
      invariant 32 * k + cb == Total(widths, i) <= Total(widths, |widths|) && cb <= 32 && (cb == 0 ==> k == 0)
      invariant values == AllRead(widths, bits, i, stray)
    {
      ghost var from := Total(widths, i);
      TotalGrows(widths, i + 1, |widths|);
      FieldReadIs(bits, from, widths[i], stray(i), k, cb);
      var v;
      v, k, cb := UnpackField(words, k, cb, widths[i], stray(i), from);
      values := values + [v];
    }
  }

  // ----------------------------------------------------------------- round trip

  lemma {:induction false} FieldBits(widths: seq<nat>, values: seq<nat>, i: nat, n: nat)
    requires |values| == |widths| && i < n <= |widths|
    ensures Total(widths, i) + widths[i] <= Total(widths, n)
    ensures Stream(widths, values, n)[Total(widths, i)..Total(widths, i) + widths[i]] == Low(values[i], widths[i])
    decreases n
  {
    if i == n - 1 {
      TailOf(Stream(widths, values, i), Low(values[i], widths[i]));
    } else {
      FieldBits(widths, values, i, n - 1);
      SliceOfPrefix(Stream(widths, values, n - 1), Low(values[n - 1], widths[n - 1]), Total(widths, i), Total(widths, i) + widths[i]);
    }
  }

  lemma SliceOfPrefix(a: Bits, b: Bits, from: nat, to: nat)
    requires from <= to <= |a|
    ensures (a + b)[from..to] == a[from..to]
  {
  }

  // The field comes back: all of it is in one word, or some of it is in the word
  // before and its leading bit is zero.
  predicate ComesBack(widths: seq<nat>, values: seq<nat>, i: nat)
    requires Fields(widths, values) && i < |widths|
  {
    Restorable(Used(Total(widths, i)), widths[i], values[i])
  }

  predicate Restorable(u: nat, w: nat, v: nat)
    requires w > 0
  {
    u + w <= 32 || (u < 32 && v < Pow2(w - 1))
  }

  // The bits begin with the packed fields.
  predicate BeginsWith(bits: Bits, widths: seq<nat>, values: seq<nat>)
    requires |values| == |widths|
  {
    Total(widths, |widths|) <= |bits| && bits[..Total(widths, |widths|)] == Stream(widths, values, |widths|)
  }

  function NumberAt(bits: Bits, from: nat, w: nat): (v: nat)
    requires from + w <= |bits|
  {
    Number(bits[from..from + w])
  }

  lemma NumberWithin(bits: Bits, s: Bits, from: nat, w: nat, field: Bits)
    requires from + w <= |s| <= |bits| && bits[..|s|] == s && s[from..from + w] == field
    ensures NumberAt(bits, from, w) == Number(field)
  {
    assert bits[from..from + w] == bits[..|s|][from..from + w];
  }

  // Each of them is found at its place.
  lemma PackedField(widths: seq<nat>, values: seq<nat>, bits: Bits, i: nat)
    requires Fields(widths, values) && i < |widths| && BeginsWith(bits, widths, values)
    ensures Total(widths, i) + widths[i] <= |bits|
    ensures NumberAt(bits, Total(widths, i), widths[i]) == values[i]
  {
    FieldBits(widths, values, i, |widths|);
    NumberWithin(bits, Stream(widths, values, |widths|), Total(widths, i), widths[i], Low(values[i], widths[i]));
    NumberOfLow(values[i], widths[i]);
  }

  // Whatever the machine does with the open shift, this is read.
  ghost predicate SurelyRead(bits: Bits, from: nat, w: nat, v: int)
    requires from + w <= |bits|
  {
    forall stray :: FieldRead(bits, from, w, stray) == v
  }

  // MAIN: whatever the machine does with the open shift, unpack gives back a
  // packed field exactly when this condition holds.
  lemma FieldComesBackIff(widths: seq<nat>, values: seq<nat>, bits: Bits, i: nat)
    requires Fields(widths, values) && i < |widths| && BeginsWith(bits, widths, values)
    ensures Total(widths, i) + widths[i] <= |bits|
    ensures ComesBack(widths, values, i) <==> SurelyRead(bits, Total(widths, i), widths[i], values[i])
  {
    PackedField(widths, values, bits, i);
    ReadIff(bits, Total(widths, i), widths[i], values[i]);
  }

  lemma ReadIff(bits: Bits, from: nat, w: nat, v: nat)
    requires 1 <= w <= 31 && from + w <= |bits| && NumberAt(bits, from, w) == v
    ensures Restorable(Used(from), w, v) <==> SurelyRead(bits, from, w, v)
  {
    var field := bits[from..from + w];
    if Restorable(Used(from), w, v) {
      forall stray
        ensures FieldRead(bits, from, w, stray) == v
      {
        TakenRight(field, Used(from), v, stray);
      }
    } else {
      var stray := TakenWrong(field, Used(from), v);
      assert FieldRead(bits, from, w, stray) != v;
    }
  }

  lemma TakenRight(field: Bits, u: nat, v: nat, stray: int)
    requires field != [] && Number(field) == v
    requires u + |field| <= 32 || (u < 32 && v < Pow2(|field| - 1))
    ensures Taken(field, u, stray) == v
  {
    SignOf(field);
  }

  lemma TakenWrong(field: Bits, u: nat, v: nat) returns (stray: int)
    requires 1 <= |field| <= 31 && Number(field) == v && u <= 32
    requires u + |field| > 32 && (u < 32 ==> v >= Pow2(|field| - 1))
    ensures Taken(field, u, stray) != v
  {
    SignOf(field);
    stray := 1;
    if u == 32 {
      StrayMatters(|field|, v);
    }
  }

  lemma StrayMatters(w: nat, v: nat)
    requires 1 <= w <= 31 && v < Pow2(w)
    ensures S32(Up(1, w) + v) != v
  {
    Pow2Up(w);
    Pow2Of32();
    Pow2Grows(w, 31);
  }

  // All fields come back when each of them does.
  lemma {:induction false} AllComeBack(widths: seq<nat>, values: seq<nat>, bits: Bits, n: nat, stray: nat -> int)
    requires Fields(widths, values) && n <= |widths| && BeginsWith(bits, widths, values)
    requires forall i :: 0 <= i < n ==> ComesBack(widths, values, i)
    ensures Total(widths, n) <= |bits| && AllRead(widths, bits, n, stray) == values[..n]
    decreases n
  {
    if n > 0 {
      AllComeBack(widths, values, bits, n - 1, stray);
      FieldComesBackIff(widths, values, bits, n - 1);
      assert values[..n] == values[..n - 1] + [values[n - 1]];
    }
  }

  lemma {:induction false} AllReadAt(widths: seq<nat>, bits: Bits, n: nat, stray: nat -> int, i: nat)
    requires i < n <= |widths| && Total(widths, n) <= |bits|
    ensures Total(widths, i) + widths[i] <= |bits|
    ensures AllRead(widths, bits, n, stray)[i] == FieldRead(bits, Total(widths, i), widths[i], stray(i))
    decreases n
  {
    TotalGrows(widths, i + 1, n);
    if i < n - 1 {
      AllReadAt(widths, bits, n - 1, stray, i);
    }
  }

  // Whatever the machine does with the open shifts, unpack gives these values.
  ghost predicate SurelyUnpacked(widths: seq<nat>, bits: Bits, values: seq<int>)
    requires Total(widths, |widths|) <= |bits|
  {
    forall stray: nat -> int :: AllRead(widths, bits, |widths|, stray) == values
  }

  // MAIN: unpack undoes pack exactly when every field comes back.
  lemma UnpackUndoesPackIff(widths: seq<nat>, values: seq<nat>, bits: Bits)
    requires Fields(widths, values) && BeginsWith(bits, widths, values)
    ensures SurelyUnpacked(widths, bits, values) <==> forall i :: 0 <= i < |widths| ==> ComesBack(widths, values, i)
  {
    if forall i :: 0 <= i < |widths| ==> ComesBack(widths, values, i) {
      forall stray: nat -> int
        ensures AllRead(widths, bits, |widths|, stray) == values
      {
        AllComeBack(widths, values, bits, |widths|, stray);
        assert values[..|widths|] == values;
      }
    } else {
      var i :| 0 <= i < |widths| && !ComesBack(widths, values, i);
      FieldComesBackIff(widths, values, bits, i);
      var x :| FieldRead(bits, Total(widths, i), widths[i], x) != values[i];
      AllReadAt(widths, bits, |widths|, _ => x, i);
      assert AllRead(widths, bits, |widths|, _ => x)[i] != values[i];
    }
  }
}
