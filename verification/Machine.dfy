// Machine words: bytes, two's complement and the little-endian layout that the
// simulated machine, the file headers and the bitmap on disk all share.

module MachineWords {

  type byte = x: int | 0 <= x < 256

  const W32: int := 0x1_0000_0000

  // The unsigned reading of a 32-bit pattern.
  function U32(x: int): (r: nat)
    ensures r < W32
  {
    x % W32
  }

  // The signed reading of a 32-bit pattern.
  function S32(x: int): (r: int)
    ensures -0x8000_0000 <= r < 0x8000_0000
    ensures U32(r) == U32(x)
  {
    var u := x % W32;
    if u >= 0x8000_0000 then u - W32 else u
  }

  lemma S32Unique(x: int)
    requires -0x8000_0000 <= x < 0x8000_0000
    ensures S32(x) == x
  {
  }

  function Pow256(n: nat): (p: nat)
    ensures p > 0
  {
    if n == 0 then 1 else 256 * Pow256(n - 1)
  }

  function Pow2(n: nat): (p: nat)
    ensures p > 0
  {
    if n == 0 then 1 else 2 * Pow2(n - 1)
  }

  // The number whose little-endian form is s.
  function FromLe(s: seq<byte>): (v: nat)
    ensures v < Pow256(|s|)
    decreases |s|
  {
    if s == [] then 0 else s[0] + 256 * FromLe(s[1..])
  }

  lemma Low2(s: seq<byte>, b0: int, b1: int)
    requires |s| == 2 && s[0] == b0 && s[1] == b1
    ensures FromLe(s) == b0 + 0x100 * b1
  {
    assert FromLe(s[1..]) == s[1];
  }

  lemma Low4(s: seq<byte>, b0: int, b1: int, b2: int, b3: int)
    requires |s| == 4 && s[0] == b0 && s[1] == b1 && s[2] == b2 && s[3] == b3
    ensures FromLe(s) == b0 + 0x100 * b1 + 0x1_0000 * b2 + 0x100_0000 * b3
  {
    assert s[1..][1..] == s[2..];
    Low2(s[2..], b2, b3);
  }

  // The n low bytes of v, least significant first.
  function ToLe(v: nat, n: nat): (s: seq<byte>)
    ensures |s| == n
  {
    if n == 0 then [] else [v % 256] + ToLe(v / 256, n - 1)
  }

  lemma {:induction false} FromToLe(v: nat, n: nat)
    requires v < Pow256(n)
    ensures FromLe(ToLe(v, n)) == v
  {
    if n > 0 {
      var s := ToLe(v, n);
      assert s[1..] == ToLe(v / 256, n - 1);
      FromToLe(v / 256, n - 1);
    }
  }

  // A 32-bit word on disk or in memory.
  function WordBytes(x: int): (s: seq<byte>)
    ensures |s| == 4
  {
    ToLe(U32(x), 4)
  }

  function BytesWord(s: seq<byte>): int
    requires |s| == 4
  {
    S32(FromLe(s))
  }

  lemma WordRoundTrip(x: int)
    requires -0x8000_0000 <= x < 0x8000_0000
    ensures BytesWord(WordBytes(x)) == x
  {
    assert Pow256(4) == W32 by {
      assert Pow256(1) == 256 && Pow256(2) == 65536 && Pow256(3) == 16777216;
    }
    FromToLe(U32(x), 4);
    S32Unique(x);
  }

  // Overwrite |data| elements of s starting at index at.
  function Splice<T>(s: seq<T>, at: nat, data: seq<T>): (r: seq<T>)
    requires at + |data| <= |s|
    ensures |r| == |s|
    ensures forall k :: 0 <= k < |s| ==> r[k] == if at <= k < at + |data| then data[k - at] else s[k]
  {
    s[..at] + data + s[at + |data|..]
  }
}
