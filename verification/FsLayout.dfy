// Where things lie on the disk, byte by byte: the words of a file header, the
// fields of a directory entry and the bits of the bitmap.

module FsLayout {
  import opened Basics
  import opened MachineWords
  import opened FsModel

  // The four bytes at p, the low one first.
  function Le(s: seq<int>, p: nat): int
    requires p + 4 <= |s|
  {
    s[p] + 0x100 * s[p + 1] + 0x1_0000 * s[p + 2] + 0x100_0000 * s[p + 3]
  }

  lemma WordIs(s: Bytes, k: nat)
    requires 4 * k + 4 <= |s|
    ensures WordAt(s, k) == Le(s, 4 * k)
  {
    var c := Chunk(s, 4, k);
    assert c == s[4 * k..4 * k + 4];
    Low4(c, s[4 * k], s[4 * k + 1], s[4 * k + 2], s[4 * k + 3]);
  }

  // MAIN: a header is its length in bytes, the number of its sectors and their
  // numbers, each in four bytes of the header's sector.
  lemma HeaderLayout(d: Disk, at: nat, k: nat)
    requires at < NUM_SECTORS
    ensures var e := HeaderAt(d, at);
      && e.at == at && e.length == Le(d[at], 0) && |e.sectors| == Le(d[at], 4)
      && (k < |e.sectors| && k < NUM_DIRECT ==> 12 + 4 * k <= SECTOR_SIZE && e.sectors[k] == Le(d[at], 8 + 4 * k))
  {
    WordIs(d[at], 0);
    WordIs(d[at], 1);
    if k < NUM_DIRECT {
      WordIs(d[at], 2 + k);
    }
  }

  // MAIN: entry k of the directory takes 20 bytes: the first tells whether it is
  // in use, the fifth to the eighth are the sector of the header in two's
  // complement, and the ninth to the eighteenth the name.
  lemma EntryLayout(s: Bytes, k: nat)
    requires ENTRY_SIZE * k + ENTRY_SIZE <= |s|
    ensures var e, p := EntryIn(s, k), 20 * k;
      && (e.inUse <==> s[p] != 0)
      && e.sector == Le(s, p + 4) - (if s[p + 7] >= 0x80 then 0x1_0000_0000 else 0)
      && e.name == s[p + 8..p + 18]
  {
    var p, c := 20 * k, Chunk(s, ENTRY_SIZE, k);
    assert c == s[p..p + 20];
    assert c[4..8] == s[p + 4..p + 8] && c[8..18] == s[p + 8..p + 18];
    Low4(c[4..8], s[p + 4], s[p + 5], s[p + 6], s[p + 7]);
  }

  lemma {:induction false} BitAbove(b: byte, rest: nat, k: nat, n: nat)
    requires n <= 8 && b < Pow2(n)
    ensures Bit(b + Pow2(n) * rest, k) <==> if k < n then Bit(b, k) else Bit(rest, k - n)
    decreases n
  {
    if n > 0 {
      var w := b + Pow2(n) * rest;
      assert w == b + 2 * (Pow2(n - 1) * rest);
      assert w % 2 == b % 2 && w / 2 == b / 2 + Pow2(n - 1) * rest;
      if k > 0 {
        BitAbove(b / 2, rest, k - 1, n - 1);
      }
    }
  }

  lemma {:induction false} BitOfBytes(s: Bytes, k: nat)
    requires k < 8 * |s|
    ensures Bit(FromLe(s), k) <==> Bit(s[k / 8], k % 8)
    decreases |s|
  {
    assert Pow2(8) == 256 by {
      assert Pow2(2) == 4 && Pow2(4) == 16 && Pow2(6) == 64;
    }
    BitAbove(s[0], FromLe(s[1..]), k, 8);
    if k >= 8 {
      BitOfBytes(s[1..], k - 8);
      assert (k - 8) / 8 == k / 8 - 1 && (k - 8) % 8 == k % 8;
    }
  }

  // MAIN: sector i is marked exactly when bit i % 8 of byte i / 8 of the bitmap is
  // set, bit 0 being the low one.
  lemma BitmapLayout(s: Bytes, i: nat)
    requires NUM_SECTORS / 8 <= |s| && i < NUM_SECTORS
    ensures BitsIn(s)[i] <==> Bit(s[i / 8], i % 8)
  {
    var k := i / 32;
    var c := Chunk(s, 4, k);
    assert c == s[4 * k..4 * k + 4];
    BitOfBytes(c, i % 32);
    assert i / 8 == 4 * k + i % 32 / 8 && i % 32 % 8 == i % 8;
    assert c[i % 32 / 8] == s[i / 8];
  }
}
