// The byte forms on disk read back as what was written: words, bits, file
// headers, directory entries and names.

module FsCodec {
  import opened MachineWords
  import opened FsModel

  // --------------------------------------------------------- equal-size chunks

  lemma OneMore(k: nat, size: nat)
    ensures (k + 1) * size == k * size + size
  {
  }

  lemma {:induction false} JoinLength(chunks: seq<Bytes>, size: nat)
    requires Even(chunks, size)
    ensures |Join(chunks)| == |chunks| * size
    decreases |chunks|
  {
    if chunks != [] {
      JoinLength(chunks[1..], size);
      OneMore(|chunks| - 1, size);
    }
  }

  // Dropping the first chunk.
  lemma ChunkShift(first: Bytes, rest: Bytes, size: nat, k: nat)
    requires |first| == size
    ensures Chunk(first + rest, size, k + 1) == Chunk(rest, size, k)
    ensures size <= |first + rest| && Chunk(first + rest, size, 0) == first
  {
    var s := first + rest;
    OneMore(k, size);
    OneMore(k + 1, size);
    var lo := k * size;
    assert Chunk(s, size, k + 1) == if lo + size + size <= |s| then s[lo + size..lo + size + size] else [];
    assert Chunk(rest, size, k) == if lo + size <= |rest| then rest[lo..lo + size] else [];
  }

  lemma {:induction false} JoinChunk(chunks: seq<Bytes>, size: nat, k: nat)
    requires Even(chunks, size) && k < |chunks|
    ensures Chunk(Join(chunks), size, k) == chunks[k]
    decreases |chunks|
  {
    if k == 0 {
      ChunkShift(chunks[0], Join(chunks[1..]), size, 0);
    } else {
      ChunkShift(chunks[0], Join(chunks[1..]), size, k - 1);
      JoinChunk(chunks[1..], size, k - 1);
    }
  }

  // ---------------------------------------------------------------------- bits

  lemma {:induction false} SetBitAt(w: nat, k: nat, j: nat)
    ensures Bit(SetBit(w, k), j) <==> j == k || Bit(w, j)
    decreases k
  {
    if k > 0 && j > 0 {
      SetBitAt(w / 2, k - 1, j - 1);
      assert SetBit(w, k) / 2 == SetBit(w / 2, k - 1);
    } else if k == 0 && j > 0 {
      assert SetBit(w, k) / 2 == w / 2;
    }
  }

  lemma {:induction false} ClearBitAt(w: nat, k: nat, j: nat)
    ensures Bit(ClearBit(w, k), j) <==> j != k && Bit(w, j)
    decreases k
  {
    if k > 0 && j > 0 {
      ClearBitAt(w / 2, k - 1, j - 1);
      assert ClearBit(w, k) / 2 == ClearBit(w / 2, k - 1);
    } else if k == 0 && j > 0 {
      assert ClearBit(w, k) / 2 == w / 2;
    }
  }

  // A word stays a word.
  lemma {:induction false} BitFits(w: nat, k: nat, n: nat)
    requires w < Pow2(n) && k < n
    ensures SetBit(w, k) < Pow2(n) && ClearBit(w, k) < Pow2(n)
    decreases k
  {
    assert Pow2(n) == 2 * Pow2(n - 1);
    if k > 0 {
      BitFits(w / 2, k - 1, n - 1);
    }
  }

  lemma WordSize()
    ensures Pow2(32) == W32 == Pow256(4)
  {
    assert Pow2(8) == 256;
    assert Pow2(16) == 65536;
    assert Pow2(24) == 16777216;
    assert Pow256(1) == 256 && Pow256(2) == 65536 && Pow256(3) == 16777216;
  }

  // Setting or clearing one bit of the map, in its word.
  lemma SetInBits(words: seq<nat>, n: nat, i: nat)
    requires n <= 32 * |words| && i < n
    ensures BitsOf(words[i / 32 := SetBit(words[i / 32], i % 32)], n) == BitsOf(words, n)[i := true]
  {
    var words' := words[i / 32 := SetBit(words[i / 32], i % 32)];
    forall j | 0 <= j < n
      ensures BitsOf(words', n)[j] == BitsOf(words, n)[i := true][j]
    {
      SetBitAt(words[i / 32], i % 32, j % 32);
    }
  }

  lemma ClearInBits(words: seq<nat>, n: nat, i: nat)
    requires n <= 32 * |words| && i < n
    ensures BitsOf(words[i / 32 := ClearBit(words[i / 32], i % 32)], n) == BitsOf(words, n)[i := false]
  {
    var words' := words[i / 32 := ClearBit(words[i / 32], i % 32)];
    forall j | 0 <= j < n
      ensures BitsOf(words', n)[j] == BitsOf(words, n)[i := false][j]
    {
      ClearBitAt(words[i / 32], i % 32, j % 32);
    }
  }

  // --------------------------------------------------------------------- words

  predicate Words(words: seq<nat>) {
    forall k :: 0 <= k < |words| ==> words[k] < W32
  }

  lemma WordsReadBack(words: seq<nat>)
    requires Words(words)
    ensures |EncodeWords(words)| == 4 * |words|
    ensures forall k :: 0 <= k < |words| ==> WordAt(EncodeWords(words), k) == words[k]
  {
    var chunks := seq(|words|, k requires 0 <= k < |words| => ToLe(words[k], 4));
    JoinLength(chunks, 4);
    WordSize();
    forall k | 0 <= k < |words|
      ensures WordAt(EncodeWords(words), k) == words[k]
    {
      JoinChunk(chunks, 4, k);
      FromToLe(words[k], 4);
    }
  }

  lemma WordFits(s: Bytes, k: nat)
    requires 4 * k + 4 <= |s|
    ensures WordAt(s, k) == FromLe(s[4 * k..4 * k + 4]) < W32
  {
    assert Chunk(s, 4, k) == s[4 * k..4 * k + 4];
    WordSize();
  }

  lemma WordsFit(s: Bytes, from: nat, n: nat)
    requires 4 * (from + n) <= |s|
    ensures Words(WordsAt(s, from, n))
  {
    forall k | 0 <= k < n
      ensures WordsAt(s, from, n)[k] < W32
    {
      WordFits(s, from + k);
    }
  }

  // The bitmap file says what the bitmap said.
  lemma BitmapReadBack(words: seq<nat>)
    requires Words(words) && |words| == NUM_SECTORS / 32
    ensures |EncodeWords(words)| == MAP_FILE_SIZE
    ensures BitsIn(EncodeWords(words)) == BitsOf(words, NUM_SECTORS)
  {
    WordsReadBack(words);
    assert WordsAt(EncodeWords(words), 0, NUM_SECTORS / 32) == words;
  }

  // A stored header names the length and the sectors it was given, whatever
  // the places after them hold.
  lemma HeaderReadBack(d: Disk, at: nat, numBytes: nat, numSectors: nat, dataSectors: seq<nat>)
    requires at < NUM_SECTORS && |dataSectors| == NUM_DIRECT && numSectors <= NUM_DIRECT
    requires numBytes < W32 && Words(dataSectors)
    requires d[at] == EncodeHeader(numBytes, numSectors, dataSectors)
    ensures HeaderAt(d, at) == Extent(at, numBytes, dataSectors[..numSectors])
  {
    WordsReadBack([numBytes, numSectors] + dataSectors);
  }

  lemma HeaderSize(numBytes: nat, numSectors: nat, dataSectors: seq<nat>)
    requires |dataSectors| == NUM_DIRECT && numSectors <= NUM_DIRECT && numBytes < W32 && Words(dataSectors)
    ensures |EncodeHeader(numBytes, numSectors, dataSectors)| == SECTOR_SIZE
  {
    WordsReadBack([numBytes, numSectors] + dataSectors);
  }

  // ----------------------------------------------------------------- directory

  lemma EntryReadBack(e: Entry)
    requires EntryOk(e)
    ensures |EncodeEntry(e)| == ENTRY_SIZE && DecodeEntry(EncodeEntry(e)) == e
  {
    WordRoundTrip(e.sector);
    var s := EncodeEntry(e);
    assert s[4..8] == WordBytes(e.sector);
    assert s[8..18] == e.name;
    assert s[1..4] + s[18..20] == e.pad;
  }

  lemma TableReadBack(table: seq<Entry>)
    requires forall k :: 0 <= k < |table| ==> EntryOk(table[k])
    ensures |EncodeTable(table)| == ENTRY_SIZE * |table| && DecodeTable(EncodeTable(table), |table|) == table
  {
    var chunks := seq(|table|, k requires 0 <= k < |table| => EncodeEntry(table[k]));
    forall k | 0 <= k < |table|
      ensures |chunks[k]| == ENTRY_SIZE
    {
      EntryReadBack(table[k]);
    }
    JoinLength(chunks, ENTRY_SIZE);
    forall k | 0 <= k < |table|
      ensures DecodeTable(EncodeTable(table), |table|)[k] == table[k]
    {
      JoinChunk(chunks, ENTRY_SIZE, k);
      EntryReadBack(table[k]);
    }
  }

  // --------------------------------------------------------------------- names

  // strncmp(a, b, n) == 0 where a is a buffer and b a C string.
  predicate SameName(a: Bytes, b: Bytes, n: nat)
    decreases n
  {
    if n == 0 then true
    else
      var x := if a == [] then 0 else a[0];
      var y := if b == [] then 0 else b[0];
      x == y && (x == 0 || SameName(a[1..], b[1..], n - 1))
  }

  lemma {:induction false} SameNamePrefix(a: Bytes, b: Bytes, n: nat)
    requires CString(b)
    ensures SameName(a, b, n) <==> Before0(if |a| <= n then a else a[..n]) == if |b| <= n then b else b[..n]
    decreases n
  {
    var a', b' := if |a| <= n then a else a[..n], if |b| <= n then b else b[..n];
    if n == 0 {
      assert a' == [] && b' == [];
    } else if a == [] || a[0] == 0 {
      assert Before0(a') == [];
    } else if b == [] {
      assert Before0(a')[0] == a[0];
    } else {
      SameNamePrefix(a[1..], b[1..], n - 1);
      assert a'[1..] == if |a[1..]| <= n - 1 then a[1..] else a[1..][..n - 1];
      assert b'[1..] == if |b[1..]| <= n - 1 then b[1..] else b[1..][..n - 1];
      assert Before0(a') == [a[0]] + Before0(a'[1..]);
      assert b' == [b[0]] + b'[1..];
      assert Before0(a')[1..] == Before0(a'[1..]);
    }
  }

  // What the directory's comparison decides: equal up to the ninth character.
  lemma NamesCompared(buffer: Bytes, name: Bytes)
    requires CString(name)
    ensures SameName(buffer, name, NAME_MAX) <==> NameIn(buffer) == Short(name)
  {
    SameNamePrefix(buffer, name, NAME_MAX);
  }

  lemma {:induction false} Before0Padded(s: Bytes, rest: Bytes)
    requires CString(s) && (rest == [] || rest[0] == 0)
    ensures Before0(s + rest) == s
    decreases |s|
  {
    if s == [] {
      assert s + rest == rest;
    } else {
      Before0Padded(s[1..], rest);
      assert (s + rest)[1..] == s[1..] + rest;
    }
  }

  // A stored name reads back as its first nine characters.
  lemma NameReadBack(buffer: Bytes, name: Bytes)
    requires CString(name) && |buffer| == NAME_MAX + 1
    ensures |CopyName(buffer, name)| == NAME_MAX + 1 && NameIn(CopyName(buffer, name)) == Short(name)
  {
    var s := Short(name);
    var copy := CopyName(buffer, name);
    assert copy[..NAME_MAX] == s + Zeros(NAME_MAX - |s|);
    Before0Padded(s, Zeros(NAME_MAX - |s|));
  }
}
