// What the file system keeps on its disk: the layout of file headers, of the
// free-sector bitmap and of the directory, and what each operation does to them.

module FsModel {
  import opened Basics
  import opened MachineWords

  const SECTOR_SIZE: nat := 128
  const NUM_SECTORS: nat := 1024
  const NUM_DIRECT: nat := 30
  const MAX_FILE_SIZE: nat := 3840
  const NAME_MAX: nat := 9
  const ENTRY_SIZE: nat := 20
  const NUM_ENTRIES: nat := 10
  const MAP_SECTOR: nat := 0
  const DIR_SECTOR: nat := 1
  const MAP_FILE_SIZE: nat := 128
  const DIR_FILE_SIZE: nat := 200

  type Bytes = seq<byte>
  type Word = x: int | 0 <= x < W32
  type Sector = s: Bytes | |s| == SECTOR_SIZE witness Zeros(SECTOR_SIZE)
  type Disk = d: seq<Sector> | |d| == NUM_SECTORS witness seq<Sector>(NUM_SECTORS, _ => ZERO_SECTOR)

  const ZERO_SECTOR: Sector := Zeros(SECTOR_SIZE)

  function Zeros(n: nat): (s: Bytes)
    ensures |s| == n
    ensures forall k :: 0 <= k < n ==> s[k] == 0
  {
    seq(n, _ => 0)
  }

  // Sectors that n bytes take: the least number that holds them.
  function SectorsFor(n: nat): (count: nat)
    ensures n <= SECTOR_SIZE * count < n + SECTOR_SIZE
  {
    n / SECTOR_SIZE + if n % SECTOR_SIZE > 0 then 1 else 0
  }

  // ------------------------------------------------------------ equal-size chunks

  function Join(chunks: seq<Bytes>): Bytes {
    if chunks == [] then [] else chunks[0] + Join(chunks[1..])
  }

  predicate Even(chunks: seq<Bytes>, size: nat) {
    forall k :: 0 <= k < |chunks| ==> |chunks[k]| == size
  }

  function Chunk(s: Bytes, size: nat, k: nat): (c: Bytes)
    ensures (k + 1) * size <= |s| ==> |c| == size
  {
    if k * size <= (k + 1) * size <= |s| then s[k * size..(k + 1) * size] else []
  }

  // ---------------------------------------------------------------------- bits

  predicate Bit(w: nat, k: nat) {
    if k == 0 then w % 2 == 1 else Bit(w / 2, k - 1)
  }

  // w | 1 << k
  function SetBit(w: nat, k: nat): nat {
    if k == 0 then w - w % 2 + 1 else 2 * SetBit(w / 2, k - 1) + w % 2
  }

  // w & ~(1 << k)
  function ClearBit(w: nat, k: nat): nat {
    if k == 0 then w - w % 2 else 2 * ClearBit(w / 2, k - 1) + w % 2
  }

  // A bitmap of n bits, kept in 32-bit words.
  function BitsOf(words: seq<nat>, n: nat): (bits: seq<bool>)
    requires n <= 32 * |words|
    ensures |bits| == n
  {
    seq(n, i requires 0 <= i < n => Bit(words[i / 32], i % 32))
  }

  // The first clear bit, or |bits|.
  function FirstClear(bits: seq<bool>): (k: nat)
    ensures k <= |bits|
    ensures k < |bits| ==> !bits[k]
    ensures forall i :: 0 <= i < k ==> bits[i]
  {
    if bits == [] then 0 else if !bits[0] then 0 else 1 + FirstClear(bits[1..])
  }

  function NumClear(bits: seq<bool>): (n: nat)
    ensures n <= |bits|
  {
    if bits == [] then 0 else (if bits[|bits| - 1] then 0 else 1) + NumClear(bits[..|bits| - 1])
  }

  // ------------------------------------------------------------------- on disk

  // Little-endian words, unsigned.
  function WordAt(s: Bytes, k: nat): nat {
    FromLe(Chunk(s, 4, k))
  }

  function WordsAt(s: Bytes, from: nat, n: nat): (words: seq<nat>)
    ensures |words| == n
  {
    seq<nat>(n, k requires 0 <= k < n => WordAt(s, from + k))
  }

  function EncodeWords(words: seq<nat>): Bytes {
    Join(seq(|words|, k requires 0 <= k < |words| => ToLe(words[k], 4)))
  }

  // A file header names the sectors of a file.  at is the sector of the header.
  datatype Extent = Extent(at: nat, length: nat, sectors: seq<nat>)

  // The header in memory: three fields, and whatever the unused places hold.
  function EncodeHeader(numBytes: nat, numSectors: nat, dataSectors: seq<nat>): Bytes {
    EncodeWords([numBytes, numSectors] + dataSectors)
  }

  function HeaderAt(d: Disk, at: nat): Extent
    requires at < NUM_SECTORS
  {
    Extent(at, WordAt(d[at], 0), WordsAt(d[at], 2, WordAt(d[at], 1)))
  }

  function SectorAt(d: Disk, s: nat): Sector {
    if s < NUM_SECTORS then d[s] else ZERO_SECTOR
  }

  function SectorsAt(d: Disk, sectors: seq<nat>): seq<Bytes> {
    seq(|sectors|, k requires 0 <= k < |sectors| => SectorAt(d, sectors[k]))
  }

  // A header that the operations can work with.
  predicate Sound(e: Extent) {
    && e.at < NUM_SECTORS && e.length <= MAX_FILE_SIZE && |e.sectors| == SectorsFor(e.length)
    && (forall k :: 0 <= k < |e.sectors| ==> e.sectors[k] < NUM_SECTORS && e.sectors[k] != e.at)
    && (forall k, l :: 0 <= k < l < |e.sectors| ==> e.sectors[k] != e.sectors[l])
  }

  // The bytes of a file.
  function Contents(d: Disk, e: Extent): Bytes {
    var all := Join(SectorsAt(d, e.sectors));
    if e.length <= |all| then all[..e.length] else all
  }

  // ------------------------------------------------------------------ directory

  // A directory entry; pad is what the compiler leaves between the fields.
  datatype Entry = Entry(inUse: bool, sector: int, name: Bytes, pad: Bytes)

  predicate EntryOk(e: Entry) {
    |e.name| == NAME_MAX + 1 && |e.pad| == 5 && -0x8000_0000 <= e.sector < 0x8000_0000
  }

  function EncodeEntry(e: Entry): Bytes {
    [if e.inUse then 1 else 0] + e.pad[..if |e.pad| >= 3 then 3 else 0] + WordBytes(e.sector) + e.name + e.pad[if |e.pad| >= 3 then 3 else 0..]
  }

  function DecodeEntry(s: Bytes): (e: Entry)
    requires |s| == ENTRY_SIZE
    ensures EntryOk(e)
  {
    Entry(s[0] != 0, BytesWord(s[4..8]), s[8..18], s[1..4] + s[18..20])
  }

  function EncodeTable(table: seq<Entry>): Bytes {
    Join(seq(|table|, k requires 0 <= k < |table| => EncodeEntry(table[k])))
  }

  function EntryIn(s: Bytes, k: nat): (e: Entry)
    ensures EntryOk(e)
  {
    DecodeEntry(if |Chunk(s, ENTRY_SIZE, k)| == ENTRY_SIZE then Chunk(s, ENTRY_SIZE, k) else Zeros(ENTRY_SIZE))
  }

  function DecodeTable(s: Bytes, n: nat): (table: seq<Entry>)
    ensures |table| == n
  {
    seq(n, k requires 0 <= k < n => EntryIn(s, k))
  }

  // Characters of a C string: its bytes before the terminating 0.
  predicate CString(name: Bytes) {
    forall k :: 0 <= k < |name| ==> name[k] != 0
  }

  // The part of a name that the directory keeps and compares.
  function Short(name: Bytes): Bytes {
    if |name| <= NAME_MAX then name else name[..NAME_MAX]
  }

  // strncpy of 9 bytes over a 10-byte buffer: the tenth byte stays.
  function CopyName(buffer: Bytes, name: Bytes): Bytes {
    var s := Short(name);
    s + Zeros(NAME_MAX - |s|) + buffer[if |buffer| >= NAME_MAX then NAME_MAX else |buffer|..]
  }

  // The name in a buffer: at most 9 bytes, up to the first 0.
  function NameIn(buffer: Bytes): Bytes {
    Before0(if |buffer| <= NAME_MAX then buffer else buffer[..NAME_MAX])
  }

  function Before0(s: Bytes): (r: Bytes)
    ensures CString(r) && |r| <= |s|
  {
    if s == [] || s[0] == 0 then [] else [s[0]] + Before0(s[1..])
  }

  // ------------------------------------------------------------- the whole disk

  datatype File = File(name: Bytes, extent: Extent)

  // What the disk says: the bitmap, the two fixed files and the directory.
  datatype Volume = Volume(bits: seq<bool>, mapFile: Extent, dirFile: Extent, slots: seq<Option<File>>)

  function SlotOf(d: Disk, e: Entry): Option<File> {
    if !e.inUse then None
    else Some(File(NameIn(e.name), if 0 <= e.sector < NUM_SECTORS then HeaderAt(d, e.sector) else Extent(NUM_SECTORS, 0, [])))
  }

  function SlotsOf(d: Disk, table: seq<Entry>): (slots: seq<Option<File>>)
    ensures |slots| == |table|
  {
    seq(|table|, k requires 0 <= k < |table| => SlotOf(d, table[k]))
  }

  function BitsIn(s: Bytes): (bits: seq<bool>)
    ensures |bits| == NUM_SECTORS
  {
    BitsOf(WordsAt(s, 0, NUM_SECTORS / 32), NUM_SECTORS)
  }

  function View(d: Disk): Volume {
    var mapFile, dirFile := HeaderAt(d, MAP_SECTOR), HeaderAt(d, DIR_SECTOR);
    Volume(BitsIn(Contents(d, mapFile)), mapFile, dirFile, SlotsOf(d, DecodeTable(Contents(d, dirFile), NUM_ENTRIES)))
  }

  // ----------------------------------------------------------------- operations

  // The slot of a name, or |slots|.
  function FindName(slots: seq<Option<File>>, name: Bytes): (k: nat)
    ensures k <= |slots|
    ensures k < |slots| ==> slots[k].Some? && slots[k].value.name == Short(name)
    ensures forall i :: 0 <= i < k ==> slots[i].Some? ==> slots[i].value.name != Short(name)
  {
    if slots == [] then 0
    else if slots[0].Some? && slots[0].value.name == Short(name) then 0
    else 1 + FindName(slots[1..], name)
  }

  function FreeSlot(slots: seq<Option<File>>): (k: nat)
    ensures k <= |slots|
    ensures k < |slots| ==> slots[k].None?
    ensures forall i :: 0 <= i < k ==> slots[i].Some?
  {
    if slots == [] then 0 else if slots[0].None? then 0 else 1 + FreeSlot(slots[1..])
  }

  // Take n clear bits, lowest first.
  function Take(bits: seq<bool>, n: nat): (r: (seq<bool>, seq<nat>))
    ensures |r.0| == |bits|
    decreases n
  {
    var s := FirstClear(bits);
    if n == 0 || s == |bits| then (bits, [])
    else
      var rest := Take(bits[s := true], n - 1);
      (rest.0, [s] + rest.1)
  }

  function Give(bits: seq<bool>, sectors: seq<nat>): (r: seq<bool>)
    ensures |r| == |bits|
    decreases |sectors|
  {
    if sectors == [] then bits
    else Give(if sectors[0] < |bits| then bits[sectors[0] := false] else bits, sectors[1..])
  }

  // FileHeader::Allocate: None when there is not enough space.
  function Allocate(bits: seq<bool>, size: nat): Option<(seq<bool>, seq<nat>)> {
    if NumClear(bits) < SectorsFor(size) then None else Some(Take(bits, SectorsFor(size)))
  }

  // FileSystem::Create; None when it fails.
  function Created(v: Volume, name: Bytes, size: nat): Option<Volume> {
    var at := FirstClear(v.bits);
    var k := FreeSlot(v.slots);
    if FindName(v.slots, name) < |v.slots| then None
    else if at == |v.bits| then None
    else if k == |v.slots| then None
    else
      var data := Allocate(v.bits[at := true], size);
      if data.None? then None
      else
        var (bits, sectors) := data.value;
        Some(v.(bits := bits, slots := v.slots[k := Some(File(Short(name), Extent(at, size, sectors)))]))
  }

  // FileSystem::Remove; None when there is no such file.
  function Removed(v: Volume, name: Bytes): Option<Volume> {
    var k := FindName(v.slots, name);
    if k == |v.slots| then None
    else
      var e := v.slots[k].value.extent;
      Some(v.(bits := Give(v.bits, e.sectors + [e.at]), slots := v.slots[k := None]))
  }

  // Bytes that a request at pos can move in a file of this length: those asked
  // for, as far as the file goes.
  function Clamp(n: int, pos: nat, length: nat): (r: nat)
    ensures n >= 0 && pos <= length ==> r <= n && pos + r <= length && (r == n || pos + r == length)
    ensures n < 0 || pos > length ==> r == 0
  {
    if n <= 0 || pos >= length then 0 else if pos + n > length then length - pos else n
  }
}
