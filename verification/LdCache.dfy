/** The binary ld.so.cache: an optional old table, padding, then the new table that is decoded. */
module LdCache {
  import opened Wrappers
  import opened Numbers
  import opened Sequences
  import opened Paths

  type Byte = b: int | 0 <= b < 256
  type Bytes = seq<Byte>

  // ----- little-endian numbers -----

  function LittleEndian(n: nat, width: nat): (b: Bytes)
    ensures |b| == width
  {
    if width == 0 then [] else [n % 256] + LittleEndian(n / 256, width - 1)
  }

  function Number(b: Bytes): nat {
    if b == [] then 0 else b[0] + 256 * Number(b[1..])
  }

  lemma {:induction false} NumberOfLittleEndian(n: nat, width: nat)
    requires n < Power(256, width)
    ensures Number(LittleEndian(n, width)) == n
  {
    if width > 0 {
      NumberOfLittleEndian(n / 256, width - 1);
      assert LittleEndian(n, width)[1..] == LittleEndian(n / 256, width - 1);
    }
  }

  lemma Digits(a: Byte, n: nat)
    ensures (a + 256 * n) % 256 == a && (a + 256 * n) / 256 == n
  {
  }

  lemma {:induction false} LittleEndianOfNumber(b: Bytes)
    ensures LittleEndian(Number(b), |b|) == b && Number(b) < Power(256, |b|)
  {
    if b != [] {
      LittleEndianOfNumber(b[1..]);
      Digits(b[0], Number(b[1..]));
      assert b == [b[0]] + b[1..];
    }
  }

  const U32 := 0x1_0000_0000
  const U64 := 0x1_0000_0000_0000_0000

  lemma Widths()
    ensures Power(256, 4) == U32 && Power(256, 8) == U64
  {
    assert Power(256, 1) == 256 && Power(256, 2) == 0x1_0000 && Power(256, 3) == 0x100_0000;
    assert Power(256, 4) == 256 * Power(256, 3) && Power(256, 5) == 256 * Power(256, 4);
    assert Power(256, 6) == 256 * Power(256, 5) && Power(256, 7) == 256 * Power(256, 6) && Power(256, 8) == 256 * Power(256, 7);
  }

  lemma {:induction false} FieldRoundTrip(n: nat)
    ensures n < U32 ==> Number(LittleEndian(n, 4)) == n
    ensures n < U64 ==> Number(LittleEndian(n, 8)) == n
  {
    Widths();
    if n < U32 { NumberOfLittleEndian(n, 4); }
    if n < U64 { NumberOfLittleEndian(n, 8); }
  }

  // ----- entries of the new table -----

  /** The flags are kept as the unsigned number with the same bits. */
  datatype Entry = Entry(flags: nat, key: nat, value: nat, osVersion: nat, hwCap: nat)

  predicate Fits(e: Entry) {
    e.flags < U32 && e.key < U32 && e.value < U32 && e.osVersion < U32 && e.hwCap < U64
  }

  const OLD_ENTRY_SIZE := 12
  const ENTRY_SIZE := 24

  function EncodeEntry(e: Entry): (b: Bytes)
    ensures |b| == ENTRY_SIZE
  {
    LittleEndian(e.flags, 4) + LittleEndian(e.key, 4) + LittleEndian(e.value, 4)
    + LittleEndian(e.osVersion, 4) + LittleEndian(e.hwCap, 8)
  }

  function DecodeEntry(b: Bytes): Entry
    requires |b| == ENTRY_SIZE
  {
    Entry(Number(b[..4]), Number(b[4..8]), Number(b[8..12]), Number(b[12..16]), Number(b[16..]))
  }

  lemma EntryRoundTrip(e: Entry)
    requires Fits(e)
    ensures DecodeEntry(EncodeEntry(e)) == e
  {
    var b := EncodeEntry(e);
    assert b[..4] == LittleEndian(e.flags, 4) && b[4..8] == LittleEndian(e.key, 4);
    assert b[8..12] == LittleEndian(e.value, 4) && b[12..16] == LittleEndian(e.osVersion, 4);
    assert b[16..] == LittleEndian(e.hwCap, 8);
    FieldRoundTrip(e.flags);
    FieldRoundTrip(e.key);
    FieldRoundTrip(e.value);
    FieldRoundTrip(e.osVersion);
    FieldRoundTrip(e.hwCap);
  }

  lemma EntryOfBytes(b: Bytes)
    requires |b| == ENTRY_SIZE
    ensures EncodeEntry(DecodeEntry(b)) == b && Fits(DecodeEntry(b))
  {
    Widths();
    LittleEndianOfNumber(b[..4]);
    LittleEndianOfNumber(b[4..8]);
    LittleEndianOfNumber(b[8..12]);
    LittleEndianOfNumber(b[12..16]);
    LittleEndianOfNumber(b[16..]);
    assert b == b[..4] + b[4..8] + b[8..12] + b[12..16] + b[16..];
  }

  function EncodeEntries(entries: seq<Entry>): (b: Bytes)
    ensures |b| == ENTRY_SIZE * |entries|
  {
    if entries == [] then [] else EncodeEntry(entries[0]) + EncodeEntries(entries[1..])
  }

  /** What reading `n` records from `b` yields. */
  function DecodeEntries(b: Bytes, n: nat): (entries: seq<Entry>)
    requires |b| == ENTRY_SIZE * n
    ensures |entries| == n
  {
    if n == 0 then [] else [DecodeEntry(b[..ENTRY_SIZE])] + DecodeEntries(b[ENTRY_SIZE..], n - 1)
  }

  lemma {:induction false} EntriesRoundTrip(entries: seq<Entry>)
    requires forall e :: e in entries ==> Fits(e)
    ensures DecodeEntries(EncodeEntries(entries), |entries|) == entries
  {
    if entries != [] {
      var b := EncodeEntries(entries);
      assert b[..ENTRY_SIZE] == EncodeEntry(entries[0]) && b[ENTRY_SIZE..] == EncodeEntries(entries[1..]);
      EntryRoundTrip(entries[0]);
      EntriesRoundTrip(entries[1..]);
      assert entries == [entries[0]] + entries[1..];
    }
  }

  lemma {:induction false} EntriesOfBytes(b: Bytes, n: nat)
    requires |b| == ENTRY_SIZE * n
    ensures EncodeEntries(DecodeEntries(b, n)) == b
    ensures forall e :: e in DecodeEntries(b, n) ==> Fits(e)
  {
    if n > 0 {
      EntryOfBytes(b[..ENTRY_SIZE]);
      EntriesOfBytes(b[ENTRY_SIZE..], n - 1);
      var first, rest := DecodeEntry(b[..ENTRY_SIZE]), DecodeEntries(b[ENTRY_SIZE..], n - 1);
      assert ([first] + rest)[1..] == rest;
      assert b == b[..ENTRY_SIZE] + b[ENTRY_SIZE..];
    }
  }

  // ----- the new table -----

  /** "glibc-ld.so.cache" */
  const MAGIC2: Bytes := [103, 108, 105, 98, 99, 45, 108, 100, 46, 115, 111, 46, 99, 97, 99, 104, 101]

  /** "1.1" */
  const VERSION: Bytes := [49, 46, 49]

  const HEADER_SIZE := 48
  const UNUSED_SIZE := 20

  /** What the new part of a cache file holds; `unused` fills the header up to its alignment. */
  datatype Table = Table(tableSize: nat, unused: Bytes, entries: seq<Entry>, strings: Bytes)

  ghost predicate WellFormed(t: Table) {
    && t.tableSize < U32 && |t.unused| == UNUSED_SIZE && |t.entries| < U32
    && forall e :: e in t.entries ==> Fits(e)
  }

  function EncodeHeader(nLibs: nat, tableSize: nat, unused: Bytes): Bytes {
    MAGIC2 + VERSION + LittleEndian(nLibs, 4) + LittleEndian(tableSize, 4) + unused
  }

  function EncodeTable(t: Table): Bytes {
    EncodeHeader(|t.entries|, t.tableSize, t.unused) + EncodeEntries(t.entries) + t.strings
  }

  /** The fields of a header: magic, version, entry count, table size, unused. */
  datatype Header = Header(magic: Bytes, version: Bytes, nLibs: nat, tableSize: nat, unused: Bytes)

  function DecodeHeader(b: Bytes): Header
    requires |b| == HEADER_SIZE
  {
    Header(b[..17], b[17..20], Number(b[20..24]), Number(b[24..28]), b[28..])
  }

  function DecodeTable(b: Bytes): Option<Table> {
    if |b| < HEADER_SIZE then None
    else
      var h, rest := DecodeHeader(b[..HEADER_SIZE]), b[HEADER_SIZE..];
      var size := ENTRY_SIZE * h.nLibs;
      if h.magic != MAGIC2 || h.version != VERSION || |rest| < size then None
      else Some(Table(h.tableSize, h.unused, DecodeEntries(rest[..size], h.nLibs), rest[size..]))
  }

  lemma HeaderRoundTrip(nLibs: nat, tableSize: nat, unused: Bytes)
    requires nLibs < U32 && tableSize < U32 && |unused| == UNUSED_SIZE
    ensures |EncodeHeader(nLibs, tableSize, unused)| == HEADER_SIZE
    ensures DecodeHeader(EncodeHeader(nLibs, tableSize, unused)) == Header(MAGIC2, VERSION, nLibs, tableSize, unused)
  {
    var b := EncodeHeader(nLibs, tableSize, unused);
    assert b[..17] == MAGIC2 && b[17..20] == VERSION && b[28..] == unused;
    assert b[20..24] == LittleEndian(nLibs, 4) && b[24..28] == LittleEndian(tableSize, 4);
    FieldRoundTrip(nLibs);
    FieldRoundTrip(tableSize);
  }

  lemma HeaderOfBytes(b: Bytes)
    requires |b| == HEADER_SIZE
    ensures var h := DecodeHeader(b);
            && h.nLibs < U32 && h.tableSize < U32 && |h.unused| == UNUSED_SIZE
            && (h.magic == MAGIC2 && h.version == VERSION ==> EncodeHeader(h.nLibs, h.tableSize, h.unused) == b)
  {
    Widths();
    LittleEndianOfNumber(b[20..24]);
    LittleEndianOfNumber(b[24..28]);
    assert b == b[..17] + b[17..20] + b[20..24] + b[24..28] + b[28..];
  }

  lemma TableRoundTrip(t: Table)
    requires WellFormed(t)
    ensures DecodeTable(EncodeTable(t)) == Some(t)
  {
    hide EncodeHeader, EncodeEntries, DecodeEntries, DecodeHeader;
    var b, header, table := EncodeTable(t), EncodeHeader(|t.entries|, t.tableSize, t.unused), EncodeEntries(t.entries);
    HeaderRoundTrip(|t.entries|, t.tableSize, t.unused);
    EntriesRoundTrip(t.entries);
    assert b[..HEADER_SIZE] == header && b[HEADER_SIZE..] == table + t.strings;
    assert (table + t.strings)[..|table|] == table && (table + t.strings)[|table|..] == t.strings;
  }

  lemma TableOfBytes(b: Bytes)
    requires DecodeTable(b).Some?
    ensures WellFormed(DecodeTable(b).value) && EncodeTable(DecodeTable(b).value) == b
  {
    var h, rest := DecodeHeader(b[..HEADER_SIZE]), b[HEADER_SIZE..];
    var size := ENTRY_SIZE * h.nLibs;
    HeaderOfBytes(b[..HEADER_SIZE]);
    EntriesOfBytes(rest[..size], h.nLibs);
    assert b == b[..HEADER_SIZE] + rest[..size] + rest[size..];
  }

  /** Decoding inverts encoding, and decodes nothing else. */
  lemma DecodeInvertsEncode(b: Bytes, t: Table)
    ensures DecodeTable(b) == Some(t) <==> WellFormed(t) && EncodeTable(t) == b
  {
    if DecodeTable(b) == Some(t) { TableOfBytes(b); }
    if WellFormed(t) { TableRoundTrip(t); }
  }

  // ----- the file: an old table may come first -----

  /** "ld.so-1.7.0" */
  const MAGIC1: Bytes := [108, 100, 46, 115, 111, 45, 49, 46, 55, 46, 48]

  const OLD_HEADER_SIZE := 16
  const ALIGNMENT := 8

  /** -offset & (ALIGNMENT - 1) */
  function Padding(offset: int): (n: nat)
    ensures n < ALIGNMENT
  {
    (-offset) % ALIGNMENT
  }

  /** Skipping the padding reaches the least aligned offset that is not before the given one. */
  lemma PaddingReachesNextAligned(offset: nat, aligned: nat)
    requires aligned % ALIGNMENT == 0 && offset <= aligned
    ensures (offset + Padding(offset)) % ALIGNMENT == 0
    ensures offset + Padding(offset) <= aligned
  {
    var k, r, m := offset / 8, offset % 8, aligned / 8;
    assert offset == 8 * k + r && aligned == 8 * m;
    PaddingIs(k, r);
    if r > 0 { assert 8 * (k + 1) <= 8 * m; }
  }

  lemma PaddingIs(k: nat, r: nat)
    requires r < 8
    ensures Padding(8 * k + r) == if r == 0 then 0 else 8 - r
  {
    var offset: int := 8 * k + r;
    var below: int := -(k as int);
    if r == 0 {
      assert -offset == 8 * below;
    } else {
      assert -offset == 8 * (below - 1) + (8 - r);
    }
  }

  function OldPartSize(nLibs: nat): nat {
    var size := OLD_HEADER_SIZE + OLD_ENTRY_SIZE * nLibs;
    size + Padding(size)
  }

  predicate StartsOld(data: Bytes) { |data| > OLD_HEADER_SIZE && data[..|MAGIC1|] == MAGIC1 }

  /** What is left after the old table and its padding. */
  function NewPart(data: Bytes): Bytes {
    if !StartsOld(data) then data
    else
      var start := OldPartSize(Number(data[12..16]));
      if start <= |data| then data[start..] else []
  }

  function DecodeFile(data: Bytes): Option<Table> {
    if |data| <= OLD_HEADER_SIZE then None else DecodeTable(NewPart(data))
  }

  /** An old table and the padding after it; the terminator of the magic, the entries and the padding can be anything. */
  datatype OldTable = OldTable(terminator: Byte, nLibs: nat, body: Bytes, padding: Bytes)

  predicate OldWellFormed(o: OldTable) {
    o.nLibs < U32 && |o.body| == OLD_ENTRY_SIZE * o.nLibs && |o.padding| == Padding(OLD_HEADER_SIZE + |o.body|)
  }

  function EncodeOld(o: OldTable): Bytes {
    (MAGIC1 + [o.terminator] + LittleEndian(o.nLibs, 4)) + (o.body + o.padding)
  }

  lemma NewPartAfterOld(o: OldTable, rest: Bytes)
    requires OldWellFormed(o) && rest != []
    ensures StartsOld(EncodeOld(o) + rest) && NewPart(EncodeOld(o) + rest) == rest
  {
    var header := MAGIC1 + [o.terminator] + LittleEndian(o.nLibs, 4);
    var data := EncodeOld(o) + rest;
    assert data[..OLD_HEADER_SIZE] == header;
    assert data[..|MAGIC1|] == header[..|MAGIC1|] == MAGIC1;
    assert data[12..16] == header[12..16] == LittleEndian(o.nLibs, 4);
    FieldRoundTrip(o.nLibs);
    assert |EncodeOld(o)| == OldPartSize(o.nLibs);
    assert data[|EncodeOld(o)|..] == rest;
  }

  lemma OldHeaderOf(header: Bytes)
    requires |header| == OLD_HEADER_SIZE && header[..|MAGIC1|] == MAGIC1
    ensures Number(header[12..16]) < U32
    ensures MAGIC1 + [header[11]] + LittleEndian(Number(header[12..16]), 4) == header
  {
    LittleEndianOfNumber(header[12..16]);
    Widths();
    assert header == header[..11] + [header[11]] + header[12..16];
  }

  lemma OldPartOf(data: Bytes) returns (o: OldTable)
    requires StartsOld(data) && NewPart(data) != []
    ensures OldWellFormed(o) && data == EncodeOld(o) + NewPart(data)
  {
    hide EncodeOld, Padding, Number;
    var nLibs := Number(data[12..16]);
    var header, start := data[..OLD_HEADER_SIZE], OldPartSize(nLibs);
    assert header[..|MAGIC1|] == data[..|MAGIC1|] && header[12..16] == data[12..16];
    OldHeaderOf(header);
    o := OldOf(header, data[OLD_HEADER_SIZE..start]);
    assert data == header + data[OLD_HEADER_SIZE..start] + data[start..];
  }

  lemma OldOf(header: Bytes, rest: Bytes) returns (o: OldTable)
    requires |header| == OLD_HEADER_SIZE && header[..|MAGIC1|] == MAGIC1
    requires |rest| == OldPartSize(Number(header[12..16])) - OLD_HEADER_SIZE
    ensures OldWellFormed(o) && EncodeOld(o) == header + rest
  {
    var nLibs := Number(header[12..16]);
    OldHeaderOf(header);
    var size := OLD_ENTRY_SIZE * nLibs;
    o := OldTable(header[11], nLibs, rest[..size], rest[size..]);
    assert rest[..size] + rest[size..] == rest;
  }

  lemma NewTableIsNotOld(t: Table)
    requires WellFormed(t)
    ensures |EncodeTable(t)| > OLD_HEADER_SIZE && !StartsOld(EncodeTable(t))
  {
    HeaderRoundTrip(|t.entries|, t.tableSize, t.unused);
    assert EncodeTable(t)[0] == MAGIC2[0] != MAGIC1[0];
  }

  /** The files that decode to a table: its encoding, alone or after any old table and its padding. */
  lemma FileDecodesIff(data: Bytes, t: Table)
    ensures DecodeFile(data) == Some(t) <==>
      WellFormed(t) && (data == EncodeTable(t) || exists o :: OldWellFormed(o) && data == EncodeOld(o) + EncodeTable(t))
  {
    DecodeInvertsEncode(NewPart(data), t);
    if WellFormed(t) {
      NewTableIsNotOld(t);
      if data == EncodeTable(t) {
        assert NewPart(data) == data;
      } else if o :| OldWellFormed(o) && data == EncodeOld(o) + EncodeTable(t) {
        NewPartAfterOld(o, EncodeTable(t));
      }
    }
    if DecodeFile(data) == Some(t) && StartsOld(data) { var o := OldPartOf(data); }
  }

  // ----- entries in use -----

  const FLAG_ARCH_I386 := 0x0000
  const FLAG_ARCH_X8664 := 0x0300
  const FLAG_ARCH_PPC64LE := 0x0500
  const FLAG_ARCH_X32 := 0x0800
  const FLAG_ARCH_ARM_LIBHF := 0x0900
  const FLAG_ARCH_AARCH64_LIB64 := 0x0a00

  /** flags & 0x00ff & 0x0001 */
  predicate IsElf(flags: nat) { flags % 0x100 % 2 == 1 }

  /** The word size of the architecture in flags & 0xff00, if it is a known one. */
  function Bits(flags: nat): (bits: Option<nat>)
    ensures bits.Some? ==> bits.value == 32 || bits.value == 64
  {
    var arch := flags / 0x100 % 0x100 * 0x100;
    if arch == FLAG_ARCH_X8664 || arch == FLAG_ARCH_AARCH64_LIB64 || arch == FLAG_ARCH_PPC64LE then Some(64)
    else if arch == FLAG_ARCH_X32 || arch == FLAG_ARCH_ARM_LIBHF || arch == FLAG_ARCH_I386 then Some(32)
    else None
  }

  function Text(b: Bytes): (s: string)
    ensures |s| == |b|
  {
    seq(|b|, i requires 0 <= i < |b| => b[i] as char)
  }

  function IndexZero(b: Bytes): (n: nat)
    ensures n <= |b| && 0 !in b[..n] && (n < |b| ==> b[n] == 0)
  {
    if b == [] || b[0] == 0 then 0 else
      var n := 1 + IndexZero(b[1..]);
      assert b[..n] == [b[0]] + b[1..][..n - 1];
      n
  }

  /** The bytes up to the first zero; "" without one. */
  function BytesToString(b: Bytes): string {
    var n := IndexZero(b);
    if n == |b| then "" else Text(b[..n])
  }

  datatype Item = Item(libname: string, bits: nat, value: string)

  /** A library counts if it is an ELF file of a known architecture with a name and a value. */
  function ItemOf(flags: nat, lib: string, value: string): (item: Option<Item>)
    ensures item.Some? ==> HasWordSize(item.value)
  {
    if !IsElf(flags) || Bits(flags).None? || lib == "" || value == "" then None
    else Some(Item(lib, Bits(flags).value, value))
  }

  /** The length is cut to 32 bits before the comparison; an offset that passes it is in range. */
  predicate InRange(libs: Bytes, offset: nat) { offset <= |libs| % U32 }

  function Accept(libs: Bytes, e: Entry): (item: Option<Item>)
    ensures item.Some? ==> HasWordSize(item.value)
  {
    if !InRange(libs, e.key) || !InRange(libs, e.value) then None
    else ItemOf(e.flags, BytesToString(libs[e.key..]), BytesToString(libs[e.value..]))
  }

  function Acceptor(libs: Bytes): Entry -> Option<Item> { e => Accept(libs, e) }

  function Items(libs: Bytes, entries: seq<Entry>): seq<Item> { Collect(Acceptor(libs), entries) }

  predicate HasWordSize(item: Item) { item.bits == 32 || item.bits == 64 }

  lemma ItemsHaveWordSizes(libs: Bytes, entries: seq<Entry>)
    ensures forall item :: item in Items(libs, entries) ==> HasWordSize(item)
  {
    CollectHolds(Acceptor(libs), entries, HasWordSize);
  }

  // ----- libraries written into a cache are the ones read from it -----

  datatype Lib = Lib(flags: nat, name: Bytes, value: Bytes)

  predicate Storable(lib: Lib) { lib.flags < U32 && 0 !in lib.name && 0 !in lib.value }

  function Stored(lib: Lib): Bytes { lib.name + [0] + lib.value + [0] }

  /** Zero-terminated names and values, one after the other. */
  function StringTable(libs: seq<Lib>): Bytes {
    if libs == [] then [] else StringTable(libs[..|libs| - 1]) + Stored(libs[|libs| - 1])
  }

  function EntryAt(key: nat, lib: Lib): Entry { Entry(lib.flags, key, key + |lib.name| + 1, 0, 0) }

  /** The entries, with offsets into a string table that starts at `base`. */
  function LibEntries(base: nat, libs: seq<Lib>): (entries: seq<Entry>)
    ensures |entries| == |libs|
  {
    seq(|libs|, i requires 0 <= i < |libs| => EntryAt(base + |StringTable(libs[..i])|, libs[i]))
  }

  function StringsStart(libs: seq<Lib>): nat { HEADER_SIZE + ENTRY_SIZE * |libs| }

  function TableOf(libs: seq<Lib>): Table {
    Table(|StringTable(libs)|, seq(UNUSED_SIZE, _ => 0), LibEntries(StringsStart(libs), libs), StringTable(libs))
  }

  function LibItem(lib: Lib): Option<Item> { ItemOf(lib.flags, Text(lib.name), Text(lib.value)) }

  lemma {:induction false} IndexZeroAfter(s: Bytes, rest: Bytes)
    requires 0 !in s
    ensures IndexZero(s + [0] + rest) == |s|
  {
    var b := s + [0] + rest;
    if s != [] {
      assert b[1..] == s[1..] + [0] + rest && s[0] in s;
      IndexZeroAfter(s[1..], rest);
    }
  }

  lemma StringAt(file: Bytes, before: Bytes, s: Bytes, rest: Bytes)
    requires 0 !in s && file == before + s + [0] + rest
    ensures BytesToString(file[|before|..]) == Text(s)
  {
    assert file[|before|..] == s + [0] + rest;
    IndexZeroAfter(s, rest);
    assert (s + [0] + rest)[..|s|] == s;
  }

  lemma StoredStrings(file: Bytes, before: Bytes, lib: Lib, rest: Bytes)
    requires Storable(lib) && file == before + Stored(lib) + rest
    ensures BytesToString(file[|before|..]) == Text(lib.name)
    ensures BytesToString(file[|before| + |lib.name| + 1..]) == Text(lib.value)
  {
    assert file == before + lib.name + [0] + (lib.value + [0] + rest);
    StringAt(file, before, lib.name, lib.value + [0] + rest);
    assert file == (before + lib.name + [0]) + lib.value + [0] + rest;
    StringAt(file, before + lib.name + [0], lib.value, rest);
  }

  lemma AcceptAt(file: Bytes, key: nat, lib: Lib)
    requires key + |lib.name| + 1 <= |file| < U32
    requires BytesToString(file[key..]) == Text(lib.name)
    requires BytesToString(file[key + |lib.name| + 1..]) == Text(lib.value)
    ensures Accept(file, EntryAt(key, lib)) == LibItem(lib)
  {
    hide BytesToString, Text, ItemOf;
    assert |file| % U32 == |file|;
  }

  lemma AcceptStored(file: Bytes, before: Bytes, lib: Lib, rest: Bytes)
    requires Storable(lib) && file == before + Stored(lib) + rest && |file| < U32
    ensures Accept(file, EntryAt(|before|, lib)) == LibItem(lib)
  {
    StoredStrings(file, before, lib, rest);
    AcceptAt(file, |before|, lib);
  }

  lemma {:induction false} StringTableAt(libs: seq<Lib>, i: nat) returns (rest: Bytes)
    requires i < |libs|
    ensures StringTable(libs) == StringTable(libs[..i]) + Stored(libs[i]) + rest
  {
    var n := |libs| - 1;
    if i == n {
      rest := [];
    } else {
      assert libs[..n][..i] == libs[..i];
      var before := StringTableAt(libs[..n], i);
      rest := before + Stored(libs[n]);
    }
  }

  lemma {:induction false} EntryFits(base: nat, libs: seq<Lib>, i: nat)
    requires i < |libs| && Storable(libs[i]) && base + |StringTable(libs)| < U32
    ensures Fits(LibEntries(base, libs)[i])
  {
    var rest := StringTableAt(libs, i);
  }

  lemma Regroup(a: Bytes, b: Bytes, c: Bytes, d: Bytes)
    ensures a + (b + c + d) == (a + b) + c + d
  {
  }

  lemma {:induction false} ItemStored(head: Bytes, libs: seq<Lib>, file: Bytes, i: nat)
    requires i < |libs| && Storable(libs[i])
    requires file == head + StringTable(libs) && |file| < U32
    ensures Accept(file, LibEntries(|head|, libs)[i]) == LibItem(libs[i])
  {
    hide Accept, LibItem, StringTable;
    var rest := StringTableAt(libs, i);
    Regroup(head, StringTable(libs[..i]), Stored(libs[i]), rest);
    AcceptStored(file, head + StringTable(libs[..i]), libs[i], rest);
  }

  lemma {:induction false} ItemsStored(head: Bytes, libs: seq<Lib>, file: Bytes)
    requires forall lib :: lib in libs ==> Storable(lib)
    requires file == head + StringTable(libs) && |file| < U32
    ensures Items(file, LibEntries(|head|, libs)) == Collect(LibItem, libs)
  {
    var entries := LibEntries(|head|, libs);
    forall i | 0 <= i < |libs| ensures Acceptor(file)(entries[i]) == LibItem(libs[i]) {
      ItemStored(head, libs, file, i);
    }
    CollectAgrees(Acceptor(file), LibItem, entries, libs);
  }

  lemma {:induction false} TableOfIsWellFormed(libs: seq<Lib>)
    requires forall lib :: lib in libs ==> Storable(lib)
    requires StringsStart(libs) + |StringTable(libs)| < U32
    ensures WellFormed(TableOf(libs))
  {
    forall i | 0 <= i < |libs| ensures Fits(LibEntries(StringsStart(libs), libs)[i]) { EntryFits(StringsStart(libs), libs, i); }
  }

  /** From a list of libraries to a cache file, old table included or not, and back. */
  lemma {:induction false} LibrariesRoundTrip(libs: seq<Lib>, data: Bytes)
    requires forall lib :: lib in libs ==> Storable(lib)
    requires StringsStart(libs) + |StringTable(libs)| < U32
    requires data == EncodeTable(TableOf(libs))
      || exists o :: OldWellFormed(o) && data == EncodeOld(o) + EncodeTable(TableOf(libs))
    ensures DecodeFile(data) == Some(TableOf(libs))
    ensures Items(NewPart(data), TableOf(libs).entries) == Collect(LibItem, libs)
  {
    var t := TableOf(libs);
    TableOfIsWellFormed(libs);
    FileDecodesIff(data, t);
    DecodeInvertsEncode(NewPart(data), t);
    var head := EncodeHeader(|t.entries|, t.tableSize, t.unused) + EncodeEntries(t.entries);
    assert |head| == StringsStart(libs);
    ItemsStored(head, libs, NewPart(data));
  }

  // ----- the two lists -----

  function PathIn(root: string): Item -> string { (item: Item) => JoinTwo(root, item.value) }

  function PathsOf(root: string, items: seq<Item>): seq<string> { Map(PathIn(root), items) }

  /** Whether the first item with a path has the given word size. */
  function FirstHas(root: string, items: seq<Item>, bits: nat): string -> bool {
    path => path in PathsOf(root, items) && items[FirstIndex(PathsOf(root, items), path)].bits == bits
  }

  /** The distinct paths whose first item has the given word size, in order. */
  function Listed(root: string, items: seq<Item>, bits: nat): seq<string> {
    Keep(Unique(PathsOf(root, items)), FirstHas(root, items, bits))
  }

  lemma FirstHasStays(root: string, items: seq<Item>, item: Item, bits: nat, path: string)
    requires path in PathsOf(root, items)
    ensures FirstHas(root, items + [item], bits)(path) == FirstHas(root, items, bits)(path)
  {
    MapSnoc(PathIn(root), items, item);
    var paths, more := PathsOf(root, items), PathsOf(root, items + [item]);
    var k := FirstIndex(paths, path);
    assert more[..k] == paths[..k] && more[k] == paths[k];
    FirstIndexIs(more, path, k);
  }

  lemma FirstHasNew(root: string, items: seq<Item>, item: Item, bits: nat)
    requires PathIn(root)(item) !in PathsOf(root, items)
    ensures FirstHas(root, items + [item], bits)(PathIn(root)(item)) <==> item.bits == bits
  {
    MapSnoc(PathIn(root), items, item);
    var paths, more := PathsOf(root, items), PathsOf(root, items + [item]);
    assert more[..|items|] == paths;
    FirstIndexIs(more, PathIn(root)(item), |items|);
  }

  lemma ListedSnoc(root: string, items: seq<Item>, item: Item, bits: nat)
    ensures var path, before := PathIn(root)(item), Listed(root, items, bits);
            Listed(root, items + [item], bits) ==
              if path !in PathsOf(root, items) && item.bits == bits then before + [path] else before
  {
    var path, paths := PathIn(root)(item), PathsOf(root, items);
    var was, now := FirstHas(root, items, bits), FirstHas(root, items + [item], bits);
    MapSnoc(PathIn(root), items, item);
    UniqueSnoc(paths, path);
    forall p | p in Unique(paths) ensures was(p) <==> now(p) { FirstHasStays(root, items, item, bits, p); }
    KeepSame(Unique(paths), was, now);
    if path !in paths {
      FirstHasNew(root, items, item, bits);
      KeepSnoc(Unique(paths), path, now);
    }
  }

  /** What the loop over the items collects. */
  function Placed(root: string, items: seq<Item>, bits: nat): seq<string> {
    if items == [] then [] else
      var init, item := items[..|items| - 1], items[|items| - 1];
      var path, before := PathIn(root)(item), Placed(root, init, bits);
      if path !in PathsOf(root, init) && item.bits == bits then before + [path] else before
  }

  lemma {:induction false} PlacedIsListed(root: string, items: seq<Item>, bits: nat)
    ensures Placed(root, items, bits) == Listed(root, items, bits)
  {
    if items == [] {
    } else {
      hide Listed, Placed;
      var init, item := items[..|items| - 1], items[|items| - 1];
      PlacedIsListed(root, init, bits);
      SnocAgrees(root, init, item, bits);
      assert items == init + [item];
    }
  }

  lemma {:induction false} SnocAgrees(root: string, init: seq<Item>, item: Item, bits: nat)
    requires Placed(root, init, bits) == Listed(root, init, bits)
    ensures Placed(root, init + [item], bits) == Listed(root, init + [item], bits)
  {
    assert (init + [item])[..|init|] == init;
    ListedSnoc(root, init, item, bits);
  }

  /** The lists are duplicate-free and disjoint, together hold every path, and keep the order of first occurrence. */
  lemma ListsPartition(root: string, items: seq<Item>)
    requires forall item :: item in items ==> HasWordSize(item)
    ensures NoDuplicates(Listed(root, items, 32)) && NoDuplicates(Listed(root, items, 64))
    ensures forall p :: p in Listed(root, items, 32) ==> p !in Listed(root, items, 64)
    ensures forall p :: p in PathsOf(root, items) <==> p in Listed(root, items, 32) || p in Listed(root, items, 64)
  {
    var paths := PathsOf(root, items);
    UniqueIsDistinct(paths);
    KeepDistinct(Unique(paths), FirstHas(root, items, 32));
    KeepDistinct(Unique(paths), FirstHas(root, items, 64));
    forall p | p in paths ensures FirstHas(root, items, 32)(p) || FirstHas(root, items, 64)(p) {
      assert items[FirstIndex(paths, p)] in items;
    }
  }

  // ----- the cache -----

  const BLANK := Entry(0, 0, 0, 0, 0)

  // ----- the format by its bytes -----

  function U32At(b: Bytes, offset: nat): nat
    requires offset + 4 <= |b|
  {
    b[offset] as nat + 0x100 * b[offset + 1] as nat + 0x1_0000 * b[offset + 2] as nat + 0x100_0000 * b[offset + 3] as nat
  }

  lemma {:induction false} NumberOfFour(b: Bytes)
    requires |b| == 4
    ensures Number(b) == U32At(b, 0)
  {
    assert b[1..][1..] == b[2..] && b[2..][1..] == b[3..] && b[3..][1..] == [];
    assert Number(b[3..]) == b[3] && Number(b[2..]) == b[2] + 256 * Number(b[3..]);
    assert Number(b[1..]) == b[1] + 256 * Number(b[2..]) && Number(b) == b[0] + 256 * Number(b[1..]);
  }

  lemma {:induction false} NumberAt(b: Bytes, offset: nat)
    requires offset + 4 <= |b|
    ensures Number(b[offset..offset + 4]) == U32At(b, offset)
  {
    NumberOfFour(b[offset..offset + 4]);
  }

  lemma {:induction false} NumberOfEight(b: Bytes)
    requires |b| == 8
    ensures Number(b) == U32At(b, 0) + U32 * U32At(b, 4)
  {
    NumberAppend(b[..4], b[4..]);
    assert b == b[..4] + b[4..];
    Widths();
    NumberOfFour(b[..4]);
    NumberOfFour(b[4..]);
  }

  lemma {:induction false} NumberAppend(a: Bytes, b: Bytes)
    ensures Number(a + b) == Number(a) + Power(256, |a|) * Number(b)
  {
    if a == [] {
      assert a + b == b;
    } else {
      assert (a + b)[1..] == a[1..] + b;
      NumberAppend(a[1..], b);
      assert Power(256, |a|) == 256 * Power(256, |a| - 1);
      Distribute(Number(a[1..]), Power(256, |a| - 1), Number(b));
    }
  }

  lemma Distribute(x: nat, p: nat, y: nat)
    ensures 256 * (x + p * y) == 256 * x + 256 * p * y
  {
  }

  lemma Magics()
    ensures Text(MAGIC1) == "ld.so-1.7.0" && Text(MAGIC2) == "glibc-ld.so.cache" && Text(VERSION) == "1.1"
  {
  }

  lemma TextInjective(a: Bytes, b: Bytes)
    ensures Text(a) == Text(b) <==> a == b
  {
    if Text(a) == Text(b) {
      forall i | 0 <= i < |a| ensures a[i] == b[i] { assert Text(a)[i] == Text(b)[i]; }
    }
  }

  /** The record at an offset: four numbers of four bytes and one of eight. */
  ghost predicate RecordAt(b: Bytes, offset: nat, e: Entry)
    requires offset + 24 <= |b|
  {
    && e.flags == U32At(b, offset) && e.key == U32At(b, offset + 4) && e.value == U32At(b, offset + 8)
    && e.osVersion == U32At(b, offset + 12)
    && e.hwCap == U32At(b, offset + 16) + 0x1_0000_0000 * U32At(b, offset + 20)
  }

  lemma {:induction false} EntryByBytes(b: Bytes)
    requires |b| == 24
    ensures RecordAt(b, 0, DecodeEntry(b))
  {
    NumberAt(b, 0);
    NumberAt(b, 4);
    NumberAt(b, 8);
    NumberAt(b, 12);
    NumberOfEight(b[16..]);
  }

  lemma {:induction false} EntriesByBytes(b: Bytes, n: nat, i: nat)
    requires |b| == 24 * n && i < n
    ensures RecordAt(b, 24 * i, DecodeEntries(b, n)[i])
  {
    hide RecordAt, DecodeEntry;
    if i == 0 {
      EntryByBytes(b[..24]);
      RecordWithin(b, 0, b[..24], 0, DecodeEntries(b, n)[0]);
    } else {
      var rest := b[24..];
      EntriesByBytes(rest, n - 1, i - 1);
      RecordWithin(b, 24 * i, rest, 24 * (i - 1), DecodeEntries(b, n)[i]);
    }
  }

  lemma U32Within(b: Bytes, offset: nat, part: Bytes, within: nat, k: nat)
    requires offset + 24 <= |b| && within + 24 <= |part| && part[within..within + 24] == b[offset..offset + 24]
    requires k + 4 <= 24
    ensures U32At(b, offset + k) == U32At(part, within + k)
  {
    var x, y := b[offset..offset + 24], part[within..within + 24];
    assert x[k] == y[k] && x[k + 1] == y[k + 1] && x[k + 2] == y[k + 2] && x[k + 3] == y[k + 3];
  }

  lemma RecordWithin(b: Bytes, offset: nat, part: Bytes, within: nat, e: Entry)
    requires offset + 24 <= |b| && within + 24 <= |part| && part[within..within + 24] == b[offset..offset + 24]
    requires RecordAt(part, within, e)
    ensures RecordAt(b, offset, e)
  {
    U32Within(b, offset, part, within, 0);
    U32Within(b, offset, part, within, 4);
    U32Within(b, offset, part, within, 8);
    U32Within(b, offset, part, within, 12);
    U32Within(b, offset, part, within, 16);
    U32Within(b, offset, part, within, 20);
  }

  /** A text is a new table exactly when it starts as one and holds the records it announces. */
  ghost predicate IsTable(b: Bytes) {
    && |b| >= 48 && Text(b[..17]) == "glibc-ld.so.cache" && Text(b[17..20]) == "1.1" && |b| >= 48 + 24 * U32At(b, 20)
  }

  lemma {:induction false} TableByBytes(b: Bytes)
    ensures DecodeTable(b).Some? <==> IsTable(b)
    ensures DecodeTable(b).Some? ==>
      var t, n := DecodeTable(b).value, U32At(b, 20);
      && |t.entries| == n && (forall i :: 0 <= i < n ==> RecordAt(b, 48 + 24 * i, t.entries[i]))
      && t.tableSize == U32At(b, 24) && t.unused == b[28..48] && t.strings == b[48 + 24 * n..]
  {
    hide DecodeEntries, RecordAt, Number;
    if |b| >= 48 {
      var head := b[..48];
      Magics();
      TextInjective(b[..17], MAGIC2);
      TextInjective(b[17..20], VERSION);
      assert head[..17] == b[..17] && head[17..20] == b[17..20] && head[28..] == b[28..48];
      assert head[20..24] == b[20..24] && head[24..28] == b[24..28];
      NumberAt(b, 20);
      NumberAt(b, 24);
      if DecodeTable(b).Some? {
        var n, rest := U32At(b, 20), b[48..];
        var size := 24 * n;
        assert rest[size..] == b[48 + 24 * n..];
        forall i | 0 <= i < n ensures RecordAt(b, 48 + 24 * i, DecodeTable(b).value.entries[i]) {
          EntriesByBytes(rest[..size], n, i);
          RecordWithin(b, 48 + 24 * i, rest[..size], 24 * i, DecodeTable(b).value.entries[i]);
        }
      }
    }
  }

  /** After an old table of `n` records the new one starts at the next multiple of eight. */
  lemma {:induction false} NewPartByBytes(data: Bytes) returns (start: nat)
    ensures start % 8 == 0
    ensures if |data| > 16 && Text(data[..11]) == "ld.so-1.7.0" then
              16 + 12 * U32At(data, 12) <= start < 16 + 12 * U32At(data, 12) + 8
            else start == 0
    ensures NewPart(data) == if start <= |data| then data[start..] else []
  {
    hide Number;
    start := 0;
    if |data| > 16 {
      Magics();
      TextInjective(data[..11], MAGIC1);
      NumberAt(data, 12);
      if StartsOld(data) { start := OldPartSize(U32At(data, 12)); }
    }
  }

  /** What the flags say: the lowest bit, and the byte above the lowest. */
  lemma FlagsByBytes(low: Byte, arch: Byte, rest: nat)
    ensures var flags := low + 0x100 * arch + 0x1_0000 * rest;
      && (IsElf(flags) <==> low % 2 == 1)
      && Bits(flags) == if arch in {3, 5, 10} then Some(64) else if arch in {0, 8, 9} then Some(32) else None
  {
    var flags := low + 0x100 * arch + 0x1_0000 * rest;
    assert flags == low + 0x100 * (arch + 0x100 * rest);
    assert flags % 0x100 == low && flags / 0x100 == arch + 0x100 * rest;
  }

  /** A text ends at its zero; without one it counts as empty. */
  lemma {:induction false} TextUpToZero(s: Bytes, rest: Bytes)
    requires 0 !in s
    ensures BytesToString(s + [0] + rest) == Text(s) && BytesToString(s) == ""
  {
    IndexZeroAfter(s, rest);
    assert (s + [0] + rest)[..|s|] == s;
    assert forall i :: 0 <= i < |s| ==> s[i] in s;
  }

  /** Which entries give a library: in range, ELF, of a known architecture, with a name and a value. */
  lemma AcceptedIff(libs: Bytes, e: Entry, item: Item)
    ensures Accept(libs, e) == Some(item) <==>
      && e.key <= |libs| % 0x1_0000_0000 && e.value <= |libs| % 0x1_0000_0000
      && IsElf(e.flags) && Bits(e.flags) == Some(item.bits)
      && item.libname == BytesToString(libs[e.key..]) != "" && item.value == BytesToString(libs[e.value..]) != ""
  {
    hide Bits, IsElf, BytesToString;
  }

  /** Libraries are listed under the root. */
  lemma PathByText(root: string, item: Item)
    requires item.value != ""
    ensures PathIn(root)(item) == if root == "" then Clean(item.value) else Clean(root + "/" + item.value)
  {
    JoinTwoOf(root, item.value);
    JoinTwoOf(item.value, "");
  }

  class Cache {
    const data: Bytes
    const root: string
    var pos: nat
    var libs: Bytes
    var entries: seq<Entry>

    constructor (data: Bytes, root: string)
      ensures this.data == data && this.root == root
      ensures pos == 0 && libs == [] && entries == []
    {
      this.data, this.root := data, root;
      pos, libs, entries := 0, [], [];
    }

    function Len(): nat
      reads this
    {
      if pos >= |data| then 0 else |data| - pos
    }

    /** Reads exactly `n` bytes; on failure everything is consumed. */
    method Read(n: nat) returns (r: Result<Bytes>)
      modifies this`pos
      ensures r.Ok? <==> n == 0 || old(pos) + n <= |data|
      ensures r.Ok? ==> pos == old(pos) + n && |r.value| == n
      ensures r.Ok? && pos <= |data| ==> r.value == data[old(pos)..pos]
    {
      if n == 0 { return Ok([]); }
      if pos + n > |data| {
        pos := if pos > |data| then pos else |data|;
        return Err("unexpected EOF");
      }
      r := Ok(data[pos..pos + n]);
      pos := pos + n;
    }

    /** Moves past an old table and its padding, if there is one. */
    method SkipOldTable()
      requires pos == 0 && |data| > OLD_HEADER_SIZE
      modifies this`pos
      ensures data[|data| - Len()..] == NewPart(data)
    {
      if data[..|MAGIC1|] == MAGIC1 {
        var header := Read(OLD_HEADER_SIZE);
        assert header.value[12..16] == data[12..16];
        pos := pos + Number(header.value[12..16]) * OLD_ENTRY_SIZE;
        pos := pos + Padding(pos);
      }
    }

    /** Reads the header and the entries. */
    method ReadTable() returns (error: Option<string>)
      requires libs == data[|data| - Len()..] && entries == []
      modifies this`pos, this`entries
      ensures error.None? <==> DecodeTable(libs).Some?
      ensures error.None? ==> DecodeTable(libs).value.entries == entries
      ensures error.Some? ==> forall e :: e in entries ==> !IsElf(e.flags)
    {
      var bytes := Read(HEADER_SIZE);
      if bytes.Err? { return Some(bytes.message); }
      assert bytes.value == libs[..HEADER_SIZE];
      var header := DecodeHeader(bytes.value);
      if header.magic != MAGIC2 || header.version != VERSION { return Some("invalid ld.so.cache file"); }
      var size := ENTRY_SIZE * header.nLibs;
      entries := seq(header.nLibs, _ => BLANK);
      var table := Read(size);
      if table.Err? { return Some(table.message); }
      assert table.value == libs[HEADER_SIZE..][..size];
      entries := DecodeEntries(table.value, header.nLibs);
      return None;
    }

    /** Accepts exactly the files that decode; a cache that failed to parse has no ELF entry. */
    method Parse() returns (error: Option<string>)
      requires pos == 0 && entries == []
      modifies this
      ensures error.None? <==> DecodeFile(data).Some?
      ensures error.None? ==> libs == NewPart(data) && DecodeFile(data).value.entries == entries
      ensures error.Some? ==> forall e :: e in entries ==> !IsElf(e.flags)
    {
      if Len() <= OLD_HEADER_SIZE { return Some("invalid ld.so.cache file"); }
      SkipOldTable();
      libs := data[|data| - Len()..];
      error := ReadTable();
    }

    method GetEntries() returns (items: seq<Item>)
      ensures items == Items(libs, entries)
    {
      items := [];
      for i := 0 to |entries|
        invariant items == Items(libs, entries[..i])
      {
        assert entries[..i + 1][..i] == entries[..i];
        var e := entries[i];
        if !IsElf(e.flags) { continue; }
        var bits := Bits(e.flags);
        if bits.None? { continue; }
        if !InRange(libs, e.key) || !InRange(libs, e.value) { continue; }
        var lib := BytesToString(libs[e.key..]);
        if lib == "" { continue; }
        var value := BytesToString(libs[e.value..]);
        if value == "" { continue; }
        items := items + [Item(lib, bits.value, value)];
      }
      assert entries[..|entries|] == entries;
    }

    /** The 32-bit and the 64-bit libraries. */
    method List() returns (libs32: seq<string>, libs64: seq<string>)
      ensures libs32 == Listed(root, Items(libs, entries), 32)
      ensures libs64 == Listed(root, Items(libs, entries), 64)
    {
      var items := GetEntries();
      ItemsHaveWordSizes(libs, entries);
      libs32, libs64 := Place(root, items);
      PlacedIsListed(root, items, 32);
      PlacedIsListed(root, items, 64);
    }
  }

  /** Puts each path into the list of its first item's word size. */
  method Place(root: string, items: seq<Item>) returns (libs32: seq<string>, libs64: seq<string>)
    requires forall item :: item in items ==> HasWordSize(item)
    ensures libs32 == Placed(root, items, 32) && libs64 == Placed(root, items, 64)
  {
    var paths: map<nat, seq<string>> := map[32 := [], 64 := []];
    var processed: set<string> := {};
    for i := 0 to |items|
      invariant paths.Keys == {32, 64}
      invariant paths[32] == Placed(root, items[..i], 32) && paths[64] == Placed(root, items[..i], 64)
      invariant forall p :: p in processed <==> p in PathsOf(root, items[..i])
    {
      assert items[..i + 1][..i] == items[..i];
      assert PathsOf(root, items[..i + 1]) == PathsOf(root, items[..i]) + [PathIn(root)(items[i])];
      var path := PathIn(root)(items[i]);
      if path in processed { continue; }
      assert items[i] in items;
      paths := paths[items[i].bits := paths[items[i].bits] + [path]];
      processed := processed + {path};
    }
    assert items[..|items|] == items;
    return paths[32], paths[64];
  }
}
