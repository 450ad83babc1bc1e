/** GPT partition entries (`drivers/partition/gpt.c`, `partition.c`); the entry layout
    is that of section 5.3.3 of the UEFI Specification. */
module Gpt {
  import opened Words
  import opened Crc32
  import opened Streams

  const ENTRY_SIZE: nat := 128
  const EFI_NAMELEN: nat := 36

  type Entry = e: seq<Byte> | |e| == ENTRY_SIZE witness Zeroes(ENTRY_SIZE)

  /** The fields of the GPT header that the entry loader uses. */
  datatype Header = Header(firstLba: Word64, lastLba: Word64, partLba: Word64, listNum: Word32, partCrc: Word32)

  datatype Partition = Partition(
    start: Word64, length: Word64, name: seq<Byte>, typeGuid: seq<Byte>, partGuid: seq<Byte>)

  function TypeGuid(e: Entry): seq<Byte> { e[0..16] }
  function UniqueGuid(e: Entry): seq<Byte> { e[16..32] }
  function FirstLba(e: Entry): nat { LittleEndian(e[32..40]) }
  function LastLba(e: Entry): nat { LittleEndian(e[40..48]) }
  function Attributes(e: Entry): nat { LittleEndian(e[48..56]) }
  function Name(e: Entry): (name: seq<Byte>)
    ensures |name| == 2 * EFI_NAMELEN
  {
    e[56..128]
  }

  // ---- Names --------------------------------------------------------------

  /** `ascii` is the name up to its first NUL, at most the whole of it. */
  ghost predicate IsAscii(name: seq<Byte>, ascii: seq<Byte>)
    requires |name| == 2 * EFI_NAMELEN
  {
    && |ascii| <= EFI_NAMELEN
    && (forall i :: 0 <= i < EFI_NAMELEN ==> name[2 * i + 1] == 0)
    && (forall i :: 0 <= i < |ascii| ==> ascii[i] == name[2 * i] && ascii[i] != 0)
    && (|ascii| < EFI_NAMELEN ==> name[2 * |ascii|] == 0)
  }

  predicate HighBytesZero(name: seq<Byte>)
    requires |name| == 2 * EFI_NAMELEN
  {
    forall i :: 0 <= i < EFI_NAMELEN ==> name[2 * i + 1] == 0
  }

  /** The low bytes of the characters up to the first NUL. */
  function LowBytes(name: seq<Byte>): (ascii: seq<Byte>)
    ensures 2 * |ascii| <= |name|
  {
    if |name| < 2 || name[0] == 0 then [] else [name[0]] + LowBytes(name[2..])
  }

  lemma {:induction false} LowBytesAt(name: seq<Byte>, k: nat)
    requires |name| % 2 == 0 && k <= |LowBytes(name)|
    ensures k < |LowBytes(name)| ==> LowBytes(name)[k] == name[2 * k] && name[2 * k] != 0
    ensures k == |LowBytes(name)| && 2 * k < |name| ==> name[2 * k] == 0
    decreases |name|
  {
    if |name| >= 2 && name[0] != 0 { LowBytesAt(name[2..], if k > 0 then k - 1 else 0); }
  }

  lemma LowBytesIsAscii(name: seq<Byte>)
    requires |name| == 2 * EFI_NAMELEN && HighBytesZero(name)
    ensures IsAscii(name, LowBytes(name))
  {
    var ascii := LowBytes(name);
    forall k | 0 <= k < |ascii| ensures ascii[k] == name[2 * k] && ascii[k] != 0 { LowBytesAt(name, k); }
    LowBytesAt(name, |ascii|);
  }

  /** The first loop of `unicode_to_ascii`. */
  method CheckHighBytes(name: seq<Byte>) returns (ok: bool)
    requires |name| == 2 * EFI_NAMELEN
    ensures ok == HighBytesZero(name)
  {
    var i := 0;
    while i < EFI_NAMELEN
      invariant i <= EFI_NAMELEN
      invariant forall k :: 0 <= k < i ==> name[2 * k + 1] == 0
    {
      if name[2 * i + 1] != 0 { return false; }
      i := i + 1;
    }
    return true;
  }

  lemma {:induction false} LowBytesNext(name: seq<Byte>, i: nat, text: seq<Byte>)
    requires 2 * i + 2 <= |name| && LowBytes(name) == text + LowBytes(name[2 * i..])
    ensures name[2 * i] == 0 ==> LowBytes(name) == text
    ensures name[2 * i] != 0 ==> LowBytes(name) == text + [name[2 * i]] + LowBytes(name[2 * i + 2..])
  {
    var rest := name[2 * i..];
    assert rest[0] == name[2 * i] && rest[2..] == name[2 * i + 2..];
    assert name[2 * i] != 0 ==> text + ([rest[0]] + LowBytes(rest[2..])) == text + [rest[0]] + LowBytes(rest[2..]);
  }

  /** The second loop of `unicode_to_ascii`. */
  method CopyLowBytes(name: seq<Byte>) returns (text: seq<Byte>)
    requires |name| == 2 * EFI_NAMELEN
    ensures text == LowBytes(name)
  {
    text := [];
    var i := 0;
    assert name[0..] == name;
    while i < EFI_NAMELEN
      invariant i <= EFI_NAMELEN
      invariant LowBytes(name) == text + LowBytes(name[2 * i..])
    {
      LowBytesNext(name, i, text);
      if name[2 * i] == 0 { return; }
      text := text + [name[2 * i]];
      i := i + 1;
    }
  }

  /** `unicode_to_ascii` past its assertion. */
  method UnicodeToAscii(name: seq<Byte>) returns (ascii: Option<seq<Byte>>)
    requires |name| == 2 * EFI_NAMELEN
    ensures ascii.Some? <==> HighBytesZero(name)
    ensures ascii.Some? ==> IsAscii(name, ascii.value) && ascii.value == LowBytes(name)
  {
    var ok := CheckHighBytes(name);
    if !ok { return None; }
    var text := CopyLowBytes(name);
    LowBytesIsAscii(name);
    return Some(text);
  }

  // ---- One entry ----------------------------------------------------------

  datatype Parsed = Found(partition: Partition) | Empty | Invalid | Stopped

  predicate AllZero(e: Entry) {
    && TypeGuid(e) == Zeroes(16) && UniqueGuid(e) == Zeroes(16)
    && FirstLba(e) == 0 && LastLba(e) == 0 && Attributes(e) == 0
    && Name(e) == Zeroes(2 * EFI_NAMELEN)
  }

  predicate InRange(h: Header, e: Entry) {
    && TypeGuid(e) != Zeroes(16) && UniqueGuid(e) != Zeroes(16)
    && FirstLba(e) != 0 && LastLba(e) != 0
    && h.firstLba <= FirstLba(e) <= LastLba(e) <= h.lastLba
  }

  /** `parse_gpt_entry`. */
  function Parse(h: Header, blockSize: nat, e: Entry): (p: Parsed) {
    if AllZero(e) then Empty
    else if !InRange(h, e) then Invalid
    else if Name(e)[0] == 0 then Stopped
    else if !HighBytesZero(Name(e)) then Invalid
    else
      Found(Partition(FirstLba(e) * blockSize % TWO_64, (LastLba(e) - FirstLba(e) + 1) * blockSize % TWO_64,
                      LowBytes(Name(e)), TypeGuid(e), UniqueGuid(e)))
  }

  /** An entry counts as unused exactly when its bytes are all zero. */
  lemma EmptyIffZeroBytes(h: Header, blockSize: nat, e: Entry)
    ensures Parse(h, blockSize, e).Empty? <==> e == Zeroes(ENTRY_SIZE)
  {
    if AllZero(e) { AllZeroBytes(e); }
    if e == Zeroes(ENTRY_SIZE) { ZeroBytesAllZero(e); }
  }

  lemma AllZeroBytes(e: Entry)
    requires AllZero(e)
    ensures e == Zeroes(ENTRY_SIZE)
  {
    LittleEndianZero(e[32..40]);
    LittleEndianZero(e[40..48]);
    LittleEndianZero(e[48..56]);
    assert e == e[0..16] + e[16..32] + e[32..40] + e[40..48] + e[48..56] + e[56..128];
    assert Zeroes(16) + Zeroes(16) + Zeroes(8) + Zeroes(8) + Zeroes(8) + Zeroes(72) == Zeroes(128);
  }

  lemma ZeroBytesAllZero(e: Entry)
    requires e == Zeroes(ENTRY_SIZE)
    ensures AllZero(e)
  {
    LittleEndianZero(e[32..40]);
    LittleEndianZero(e[40..48]);
    LittleEndianZero(e[48..56]);
  }

  lemma {:induction false} LittleEndianZero(data: seq<Byte>)
    ensures LittleEndian(data) == 0 <==> data == Zeroes(|data|)
    decreases |data|
  {
    if data != [] {
      LittleEndianZero(data[1..]);
      assert data == [data[0]] + data[1..];
      assert Zeroes(|data|) == [0] + Zeroes(|data| - 1);
    }
  }

  /** A used entry lies in the header's usable range and carries its own name. */
  lemma FoundIsUsable(h: Header, blockSize: nat, e: Entry)
    requires Parse(h, blockSize, e).Found?
    ensures h.firstLba <= FirstLba(e) <= LastLba(e) <= h.lastLba
    ensures IsAscii(Name(e), Parse(h, blockSize, e).partition.name) && Parse(h, blockSize, e).partition.name != []
  {
    LowBytesIsAscii(Name(e));
  }

  /** The partition is where the entry says exactly when neither byte count overflows 64
      bits, in particular when its last block ends within them. */
  lemma FoundPlacement(h: Header, blockSize: nat, e: Entry)
    requires Parse(h, blockSize, e).Found?
    ensures
      var p, n := Parse(h, blockSize, e).partition, LastLba(e) - FirstLba(e) + 1;
      p.start == FirstLba(e) * blockSize && p.length == n * blockSize <==>
      FirstLba(e) * blockSize < TWO_64 && n * blockSize < TWO_64
    ensures
      var p := Parse(h, blockSize, e).partition;
      (LastLba(e) + 1) * blockSize <= TWO_64 ==>
      p.start == FirstLba(e) * blockSize && p.start + p.length == (LastLba(e) + 1) * blockSize
  {
    var f, n, p := FirstLba(e), LastLba(e) - FirstLba(e) + 1, Parse(h, blockSize, e).partition;
    assert f > 0 && n > 0 && f + n == LastLba(e) + 1;
    assert p.start == f * blockSize % TWO_64 && p.length == n * blockSize % TWO_64;
    WrapIff(f * blockSize);
    WrapIff(n * blockSize);
    if (f + n) * blockSize <= TWO_64 { ProductsFit(f, n, blockSize); }
  }

  /** An entry made of its fields. */
  function Assembled(
    typeGuid: seq<Byte>, guid: seq<Byte>, first: seq<Byte>, last: seq<Byte>, attr: seq<Byte>, name: seq<Byte>): Entry
    requires |typeGuid| == 16 && |guid| == 16 && |first| == 8 && |last| == 8 && |attr| == 8 && |name| == 72
  {
    typeGuid + guid + first + last + attr + name
  }

  lemma AssembledFields(
    typeGuid: seq<Byte>, guid: seq<Byte>, first: seq<Byte>, last: seq<Byte>, attr: seq<Byte>, name: seq<Byte>)
    requires |typeGuid| == 16 && |guid| == 16 && |first| == 8 && |last| == 8 && |attr| == 8 && |name| == 72
    ensures
      var e := Assembled(typeGuid, guid, first, last, attr, name);
      && TypeGuid(e) == typeGuid && UniqueGuid(e) == guid && Name(e) == name
      && FirstLba(e) == LittleEndian(first) && LastLba(e) == LittleEndian(last)
      && Attributes(e) == LittleEndian(attr)
  {
    var e := Assembled(typeGuid, guid, first, last, attr, name);
    assert e[32..40] == first && e[40..48] == last && e[48..56] == attr;
  }

  /** Neither identifier is zero, and the blocks are in the header's range. */
  predicate Sound(h: Header, typeGuid: seq<Byte>, guid: seq<Byte>, first: nat, last: nat) {
    && typeGuid != Zeroes(16) && guid != Zeroes(16)
    && 0 < first && h.firstLba <= first <= last <= h.lastLba
  }

  /** Every second byte of the name is zero. */
  predicate Plain(name: seq<Byte>)
    requires |name| == 72
  {
    forall i :: 0 <= i < 36 ==> name[2 * i + 1] == 0
  }

  /** Exactly what becomes of an entry, from its bytes. A sound one with a plain name holds a
      partition, whatever its attributes; a sound one with an empty name stops the loader. */
  lemma ParseIff(h: Header, blockSize: nat, e: Entry)
    ensures
      var p, typeGuid, guid, name := Parse(h, blockSize, e), e[0..16], e[16..32], e[56..128];
      var f, l := LittleEndian(e[32..40]), LittleEndian(e[40..48]);
      && (p.Found? <==> Sound(h, typeGuid, guid, f, l) && name[0] != 0 && Plain(name))
      && (p.Stopped? <==> Sound(h, typeGuid, guid, f, l) && name[0] == 0)
      && (p.Found? ==>
            && p.partition.start == f * blockSize % TWO_64 && p.partition.length == (l - f + 1) * blockSize % TWO_64
            && p.partition.typeGuid == typeGuid && p.partition.partGuid == guid && IsAscii(name, p.partition.name))
  {
    if HighBytesZero(Name(e)) { LowBytesIsAscii(Name(e)); }
  }

  /** An entry at block 2^63, with the name "A". */
  function FarEntry(): Entry {
    var guid, lba := [1] + Zeroes(15), Zeroes(7) + [0x80];
    Assembled(guid, guid, lba, lba, Zeroes(8), [65] + Zeroes(71))
  }

  lemma {:induction false} TopByte(n: nat)
    ensures LittleEndian(Zeroes(n) + [0x80]) == Limit(n) * 0x80
    decreases n
  {
    var data := Zeroes(n) + [0x80];
    if n == 0 {
      assert data == [0x80] && LittleEndian([]) == 0;
    } else {
      assert data[1..] == Zeroes(n - 1) + [0x80];
      TopByte(n - 1);
    }
  }

  lemma FarLba()
    ensures LittleEndian(Zeroes(7) + [0x80]) == 0x8000_0000_0000_0000
  {
    TopByte(7);
    assert Limit(1) == 0x100 && Limit(3) == 0x100_0000 && Limit(5) == 0x100_0000_0000;
  }

  /** A concrete failure: with blocks of 512 bytes the partition is published at byte 0. */
  lemma FarPartitionWraps(h: Header)
    requires h.firstLba == 1 && h.lastLba == TWO_64 - 1
    ensures
      var p := Parse(h, 512, FarEntry());
      p.Found? && p.partition.start == 0 && FirstLba(FarEntry()) * 512 != 0
  {
    var guid: seq<Byte>, lba: seq<Byte>, name: seq<Byte> := [1] + Zeroes(15), Zeroes(7) + [0x80], [65] + Zeroes(71);
    AssembledFields(guid, guid, lba, lba, Zeroes(8), name);
    FarLba();
    assert guid[0] == 1 && name[0] == 65;
    assert HighBytesZero(name);
    FarParse(h, FarEntry(), guid, name);
  }

  lemma FarParse(h: Header, e: Entry, guid: seq<Byte>, name: seq<Byte>)
    requires h.firstLba == 1 && h.lastLba == TWO_64 - 1
    requires TypeGuid(e) == guid && UniqueGuid(e) == guid && |guid| == 16 && guid[0] == 1
    requires FirstLba(e) == LastLba(e) == 0x8000_0000_0000_0000
    requires Name(e) == name && name[0] == 65 && HighBytesZero(name)
    ensures Parse(h, 512, e).Found? && Parse(h, 512, e).partition.start == 0
  {
    assert Zeroes(16)[0] == 0;
  }

  lemma WrapIff(x: nat)
    ensures x % TWO_64 == x <==> x < TWO_64
  {
  }

  lemma ProductsFit(f: nat, n: nat, b: nat)
    requires f > 0 && n > 0 && (f + n) * b <= TWO_64
    ensures f * b % TWO_64 == f * b && f * b + n * b % TWO_64 == (f + n) * b
  {
    var x, y := f * b, n * b;
    assert (f + n) * b == x + y;
    if b == 0 { assert x == 0 && y == 0; } else { assert x > 0 && y > 0; }
    assert x < TWO_64 && y < TWO_64;
  }

  // ---- The entry array ------------------------------------------------------

  datatype Result =
    | Ok
    | SeekFailed | ReadFailed      // the device refused or came up short
    | BadEntry                     // an entry is neither unused nor valid
    | NoEntries                    // the first entry is unused
    | BadCrc                       // the array's CRC is not the header's
    | Halt                         // gpt.c:26

  /** `LBA(n)` in `unsigned long long`, taken as a `signed long long`. */
  function Offset(h: Header, blockSize: nat): int {
    Signed(h.partLba * blockSize)
  }

  function Signed(x: nat): int {
    var w := x % TWO_64;
    if w < TWO_64 / 2 then w else w - TWO_64
  }

  /** The loader looks for the array where the header says exactly when that is below 2^63. */
  lemma OffsetExactIff(h: Header, blockSize: nat)
    ensures Offset(h, blockSize) == h.partLba * blockSize <==> h.partLba * blockSize < 0x8000_0000_0000_0000
  {
    SignedExactIff(h.partLba * blockSize);
  }

  /** A concrete failure: an array at block 2^63 is looked for at byte 0. */
  lemma FarArrayWraps(h: Header)
    requires h.partLba == 0x8000_0000_0000_0000
    ensures Offset(h, 512) == 0
  {
  }

  lemma SignedExactIff(x: nat)
    ensures Signed(x) == x <==> x < TWO_64 / 2
  {
    WrapIff(x);
  }

  /** The first `n` entries of the array are there to be read. */
  predicate Holds(content: seq<Byte>, at: int, n: nat) {
    0 <= at && (n == 0 || at + 128 * n <= |content|)
  }

  function EntryAt(content: seq<Byte>, at: int, k: nat): Entry
    requires Holds(content, at, k + 1)
  {
    content[at + 128 * k..at + 128 * (k + 1)]
  }

  function Entries(content: seq<Byte>, at: int, n: nat): seq<Byte>
    requires Holds(content, at, n)
  {
    if n == 0 then [] else content[at..at + 128 * n]
  }

  /** `crc` is the CRC over `data` so far: going on from it gives the CRC of the whole. */
  ghost predicate RunningCrc(data: seq<Byte>, crc: Word32) {
    forall more: seq<Byte> {:trigger GoOn(crc, more)} :: GoOn(crc, more) == Crc(0, data + more)
  }

  ghost function GoOn(crc: Word32, more: seq<Byte>): Word32 {
    Crc(crc, more)
  }

  lemma RunningCrcStart()
    ensures RunningCrc([], 0)
  {
    forall more: seq<Byte> ensures GoOn(0, more) == Crc(0, [] + more) {
      assert [] + more == more;
    }
  }

  lemma RunningCrcNext(data: seq<Byte>, crc: Word32, x: seq<Byte>)
    requires RunningCrc(data, crc)
    ensures RunningCrc(data + x, Crc(crc, x))
  {
    forall more: seq<Byte> ensures GoOn(Crc(crc, x), more) == Crc(0, data + x + more) {
      CrcConcat(crc, x, more);
      assert GoOn(crc, x + more) == Crc(0, data + (x + more));
      assert data + (x + more) == data + x + more;
    }
  }

  lemma RunningCrcIsCrc(data: seq<Byte>, crc: Word32)
    requires RunningCrc(data, crc)
    ensures crc == Crc(0, data)
  {
    assert GoOn(crc, []) == crc;
    assert data + [] == data;
  }

  lemma EntriesGrow(content: seq<Byte>, at: int, k: nat)
    requires Holds(content, at, k + 1)
    ensures Entries(content, at, k) + EntryAt(content, at, k) == Entries(content, at, k + 1)
  {
  }

  /** Entries `0..n` all hold valid partitions, and `list` has them in order. */
  ghost predicate Prefix(content: seq<Byte>, at: int, h: Header, blockSize: nat, list: seq<Partition>, n: nat) {
    && n <= |list| && Holds(content, at, n)
    && forall k {:trigger Slot(list, k)} :: 0 <= k < n ==>
         Parse(h, blockSize, EntryAt(content, at, k)) == Found(Slot(list, k))
  }

  function Slot(list: seq<Partition>, k: nat): Partition
    requires k < |list|
  {
    list[k]
  }

  lemma PrefixGrows(content: seq<Byte>, at: int, h: Header, blockSize: nat, list: seq<Partition>, n: nat, p: Partition)
    requires Prefix(content, at, h, blockSize, list, n) && n < |list| && Holds(content, at, n + 1)
    requires Parse(h, blockSize, EntryAt(content, at, n)) == Found(p)
    ensures Prefix(content, at, h, blockSize, list[n := p], n + 1)
  {
    var grown := list[n := p];
    forall k: nat | k < n + 1 ensures Parse(h, blockSize, EntryAt(content, at, k)) == Found(Slot(grown, k)) {
      if k < n { assert Slot(grown, k) == Slot(list, k); }
    }
  }

  function Clamp(h: Header, room: nat): nat {
    if h.listNum <= room then h.listNum else room
  }

  /** What a load tells: on success the CRC covers all the header's entries, each once
      and in order, and the published list is the longest run of used entries that
      fits; each refusal names something wrong with the table, or with the device. */
  ghost predicate LoadOutcome(
    content: seq<Byte>, reliable: bool, at: int, h: Header, blockSize: nat, cap: nat,
    list: seq<Partition>, count: nat, result: Result)
  {
    match result
    case Ok =>
      && Holds(content, at, h.listNum) && h.partCrc == Crc(0, Entries(content, at, h.listNum))
      && 0 < count <= cap <= h.listNum && Prefix(content, at, h, blockSize, list, count)
      && (count < cap ==> EntryAt(content, at, count) == Zeroes(ENTRY_SIZE))
    case BadCrc =>
      Holds(content, at, h.listNum) && h.partCrc != Crc(0, Entries(content, at, h.listNum))
    case NoEntries =>
      cap == 0 || (Holds(content, at, 1) && EntryAt(content, at, 0) == Zeroes(ENTRY_SIZE))
    case BadEntry =>
      exists k: nat :: k < cap && RejectedAt(content, at, h, blockSize, list, k, Invalid)
    case Halt =>
      exists k: nat :: k < cap && RejectedAt(content, at, h, blockSize, list, k, Stopped)
    case SeekFailed => !reliable || at < 0 || |content| >= TWO_64 / 2
    case ReadFailed => !reliable || !Holds(content, at, h.listNum)
  }

  /** Every published partition lies in the range the header declares usable. */
  lemma PublishedAreUsable(
    content: seq<Byte>, reliable: bool, at: int, h: Header, blockSize: nat, cap: nat,
    list: seq<Partition>, count: nat, k: nat)
    requires LoadOutcome(content, reliable, at, h, blockSize, cap, list, count, Ok) && k < count
    ensures
      var e := EntryAt(content, at, k);
      && h.firstLba <= FirstLba(e) <= LastLba(e) <= h.lastLba
      && list[k].typeGuid == TypeGuid(e) && list[k].partGuid == UniqueGuid(e) && IsAscii(Name(e), list[k].name)
  {
    assert Parse(h, blockSize, EntryAt(content, at, k)) == Found(Slot(list, k));
    FoundIsUsable(h, blockSize, EntryAt(content, at, k));
  }

  ghost predicate RejectedAt(
    content: seq<Byte>, at: int, h: Header, blockSize: nat, list: seq<Partition>, k: nat, why: Parsed)
  {
    Prefix(content, at, h, blockSize, list, k) && Holds(content, at, k + 1)
    && Parse(h, blockSize, EntryAt(content, at, k)) == why
  }

  class PartitionTable {
    const blockSize: nat
    const list: array<Partition>
    var entryCount: nat

    constructor (blockSize: nat, list: array<Partition>)
      ensures this.blockSize == blockSize && this.list == list && entryCount == 0
    {
      this.blockSize, this.list := blockSize, list;
      entryCount := 0;
    }

    /** The end of `load_gpt_header`: the count is clamped to what the platform has room for. */
    method ClampCount(h: Header)
      modifies this
      ensures entryCount == Clamp(h, list.Length)
      ensures entryCount <= list.Length && entryCount <= h.listNum
    {
      entryCount := h.listNum;
      if entryCount > list.Length { entryCount := list.Length; }
    }

    /** `load_gpt_entry`. */
    method LoadEntry(s: Stream, ghost at: int, ghost k: nat) returns (entry: Option<Entry>)
      requires 0 <= at && s.pos == at + 128 * k
      modifies s
      ensures s.reliable && Holds(s.content, at, k + 1) ==> entry.Some?
      ensures entry.Some? ==> Holds(s.content, at, k + 1) && entry.value == EntryAt(s.content, at, k)
                              && s.pos == at + 128 * (k + 1)
    {
      var ok, data := s.Read(ENTRY_SIZE);
      if !ok || |data| != ENTRY_SIZE { return None; }
      return Some(data);
    }

    /** `parse_gpt_entry`, with the name converted by `unicode_to_ascii`. */
    method ParseGptEntry(h: Header, e: Entry) returns (parsed: Parsed)
      ensures parsed == Parse(h, blockSize, e)
    {
      if AllZero(e) { return Empty; }
      if !InRange(h, e) { return Invalid; }
      if Name(e)[0] == 0 { return Stopped; }
      var ascii := UnicodeToAscii(Name(e));
      if ascii.None? { return Invalid; }
      return Found(Partition(FirstLba(e) * blockSize % TWO_64, (LastLba(e) - FirstLba(e) + 1) * blockSize % TWO_64,
                             ascii.value, TypeGuid(e), UniqueGuid(e)));
    }

    /** One turn of the first loop: read an entry and, if it is a valid partition, keep it. */
    method ScanOne(s: Stream, h: Header, at: int, i: nat, crc: Word32) returns (parsed: Option<Parsed>, calcCrc: Word32)
      requires 0 <= at && s.pos == at + 128 * i && i < list.Length
      requires Prefix(s.content, at, h, blockSize, list[..], i) && RunningCrc(Entries(s.content, at, i), crc)
      modifies s, list
      ensures parsed.Some? && parsed.value.Found? ==>
        && Prefix(s.content, at, h, blockSize, list[..], i + 1) && s.pos == at + 128 * (i + 1)
        && RunningCrc(Entries(s.content, at, i + 1), calcCrc)
      ensures s.reliable && Holds(s.content, at, i + 1) ==> parsed.Some?
      ensures parsed.None? || !parsed.value.Found? ==> list[..] == old(list[..]) && calcCrc == crc
      ensures parsed.Some? && !parsed.value.Found? ==>
        RejectedAt(s.content, at, h, blockSize, list[..], i, parsed.value)
    {
      calcCrc := crc;
      var entry := LoadEntry(s, at, i);
      if entry.None? { return None, calcCrc; }
      var p := ParseGptEntry(h, entry.value);
      if p.Found? {
        PrefixGrows(s.content, at, h, blockSize, list[..], i, p.partition);
        list[i] := p.partition;
        assert list[..] == old(list[..])[i := p.partition];
        EntriesGrow(s.content, at, i);
        RunningCrcNext(Entries(s.content, at, i), crc, entry.value);
        calcCrc := Crc(calcCrc, entry.value);
      }
      return Some(p), calcCrc;
    }

    /** The first loop of `load_partition_gpt`: parse until an entry that is not a
        valid partition, or the clamp. */
    method ScanUsed(s: Stream, h: Header, at: int) returns (stop: Option<Parsed>, i: nat, calcCrc: Word32)
      requires 0 <= at == s.pos && entryCount <= list.Length
      modifies s, list
      ensures i <= entryCount && Prefix(s.content, at, h, blockSize, list[..], i)
      ensures RunningCrc(Entries(s.content, at, i), calcCrc)
      ensures i == entryCount ==> stop.None? && s.pos == at + 128 * i
      ensures stop.None? && i < entryCount ==> !s.reliable || !Holds(s.content, at, i + 1)
      ensures stop.Some? ==> !stop.value.Found? && RejectedAt(s.content, at, h, blockSize, list[..], i, stop.value)
    {
      stop, i, calcCrc := None, 0, 0;
      RunningCrcStart();
      while i < entryCount
        invariant i <= entryCount && Prefix(s.content, at, h, blockSize, list[..], i)
        invariant RunningCrc(Entries(s.content, at, i), calcCrc) && s.pos == at + 128 * i && stop.None?
      {
        var parsed;
        parsed, calcCrc := ScanOne(s, h, at, i, calcCrc);
        if parsed.None? || !parsed.value.Found? {
          stop := parsed;
          break;
        }
        i := i + 1;
      }
    }

    /** How that loop ends: on an unused entry it steps back over it. */
    method LoadUsed(s: Stream, h: Header, at: int) returns (result: Result, i: nat, calcCrc: Word32)
      requires 0 <= at == s.pos < TWO_64 / 2 && entryCount <= list.Length < TWO_32
      modifies s, list
      ensures i <= entryCount && Prefix(s.content, at, h, blockSize, list[..], i)
      ensures result.Ok? ==>
        && RunningCrc(Entries(s.content, at, i), calcCrc) && s.pos == at + 128 * i
        && (i < entryCount ==> Holds(s.content, at, i + 1) && EntryAt(s.content, at, i) == Zeroes(ENTRY_SIZE))
      ensures result.BadEntry? ==> i < entryCount && RejectedAt(s.content, at, h, blockSize, list[..], i, Invalid)
      ensures result.Halt? ==> i < entryCount && RejectedAt(s.content, at, h, blockSize, list[..], i, Stopped)
      ensures result.ReadFailed? ==> i < entryCount && (!s.reliable || !Holds(s.content, at, i + 1))
      ensures result.SeekFailed? ==> !s.reliable || |s.content| >= TWO_64 / 2
      ensures !result.NoEntries? && !result.BadCrc?
    {
      var stop;
      stop, i, calcCrc := ScanUsed(s, h, at);
      if i == entryCount { return Ok, i, calcCrc; }
      match stop
      case None => result := ReadFailed;
      case Some(Invalid) => result := BadEntry;
      case Some(Stopped) => result := Halt;
      case Some(Empty) =>
        EmptyIffZeroBytes(h, blockSize, EntryAt(s.content, at, i));
        var ok := StepBack(s, at, i);
        result := if ok then Ok else SeekFailed;
    }

    /** The seek back to entry `i`; its offset is computed in 64 bits. */
    method StepBack(s: Stream, at: int, i: nat) returns (ok: bool)
      requires 0 <= at < TWO_64 / 2 && i < TWO_32
      modifies s
      ensures ok ==> s.pos == at + 128 * i
      ensures s.reliable && at + 128 * i < TWO_64 / 2 ==> ok
    {
      ok := s.Seek(Signed(at + 128 * i));
    }

    /** `load_partition_gpt`. */
    method LoadPartitionGpt(s: Stream, h: Header) returns (result: Result)
      requires entryCount == Clamp(h, list.Length) && list.Length < TWO_32
      modifies this, s, list
      ensures entryCount <= old(entryCount)
      ensures
        var at, cap := Offset(h, blockSize), old(entryCount);
        LoadOutcome(s.content, s.reliable, at, h, blockSize, cap, list[..], entryCount, result)
    {
      var at := Offset(h, blockSize);
      var ok := s.Seek(at);
      if !ok { return SeekFailed; }
      result := LoadFrom(s, h, at);
    }

    /** The table of a header that has been read: the clamp and the load together. */
    method LoadPrimary(s: Stream, h: Header) returns (result: Result)
      requires list.Length < TWO_32
      modifies this, s, list
      ensures entryCount <= list.Length && entryCount <= h.listNum
      ensures
        var at := Offset(h, blockSize);
        && LoadOutcome(s.content, s.reliable, at, h, blockSize, Clamp(h, list.Length), list[..], entryCount, result)
        && (result.Ok? && entryCount < list.Length && entryCount < h.listNum ==>
            EntryAt(s.content, at, entryCount) == Zeroes(ENTRY_SIZE))
    {
      ClampCount(h);
      result := LoadPartitionGpt(s, h);
    }

    method LoadFrom(s: Stream, h: Header, at: int) returns (result: Result)
      requires 0 <= at == s.pos < TWO_64 / 2 && entryCount == Clamp(h, list.Length) && list.Length < TWO_32
      modifies this, s, list
      ensures entryCount <= old(entryCount)
      ensures LoadOutcome(s.content, s.reliable, at, h, blockSize, old(entryCount), list[..], entryCount, result)
    {
      var i, calcCrc;
      result, i, calcCrc := LoadUsed(s, h, at);
      if !result.Ok? { return; }
      if i == 0 { return NoEntries; }
      entryCount := i;
      result, calcCrc := LoadRest(s, h, at, i, calcCrc);
      if !result.Ok? { return; }
      RunningCrcIsCrc(Entries(s.content, at, h.listNum), calcCrc);
      return if h.partCrc != calcCrc then BadCrc else Ok;
    }

    /** The second loop of `load_partition_gpt`: the CRC of the entries not parsed. */
    method LoadRest(s: Stream, h: Header, at: int, from: nat, crc: Word32) returns (result: Result, calcCrc: Word32)
      requires from <= h.listNum && Holds(s.content, at, from) && s.pos == at + 128 * from
      requires RunningCrc(Entries(s.content, at, from), crc)
      modifies s
      ensures result.Ok? || (result.ReadFailed? && (!s.reliable || !Holds(s.content, at, h.listNum)))
      ensures result.Ok? ==> Holds(s.content, at, h.listNum) && RunningCrc(Entries(s.content, at, h.listNum), calcCrc)
    {
      var i := from;
      calcCrc := crc;
      while i < h.listNum
        invariant from <= i <= h.listNum && Holds(s.content, at, i) && s.pos == at + 128 * i
        invariant RunningCrc(Entries(s.content, at, i), calcCrc)
      {
        var ok;
        ok, calcCrc := AddEntryCrc(s, at, i, calcCrc);
        if !ok { return ReadFailed, calcCrc; }
        i := i + 1;
      }
      return Ok, calcCrc;
    }

    method AddEntryCrc(s: Stream, at: int, i: nat, crc: Word32) returns (ok: bool, calcCrc: Word32)
      requires 0 <= at && Holds(s.content, at, i) && s.pos == at + 128 * i
      requires RunningCrc(Entries(s.content, at, i), crc)
      modifies s
      ensures s.reliable && Holds(s.content, at, i + 1) ==> ok
      ensures ok ==> Holds(s.content, at, i + 1) && s.pos == at + 128 * (i + 1)
      ensures ok ==> RunningCrc(Entries(s.content, at, i + 1), calcCrc)
    {
      var entry := LoadEntry(s, at, i);
      if entry.None? { return false, crc; }
      EntriesGrow(s.content, at, i);
      RunningCrcNext(Entries(s.content, at, i), crc, entry.value);
      return true, Crc(crc, entry.value);
    }

    /** `get_partition_entry_by_type_index`: the match with exactly `index` matches before it. */
    method GetByTypeIndex(guid: seq<Byte>, index: nat) returns (found: Option<nat>)
      requires entryCount <= list.Length
      ensures found.Some? ==> found.value < entryCount && list[found.value].typeGuid == guid
                              && |MatchesBefore(list[..], guid, found.value)| == index
      ensures found.None? ==> |MatchesBefore(list[..], guid, entryCount)| <= index
    {
      var i, matched := 0, 0;
      while i < entryCount
        invariant i <= entryCount && matched == |MatchesBefore(list[..], guid, i)| <= index
      {
        assert MatchesBefore(list[..], guid, i + 1) ==
          if list[i].typeGuid == guid then MatchesBefore(list[..], guid, i) + {i} else MatchesBefore(list[..], guid, i);
        if list[i].typeGuid == guid {
          if matched == index { return Some(i); }
          matched := matched + 1;
        }
        i := i + 1;
      }
      return None;
    }
  }

  /** The entries before `n` of the given type. */
  ghost function MatchesBefore(list: seq<Partition>, guid: seq<Byte>, n: nat): set<nat> {
    set k: nat | k < n && k < |list| && list[k].typeGuid == guid
  }
}
