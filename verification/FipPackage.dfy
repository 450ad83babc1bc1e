/** Firmware image packages put together byte by byte, and what the reader finds in them
    (`include/tools_share/firmware_image_package.h`, `drivers/io/io_fip.c`). */
module FipPackage {
  import opened Words
  import opened Fip

  datatype File = File(uuid: seq<Byte>, data: seq<Byte>, flags: seq<Byte>)

  predicate WellFormed(f: File) {
    |f.uuid| == 16 && |f.flags| == 8 && f.uuid != Zeroes(16)
  }

  predicate AllWellFormed(files: seq<File>) {
    forall k :: 0 <= k < |files| ==> WellFormed(files[k])
  }

  // ---- A package ----------------------------------------------------------------------

  /** An entry is an identifier, then an offset, then a size, then flags. */
  function EntryBytes(e: TocEntry, flags: seq<Byte>): seq<Byte> {
    e.uuid + ToBytes(e.offset, 8) + ToBytes(e.size, 8) + flags
  }

  function Payloads(files: seq<File>): seq<seq<Byte>> {
    seq(|files|, k requires 0 <= k < |files| => files[k].data)
  }

  /** The header and the table of contents with its end marker. */
  function TocSize(files: seq<File>): nat {
    16 + 40 * (|files| + 1)
  }

  /** The payloads follow the table of contents and each other. */
  function Start(files: seq<File>, k: nat): nat
    requires k <= |files|
  {
    TocSize(files) + |Joined(Payloads(files)[..k])|
  }

  /** What entry `k` lists; behind the last file that is the end marker. */
  function Listed(files: seq<File>, k: nat): TocEntry
    requires k <= |files|
  {
    if k < |files| then TocEntry(files[k].uuid, Start(files, k), |files[k].data|)
    else TocEntry(Zeroes(16), Start(files, k), 0)
  }

  function Flags(files: seq<File>, k: nat): seq<Byte>
    requires k <= |files|
  {
    if k < |files| then files[k].flags else Zeroes(8)
  }

  function Rows(files: seq<File>): seq<seq<Byte>> {
    seq(|files| + 1, k requires 0 <= k <= |files| => EntryBytes(Listed(files, k), Flags(files, k)))
  }

  function Package(header: seq<Byte>, files: seq<File>): seq<Byte> {
    header + Joined(Rows(files)) + Joined(Payloads(files))
  }

  ghost predicate Assembled(package: seq<Byte>, header: seq<Byte>, files: seq<File>) {
    |header| == 16 && AllWellFormed(files) && package == Package(header, files) && |package| < TWO_64
  }

  // ---- The layout of one entry ----------------------------------------------------

  /** What each field of an entry is read from. */
  lemma DecodeLayout(uuid: seq<Byte>, offset: seq<Byte>, size: seq<Byte>, flags: seq<Byte>)
    requires |uuid| == 16 && |offset| == 8 && |size| == 8 && |flags| == 8
    ensures Decode(uuid + offset + size + flags) == TocEntry(uuid, LittleEndian(offset), LittleEndian(size))
  {
    var e := uuid + offset + size + flags;
    assert e[0..16] == uuid;
    assert e[16..24] == offset;
    assert e[24..32] == size;
  }

  lemma EightBytes(x: nat)
    requires x < TWO_64
    ensures LittleEndian(ToBytes(x, 8)) == x
  {
    assert Limit(4) == TWO_32;
    assert Limit(8) == 0x1_0000_0000 * Limit(4);
    ToBytesValue(x, 8);
  }

  /** Reading back an entry gives what was written. */
  lemma DecodeEntry(e: TocEntry, flags: seq<Byte>)
    requires |e.uuid| == 16 && e.offset < TWO_64 && e.size < TWO_64 && |flags| == 8
    ensures |EntryBytes(e, flags)| == 40 && Decode(EntryBytes(e, flags)) == e
  {
    EightBytes(e.offset);
    EightBytes(e.size);
    DecodeLayout(e.uuid, ToBytes(e.offset, 8), ToBytes(e.size, 8), flags);
  }

  // ---- Pieces put together ----------------------------------------------------------

  lemma LaterSlice(first: seq<Byte>, rest: seq<Byte>, i: nat, n: nat)
    requires i + n <= |rest|
    ensures (first + rest)[|first| + i..|first| + i + n] == rest[i..i + n]
  {
  }

  /** What lies `at` bytes into `rest` lies that much further behind `first`. */
  lemma Behind(whole: seq<Byte>, first: seq<Byte>, rest: seq<Byte>, n: nat, at: nat, data: seq<Byte>)
    requires whole == first + rest && |first| == n
    requires at + |data| <= |rest| && rest[at..at + |data|] == data
    ensures n + at + |data| <= |whole| && whole[n + at..n + at + |data|] == data
  {
    LaterSlice(first, rest, at, |data|);
  }

  lemma {:induction false} PiecePlace(pieces: seq<seq<Byte>>, k: nat)
    requires k < |pieces|
    ensures
      var at, n := |Joined(pieces[..k])|, |pieces[k]|;
      at + n <= |Joined(pieces)| && Joined(pieces)[at..at + n] == pieces[k]
    decreases |pieces|
  {
    var last := |pieces| - 1;
    if k < last {
      PiecePlace(pieces[..last], k);
      assert pieces[..last][..k] == pieces[..k];
    }
  }

  lemma {:induction false} EqualPieces(pieces: seq<seq<Byte>>, size: nat, k: nat)
    requires k <= |pieces| && forall i :: 0 <= i < |pieces| ==> |pieces[i]| == size
    ensures |Joined(pieces[..k])| == size * k
    decreases k
  {
    if k > 0 {
      EqualPieces(pieces, size, k - 1);
      assert pieces[..k][..k - 1] == pieces[..k - 1];
    }
  }

  // ---- What the reader finds ------------------------------------------------------

  lemma StartFits(package: seq<Byte>, header: seq<Byte>, files: seq<File>, k: nat)
    requires Assembled(package, header, files) && k <= |files|
    ensures |Joined(Rows(files))| == 40 * (|files| + 1)
    ensures |package| == Start(files, |files|) && Start(files, k) <= |package|
    ensures k < |files| ==> Start(files, k) + |files[k].data| <= |package|
  {
    RowSizes(files);
    EqualPieces(Rows(files), 40, |files| + 1);
    assert Rows(files)[..|files| + 1] == Rows(files);
    assert Payloads(files)[..|files|] == Payloads(files);
    if k < |files| { PiecePlace(Payloads(files), k); }
  }

  lemma RowSizes(files: seq<File>)
    requires AllWellFormed(files)
    ensures forall k :: 0 <= k <= |files| ==> |Rows(files)[k]| == 40
  {
    forall k | 0 <= k <= |files| ensures |Rows(files)[k]| == 40 {
      assert k < |files| ==> WellFormed(files[k]);
    }
  }

  lemma EqualPlace(pieces: seq<seq<Byte>>, size: nat, k: nat)
    requires k < |pieces| && forall i :: 0 <= i < |pieces| ==> |pieces[i]| == size
    ensures size * k + size <= |Joined(pieces)| && Joined(pieces)[size * k..size * k + size] == pieces[k]
  {
    PiecePlace(pieces, k);
    EqualPieces(pieces, size, k);
  }

  lemma Between(whole: seq<Byte>, header: seq<Byte>, table: seq<Byte>, rest: seq<Byte>, at: nat, row: seq<Byte>)
    requires whole == header + table + rest && at + |row| <= |table| && table[at..at + |row|] == row
    ensures |header| + at + |row| <= |whole| && whole[|header| + at..|header| + at + |row|] == row
  {
    LaterSlice(header, table, at, |row|);
  }

  lemma RowPlace(package: seq<Byte>, header: seq<Byte>, files: seq<File>, k: nat)
    requires Assembled(package, header, files) && k <= |files|
    ensures HasEntry(package, k) && package[16 + 40 * k..16 + 40 * k + 40] == Rows(files)[k] && |Rows(files)[k]| == 40
  {
    RowSizes(files);
    EqualPlace(Rows(files), 40, k);
    Between(package, header, Joined(Rows(files)), Joined(Payloads(files)), 40 * k, Rows(files)[k]);
  }

  lemma EntryIs(package: seq<Byte>, k: nat, row: seq<Byte>, e: TocEntry)
    requires HasEntry(package, k) && package[16 + 40 * k..16 + 40 * k + 40] == row
    requires |row| == 40 && Decode(row) == e
    ensures EntryAt(package, k) == e
  {
    assert package[HEADER_SIZE + k * ENTRY_SIZE..HEADER_SIZE + (k + 1) * ENTRY_SIZE] == row;
  }

  /** The reader finds in entry `k` the identifier of file `k`, where its bytes are and how
      many there are; and behind the last file the end marker. */
  lemma EntryFound(package: seq<Byte>, header: seq<Byte>, files: seq<File>, k: nat)
    requires Assembled(package, header, files) && k <= |files|
    ensures HasEntry(package, k) && EntryAt(package, k) == Listed(files, k)
  {
    RowPlace(package, header, files, k);
    StartFits(package, header, files, k);
    assert k < |files| ==> WellFormed(files[k]);
    DecodeEntry(Listed(files, k), Flags(files, k));
    EntryIs(package, k, Rows(files)[k], Listed(files, k));
  }

  lemma PayloadFound(package: seq<Byte>, header: seq<Byte>, files: seq<File>, k: nat)
    requires Assembled(package, header, files) && k < |files|
    ensures Start(files, k) + |files[k].data| <= |package|
    ensures package[Start(files, k)..Start(files, k) + |files[k].data|] == files[k].data
  {
    StartFits(package, header, files, k);
    PiecePlace(Payloads(files), k);
    var front, at := header + Joined(Rows(files)), |Joined(Payloads(files)[..k])|;
    Behind(package, front, Joined(Payloads(files)), TocSize(files), at, files[k].data);
  }

  /** No file before `k` has this identifier. */
  predicate Fresh(files: seq<File>, uuid: seq<Byte>, k: nat)
    requires k <= |files|
  {
    forall i :: 0 <= i < k ==> files[i].uuid != uuid
  }

  lemma PassedIff(package: seq<Byte>, header: seq<Byte>, files: seq<File>, uuid: seq<Byte>, k: nat)
    requires Assembled(package, header, files) && k <= |files|
    ensures Passed(package, uuid, k) <==> Fresh(files, uuid, k)
  {
    forall i: nat | i < k
      ensures HasEntry(package, i) && EntryAt(package, i).uuid == files[i].uuid != NULL_UUID
    {
      EntryFound(package, header, files, i);
      assert WellFormed(files[i]);
    }
    if Passed(package, uuid, k) {
      forall i | 0 <= i < k ensures files[i].uuid != uuid {
        assert EntryAt(package, i).uuid == files[i].uuid;
      }
    }
  }

  /** In an assembled package an identifier opens the first file that has it, unless that
      file is empty, and the payload found is that file's bytes. */
  lemma FileFound(package: seq<Byte>, header: seq<Byte>, files: seq<File>, k: nat)
    requires Assembled(package, header, files) && k < |files| && Fresh(files, files[k].uuid, k)
    ensures FirstMatch(package, files[k].uuid, k)
    ensures Openable(package, files[k].uuid, k) <==> files[k].data != []
    ensures files[k].data != [] ==> Payload(package, EntryAt(package, k)) == files[k].data
  {
    EntryFound(package, header, files, k);
    PassedIff(package, header, files, files[k].uuid, k);
    PayloadFound(package, header, files, k);
  }

  /** An identifier that no file has is searched for up to the end marker. */
  lemma FileMissing(package: seq<Byte>, header: seq<Byte>, files: seq<File>, uuid: seq<Byte>)
    requires Assembled(package, header, files) && uuid != Zeroes(16) && Fresh(files, uuid, |files|)
    ensures NoMatch(package, uuid)
  {
    EntryFound(package, header, files, |files|);
    PassedIff(package, header, files, uuid, |files|);
    assert EndsBefore(package, uuid, |files|);
  }

  /** Opening a file by its identifier and reading as many bytes as it has gives its bytes. */
  method OpenAndRead(device: FipDevice, ghost header: seq<Byte>, ghost files: seq<File>, ghost k: nat,
                     uuid: seq<Byte>)
    returns (data: seq<Byte>)
    requires device.Valid() && Assembled(device.package, header, files) && |device.package| <= LLONG_MAX
    requires k < |files| && files[k].uuid == uuid && Fresh(files, uuid, k) && files[k].data != []
    requires device.reliable && |device.pool.Taken()| < device.pool.entityMap.Length && device.entry.offset == 0
    modifies device`entry, device`filePos, device.pool, device.pool.entityMap
    ensures data == files[k].data
  {
    FileFound(device.package, header, files, k);
    var code := device.FileOpen(uuid);
    FirstMatchUnique(device.package, uuid, k);
    assert device.entry == EntryAt(device.package, k);
    code, data := device.FileRead(device.entry.size);
  }
}
