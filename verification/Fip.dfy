/** Files of a firmware image package (`drivers/io/io_fip.c`). */
module Fip {
  import opened Words
  import opened Streams
  import opened IoStorage

  const HEADER_SIZE: nat := 16
  const ENTRY_SIZE: nat := 40
  const LLONG_MAX: nat := 0x7FFF_FFFF_FFFF_FFFF

  datatype Code = Ok | ENFILE | ENOENT | EINVAL | EIO

  /** `fip_toc_entry_t`. */
  datatype TocEntry = TocEntry(uuid: seq<Byte>, offset: nat, size: nat)

  const NULL_UUID: seq<Byte> := Zeroes(16)

  function Decode(bytes: seq<Byte>): TocEntry
    requires |bytes| == ENTRY_SIZE
  {
    TocEntry(bytes[0..16], LittleEndian(bytes[16..24]), LittleEndian(bytes[24..32]))
  }

  predicate HasEntry(package: seq<Byte>, k: nat) {
    HEADER_SIZE + (k + 1) * ENTRY_SIZE <= |package|
  }

  function EntryAt(package: seq<Byte>, k: nat): TocEntry
    requires HasEntry(package, k)
  {
    Decode(package[HEADER_SIZE + k * ENTRY_SIZE..HEADER_SIZE + (k + 1) * ENTRY_SIZE])
  }

  /** Entry `k` is the first of the table of contents with this identifier; the
      table ends at an entry with the null identifier. */
  ghost predicate FirstMatch(package: seq<Byte>, uuid: seq<Byte>, k: nat) {
    && HasEntry(package, k) && EntryAt(package, k).uuid == uuid
    && Passed(package, uuid, k)
  }

  /** The table up to its end marker holds no entry with this identifier. */
  ghost predicate NoMatch(package: seq<Byte>, uuid: seq<Byte>) {
    exists k :: EndsBefore(package, uuid, k)
  }

  ghost predicate EndsBefore(package: seq<Byte>, uuid: seq<Byte>, k: nat) {
    && HasEntry(package, k) && EntryAt(package, k).uuid == NULL_UUID != uuid
    && Passed(package, uuid, k)
  }

  /** The package ends before the table does, with no entry of this identifier. */
  ghost predicate RunsOut(package: seq<Byte>, uuid: seq<Byte>) {
    exists k: nat :: Passed(package, uuid, k) && !HasEntry(package, k)
  }

  /** The entry's payload lies inside the package. */
  predicate InPackage(package: seq<Byte>, e: TocEntry) {
    0 < e.size && e.offset + e.size <= |package|
  }

  function Payload(package: seq<Byte>, e: TocEntry): (p: seq<Byte>)
    requires InPackage(package, e)
    ensures |p| == e.size
  {
    package[e.offset..e.offset + e.size]
  }

  /** Entry `k` is the first match and its payload is there. */
  ghost predicate Openable(package: seq<Byte>, uuid: seq<Byte>, k: nat) {
    FirstMatch(package, uuid, k) && InPackage(package, EntryAt(package, k))
  }

  /** The first match has no payload, or not all of it is there. */
  ghost predicate Unfit(package: seq<Byte>, uuid: seq<Byte>) {
    exists k :: FirstMatch(package, uuid, k) && !InPackage(package, EntryAt(package, k))
  }

  /** At most one entry is the first match, and then the table neither ends nor runs out
      before it. */
  lemma FirstMatchUnique(package: seq<Byte>, uuid: seq<Byte>, k: nat)
    requires FirstMatch(package, uuid, k)
    ensures forall j :: FirstMatch(package, uuid, j) ==> j == k
    ensures !NoMatch(package, uuid) && !RunsOut(package, uuid)
  {
    forall j: nat | Passed(package, uuid, j) ensures j <= k && HasEntry(package, j) {
      assert j < k ==> HasEntry(package, j);
    }
  }

  lemma EndStops(package: seq<Byte>, uuid: seq<Byte>, k: nat, j: nat)
    requires EndsBefore(package, uuid, k) && k < j
    ensures !Passed(package, uuid, j)
  {
  }

  /** A table that ends does not run out. */
  lemma EndDecides(package: seq<Byte>, uuid: seq<Byte>)
    requires NoMatch(package, uuid)
    ensures !RunsOut(package, uuid)
  {
    var k :| EndsBefore(package, uuid, k);
    forall j: nat | Passed(package, uuid, j) ensures HasEntry(package, j) {
      if j > k { EndStops(package, uuid, k, j); }
    }
  }

  lemma PayloadSlice(package: seq<Byte>, e: TocEntry, at: nat, n: nat)
    requires InPackage(package, e) && at + n <= e.size
    ensures Payload(package, e)[at..at + n] == package[e.offset + at..e.offset + at + n]
  {
    var a, b := Payload(package, e)[at..at + n], package[e.offset + at..e.offset + at + n];
    forall i | 0 <= i < n ensures a[i] == b[i] {
      assert a[i] == Payload(package, e)[at + i] == package[e.offset + (at + i)];
    }
  }

  /** `file_pos` is an `unsigned int`. */
  function Advance(filePos: nat, n: nat): Word32 {
    (filePos + n) % TWO_32
  }

  // ---- Successive reads ----------------------------------------------------------

  /** The pieces put together. */
  function Joined(pieces: seq<seq<Byte>>): seq<Byte>
    decreases |pieces|
  {
    if pieces == [] then [] else Joined(pieces[..|pieces| - 1]) + pieces[|pieces| - 1]
  }

  /** The position after the pieces. */
  function Position(pieces: seq<seq<Byte>>): nat
    decreases |pieces|
  {
    if pieces == [] then 0 else Advance(Position(pieces[..|pieces| - 1]), |pieces[|pieces| - 1]|)
  }

  /** It is the number of bytes returned, modulo 2^32. */
  lemma {:induction false} PositionIsTotal(pieces: seq<seq<Byte>>)
    ensures Position(pieces) == |Joined(pieces)| % TWO_32
    decreases |pieces|
  {
    if pieces != [] {
      PositionIsTotal(pieces[..|pieces| - 1]);
      SumModulo(|Joined(pieces[..|pieces| - 1])|, |pieces[|pieces| - 1]|);
    }
  }

  lemma SumModulo(x: nat, y: nat)
    ensures (x % TWO_32 + y) % TWO_32 == (x + y) % TWO_32
  {
  }

  /** Each piece is a stretch of the payload, at the position after those before it. */
  ghost predicate Trace(payload: seq<Byte>, pieces: seq<seq<Byte>>)
    decreases |pieces|
  {
    pieces == [] ||
    var last := |pieces| - 1;
    var at := Position(pieces[..last]);
    && Trace(payload, pieces[..last])
    && at + |pieces[last]| <= |payload| && pieces[last] == payload[at..at + |pieces[last]|]
  }

  lemma OneMorePiece(pieces: seq<seq<Byte>>, piece: seq<Byte>)
    ensures (pieces + [piece])[..|pieces|] == pieces
    ensures Joined(pieces + [piece]) == Joined(pieces) + piece
    ensures Position(pieces + [piece]) == Advance(Position(pieces), |piece|)
  {
    assert (pieces + [piece])[..|pieces|] == pieces;
  }

  lemma TraceGrows(payload: seq<Byte>, pieces: seq<seq<Byte>>, piece: seq<Byte>)
    requires Trace(payload, pieces) && Position(pieces) + |piece| <= |payload|
    requires piece == payload[Position(pieces)..Position(pieces) + |piece|]
    ensures Trace(payload, pieces + [piece])
  {
    OneMorePiece(pieces, piece);
  }

  /** Of a payload below 4 GiB the pieces put together are always a prefix. */
  lemma {:induction false} TraceIsPrefix(payload: seq<Byte>, pieces: seq<seq<Byte>>)
    requires Trace(payload, pieces) && |payload| < TWO_32
    ensures Position(pieces) == |Joined(pieces)| <= |payload| && Joined(pieces) == payload[..|Joined(pieces)|]
    decreases |pieces|
  {
    if pieces != [] {
      var last := |pieces| - 1;
      TraceIsPrefix(payload, pieces[..last]);
      var at := |Joined(pieces[..last])|;
      assert payload[..at] + payload[at..at + |pieces[last]|] == payload[..at + |pieces[last]|];
    }
  }

  lemma TraceWhole(payload: seq<Byte>, pieces: seq<seq<Byte>>)
    requires Trace(payload, pieces) && |payload| < TWO_32
    ensures Position(pieces) <= |payload| && Joined(pieces) == payload[..Position(pieces)]
    ensures |Joined(pieces)| == |payload| ==> Joined(pieces) == payload
  {
    TraceIsPrefix(payload, pieces);
  }

  lemma TracePosition(payload: seq<Byte>, pieces: seq<seq<Byte>>)
    requires Trace(payload, pieces) && |payload| < TWO_32
    ensures Position(pieces) == |Joined(pieces)|
  {
    TraceIsPrefix(payload, pieces);
  }

  lemma AdvanceByNothing(at: Word32)
    ensures Advance(at, 0) == at
  {
  }

  lemma AdvanceStays(at: nat, n: nat, size: nat)
    requires at + n <= size
    ensures Advance(at, n) <= size
  {
  }

  /** The same piece `m` times over. */
  ghost function Laps(lap: seq<Byte>, m: nat): seq<seq<Byte>> {
    if m == 0 then [] else Laps(lap, m - 1) + [lap]
  }

  lemma FullLap(n: nat)
    requires n == TWO_32
    ensures Advance(0, n) == 0
  {
  }

  /** Reading 4 GiB brings the position back to the start. */
  lemma LapStep(payload: seq<Byte>, before: seq<seq<Byte>>, lap: seq<Byte>)
    requires Trace(payload, before) && Position(before) == 0
    requires |lap| == TWO_32 && |lap| <= |payload| && lap == payload[0..|lap|]
    ensures Trace(payload, before + [lap]) && Position(before + [lap]) == 0
    ensures |Joined(before + [lap])| == |Joined(before)| + |lap|
  {
    OneMorePiece(before, lap);
    assert Position(before + [lap]) == 0 by { FullLap(|lap|); }
    TraceGrows(payload, before, lap);
  }

  lemma {:induction false} LapsAreRead(payload: seq<Byte>, lap: seq<Byte>, m: nat)
    requires |lap| == TWO_32 && |lap| <= |payload| && lap == payload[0..|lap|]
    ensures Trace(payload, Laps(lap, m)) && Position(Laps(lap, m)) == 0 && |Joined(Laps(lap, m))| >= m
    decreases m
  {
    if m > 0 {
      LapsAreRead(payload, lap, m - 1);
      LapStep(payload, Laps(lap, m - 1), lap);
    }
  }

  lemma LargeIsReread(payload: seq<Byte>, n: nat) returns (pieces: seq<seq<Byte>>)
    requires n == TWO_32 <= |payload|
    ensures Trace(payload, pieces) && !(Joined(pieces) <= payload)
  {
    var m, lap := |payload| + 1, payload[0..n];
    LapsAreRead(payload, lap, m);
    pieces := Laps(lap, m);
  }

  /** Exactly when reads can be trusted: the pieces put together are a prefix of the payload,
      whatever is read, if and only if the payload is smaller than 4 GiB. */
  lemma TraceExactIff(payload: seq<Byte>)
    ensures |payload| < TWO_32 <==> forall pieces :: Trace(payload, pieces) ==> Joined(pieces) <= payload
  {
    if |payload| < TWO_32 {
      forall pieces | Trace(payload, pieces) ensures Joined(pieces) <= payload {
        TraceIsPrefix(payload, pieces);
      }
    } else {
      var pieces := LargeIsReread(payload, TWO_32);
    }
  }

  function Sum(lengths: seq<nat>): nat
    decreases |lengths|
  {
    if lengths == [] then 0 else Sum(lengths[..|lengths| - 1]) + lengths[|lengths| - 1]
  }

  lemma SumNext(lengths: seq<nat>, i: nat)
    requires i < |lengths|
    ensures Sum(lengths[..i + 1]) == Sum(lengths[..i]) + lengths[i] <= Sum(lengths)
  {
    assert lengths[..i + 1][..i] == lengths[..i];
    SumGrows(lengths, i + 1);
  }

  lemma {:induction false} SumGrows(lengths: seq<nat>, n: nat)
    requires n <= |lengths|
    ensures Sum(lengths[..n]) <= Sum(lengths)
    decreases |lengths|
  {
    if n == |lengths| {
      assert lengths[..n] == lengths;
    } else {
      SumGrows(lengths[..|lengths| - 1], n);
      assert lengths[..|lengths| - 1][..n] == lengths[..n];
    }
  }

  class FipDevice {
    const package: seq<Byte>
    const pool: EntityPool
    /** The backend opens, and serves every request that it can. */
    const reliable: bool
    var fipSize: nat
    /** `current_fip_file`: the entry and the position in its payload. */
    var entry: TocEntry
    var filePos: Word32

    constructor (package: seq<Byte>, pool: EntityPool, reliable: bool)
      ensures this.package == package && this.pool == pool && this.reliable == reliable && fipSize == |package|
      ensures entry == TocEntry(NULL_UUID, 0, 0) && filePos == 0
    {
      this.package, this.pool, this.reliable := package, pool, reliable;
      fipSize := |package|;
      entry, filePos := TocEntry(NULL_UUID, 0, 0), 0;
    }

    ghost predicate Valid()
      reads this, pool, pool.entityMap
    {
      pool.Valid() && fipSize == |package| < TWO_64
    }

    /** A file is open and its payload lies inside the package. */
    ghost predicate FileReady()
      reads this
    {
      InPackage(package, entry) && filePos <= entry.size
    }

    method Clear()
      modifies `entry, `filePos
      ensures entry == TocEntry(NULL_UUID, 0, 0) && filePos == 0
    {
      entry, filePos := TocEntry(NULL_UUID, 0, 0), 0;
    }

    /** `io_open` on the backend, which gives a cursor at the start of the package. */
    method OpenBackend() returns (handle: Option<nat>, stream: Stream)
      requires pool.Valid()
      modifies pool, pool.entityMap
      ensures pool.Valid() && fresh(stream) && stream.content == package && stream.pos == 0
      ensures stream.reliable == reliable
      ensures reliable && old(|pool.Taken()|) < pool.entityMap.Length ==> handle.Some?
      ensures handle.Some? ==> handle.value !in old(pool.Taken()) && pool.Taken() == old(pool.Taken()) + {handle.value}
      ensures handle.None? ==> pool.Taken() == old(pool.Taken())
    {
      var opens: bool := *;
      if reliable { opens := true; }
      handle := pool.Open(opens);
      stream := new Stream(package, reliable);
    }

    /** The scan of `fip_file_open`: from the first entry to the first match or the
        end marker. It reads every entry into the current one. */
    method ScanToc(stream: Stream, uuid: seq<Byte>) returns (code: Code)
      requires stream.content == package && stream.pos == HEADER_SIZE
      requires fipSize == |package| && fipSize >= HEADER_SIZE + ENTRY_SIZE
      modifies `entry, stream
      ensures code.Ok? ==> exists k :: FirstMatch(package, uuid, k) && entry == EntryAt(package, k)
      ensures code.ENOENT? ==> NoMatch(package, uuid)
      ensures code.EINVAL? ==> RunsOut(package, uuid)
      ensures code.EIO? ==> !stream.reliable
      ensures !code.ENFILE?
    {
      var tocOffset := HEADER_SIZE;
      ghost var k := 0;
      while true
        invariant stream.pos == tocOffset == HEADER_SIZE + k * ENTRY_SIZE
        invariant Passed(package, uuid, k)
        decreases fipSize - tocOffset
      {
        if tocOffset > fipSize - ENTRY_SIZE {
          assert Passed(package, uuid, k) && !HasEntry(package, k);
          return EINVAL;
        }
        var ok, data := stream.Read(ENTRY_SIZE);
        if !ok { return EIO; }
        if |data| != ENTRY_SIZE { return EIO; }
        entry := Decode(data);
        assert entry == EntryAt(package, k);
        if entry.uuid == uuid {
          assert FirstMatch(package, uuid, k);
          return Ok;
        }
        if entry.uuid == NULL_UUID {
          assert EndsBefore(package, uuid, k);
          return ENOENT;
        }
        tocOffset := tocOffset + ENTRY_SIZE;
        k := k + 1;
      }
    }

    /** `fip_file_open` between taking the backend and giving it back. */
    method OpenFrom(stream: Stream, uuid: seq<Byte>) returns (code: Code)
      requires stream.content == package && fipSize == |package| < TWO_64 && fipSize >= HEADER_SIZE + ENTRY_SIZE
      modifies `entry, `filePos, stream
      ensures code.Ok? ==>
        FileReady() && filePos == 0 && exists k :: FirstMatch(package, uuid, k) && entry == EntryAt(package, k)
      ensures stream.reliable ==> forall k :: Openable(package, uuid, k) ==> code.Ok?
      ensures stream.reliable && code.ENOENT? ==> NoMatch(package, uuid)
      ensures code.EINVAL? ==> RunsOut(package, uuid) || Unfit(package, uuid)
      ensures stream.reliable ==> !code.EIO?
      ensures !code.ENFILE?
    {
      var ok := stream.Seek(HEADER_SIZE);
      if !ok { return ENOENT; }
      code := ScanToc(stream, uuid);
      forall k | Openable(package, uuid, k) ensures !NoMatch(package, uuid) && !RunsOut(package, uuid) {
        FirstMatchUnique(package, uuid, k);
      }
      if !code.Ok? { return; }
      forall k | Openable(package, uuid, k) ensures entry == EntryAt(package, k) {
        FirstMatchUnique(package, uuid, k);
      }
      if entry.size == 0 || entry.offset >= fipSize || entry.size > fipSize
         || (entry.offset + entry.size) % TWO_64 > fipSize || entry.offset > TWO_64 - 1 - entry.size {
        return EINVAL;
      }
      filePos := 0;
    }

    /** `fip_file_open` from taking the backend to giving it back. */
    method OpenThrough(uuid: seq<Byte>) returns (code: Code)
      requires Valid() && fipSize >= HEADER_SIZE + ENTRY_SIZE
      modifies `entry, `filePos, pool, pool.entityMap
      ensures Valid() && pool.Taken() == old(pool.Taken())
      ensures code.Ok? ==>
        FileReady() && filePos == 0 && exists k :: FirstMatch(package, uuid, k) && entry == EntryAt(package, k)
      ensures reliable && old(|pool.Taken()|) < pool.entityMap.Length ==>
        && (forall k :: Openable(package, uuid, k) ==> code.Ok?)
        && !code.EIO? && (code.ENOENT? ==> NoMatch(package, uuid))
      ensures code.EINVAL? ==> RunsOut(package, uuid) || Unfit(package, uuid)
      ensures !code.ENFILE?
    {
      var handle, stream := OpenBackend();
      if handle.None? {
        code := ENOENT;
      } else {
        code := OpenFrom(stream, uuid);
        var closes: Option<bool> := *;
        var _ := pool.Close(handle.value, closes);
      }
    }

    /** `fip_file_open`: refused while a file with a non-zero offset is open; on success
        the current file is the first match of the table, inside the package; on any
        other failure there is no current file. The backend handle is always given back. */
    method FileOpen(uuid: seq<Byte>) returns (code: Code)
      requires Valid()
      modifies `entry, `filePos, pool, pool.entityMap
      ensures Valid() && pool.Taken() == old(pool.Taken())
      ensures code.Ok? ==>
        FileReady() && filePos == 0 && exists k :: FirstMatch(package, uuid, k) && entry == EntryAt(package, k)
      ensures reliable && old(|pool.Taken()|) < pool.entityMap.Length && old(entry.offset) == 0 ==>
        forall k :: Openable(package, uuid, k) ==> code.Ok?
      ensures reliable && old(|pool.Taken()|) < pool.entityMap.Length ==>
        !code.EIO? && (code.ENOENT? ==> NoMatch(package, uuid))
      ensures code.EINVAL? ==> RunsOut(package, uuid) || Unfit(package, uuid)
      ensures code.ENFILE? <==> fipSize >= HEADER_SIZE + ENTRY_SIZE && old(entry.offset) != 0
      ensures code.ENFILE? ==> entry == old(entry) && filePos == old(filePos)
      ensures !code.Ok? && !code.ENFILE? && fipSize >= HEADER_SIZE + ENTRY_SIZE ==> entry == TocEntry(NULL_UUID, 0, 0)
    {
      assert fipSize < HEADER_SIZE + ENTRY_SIZE ==> Passed(package, uuid, 0) && !HasEntry(package, 0);
      if fipSize == 0 { return EINVAL; }
      if fipSize < HEADER_SIZE + ENTRY_SIZE { return EINVAL; }
      if entry.offset != 0 { return ENFILE; }
      code := OpenThrough(uuid);
      if !code.Ok? { Clear(); }
    }

    /** The bytes asked for lie in the file, at an offset that the backend can seek to. */
    ghost predicate InRange(at: nat, length: nat)
      reads this
    {
      at + length <= entry.size && entry.offset + at <= LLONG_MAX
    }

    /** The bounds checks of `fip_file_read`, in 64 bits. */
    method Locate(length: nat) returns (fileOffset: Option<nat>)
      requires fipSize == |package| < TWO_64
      ensures FileReady() ==> (fileOffset.Some? <==> InRange(filePos, length))
      ensures FileReady() && fileOffset.Some? ==> fileOffset.value == entry.offset + filePos
    {
      if filePos > entry.size { return None; }
      if length > entry.size - filePos { return None; }
      var start := (entry.offset + filePos) % TWO_64;
      var end := (start + length) % TWO_64;
      if start < entry.offset || end < start || end > fipSize || start > LLONG_MAX { return None; }
      return Some(start);
    }

    /** `fip_file_read` between taking the backend and giving it back. */
    method ReadFrom(stream: Stream, length: nat) returns (code: Code, data: seq<Byte>)
      requires stream.content == package && fipSize == |package| < TWO_64
      modifies `filePos, stream
      ensures code.Ok? ==> |data| == length && filePos == Advance(old(filePos), length)
      ensures code.Ok? && old(FileReady()) ==>
        old(filePos) + length <= entry.size && data == Payload(package, entry)[old(filePos)..old(filePos) + length]
      ensures !code.Ok? ==> data == [] && filePos == old(filePos)
      ensures old(FileReady()) ==> FileReady()
      ensures old(FileReady()) ==> (code.EINVAL? <==> !InRange(old(filePos), length))
      ensures stream.reliable && old(FileReady()) && InRange(old(filePos), length) ==> code.Ok?
    {
      data := [];
      var fileOffset := Locate(length);
      if fileOffset.None? { return EINVAL, []; }
      var ok := stream.Seek(fileOffset.value);
      if !ok { return ENOENT, []; }
      ok, data := stream.Read(length);
      if !ok { return ENOENT, []; }
      if |data| != length { return EIO, []; }
      if FileReady() {
        PayloadSlice(package, entry, filePos, length);
        AdvanceStays(filePos, length, entry.size);
      }
      filePos := Advance(filePos, length);
      return Ok, data;
    }

    /** `fip_file_read`: the next `length` bytes of the payload, or nothing; the backend
        handle is always given back. */
    method FileRead(length: nat) returns (code: Code, data: seq<Byte>)
      requires Valid() && length < TWO_64
      modifies `filePos, pool, pool.entityMap
      ensures Valid() && pool.Taken() == old(pool.Taken())
      ensures code.Ok? ==> |data| == length && filePos == Advance(old(filePos), length)
      ensures code.Ok? && old(FileReady()) ==>
        old(filePos) + length <= entry.size && data == Payload(package, entry)[old(filePos)..old(filePos) + length]
      ensures !code.Ok? ==> data == [] && filePos == old(filePos)
      ensures old(FileReady()) ==> FileReady()
      ensures old(FileReady()) && !InRange(old(filePos), length) ==> !code.Ok?
      ensures reliable && old(|pool.Taken()|) < pool.entityMap.Length ==>
        old(FileReady()) && InRange(old(filePos), length) ==> code.Ok?
    {
      var handle, stream := OpenBackend();
      if handle.None? { return ENOENT, []; }
      code, data := ReadFrom(stream, length);
      var closes: Option<bool> := *;
      var _ := pool.Close(handle.value, closes);
    }

    /** The backend serves, a handle is free and the file can be seeked to. */
    ghost predicate Works()
      reads this, pool, pool.entityMap
    {
      reliable && |pool.Taken()| < pool.entityMap.Length && entry.offset + entry.size <= LLONG_MAX
    }

    /** Any number of successive reads of an open file: what each returns, and that of a file
        smaller than 4 GiB they put together the payload, up to the position reached. */
    method ReadMany(lengths: seq<nat>) returns (pieces: seq<seq<Byte>>)
      requires Valid() && FileReady() && filePos == 0
      requires forall k :: 0 <= k < |lengths| ==> lengths[k] < TWO_64
      modifies `filePos, pool, pool.entityMap
      ensures Valid() && FileReady() && pool.Taken() == old(pool.Taken()) && |pieces| == |lengths|
      ensures Trace(Payload(package, entry), pieces) && filePos == Position(pieces)
      ensures entry.size < TWO_32 ==> Joined(pieces) == Payload(package, entry)[..filePos]
      ensures entry.size < TWO_32 && old(Works()) && Sum(lengths) == entry.size ==>
        Joined(pieces) == Payload(package, entry)
    {
      ghost var payload := Payload(package, entry);
      pieces := ReadLoop(lengths);
      if entry.size < TWO_32 { TraceWhole(payload, pieces); }
    }

    method ReadLoop(lengths: seq<nat>) returns (pieces: seq<seq<Byte>>)
      requires Valid() && FileReady() && filePos == 0
      requires forall k :: 0 <= k < |lengths| ==> lengths[k] < TWO_64
      modifies `filePos, pool, pool.entityMap
      ensures Valid() && FileReady() && pool.Taken() == old(pool.Taken()) && |pieces| == |lengths|
      ensures Trace(Payload(package, entry), pieces) && filePos == Position(pieces)
      ensures entry.size < TWO_32 && old(Works()) && Sum(lengths) == entry.size ==> |Joined(pieces)| == entry.size
    {
      pieces := [];
      ghost var whole := entry.size < TWO_32 && Works() && Sum(lengths) == entry.size;
      for i := 0 to |lengths|
        invariant Valid() && FileReady() && pool.Taken() == old(pool.Taken()) && |pieces| == i
        invariant Trace(Payload(package, entry), pieces) && filePos == Position(pieces)
        invariant whole ==> Works() && |Joined(pieces)| == Sum(lengths[..i])
      {
        SumNext(lengths, i);
        var piece := ReadPiece(lengths[i], pieces);
        pieces := pieces + [piece];
      }
      assert lengths[..|lengths|] == lengths;
    }

    /** One more read extends the trace. */
    method ReadPiece(length: nat, ghost pieces: seq<seq<Byte>>) returns (piece: seq<Byte>)
      requires Valid() && FileReady() && length < TWO_64
      requires Trace(Payload(package, entry), pieces) && filePos == Position(pieces)
      modifies `filePos, pool, pool.entityMap
      ensures Valid() && FileReady() && pool.Taken() == old(pool.Taken())
      ensures Trace(Payload(package, entry), pieces + [piece])
      ensures filePos == Position(pieces + [piece]) && |Joined(pieces + [piece])| == |Joined(pieces)| + |piece|
      ensures entry.size < TWO_32 && old(Works()) && |Joined(pieces)| + length <= entry.size ==> |piece| == length
    {
      if entry.size < TWO_32 { TracePosition(Payload(package, entry), pieces); }
      piece := ReadHere(length);
      TraceGrows(Payload(package, entry), pieces, piece);
      OneMorePiece(pieces, piece);
    }

    /** A read by what it returns: the bytes at the position, or none. */
    method ReadHere(length: nat) returns (piece: seq<Byte>)
      requires Valid() && FileReady() && length < TWO_64
      modifies `filePos, pool, pool.entityMap
      ensures Valid() && FileReady() && pool.Taken() == old(pool.Taken())
      ensures old(filePos) + |piece| <= entry.size && filePos == Advance(old(filePos), |piece|)
      ensures piece == Payload(package, entry)[old(filePos)..old(filePos) + |piece|]
      ensures old(Works()) && old(filePos) + length <= entry.size ==> |piece| == length
    {
      var code;
      code, piece := FileRead(length);
      if !code.Ok? { AdvanceByNothing(filePos); }
    }

    /** A file of 4 GiB or more: once that much has been read, the next byte returned is the
        first of the file again. */
    method ReadPastFourGib() returns (lap: seq<Byte>, next: seq<Byte>)
      requires Valid() && FileReady() && filePos == 0 && Works() && entry.size >= TWO_32
      modifies `filePos, pool, pool.entityMap
      ensures |lap| == TWO_32 && lap == Payload(package, entry)[0..|lap|]
      ensures next == Payload(package, entry)[0..1]
    {
      var code;
      code, lap := FileRead(TWO_32);
      FullLap(TWO_32);
      code, next := FileRead(1);
    }

    /** `fip_file_close`. */
    method FileClose()
      modifies `entry, `filePos
      ensures old(entry.offset) != 0 ==> entry == TocEntry(NULL_UUID, 0, 0) && filePos == 0
      ensures old(entry.offset) == 0 ==> entry == old(entry) && filePos == old(filePos)
    {
      if entry.offset != 0 { Clear(); }
    }

    /** Whatever was open before, after a close no open is refused for an open file. */
    method Reopen(uuid: seq<Byte>) returns (code: Code)
      requires Valid()
      modifies `entry, `filePos, pool, pool.entityMap
      ensures Valid() && pool.Taken() == old(pool.Taken()) && !code.ENFILE?
      ensures reliable && old(|pool.Taken()|) < pool.entityMap.Length ==>
        forall k :: Openable(package, uuid, k) ==> code.Ok?
    {
      FileClose();
      code := FileOpen(uuid);
    }
  }

  /** Entries `0..k` were read and none was a match or the end. */
  ghost predicate Passed(package: seq<Byte>, uuid: seq<Byte>, k: nat) {
    forall i: nat :: i < k ==> HasEntry(package, i) && EntryAt(package, i).uuid != uuid
                               && EntryAt(package, i).uuid != NULL_UUID
  }
}
