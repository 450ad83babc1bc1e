/** A file at any byte offset over a block device (`io_block.c`). */
module BlockIo {
  import opened Words
  import opened Bits
  import opened Alignment
  import opened Stretches
  import opened BlockDevices

  const INT_MAX: nat := 0x7FFF_FFFF
  const SIZE_MAX: nat := TWO_64 - 1

  datatype Code = Ok | EIO | EINVAL
  datatype SeekMode = SeekSet | SeekCur | SeekOther

  // ---- The flat file that the layer presents --------------------------------

  /** A window of `size` bytes at `base` on the disk, with a cursor. */
  datatype Flat = Flat(disk: seq<Byte>, base: nat, size: nat, pos: nat, canRead: bool, canWrite: bool)

  datatype Op = Seek(mode: SeekMode, offset: int) | Read(length: nat) | Write(data: seq<Byte>)

  /** What a caller sees of one operation. */
  datatype Event = Event(code: Code, count: nat, output: seq<Byte>)

  function SeekTarget(f: Flat, mode: SeekMode, offset: int): Option<nat> {
    if offset < 0 then None
    else match mode
      case SeekSet => if offset <= f.size then Some(offset) else None
      case SeekCur => if f.pos + offset <= f.size then Some(f.pos + offset) else None
      case SeekOther => None
  }

  /** `count` of the `length` bytes at the cursor were dealt with: all of them
      when the operation succeeds, a proper prefix (none if out of range) when it fails. */
  ghost predicate Progress(f: Flat, code: Code, length: nat, count: nat, supported: bool) {
    && count <= length
    && (count > 0 ==> supported && length <= f.size - f.pos && f.base + f.pos + count <= |f.disk|)
    && (code.Ok? ==> supported && count == length)
    && (!code.Ok? && length > 0 ==> count < length)
    && (!supported || (length > 0 && length > f.size - f.pos) ==> code.EINVAL?)
    && (supported && length == 0 ==> code.Ok?)
  }

  ghost predicate FlatStep(f: Flat, op: Op, e: Event, f': Flat) {
    match op
    case Seek(mode, offset) =>
      var target := SeekTarget(f, mode, offset);
      && e.count == 0 && e.output == []
      && e.code == (if target.Some? then Ok else EINVAL)
      && f' == (if target.Some? then f.(pos := target.value) else f)
    case Read(length) =>
      && Progress(f, e.code, length, e.count, f.canRead)
      && f' == f.(pos := f.pos + e.count)
      && |e.output| == e.count && Holds(f.disk, f.base + f.pos, e.output)
    case Write(data) =>
      && Progress(f, e.code, |data|, e.count, f.canRead && f.canWrite)
      && e.output == []
      && f' == f.(pos := f.pos + e.count, disk := f'.disk)
      && Spliced(f.disk, f.base + f.pos, data[..e.count], f'.disk)
  }

  // ---- The layer --------------------------------------------------------------

  /** `block_dev_open`: a device is accepted exactly when its block size is a power
      of two and its bounce buffer is non-empty and made of aligned whole blocks. */
  method DevOpen(device: Device, bounce: array<Byte>, bufferOffset: nat, canRead: bool, canWrite: bool)
    returns (file: BlockFile?)
    requires bounce.Length <= SIZE_MAX
    ensures file != null <==>
      (&& (exists k: nat :: device.blockSize == Pow2(k))
       && bounce.Length > 0
       && bufferOffset % device.blockSize == 0
       && bounce.Length % device.blockSize == 0)
    ensures file != null ==> file.ValidDevice() && file.device == device && file.bounce == bounce
  {
    PowerOf2Iff(device.blockSize);
    if device.blockSize == 0 || !IsPowerOf2(device.blockSize) || bounce.Length == 0
       || bufferOffset % device.blockSize != 0 || bounce.Length % device.blockSize != 0 {
      return null;
    }
    MultipleIff(bounce.Length, device.blockSize);
    file := new BlockFile(device, bounce, canRead, canWrite);
  }

  /** The whole blocks around the `left` bytes at `pos`, as many as the bounce buffer holds. */
  method Blocks(pos: nat, base: nat, size: nat, bs: nat, bufferLength: nat, left: nat)
    returns (skip: nat, lba: nat, request: nat)
    requires IsPowerOf2(bs) && Multiple(base, bs) && Multiple(size, bs)
    requires bufferLength > 0 && Multiple(bufferLength, bs) && 0 < left && pos + left <= size
    ensures lba == (pos + base) / bs && skip <= pos && lba * bs == base + pos - skip && Multiple(lba * bs, bs)
    ensures Multiple(request, bs) && skip < request <= bufferLength && lba * bs + request <= base + size
  {
    QuotientNat(pos + base, bs);
    skip, lba := And(pos, bs - 1), (pos + base) / bs;
    if skip + left > bufferLength {
      request := bufferLength;
    } else {
      request := RoundUp(skip + left, bs);
    }
    RequestFits(pos, base, size, bs, bufferLength, left, skip, lba, request);
  }

  class BlockFile {
    const device: Device
    const bounce: array<Byte>
    const canRead: bool
    const canWrite: bool
    var base: nat
    var size: nat
    var pos: nat

    constructor (device: Device, bounce: array<Byte>, canRead: bool, canWrite: bool)
      ensures this.device == device && this.bounce == bounce
      ensures this.canRead == canRead && this.canWrite == canWrite
    {
      this.device, this.bounce := device, bounce;
      this.canRead, this.canWrite := canRead, canWrite;
      base, size, pos := 0, 0, 0;
    }

    /** What `block_dev_open` checks. */
    ghost predicate ValidDevice() {
      && IsPowerOf2(device.blockSize) && Multiple(bounce.Length, device.blockSize)
      && 0 < bounce.Length <= SIZE_MAX
    }

    ghost predicate Valid()
      reads this, device
    {
      && ValidDevice() && device.lo == base && device.hi == base + size
      && size > 0 && Multiple(base, device.blockSize) && Multiple(size, device.blockSize)
      && base + size <= SIZE_MAX
      && pos <= size
    }

    ghost function View(): Flat
      reads this, device
    {
      Flat(device.disk, base, size, pos, canRead, canWrite)
    }

    /** The region is on a disk that serves every request, and its last block has a
        number that the device can be asked for. */
    ghost predicate Works()
      reads this, device
    {
      && device.reliable && base + size <= |device.disk|
      && base + size <= (INT_MAX + 1) * device.blockSize
    }

    /** `block_open`: the region must be non-empty, whole blocks and addressable. */
    method Open(offset: nat, length: nat) returns (code: Code)
      requires ValidDevice() && offset <= SIZE_MAX && length <= SIZE_MAX
      modifies this, device`lo, device`hi
      ensures code.Ok? <==> length != 0 && offset % device.blockSize == 0 && length % device.blockSize == 0
                            && offset + length <= SIZE_MAX
      ensures code.Ok? ==> Valid() && View() == Flat(device.disk, offset, length, 0, canRead, canWrite)
      ensures !code.Ok? ==> code.EINVAL? && View() == old(View())
    {
      if length == 0 || offset % device.blockSize != 0 || length % device.blockSize != 0 { return EINVAL; }
      if offset > SIZE_MAX - length { return EINVAL; }
      MultipleIff(offset, device.blockSize);
      MultipleIff(length, device.blockSize);
      base, size, pos := offset, length, 0;
      device.lo, device.hi := base, base + size;
      return Ok;
    }

    /** `block_seek`, with the cursor and the offset in 64 bits. */
    method DoSeek(mode: SeekMode, offset: int) returns (code: Code)
      requires Valid() && -0x8000_0000_0000_0000 <= offset < 0x8000_0000_0000_0000
      modifies `pos
      ensures Valid() && FlatStep(old(View()), Seek(mode, offset), Event(code, 0, []), View())
    {
      if offset < 0 || pos > size { return EINVAL; }
      match mode {
        case SeekSet =>
          if offset > size { return EINVAL; }
          pos := offset;
        case SeekCur =>
          var newPos := if pos + offset < TWO_64 then pos + offset else pos + offset - TWO_64;
          if newPos < pos || newPos > size { return EINVAL; }
          pos := newPos;
        case SeekOther =>
          return EINVAL;
      }
      return Ok;
    }

    /** Where the next request starts and how much it asks for. */
    method Plan(left: nat) returns (code: Code, skip: nat, lba: nat, request: nat)
      requires Valid() && 0 < left <= size - pos
      ensures code.Ok? || code.EINVAL?
      ensures Works() ==> code.Ok?
      ensures code.Ok? ==>
        && skip <= pos && lba * device.blockSize == base + pos - skip
        && device.Serves(base + pos - skip, request) && request <= bounce.Length && skip < request
    {
      code := Ok;
      skip, lba, request := Blocks(pos, base, size, device.blockSize, bounce.Length, left);
      BlockNumberFits(pos + base, device.blockSize, INT_MAX + 1);
      if pos + base >= TWO_64 || lba > INT_MAX { code := EINVAL; }
    }

    // ---- Reading ------------------------------------------------------------

    /** One turn of the loop of `block_read`. */
    method ReadChunk(left: nat) returns (code: Code, bytes: seq<Byte>)
      requires Valid() && 0 < left <= size - pos
      modifies `pos, bounce
      ensures Valid()
      ensures code.Ok? ==>
        && 0 < |bytes| <= left && pos == old(pos) + |bytes| && base + pos <= |device.disk|
        && Holds(device.disk, base + old(pos), bytes)
      ensures !code.Ok? ==> pos == old(pos)
      ensures old(Works()) ==> code.Ok?
    {
      var skip, lba, request;
      bytes := [];
      code, skip, lba, request := Plan(left);
      if !code.Ok? { return; }
      ghost var start := base + pos - skip;
      var got := device.Read(lba, bounce, request, start);
      if got <= skip { return EIO, []; }
      var nbytes := got - skip;
      var padding := if nbytes > left then nbytes - left else 0;
      nbytes := nbytes - padding;
      bytes := bounce[skip..skip + nbytes];
      HoldsSlice(device.disk, start, bounce[..got], skip, skip + nbytes);
      assert bytes == bounce[..got][skip..skip + nbytes];
      pos := pos + nbytes;
    }

    /** The loop of `block_read`. */
    method ReadLoop(length: nat) returns (code: Code, output: seq<Byte>)
      requires Valid() && length <= size - pos
      modifies `pos, bounce
      ensures Valid() && |output| <= length && pos == old(pos) + |output|
      ensures output != [] ==> base + pos <= |device.disk|
      ensures Holds(device.disk, base + old(pos), output)
      ensures code.Ok? <==> |output| == length
      ensures old(Works()) ==> code.Ok?
    {
      output := [];
      code := Ok;
      ghost var at := base + pos;
      while |output| < length
        invariant Valid() && |output| <= length && pos == old(pos) + |output|
        invariant output != [] ==> base + pos <= |device.disk|
        invariant Holds(device.disk, at, output)
        invariant code.Ok?
        decreases length - |output|
      {
        var bytes;
        code, bytes := ReadChunk(length - |output|);
        if !code.Ok? { return; }
        HoldsJoin(device.disk, at, output, bytes);
        output := output + bytes;
      }
    }

    /** `block_read`. */
    method DoRead(length: nat) returns (code: Code, output: seq<Byte>)
      requires Valid()
      modifies `pos, bounce
      ensures Valid()
      ensures FlatStep(old(View()), Read(length), Event(code, |output|, output), View())
      ensures old(Works()) && canRead && length <= size - old(pos) ==> code.Ok?
    {
      if !canRead { return EINVAL, []; }
      if length == 0 { return Ok, []; }
      if pos > size || length > size - pos { return EINVAL, []; }
      code, output := ReadLoop(length);
    }

    // ---- Writing ------------------------------------------------------------

    /** Rounds a transfer down to a block boundary. */
    method WholeBlocks(n: nat) returns (m: nat)
      requires IsPowerOf2(device.blockSize)
      ensures m <= n && Multiple(m, device.blockSize) && (Multiple(n, device.blockSize) ==> m == n)
    {
      m := AndNot(n, device.blockSize - 1);
      RoundDown(n, device.blockSize);
      MultipleIff(m, device.blockSize);
      MultipleIff(n, device.blockSize);
    }

    /** The bounce buffer holds `user` after `skip`, and elsewhere what is on the disk. */
    ghost predicate Prepared(user: seq<Byte>, skip: nat, request: nat)
      reads this, bounce, device
    {
      && skip <= pos && request <= bounce.Length
      && Mixed(device.disk, base + pos - skip, skip, user, bounce[..request])
    }

    /** Copies the user's bytes over the blocks that were read. */
    method Overlay(user: seq<Byte>, skip: nat, ghost got: nat, request: nat, nbytes: nat)
      requires skip <= pos && skip < request <= got <= bounce.Length
      requires nbytes == if request - skip < |user| then request - skip else |user|
      requires Holds(device.disk, base + pos - skip, bounce[..got])
      modifies bounce
      ensures Prepared(user, skip, request)
    {
      ghost var before := bounce[..];
      assert bounce[..got] == before[..got];
      CopyBytes(bounce, skip, user[..nbytes]);
      OverlayIsMixed(device.disk, base + pos - skip, skip, user, got, before, user[..nbytes], bounce[..], request);
      assert bounce[..][..request] == bounce[..request];
    }

    /** Fills the bounce buffer so that writing any prefix of it changes only the
        bytes of the user's block: reads first where whole blocks are not replaced. */
    method Fill(user: seq<Byte>, skip: nat, lba: nat, asked: nat) returns (code: Code, request: nat)
      requires Valid() && 0 < |user| <= size - pos
      requires skip <= pos && lba * device.blockSize == base + pos - skip
      requires skip < asked && device.Serves(base + pos - skip, asked) && asked <= bounce.Length
      modifies bounce
      ensures code.Ok? || code.EIO?
      ensures Works() ==> code.Ok?
      ensures code.Ok? ==> skip < request && device.Serves(base + pos - skip, request)
      ensures code.Ok? ==> Prepared(user, skip, request)
    {
      request := asked;
      var nbytes := request - skip;
      var padding := if nbytes > |user| then nbytes - |user| else 0;
      nbytes := nbytes - padding;
      if skip > 0 || padding > 0 {
        var got := device.Read(lba, bounce, request, base + pos - skip);
        request := WholeBlocks(got);
        if request <= skip { return EIO, request; }
        nbytes := request - skip;
        padding := if nbytes > |user| then nbytes - |user| else 0;
        nbytes := nbytes - padding;
        Overlay(user, skip, got, request, nbytes);
      } else {
        ghost var before := bounce[..];
        CopyBytes(bounce, skip, user[..nbytes]);
        WholeIsMixed(device.disk, base + pos, user, before, bounce[..], request);
        assert bounce[..][..request] == bounce[..request];
      }
      code := Ok;
    }

    /** Writes the bounce buffer out and sees how far the write got. */
    method Flush(user: seq<Byte>, skip: nat, lba: nat, asked: nat) returns (code: Code, nbytes: nat)
      requires user != [] && pos + |user| <= size
      requires skip <= pos && lba * device.blockSize == base + pos - skip
      requires device.Serves(base + pos - skip, asked)
      requires Prepared(user, skip, asked) && skip < asked
      modifies `pos, device`disk
      ensures code.Ok? ==>
        && 0 < nbytes <= |user| && pos == old(pos) + nbytes && base + pos <= |device.disk|
        && Spliced(old(device.disk), base + old(pos), user[..nbytes], device.disk)
      ensures !code.Ok? ==> pos == old(pos) && device.disk == old(device.disk)
      ensures device.reliable && base + old(pos) - skip + asked <= old(|device.disk|) ==> code.Ok?
    {
      ghost var d, start := device.disk, base + pos - skip;
      var written := device.Write(lba, bounce, asked, start);
      assert bounce[..asked][..written] == bounce[..written];
      PrefixWritten(d, start, skip, user, bounce[..asked], written, device.disk);
      if written <= skip { return EIO, 0; }
      nbytes := written - skip;
      var padding := if nbytes > |user| then nbytes - |user| else 0;
      nbytes := nbytes - padding;
      pos := pos + nbytes;
      code := Ok;
    }

    /** One turn of the loop of `block_write`. */
    method WriteChunk(user: seq<Byte>) returns (code: Code, nbytes: nat)
      requires Valid() && 0 < |user| <= size - pos
      modifies `pos, bounce, device`disk
      ensures Valid()
      ensures code.Ok? ==>
        && 0 < nbytes <= |user| && pos == old(pos) + nbytes && base + pos <= |device.disk|
        && Spliced(old(device.disk), base + old(pos), user[..nbytes], device.disk)
      ensures !code.Ok? ==> pos == old(pos) && device.disk == old(device.disk)
      ensures old(Works()) ==> code.Ok?
    {
      var skip, lba, request;
      nbytes := 0;
      code, skip, lba, request := Plan(|user|);
      if !code.Ok? { return; }
      code, request := Fill(user, skip, lba, request);
      if !code.Ok? { return; }
      code, nbytes := Flush(user, skip, lba, request);
    }

    /** The loop of `block_write`. */
    method WriteLoop(data: seq<Byte>) returns (code: Code, count: nat)
      requires Valid() && |data| <= size - pos
      modifies `pos, bounce, device`disk
      ensures Valid() && count <= |data| && pos == old(pos) + count
      ensures count > 0 ==> base + pos <= |device.disk|
      ensures Spliced(old(device.disk), base + old(pos), data[..count], device.disk)
      ensures code.Ok? <==> count == |data|
      ensures old(Works()) ==> code.Ok?
    {
      count := 0;
      code := Ok;
      ghost var at := base + pos;
      while count < |data|
        invariant Valid() && count <= |data| && pos == old(pos) + count
        invariant count > 0 ==> base + pos <= |device.disk|
        invariant Spliced(old(device.disk), at, data[..count], device.disk)
        invariant old(Works()) ==> Works()
        invariant code.Ok?
      {
        ghost var before := device.disk;
        var nbytes;
        code, nbytes := WriteChunk(data[count..]);
        if !code.Ok? { return; }
        SplicedMore(old(device.disk), at, data, count, nbytes, before, device.disk);
        count := count + nbytes;
      }
    }

    /** `block_write`. */
    method DoWrite(data: seq<Byte>) returns (code: Code, count: nat)
      requires Valid()
      modifies `pos, bounce, device`disk
      ensures Valid()
      ensures FlatStep(old(View()), Write(data), Event(code, count, []), View())
      ensures old(Works()) && canRead && canWrite && |data| <= size - old(pos) ==> code.Ok?
    {
      if !canRead || !canWrite { return EINVAL, 0; }
      if data == [] { return Ok, 0; }
      if pos > size || |data| > size - pos { return EINVAL, 0; }
      code, count := WriteLoop(data);
    }

    // ---- Any sequence of operations -----------------------------------------

    method Perform(op: Op) returns (event: Event)
      requires Valid() && (op.Seek? ==> -0x8000_0000_0000_0000 <= op.offset < 0x8000_0000_0000_0000)
      modifies `pos, bounce, device`disk
      ensures Valid()
      ensures FlatStep(old(View()), op, event, View())
    {
      match op
      case Seek(mode, offset) =>
        var code := DoSeek(mode, offset);
        event := Event(code, 0, []);
      case Read(length) =>
        var code, output := DoRead(length);
        event := Event(code, |output|, output);
      case Write(data) =>
        var code, count := DoWrite(data);
        event := Event(code, count, []);
    }

    /** Any sequence of operations behaves as on the flat file, and issues only
        well-formed requests to the device. */
    method PerformAll(ops: seq<Op>) returns (events: seq<Event>, ghost files: seq<Flat>)
      requires Valid()
      requires forall k :: 0 <= k < |ops| && ops[k].Seek? ==>
        -0x8000_0000_0000_0000 <= ops[k].offset < 0x8000_0000_0000_0000
      modifies `pos, bounce, device`disk
      ensures Valid()
      ensures FlatRun(files, ops, events) && files[0] == old(View()) && files[|ops|] == View()
    {
      events, files := [], [View()];
      for i := 0 to |ops|
        invariant Valid()
        invariant FlatRun(files, ops[..i], events) && files[0] == old(View()) && files[i] == View()
      {
        var event := Perform(ops[i]);
        assert ops[..i + 1] == ops[..i] + [ops[i]];
        events, files := events + [event], files + [View()];
      }
      assert ops[..|ops|] == ops;
    }
  }

  // ---- Runs -----------------------------------------------------------------

  /** The flat files a run of operations goes through. */
  ghost predicate FlatRun(files: seq<Flat>, ops: seq<Op>, events: seq<Event>) {
    && |files| == |ops| + 1 && |events| == |ops|
    && forall k :: 0 <= k < |ops| ==> FlatStep(files[k], ops[k], events[k], files[k + 1])
  }

  ghost predicate InWindow(f: Flat) {
    f.pos <= f.size
  }

  /** In a whole run no byte of the disk outside the opened region changes, and
      the window itself never moves. */
  lemma {:induction false} RunKeepsOutside(files: seq<Flat>, ops: seq<Op>, events: seq<Event>, i: nat)
    requires FlatRun(files, ops, events) && InWindow(files[0]) && i < |files[0].disk|
    requires i < files[0].base || files[0].base + files[0].size <= i
    ensures
      var f := files[|ops|];
      && InWindow(f) && f.base == files[0].base && f.size == files[0].size
      && |f.disk| == |files[0].disk| && f.disk[i] == files[0].disk[i]
    decreases |ops|
  {
    if ops != [] {
      var last := |ops| - 1;
      RunKeepsOutside(files[..last + 1], ops[..last], events[..last], i);
      assert FlatStep(files[last], ops[last], events[last], files[last + 1]);
      assert At(files[last + 1].disk, i) == At(files[last].disk, i);
    }
  }

  /** A seek succeeds exactly when it goes forward and stays in the window, and moves nothing
      but the cursor; from the current position it is a seek from the start to the sum. */
  lemma SeekMeaning(f: Flat, offset: int, e: Event, f': Flat)
    ensures FlatStep(f, Seek(SeekSet, offset), e, f') <==>
      if 0 <= offset <= f.size then e == Event(Ok, 0, []) && f' == f.(pos := offset)
      else e == Event(EINVAL, 0, []) && f' == f
    ensures FlatStep(f, Seek(SeekCur, offset), e, f') <==>
      if offset < 0 then e == Event(EINVAL, 0, []) && f' == f
      else FlatStep(f, Seek(SeekSet, f.pos + offset), e, f')
    ensures FlatStep(f, Seek(SeekOther, offset), e, f') <==> e == Event(EINVAL, 0, []) && f' == f
  {
  }

  /** Writing, seeking back and reading the same number of bytes returns what was
      written. */
  lemma WriteThenReadBack(f0: Flat, f1: Flat, f2: Flat, f3: Flat, data: seq<Byte>, w: Event, s: Event, r: Event)
    requires InWindow(f0)
    requires FlatStep(f0, Write(data), w, f1) && w.code.Ok?
    requires FlatStep(f1, Seek(SeekSet, f0.pos), s, f2)
    requires FlatStep(f2, Read(|data|), r, f3) && r.code.Ok?
    ensures s.code.Ok? && r.output == data && f3.pos == f1.pos == f0.pos + |data|
  {
    var at := f0.base + f0.pos;
    assert data[..|data|] == data;
    SplicedHolds(f0.disk, at, data, f1.disk);
    HoldsUnique(f1.disk, at, data, r.output);
  }

  /** A failed write is an exact prefix of the write: retrying the rest from where
      the cursor stopped gives the disk and the cursor of one successful write. */
  lemma RetryCompletes(f0: Flat, f1: Flat, f2: Flat, data: seq<Byte>, first: Event, second: Event)
    requires InWindow(f0)
    requires FlatStep(f0, Write(data), first, f1) && !first.code.Ok?
    requires FlatStep(f1, Write(data[first.count..]), second, f2) && second.code.Ok?
    ensures FlatStep(f0, Write(data), Event(Ok, |data|, []), f2)
  {
    var at, n := f0.base + f0.pos, first.count;
    var rest := data[n..];
    assert rest[..|rest|] == rest && data[..|data|] == data && data[..n] + rest == data;
    SplicedJoin(f0.disk, at, data[..n], rest, f1.disk, f2.disk);
  }
}
