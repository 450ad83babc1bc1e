/** What reading and writing a stretch of bytes means. */
module Stretches {
  import opened Words

  function At(s: seq<Byte>, i: nat): Byte
    requires i < |s|
  {
    s[i]
  }

  /** `bytes` are what `d` holds from `at` on. */
  ghost predicate Holds(d: seq<Byte>, at: nat, bytes: seq<Byte>) {
    && (bytes != [] ==> at + |bytes| <= |d|)
    && forall i {:trigger At(bytes, i)} :: 0 <= i < |bytes| ==> At(bytes, i) == At(d, at + i)
  }

  /** `e` is `d` with `bytes` at `at`, and nothing else changed. */
  ghost predicate Spliced(d: seq<Byte>, at: nat, bytes: seq<Byte>, e: seq<Byte>) {
    && |e| == |d|
    && (bytes != [] ==> at + |bytes| <= |d|)
    && forall i {:trigger At(e, i)} :: 0 <= i < |e| ==>
         At(e, i) == if at <= i < at + |bytes| then At(bytes, i - at) else At(d, i)
  }

  /** `buf` holds the bytes from `start` on, with `user` laid over them `skip` bytes in. */
  ghost predicate Mixed(d: seq<Byte>, start: nat, skip: nat, user: seq<Byte>, buf: seq<Byte>) {
    forall i {:trigger At(buf, i)} :: 0 <= i < |buf| ==>
      if skip <= i < skip + |user| then At(buf, i) == At(user, i - skip)
      else start + i < |d| && At(buf, i) == At(d, start + i)
  }

  lemma Same(s: seq<Byte>, t: seq<Byte>)
    requires |s| == |t| && forall i {:trigger At(s, i)} :: 0 <= i < |s| ==> At(s, i) == At(t, i)
    ensures s == t
  {
    forall i | 0 <= i < |s| ensures s[i] == t[i] {
      assert At(s, i) == At(t, i);
    }
  }

  /** What is held at one place is unique. */
  lemma HoldsUnique(d: seq<Byte>, at: nat, x: seq<Byte>, y: seq<Byte>)
    requires Holds(d, at, x) && Holds(d, at, y) && |x| == |y|
    ensures x == y
  {
    forall i: nat | i < |x| ensures At(x, i) == At(y, i) {
      assert At(y, i) == At(d, at + i);
    }
    Same(x, y);
  }

  lemma HoldsSlice(d: seq<Byte>, at: nat, x: seq<Byte>, from: nat, to: nat)
    requires Holds(d, at, x) && from <= to <= |x|
    ensures Holds(d, at + from, x[from..to])
  {
    forall i: nat | i < to - from ensures At(x[from..to], i) == At(x, from + i) {
    }
  }

  lemma HoldsJoin(d: seq<Byte>, at: nat, x: seq<Byte>, y: seq<Byte>)
    requires Holds(d, at, x) && Holds(d, at + |x|, y)
    ensures Holds(d, at, x + y)
  {
    forall i: nat | i < |x + y|
      ensures at + |x + y| <= |d| && At(x + y, i) == At(d, at + i)
    {
      if i < |x| {
        assert At(x + y, i) == At(x, i);
      } else {
        assert At(x + y, i) == At(y, i - |x|);
      }
    }
  }

  /** What was written is what is then held. */
  lemma SplicedHolds(d: seq<Byte>, at: nat, bytes: seq<Byte>, e: seq<Byte>)
    requires Spliced(d, at, bytes, e)
    ensures Holds(e, at, bytes)
  {
    forall i: nat | i < |bytes| ensures At(bytes, i) == At(e, at + i) {
    }
  }

  /** Two writes, the second where the first ended, are one write. */
  lemma SplicedJoin(d: seq<Byte>, at: nat, x: seq<Byte>, y: seq<Byte>, e: seq<Byte>, f: seq<Byte>)
    requires Spliced(d, at, x, e) && Spliced(e, at + |x|, y, f)
    ensures Spliced(d, at, x + y, f)
  {
    forall i: nat | i < |f|
      ensures At(f, i) == if at <= i < at + |x + y| then At(x + y, i - at) else At(d, i)
    {
      assert i < |e| && (i < at + |x| || i >= at + |x| + |y| ==> At(f, i) == At(e, i));
    }
  }

  lemma SplicedMore(d: seq<Byte>, at: nat, data: seq<Byte>, m: nat, n: nat, e: seq<Byte>, f: seq<Byte>)
    requires m + n <= |data|
    requires Spliced(d, at, data[..m], e) && Spliced(e, at + m, data[m..][..n], f)
    ensures Spliced(d, at, data[..m + n], f)
  {
    SplicedJoin(d, at, data[..m], data[m..][..n], e, f);
    assert data[..m] + data[m..][..n] == data[..m + n];
  }

  /** Writing any prefix of such a mixture back changes only what `user` covers. */
  lemma PrefixWritten(d: seq<Byte>, start: nat, skip: nat, user: seq<Byte>, buf: seq<Byte>, n: nat, e: seq<Byte>)
    requires Mixed(d, start, skip, user, buf) && n <= |buf| && Spliced(d, start, buf[..n], e)
    ensures n <= skip ==> e == d
    ensures n > skip ==> Spliced(d, start + skip, user[..if n - skip < |user| then n - skip else |user|], e)
  {
    forall i: nat | i < |e|
      ensures At(e, i) ==
        if start + skip <= i < start + n && i < start + skip + |user| then At(user, i - start - skip) else At(d, i)
    {
      if start <= i < start + n {
        assert At(e, i) == At(buf[..n], i - start) == At(buf, i - start);
      }
    }
    if n <= skip { Same(e, d); }
  }

  /** Laying `user` over bytes as they were read gives such a mixture. */
  lemma OverlayIsMixed(d: seq<Byte>, start: nat, skip: nat, user: seq<Byte>, got: nat, buf: seq<Byte>, part: seq<Byte>,
                       after: seq<Byte>, n: nat)
    requires skip < n <= got <= |buf| && Holds(d, start, buf[..got])
    requires part <= user && |part| == (if n - skip < |user| then n - skip else |user|)
    requires Spliced(buf, skip, part, after)
    ensures Mixed(d, start, skip, user, after[..n])
  {
    forall i: nat | i < n
      ensures At(after[..n], i) == if skip <= i < skip + |user| then At(user, i - skip) else At(d, start + i)
    {
      assert At(after[..n], i) == At(after, i);
      if !(skip <= i < skip + |user|) {
        assert At(buf, i) == At(buf[..got], i);
      }
    }
  }

  /** Whole blocks of `user` need nothing from the disk. */
  lemma WholeIsMixed(d: seq<Byte>, start: nat, user: seq<Byte>, buf: seq<Byte>, after: seq<Byte>, n: nat)
    requires n <= |user| && n <= |buf| && Spliced(buf, 0, user[..n], after)
    ensures Mixed(d, start, 0, user, after[..n])
  {
    forall i: nat | i < n ensures At(after[..n], i) == At(user, i) {
      assert At(after[..n], i) == At(after, i);
    }
  }
}

/** A block device that serves whole blocks and may transfer less than asked. */
module BlockDevices {
  import opened Words
  import opened Stretches
  import opened Alignment

  class Device {
    const blockSize: nat
    /** Every request that can be served is served in full. */
    const reliable: bool
    var disk: seq<Byte>
    ghost var lo: nat
    ghost var hi: nat

    constructor (blockSize: nat, disk: seq<Byte>, reliable: bool)
      requires blockSize > 0
      ensures this.blockSize == blockSize && this.disk == disk && this.reliable == reliable
    {
      this.blockSize, this.reliable := blockSize, reliable;
      this.disk := disk;
      lo, hi := 0, 0;
    }

    /** The only requests the device is ever given: whole blocks of `lo..hi`. */
    ghost predicate Serves(at: nat, request: nat)
      reads this
    {
      && blockSize > 0 && Multiple(at, blockSize) && Multiple(request, blockSize)
      && request > 0 && lo <= at && at + request <= hi
    }

    /** Reads the first `n` bytes of the request, for an `n` of the device's choosing. */
    method Read(lba: nat, buf: array<Byte>, request: nat, ghost at: nat) returns (n: nat)
      requires request <= buf.Length && at == lba * blockSize && Serves(at, request)
      modifies buf
      ensures n <= request && Holds(disk, at, buf[..n])
      ensures reliable && at + request <= |disk| ==> n == request
    {
      var start := lba * blockSize;
      n := Choose(start, request);
      forall i | 0 <= i < n { buf[i] := disk[start + i]; }
    }

    /** Writes the first `n` bytes of the request, for an `n` of the device's choosing. */
    method Write(lba: nat, buf: array<Byte>, request: nat, ghost at: nat) returns (n: nat)
      requires request <= buf.Length && at == lba * blockSize && Serves(at, request)
      modifies `disk
      ensures n <= request && Spliced(old(disk), at, buf[..n], disk)
      ensures reliable && at + request <= |disk| ==> n == request
    {
      var start := lba * blockSize;
      n := Choose(start, request);
      if n > 0 { disk := disk[..start] + buf[..n] + disk[start + n..]; }
    }

    method Choose(start: nat, request: nat) returns (n: nat)
      ensures n <= request && (n > 0 ==> start + n <= |disk|)
      ensures reliable && start + request <= |disk| ==> n == request
    {
      var most := if start + request <= |disk| then request
                  else if start <= |disk| then |disk| - start else 0;
      n :| 0 <= n <= most;
      if reliable { n := most; }
    }
  }

  /** `memcpy` into a buffer. */
  method CopyBytes(dst: array<Byte>, to: nat, src: seq<Byte>)
    requires to + |src| <= dst.Length
    modifies dst
    ensures Spliced(old(dst[..]), to, src, dst[..])
  {
    forall i | 0 <= i < |src| { dst[to + i] := src[i]; }
  }
}
