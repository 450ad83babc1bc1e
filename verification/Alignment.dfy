/** Rounding to block boundaries with the masks the block layer uses. */
module Alignment {
  import opened Bits

  /** `(x + (bs - 1)) & ~(bs - 1)`. */
  function RoundUp(x: nat, bs: nat): (r: nat)
    requires bs > 0
  {
    AndNot(x + bs - 1, bs - 1)
  }

  lemma MaskIsMod(x: nat, bs: nat)
    requires IsPowerOf2(bs)
    ensures And(x, bs - 1) == x % bs
  {
    PowerOf2Iff(bs);
    var k: nat :| bs == Pow2(k);
    AndMask(x, k);
  }

  /** `x` is a number of whole blocks; read as `x % bs == 0`, by `MultipleIff`. */
  ghost predicate Multiple(x: nat, bs: nat)
    requires bs > 0
  {
    x == 0 || (x >= bs && Multiple(x - bs, bs))
  }

  lemma {:induction false} MultipleIff(x: nat, bs: nat)
    requires bs > 0
    ensures Multiple(x, bs) <==> x % bs == 0
  {
    if x < bs {
      ModUnique(x, bs, 0, x);
    } else {
      MultipleIff(x - bs, bs);
      var q, r := (x - bs) / bs, (x - bs) % bs;
      assert bs * (q + 1) == bs * q + bs;
      ModUnique(x, bs, q + 1, r);
    }
  }

  lemma AddMultiple(x: nat, y: nat, bs: nat)
    requires bs > 0 && y % bs == 0
    ensures (x + y) % bs == x % bs
    ensures (x + y) / bs == x / bs + y / bs
  {
    var p, q := x / bs, y / bs;
    assert bs * (p + q) == bs * p + bs * q;
    ModUnique(x + y, bs, p + q, x % bs);
  }

  /** The block that holds `base + pos` starts `pos % bs` bytes before it. */
  lemma BlockStart(pos: nat, base: nat, bs: nat)
    requires bs > 0 && base % bs == 0
    ensures (base + pos) / bs * bs == base + (pos - pos % bs)
    ensures (base + pos) / bs * bs % bs == 0
    ensures (pos - pos % bs) % bs == 0
  {
    AddMultiple(pos, base, bs);
    var q, z := (base + pos) / bs, pos / bs;
    assert base + pos == bs * q + pos % bs;
    assert pos - pos % bs == bs * z;
    ModUnique(bs * q, bs, q, 0);
    ModUnique(bs * z, bs, z, 0);
  }

  lemma FloorMultiple(x: nat, bs: nat)
    requires bs > 0
    ensures x - x % bs == bs * (x / bs) && (x - x % bs) % bs == 0
  {
    ModUnique(bs * (x / bs), bs, x / bs, 0);
  }

  lemma RoundDown(x: nat, bs: nat)
    requires IsPowerOf2(bs)
    ensures AndNot(x, bs - 1) == x - x % bs && (x - x % bs) % bs == 0
  {
    MaskIsMod(x, bs);
    assert (x - x % bs) % bs == 0 by { FloorMultiple(x, bs); }
  }

  lemma CeilingBelow(x: nat, bs: nat, limit: nat)
    requires bs > 0 && x <= limit && limit % bs == 0
    ensures var y := x + bs - 1; x <= y - y % bs <= limit
  {
    var y := x + bs - 1;
    FloorMultiple(y, bs);
    FloorMultiple(limit, bs);
    if bs * (y / bs) > limit {
      if y / bs <= limit / bs { MulGrows(bs, y / bs, limit / bs); assert false; }
      MulGrows(bs, limit / bs + 1, y / bs);
      assert false;
    }
  }

  lemma SubMultiple(x: nat, y: nat, bs: nat)
    requires bs > 0 && x % bs == 0 && y % bs == 0 && y <= x
    ensures (x - y) % bs == 0
  {
    assert x - y == bs * (x / bs - y / bs);
    ModUnique(x - y, bs, x / bs - y / bs, 0);
  }

  lemma MultipleAtLeast(x: nat, bs: nat)
    requires bs > 0 && x > 0 && x % bs == 0
    ensures x >= bs
  {
    if x < bs { ModUnique(x, bs, 0, x); assert false; }
  }

  /** The request for `left` bytes at `pos` is made of whole blocks of the region
      and reaches past the bytes to skip. */
  lemma RequestFits(pos: nat, base: nat, size: nat, bs: nat, bufferLength: nat, left: nat,
                    skip: nat, lba: int, request: nat)
    requires IsPowerOf2(bs) && Multiple(base, bs) && Multiple(size, bs)
    requires bufferLength > 0 && Multiple(bufferLength, bs)
    requires 0 < left && pos + left <= size
    requires skip == And(pos, bs - 1) && lba == (pos + base) / bs
    requires request == if skip + left > bufferLength then bufferLength else RoundUp(skip + left, bs)
    ensures lba >= 0 && skip <= pos && lba * bs == base + pos - skip && Multiple(lba * bs, bs)
    ensures Multiple(request, bs) && skip < request <= bufferLength && lba * bs + request <= base + size
  {
    assert skip == pos % bs by { MaskIsMod(pos, bs); }
    assert RoundUp(skip + left, bs) == Ceiling(skip + left, bs) by { RoundDown(skip + left + bs - 1, bs); }
    PlainRequest(pos, base, size, bs, bufferLength, left);
  }

  lemma QuotientNat(x: nat, bs: nat)
    requires bs > 0
    ensures x / bs >= 0
  {
  }

  function Ceiling(x: nat, bs: nat): int
    requires bs > 0
  {
    x + bs - 1 - (x + bs - 1) % bs
  }

  /** The same, with the masks read as remainders. */
  lemma PlainRequest(pos: nat, base: nat, size: nat, bs: nat, bufferLength: nat, left: nat)
    requires bs > 0 && Multiple(base, bs) && Multiple(size, bs)
    requires bufferLength > 0 && Multiple(bufferLength, bs)
    requires 0 < left && pos + left <= size
    ensures
      var skip := pos % bs;
      var request := if skip + left > bufferLength then bufferLength else Ceiling(skip + left, bs);
      var start := (pos + base) / bs * bs;
      && (pos + base) / bs >= 0
      && skip <= pos && start == base + pos - skip && Multiple(start, bs)
      && 0 <= request && Multiple(request, bs) && skip < request <= bufferLength
      && start + request <= base + size
  {
    var skip := pos % bs;
    assert base % bs == 0 && size % bs == 0 && bufferLength % bs == 0 by {
      MultipleIff(base, bs);
      MultipleIff(size, bs);
      MultipleIff(bufferLength, bs);
    }
    assert skip <= pos && (pos - skip) % bs == 0 by { FloorMultiple(pos, bs); }
    PlainStart(pos, base, bs);
    if skip + left > bufferLength {
      MultipleAtLeast(bufferLength, bs);
    } else {
      CeilingFits(skip + left, bs, bufferLength);
      SubMultiple(size, pos - skip, bs);
      CeilingFits(skip + left, bs, size - (pos - skip));
    }
  }

  lemma PlainStart(pos: nat, base: nat, bs: nat)
    requires bs > 0 && base % bs == 0
    ensures
      var start := (pos + base) / bs * bs;
      (pos + base) / bs >= 0 && start == base + pos - pos % bs && start >= 0 && Multiple(start, bs)
  {
    BlockStart(pos, base, bs);
    MultipleIff((pos + base) / bs * bs, bs);
  }

  lemma CeilingFits(x: nat, bs: nat, limit: nat)
    requires bs > 0 && x <= limit && limit % bs == 0
    ensures x <= Ceiling(x, bs) <= limit && Multiple(Ceiling(x, bs), bs)
  {
    CeilingBelow(x, bs, limit);
    FloorMultiple(x + bs - 1, bs);
    MultipleIff(Ceiling(x, bs), bs);
  }

  /** A position before the end of `blocks` blocks lies in one of them. */
  lemma BlockNumberFits(x: nat, bs: nat, blocks: nat)
    requires bs > 0
    ensures x < blocks * bs ==> x / bs < blocks
  {
    if x / bs >= blocks {
      MulGrows(bs, blocks, x / bs);
      assert x == bs * (x / bs) + x % bs;
    }
  }
}
