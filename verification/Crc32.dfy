/** The reflected CRC-32 of `common/tf_crc32.c`, polynomial 0xEDB88320. */
module Crc32 {
  import opened Words
  import opened Bits

  const POLYNOMIAL: nat := 0xEDB8_8320

  /** One bit of the shift register. */
  function BitStep(c: nat): nat {
    if c % 2 == 1 then Xor(c / 2, POLYNOMIAL) else c / 2
  }

  function Steps(c: nat, n: nat): nat
    decreases n, c
  {
    if n == 0 then c else Steps(BitStep(c), n - 1)
  }

  const BYTE_BITS: nat := 8

  /** `__crc32b`. */
  function ByteStep(c: nat, b: Byte): nat {
    Steps(Xor(c, b), BYTE_BITS)
  }

  function Fold(c: nat, data: seq<Byte>): nat
    decreases |data|
  {
    if data == [] then c else Fold(ByteStep(c, data[0]), data[1..])
  }

  /** `~x` in 32 bits. */
  function Not(x: nat): int {
    TWO_32 - 1 - x
  }

  lemma WordPow2()
    ensures Pow2(32) == TWO_32 && Pow2(31) == 0x8000_0000 && Pow2(BYTE_BITS) == 0x100
  {
    assert Pow2(8) == 0x100;
    Pow2Adds(8, 8);
    Pow2Adds(16, 15);
    Pow2Adds(8, 7);
    assert Pow2(7) == 0x80;
    Pow2Adds(31, 1);
  }

  lemma {:induction false} Pow2Adds(m: nat, n: nat)
    ensures Pow2(m + n) == Pow2(m) * Pow2(n)
    decreases m
  {
    if m > 0 { Pow2Adds(m - 1, n); }
  }

  // ---- The register stays in 32 bits and can be run backwards ---------------

  lemma BitStepBound(c: nat)
    requires c < TWO_32
    ensures BitStep(c) < TWO_32
    ensures c % 2 == 1 <==> BitStep(c) >= 0x8000_0000
  {
    WordPow2();
    XorBound(c / 2, POLYNOMIAL, 32);
  }

  lemma BitStepInjective(c: nat, d: nat)
    requires c < TWO_32 && d < TWO_32 && BitStep(c) == BitStep(d)
    ensures c == d
  {
    BitStepBound(c);
    BitStepBound(d);
    if c % 2 == 1 {
      XorComm(c / 2, POLYNOMIAL);
      XorComm(d / 2, POLYNOMIAL);
      XorCancel(c / 2, d / 2, POLYNOMIAL);
    }
  }

  lemma {:induction false} StepsBound(c: nat, n: nat)
    requires c < TWO_32
    ensures Steps(c, n) < TWO_32
    decreases n
  {
    if n > 0 {
      BitStepBound(c);
      StepsBound(BitStep(c), n - 1);
    }
  }

  lemma {:induction false} StepsInjective(c: nat, d: nat, n: nat)
    requires c < TWO_32 && d < TWO_32 && Steps(c, n) == Steps(d, n)
    ensures c == d
    decreases n
  {
    if n > 0 {
      BitStepBound(c);
      BitStepBound(d);
      StepsInjective(BitStep(c), BitStep(d), n - 1);
      BitStepInjective(c, d);
    }
  }

  lemma ByteStepBound(c: nat, b: Byte)
    requires c < TWO_32
    ensures Xor(c, b) < TWO_32 && ByteStep(c, b) < TWO_32
  {
    WordPow2();
    XorBound(c, b, 32);
    StepsBound(Xor(c, b), BYTE_BITS);
  }

  lemma {:induction false} FoldBound(c: nat, data: seq<Byte>)
    requires c < TWO_32
    ensures Fold(c, data) < TWO_32
    decreases |data|
  {
    if data != [] {
      ByteStepBound(c, data[0]);
      FoldBound(ByteStep(c, data[0]), data[1..]);
    }
  }

  /** The state before a bit, from the state after it. */
  function BitUnstep(c: nat): nat {
    if c >= 0x8000_0000 then 2 * Xor(c, POLYNOMIAL) + 1 else 2 * c
  }

  lemma BitStepUndone(c: nat)
    requires c < TWO_32
    ensures BitUnstep(c) < TWO_32 && BitStep(BitUnstep(c)) == c
  {
    if c >= 0x8000_0000 {
      WordPow2();
      XorTopCancels(c, POLYNOMIAL, 32);
      XorAssoc(c, POLYNOMIAL, POLYNOMIAL);
      XorSelf(POLYNOMIAL);
      XorComm(c, 0);
      assert (2 * Xor(c, POLYNOMIAL) + 1) / 2 == Xor(c, POLYNOMIAL);
    }
  }

  lemma {:induction false} StepsReach(target: nat, n: nat) returns (c: nat)
    requires target < TWO_32
    ensures c < TWO_32 && Steps(c, n) == target
    decreases n
  {
    c := target;
    if n > 0 {
      var later := StepsReach(target, n - 1);
      BitStepUndone(later);
      c := BitUnstep(later);
    }
  }

  /** Each byte step is a bijection on 32-bit states: every state has exactly one before it. */
  lemma ByteStepBijective(target: nat, b: Byte) returns (c: nat)
    requires target < TWO_32
    ensures c < TWO_32 && ByteStep(c, b) == target
    ensures forall d: nat :: d < TWO_32 && ByteStep(d, b) == target ==> d == c
  {
    var x := StepsReach(target, BYTE_BITS);
    c := Xor(x, b);
    WordPow2();
    XorBound(x, b, 32);
    XorAssoc(x, b, b);
    XorSelf(b);
    XorComm(x, 0);
    forall d: nat | d < TWO_32 && ByteStep(d, b) == target ensures d == c {
      XorBound(d, b, 32);
      StepsInjective(Xor(d, b), x, BYTE_BITS);
      XorComm(d, b);
      XorComm(c, b);
      XorCancel(d, c, b);
    }
  }

  /** The CRC of `data` on top of the CRC `crc` of what came before. */
  function Crc(crc: Word32, data: seq<Byte>): (r: Word32) {
    FoldBound(Not(crc), data);
    Not(Fold(Not(crc), data))
  }

  /** `tf_crc32`. */
  method Compute(crc: Word32, buf: array<Byte>) returns (result: Word32)
    ensures result == Crc(crc, buf[..])
  {
    var calcCrc: nat := Not(crc);
    var i := 0;
    while i != buf.Length
      invariant 0 <= i <= buf.Length && calcCrc < TWO_32
      invariant Fold(Not(crc), buf[..]) == Fold(calcCrc, buf[i..])
    {
      assert buf[i..] == [buf[i]] + buf[i + 1..];
      ByteStepBound(calcCrc, buf[i]);
      calcCrc := ByteStep(calcCrc, buf[i]);
      i := i + 1;
    }
    result := Not(calcCrc);
  }

  // ---- Chaining -----------------------------------------------------------

  lemma {:induction false} FoldConcat(c: nat, a: seq<Byte>, b: seq<Byte>)
    ensures Fold(c, a + b) == Fold(Fold(c, a), b)
    decreases |a|
  {
    if a == [] {
      assert a + b == b;
    } else {
      assert (a + b)[1..] == a[1..] + b;
      FoldConcat(ByteStep(c, a[0]), a[1..], b);
    }
  }

  /** Feeding the result for one chunk into the next gives the CRC of both. */
  lemma CrcConcat(crc: Word32, a: seq<Byte>, b: seq<Byte>)
    ensures Crc(Crc(crc, a), b) == Crc(crc, a + b)
  {
    FoldConcat(Not(crc), a, b);
  }

  // ---- Error detection ----------------------------------------------------

  lemma {:induction false} FoldInjective(c: nat, d: nat, data: seq<Byte>)
    requires c < TWO_32 && d < TWO_32 && Fold(c, data) == Fold(d, data)
    ensures c == d
    decreases |data|
  {
    if data != [] {
      var b := data[0];
      ByteStepBound(c, b);
      ByteStepBound(d, b);
      FoldInjective(ByteStep(c, b), ByteStep(d, b), data[1..]);
      StepsInjective(Xor(c, b), Xor(d, b), BYTE_BITS);
      XorComm(c, b);
      XorComm(d, b);
      XorCancel(c, d, b);
    }
  }

  /** What is mixed in one place up is what would be mixed in one step later. */
  lemma BitStepXor(x: nat, y: nat)
    ensures BitStep(Xor(x, 2 * y)) == Xor(BitStep(x), y)
  {
    EvenHalf(y);
    XorHalves(x, 2 * y);
    if x % 2 == 1 {
      XorAssoc(x / 2, y, POLYNOMIAL);
      XorComm(y, POLYNOMIAL);
      XorAssoc(x / 2, POLYNOMIAL, y);
    }
  }

  lemma {:induction false} StepsXor(x: nat, y: nat, k: nat)
    ensures Steps(Xor(x, Shl(y, k)), k) == Xor(Steps(x, k), y)
    decreases k
  {
    if k > 0 {
      BitStepXor(x, Shl(y, k - 1));
      StepsXor(BitStep(x), y, k - 1);
    }
  }

  lemma {:induction false} StepsAdd(c: nat, m: nat, n: nat)
    ensures Steps(Steps(c, m), n) == Steps(c, m + n)
    decreases m
  {
    if m > 0 { StepsAdd(BitStep(c), m - 1, n); }
  }

  lemma {:induction false} NumberBound(data: seq<Byte>)
    ensures LittleEndian(data) < Limit(|data|)
    decreases |data|
  {
    if data != [] { NumberBound(data[1..]); }
  }

  lemma ShortNumberBound(data: seq<Byte>)
    requires |data| <= 4
    ensures LittleEndian(data) < TWO_32
  {
    NumberBound(data);
    assert Limit(1) == 0x100 && Limit(2) == 0x1_0000 && Limit(3) == 0x100_0000 && Limit(4) == TWO_32;
  }

  /** Mixing in a byte and then, eight steps later, `y` is mixing in both at once. */
  lemma MixAhead(c: nat, b: Byte, y: nat)
    ensures Xor(ByteStep(c, b), y) == Steps(Xor(c, b + 0x100 * y), BYTE_BITS)
  {
    assert Pow2(BYTE_BITS) == 0x100 by { WordPow2(); }
    assert Shl(y, 8) == 0x100 * y;
    MixAfter(c, b, y, BYTE_BITS);
  }

  lemma MixAfter(c: nat, b: nat, y: nat, k: nat)
    requires b < Pow2(k)
    ensures Xor(Steps(Xor(c, b), k), y) == Steps(Xor(c, b + Shl(y, k)), k)
  {
    StepsXor(Xor(c, b), y, k);
    XorAssoc(c, b, Shl(y, k));
    XorHigh(b, y, k);
  }

  /** The whole message goes through the register as a single number. */
  lemma {:induction false} FoldIsNumber(c: nat, data: seq<Byte>)
    ensures Fold(c, data) == Steps(Xor(c, LittleEndian(data)), BYTE_BITS * |data|)
    decreases |data|
  {
    if data == [] {
      XorComm(c, 0);
    } else {
      FoldIsNumber(ByteStep(c, data[0]), data[1..]);
      MixAhead(c, data[0], LittleEndian(data[1..]));
      StepsAdd(Xor(c, LittleEndian(data)), BYTE_BITS, BYTE_BITS * |data[1..]|);
    }
  }

  lemma BurstChangesFold(c: nat, a: seq<Byte>, b: seq<Byte>)
    requires c < TWO_32 && |a| == |b| <= 4 && Fold(c, a) == Fold(c, b)
    ensures a == b
  {
    FoldIsNumber(c, a);
    FoldIsNumber(c, b);
    ShortNumberBound(a);
    ShortNumberBound(b);
    WordPow2();
    XorBound(c, LittleEndian(a), 32);
    XorBound(c, LittleEndian(b), 32);
    StepsInjective(Xor(c, LittleEndian(a)), Xor(c, LittleEndian(b)), BYTE_BITS * |a|);
    XorCancel(LittleEndian(a), LittleEndian(b), c);
    LittleEndianInjective(a, b);
  }

  /** Two buffers of one length that differ, but only inside some window of at most
      four consecutive bytes, never have the same CRC. A single changed byte is the
      window of one. */
  lemma BurstDetected(crc: Word32, before: seq<Byte>, a: seq<Byte>, b: seq<Byte>, after: seq<Byte>)
    requires |a| == |b| <= 4 && a != b
    ensures Crc(crc, before + a + after) != Crc(crc, before + b + after)
  {
    var c: nat := Not(crc);
    var mid := Fold(c, before);
    FoldBound(c, before);
    FoldConcat(c, before + a, after);
    FoldConcat(c, before, a);
    FoldConcat(c, before + b, after);
    FoldConcat(c, before, b);
    var x, y := Fold(mid, a), Fold(mid, b);
    FoldBound(mid, a);
    FoldBound(mid, b);
    if Fold(x, after) == Fold(y, after) {
      FoldInjective(x, y, after);
      BurstChangesFold(mid, a, b);
      assert false;
    }
  }
}
