/** The constants of the CRC: its register is the one of IEEE 802.3. The register is run on
    bit vectors, where it can be computed, and shown to be the register on numbers. */
module CrcConstants {
  import opened Words
  import opened Bits
  import opened Crc32

  function Bit(b: bool): nat {
    if b then 1 else 0
  }

  /** The low `k` bits of a bit vector as a number. */
  function Value(v: bv32, k: nat): nat
    decreases k
  {
    if k == 0 then 0 else Bit(v & 1 == 1) + 2 * Value(v >> 1, k - 1)
  }

  lemma ValueSplits(v: bv32, k: nat)
    requires k > 0
    ensures Value(v, k) / 2 == Value(v >> 1, k - 1)
    ensures Value(v, k) % 2 == Bit(v & 1 == 1)
  {
  }

  lemma ShiftXor(v: bv32, w: bv32)
    ensures (v ^ w) >> 1 == (v >> 1) ^ (w >> 1)
    ensures (v ^ w) & 1 == 1 <==> (v & 1 == 1) != (w & 1 == 1)
  {
  }

  /** Bits, the lowest first. */
  datatype BitList = Nil | Cons(low: bool, above: BitList) {
    function Number(): nat {
      if Nil? then 0 else Bit(low) + 2 * above.Number()
    }

    function Mix(other: BitList): BitList {
      if Nil? || other.Nil? then Nil else Cons(low != other.low, above.Mix(other.above))
    }
  }

  function BitsOf(v: bv32, k: nat): BitList
    decreases k
  {
    if k == 0 then Nil else Cons(v & 1 == 1, BitsOf(v >> 1, k - 1))
  }

  lemma {:induction false} ValueIsNumber(v: bv32, k: nat)
    ensures Value(v, k) == BitsOf(v, k).Number()
    decreases k
  {
    if k > 0 { ValueIsNumber(v >> 1, k - 1); }
  }

  lemma {:induction false} BitsMix(v: bv32, w: bv32, k: nat)
    ensures BitsOf(v ^ w, k) == BitsOf(v, k).Mix(BitsOf(w, k))
    decreases k
  {
    if k > 0 {
      ShiftXor(v, w);
      BitsMix(v >> 1, w >> 1, k - 1);
    }
  }

  predicate SameLength(a: BitList, b: BitList) {
    a.Nil? == b.Nil? && (a.Cons? ==> SameLength(a.above, b.above))
  }

  lemma {:induction false} BitsLength(v: bv32, w: bv32, k: nat)
    ensures SameLength(BitsOf(v, k), BitsOf(w, k))
    decreases k
  {
    if k > 0 { BitsLength(v >> 1, w >> 1, k - 1); }
  }

  lemma Halve(p: nat, a: nat, x: bool)
    requires p == Bit(x) + 2 * a
    ensures p / 2 == a && p % 2 == Bit(x)
  {
  }

  lemma {:induction false} MixIsXor(a: BitList, b: BitList)
    requires SameLength(a, b)
    ensures a.Mix(b).Number() == Xor(a.Number(), b.Number())
    decreases a
  {
    if a.Cons? {
      MixIsXor(a.above, b.above);
      Halve(a.Number(), a.above.Number(), a.low);
      Halve(b.Number(), b.above.Number(), b.low);
      XorDigits(a.Number(), b.Number());
    }
  }

  lemma ValueXor(v: bv32, w: bv32, k: nat)
    ensures Value(v ^ w, k) == Xor(Value(v, k), Value(w, k))
  {
    ValueIsNumber(v, k);
    ValueIsNumber(w, k);
    ValueIsNumber(v ^ w, k);
    BitsMix(v, w, k);
    BitsLength(v, w, k);
    MixIsXor(BitsOf(v, k), BitsOf(w, k));
  }

  /** Whether the vector has no bit from position `k` on. */
  predicate Short(v: bv32, k: nat)
    decreases k
  {
    if k == 0 then v == 0 else Short(v >> 1, k - 1)
  }

  lemma {:induction false} ShortValue(v: bv32, k: nat)
    requires Short(v, k)
    ensures Value(v, k + 1) == Value(v, k)
    decreases k
  {
    if k > 0 { ShortValue(v >> 1, k - 1); }
  }

  lemma {:induction false} EightShorter(v: bv32, w: bv32, k: nat)
    requires w == v >> 8 && Short(w, k)
    ensures Short(v, k + 8)
  {
    assert Short(v >> 8, k);
    assert Short(v >> 7, k + 1);
    assert Short(v >> 6, k + 2);
    assert Short(v >> 5, k + 3);
    assert Short(v >> 4, k + 4);
    assert Short(v >> 3, k + 5);
    assert Short(v >> 2, k + 6);
    assert Short(v >> 1, k + 7);
  }

  lemma SevenShort(v: bv32)
    requires v >> 7 == 0
    ensures Short(v, 7)
  {
    assert Short(v >> 7, 0);
    assert Short(v >> 6, 1);
    assert Short(v >> 5, 2);
    assert Short(v >> 4, 3);
    assert Short(v >> 3, 4);
    assert Short(v >> 2, 5);
    assert Short(v >> 1, 6);
  }

  lemma AllShifted(v: bv32)
    ensures ((((v >> 1) >> 8) >> 8) >> 8) >> 7 == 0
  {
  }

  lemma HalfIsShort(v: bv32)
    ensures Short(v >> 1, 31)
  {
    AllShifted(v);
    SevenShort((((v >> 1) >> 8) >> 8) >> 8);
    ShorterByBytes(v >> 1, 7);
  }

  lemma ShorterByBytes(v: bv32, k: nat)
    requires Short(((v >> 8) >> 8) >> 8, k)
    ensures Short(v, k + 24)
  {
    EightShorter((v >> 8) >> 8, ((v >> 8) >> 8) >> 8, k);
    EightShorter(v >> 8, (v >> 8) >> 8, k + 8);
    EightShorter(v, v >> 8, k + 16);
  }

  /** The lowest hexadecimal digit. */
  function LowDigit(v: bv32): nat {
    Bit(v & 1 == 1) + 2 * Bit(v & 2 == 2) + 4 * Bit(v & 4 == 4) + 8 * Bit(v & 8 == 8)
  }

  lemma ValueDigit(v: bv32, w: bv32, k: nat, d: nat)
    requires w == v >> 4 && d == LowDigit(v)
    ensures Value(v, k + 4) == d + 0x10 * Value(w, k)
  {
    assert Value(v >> 3, k + 1) == Bit(v & 8 == 8) + 2 * Value(v >> 4, k);
    assert Value(v >> 2, k + 2) == Bit(v & 4 == 4) + 2 * Value(v >> 3, k + 1);
    assert Value(v >> 1, k + 3) == Bit(v & 2 == 2) + 2 * Value(v >> 2, k + 2);
  }

  /** A number by its hexadecimal digits, the lowest first. */
  datatype Hex = End | Digit(low: nat, above: Hex) {
    function Size(): nat {
      if End? then 0 else 4 + above.Size()
    }

    function Number(): nat {
      if End? then 0 else low + 0x10 * above.Number()
    }
  }

  predicate Spells(h: Hex, v: bv32)
    decreases h
  {
    h.End? || (h.low == LowDigit(v) && Spells(h.above, v >> 4))
  }

  lemma {:induction false} SpelledValue(h: Hex, v: bv32)
    requires Spells(h, v)
    ensures Value(v, h.Size()) == h.Number()
    decreases h
  {
    if h.Digit? {
      SpelledValue(h.above, v >> 4);
      ValueDigit(v, v >> 4, h.above.Size(), h.low);
    }
  }

  const POLYNOMIAL_BITS: bv32 := 0xEDB8_8320

  lemma PolynomialValue()
    ensures Value(POLYNOMIAL_BITS, 32) == POLYNOMIAL
  {
    var h := Digit(0, Digit(2, Digit(3, Digit(8, Digit(8, Digit(11, Digit(13, Digit(14, End))))))));
    assert h.Number() == POLYNOMIAL && h.Size() == 32;
    SpelledValue(h, POLYNOMIAL_BITS);
  }

  // ---- The register on bit vectors --------------------------------------------

  function Shift(v: bv32): bv32 {
    if v & 1 == 1 then (v >> 1) ^ POLYNOMIAL_BITS else v >> 1
  }

  /** A width at which the polynomial and every shifted vector have their full value. */
  ghost predicate Width(k: nat) {
    k > 0 && Value(POLYNOMIAL_BITS, k) == POLYNOMIAL && forall v: bv32 :: Short(v, k)
  }

  lemma WidthOfWord()
    ensures Width(32)
  {
    PolynomialValue();
    forall v: bv32 ensures Short(v, 32) { HalfIsShort(v); }
  }

  lemma ShiftIsBitStep(v: bv32, k: nat)
    requires Width(k)
    ensures Value(Shift(v), k) == BitStep(Value(v, k))
  {
    assert Short(v, k);
    ShortValue(v >> 1, k - 1);
    ValueSplits(v, k);
    ValueXor(v >> 1, POLYNOMIAL_BITS, k);
  }

  function Run(v: bv32, n: nat): bv32
    decreases n
  {
    if n == 0 then v else Run(Shift(v), n - 1)
  }

  lemma {:induction false} RunIsSteps(v: bv32, n: nat, k: nat)
    requires Width(k)
    ensures Value(Run(v, n), k) == Steps(Value(v, k), n)
    decreases n
  {
    if n > 0 {
      ShiftIsBitStep(v, k);
      RunIsSteps(Shift(v), n - 1, k);
    }
  }

  function ShiftTwice(v: bv32): bv32 {
    Shift(Shift(v))
  }

  function ShiftByte(v: bv32): bv32 {
    ShiftTwice(ShiftTwice(ShiftTwice(ShiftTwice(v))))
  }

  lemma RunByte(v: bv32, n: nat)
    ensures Run(v, n + 8) == Run(ShiftByte(v), n)
  {
    var v2 := ShiftTwice(v);
    var v4 := ShiftTwice(v2);
    var v6 := ShiftTwice(v4);
    RunTwice(v, n + 6);
    RunTwice(v2, n + 4);
    RunTwice(v4, n + 2);
    RunTwice(v6, n);
  }

  lemma RunTwice(v: bv32, n: nat)
    ensures Run(v, n + 2) == Run(ShiftTwice(v), n)
  {
    assert Run(v, n + 2) == Run(Shift(v), n + 1);
  }

  // ---- Computing a CRC on bit vectors -----------------------------------------

  /** A message, with the state of the register after each byte. */
  datatype Trace = Empty | Feed(byte: bv32, next: bv32, rest: Trace) {
    function Message(): seq<Byte> {
      if Empty? then [] else [LowByte(byte)] + rest.Message()
    }

    function Last(start: bv32): bv32
      decreases this
    {
      if Empty? then start else rest.Last(next)
    }
  }

  function LowByte(w: bv32): Byte {
    LowDigit(w) + 0x10 * LowDigit(w >> 4)
  }

  predicate Follows(t: Trace, v: bv32)
    decreases t
  {
    t.Empty? || (t.byte >> 8 == 0 && t.next == ShiftByte(v ^ t.byte) && Follows(t.rest, t.next))
  }

  lemma {:induction false} ValueZero(k: nat)
    ensures Value(0, k) == 0
    decreases k
  {
    if k > 0 {
      ValueZero(k - 1);
      assert (0 as bv32) >> 1 == 0;
    }
  }

  lemma ByteValue(w: bv32, k: nat)
    requires w >> 8 == 0
    ensures Value(w, k + 8) == LowByte(w)
  {
    ValueZero(k);
    assert (w >> 4) >> 4 == 0;
    ValueDigit(w >> 4, 0, k, LowDigit(w >> 4));
    ValueDigit(w, w >> 4, k + 4, LowDigit(w));
  }

  lemma FeedIsByteStep(v: bv32, w: bv32, k: nat)
    requires Width(k) && k >= 8 && w >> 8 == 0
    ensures Value(ShiftByte(v ^ w), k) == ByteStep(Value(v, k), LowByte(w))
  {
    ByteValue(w, k - 8);
    ValueXor(v, w, k);
    RunByte(v ^ w, 0);
    RunIsSteps(v ^ w, 8, k);
  }

  lemma {:induction false} TraceIsFold(t: Trace, v: bv32, k: nat)
    requires Width(k) && k >= 8 && Follows(t, v)
    ensures Fold(Value(v, k), t.Message()) == Value(t.Last(v), k)
    decreases t
  {
    if t.Feed? {
      FeedIsByteStep(v, t.byte, k);
      TraceIsFold(t.rest, t.next, k);
      assert t.Message()[1..] == t.rest.Message();
    }
  }

  const ONES: bv32 := 0xFFFF_FFFF

  /** The register starts with all bits set. */
  lemma OnesValue()
    ensures Value(ONES, 32) == TWO_32 - 1
  {
    var h := Digit(15, Digit(15, Digit(15, Digit(15, Digit(15, Digit(15, Digit(15, Digit(15, End))))))));
    assert h.Number() == TWO_32 - 1 && h.Size() == 32;
    SpelledValue(h, ONES);
  }

  lemma LastValue(v: bv32, x: nat)
    requires (v == 0x340B_C6D9 && x == 0xCBF4_3926) || (v == 0xDEBB_20E3 && x == 0x2144_DF1C)
    ensures TWO_32 - 1 - Value(v, 32) == x
  {
    var h := if v == 0xDEBB_20E3
             then Digit(3, Digit(14, Digit(0, Digit(2, Digit(11, Digit(11, Digit(14, Digit(13, End))))))))
             else Digit(9, Digit(13, Digit(6, Digit(12, Digit(11, Digit(0, Digit(4, Digit(3, End))))))));
    assert h.Number() == TWO_32 - 1 - x && h.Size() == 32;
    SpelledValue(h, v);
  }

  function Digits(): Trace {
    Feed(0x31, 0x7C23_1048, Feed(0x32, 0xB0AC_BB32, Feed(0x33, 0x77B7_9C2D,
    Feed(0x34, 0x641C_1F5C, Feed(0x35, 0x340A_C5E3, Feed(0x36, 0xF68D_2C9E,
    Feed(0x37, 0xAFFC_9660, Feed(0x38, 0x651F_2550, Feed(0x39, 0x340B_C6D9, Empty)))))))))
  }

  function FourZeroes(): Trace {
    Feed(0x00, 0x2DFD_1072, Feed(0x00, 0xBE26_ED00, Feed(0x00, 0x00BE_26ED,
    Feed(0x00, 0xDEBB_20E3, Empty))))
  }

  lemma DigitsFollow()
    ensures Follows(Digits(), ONES) && Digits().Last(ONES) == 0x340B_C6D9
  {
    assert ShiftByte(0xFFFF_FFFF ^ 0x31) == 0x7C23_1048;
    assert ShiftByte(0x7C23_1048 ^ 0x32) == 0xB0AC_BB32;
    assert ShiftByte(0xB0AC_BB32 ^ 0x33) == 0x77B7_9C2D;
    assert ShiftByte(0x77B7_9C2D ^ 0x34) == 0x641C_1F5C;
    assert ShiftByte(0x641C_1F5C ^ 0x35) == 0x340A_C5E3;
    assert ShiftByte(0x340A_C5E3 ^ 0x36) == 0xF68D_2C9E;
    assert ShiftByte(0xF68D_2C9E ^ 0x37) == 0xAFFC_9660;
    assert ShiftByte(0xAFFC_9660 ^ 0x38) == 0x651F_2550;
    assert ShiftByte(0x651F_2550 ^ 0x39) == 0x340B_C6D9;
  }

  lemma ZeroesFollow()
    ensures Follows(FourZeroes(), ONES) && FourZeroes().Last(ONES) == 0xDEBB_20E3
  {
  }

  lemma TraceIsCrc(t: Trace, v: bv32, x: nat, data: seq<Byte>)
    requires Follows(t, ONES) && t.Last(ONES) == v && data == t.Message()
    requires TWO_32 - 1 - Value(v, 32) == x
    ensures Fold(TWO_32 - 1, data) == TWO_32 - 1 - x
  {
    WidthOfWord();
    OnesValue();
    TraceIsFold(t, ONES, 32);
  }

  lemma DigitsMessage(text: seq<Byte>)
    requires |text| == 9 && forall i :: 0 <= i < 9 ==> text[i] == 0x31 + i
    ensures text == Digits().Message()
  {
    assert text == [0x31, 0x32, 0x33, 0x34, 0x35, 0x36, 0x37, 0x38, 0x39];
  }

  /** The check value of CRC-32: the CRC of the text "123456789". */
  lemma CheckValue(text: seq<Byte>)
    requires |text| == 9 && forall i :: 0 <= i < 9 ==> text[i] == 0x31 + i
    ensures Crc(0, text) == 0xCBF4_3926
  {
    var v: bv32 := 0x340B_C6D9;
    LastValue(v, 0xCBF4_3926);
    DigitsFollow();
    DigitsMessage(text);
    TraceIsCrc(Digits(), v, 0xCBF4_3926, text);
  }

  lemma {:induction false} XorNot(x: nat, k: nat)
    requires x < Pow2(k)
    ensures Xor(x, Pow2(k) - 1 - x) == Pow2(k) - 1
    decreases k
  {
    if k > 0 {
      XorNot(x / 2, k - 1);
      XorDigits(x, Pow2(k) - 1 - x);
      var half := Pow2(k - 1);
      assert (2 * half - 1 - x) / 2 == half - 1 - x / 2;
    }
  }

  /** The register after a message and then its own CRC does not depend on the message. */
  lemma RegisterAfterOwnCrc(state: nat, tail: seq<Byte>)
    requires state < TWO_32 && |tail| == 4 && LittleEndian(tail) == TWO_32 - 1 - state
    ensures Fold(state, tail) == Steps(TWO_32 - 1, BYTE_BITS * 4)
  {
    FoldIsNumber(state, tail);
    WordPow2();
    XorNot(state, 32);
  }

  lemma ZeroTail(c: nat, tail: seq<Byte>)
    requires |tail| == 4 && LittleEndian(tail) == 0
    ensures Fold(c, tail) == Steps(c, BYTE_BITS * 4)
  {
    FoldIsNumber(c, tail);
    XorComm(c, 0);
  }

  /** A message followed by its CRC, lowest byte first, has the residue of CRC-32 for its CRC. */
  lemma Residue(data: seq<Byte>)
    ensures Crc(0, data + ToBytes(Crc(0, data), 4)) == 0x2144_DF1C
  {
    var start: nat := TWO_32 - 1;
    var state := Fold(start, data);
    var tail := ToBytes(Crc(0, data), 4);
    FoldBound(start, data);
    ResidueOf(state, tail);
    FoldConcat(start, data, tail);
  }

  lemma ResidueOf(state: nat, tail: seq<Byte>)
    requires state < TWO_32 && tail == ToBytes(TWO_32 - 1 - state, 4)
    ensures Fold(state, tail) == TWO_32 - 1 - 0x2144_DF1C
  {
    ToBytesValue(TWO_32 - 1 - state, 4);
    RegisterAfterOwnCrc(state, tail);
    var zeroes := FourZeroes().Message();
    var v: bv32 := 0xDEBB_20E3;
    LastValue(v, 0x2144_DF1C);
    ZeroesFollow();
    TraceIsCrc(FourZeroes(), v, 0x2144_DF1C, zeroes);
    assert LittleEndian(zeroes) == 0;
    ZeroTail(TWO_32 - 1, zeroes);
  }
}
