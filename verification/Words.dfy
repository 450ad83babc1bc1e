/** Fixed-width quantities and the small datatypes shared by every model. */
module Words {

  const TWO_32: nat := 0x1_0000_0000
  const TWO_64: nat := 0x1_0000_0000_0000_0000

  type Byte = x: int | 0 <= x < 256
  type Word32 = x: int | 0 <= x < TWO_32
  type Word64 = x: int | 0 <= x < TWO_64

  datatype Option<+T> = None | Some(value: T)

  /** `n` zero bytes, as left behind by `zeromem` and `zero_normalmem`. */
  function Zeroes(n: nat): (z: seq<Byte>)
    ensures |z| == n && forall i :: 0 <= i < n ==> z[i] == 0
  {
    seq(n, _ => 0)
  }

  /** The number of values that `n` bytes can have. */
  function Limit(n: nat): nat {
    if n == 0 then 1 else 0x100 * Limit(n - 1)
  }

  /** The bytes as one little-endian number. */
  function LittleEndian(data: seq<Byte>): nat
    decreases |data|
  {
    if data == [] then 0 else data[0] + 0x100 * LittleEndian(data[1..])
  }

  /** The low `n` bytes of a number, least significant first. */
  function ToBytes(x: nat, n: nat): (data: seq<Byte>)
    ensures |data| == n
    decreases n, x
  {
    if n == 0 then [] else [x % 0x100] + ToBytes(x / 0x100, n - 1)
  }

  lemma {:induction false} ToBytesValue(x: nat, n: nat)
    requires x < Limit(n)
    ensures LittleEndian(ToBytes(x, n)) == x
    decreases n
  {
    if n > 0 {
      ToBytesValue(x / 0x100, n - 1);
      assert ToBytes(x, n)[1..] == ToBytes(x / 0x100, n - 1);
    }
  }

  lemma {:induction false} LittleEndianInjective(a: seq<Byte>, b: seq<Byte>)
    requires |a| == |b| && LittleEndian(a) == LittleEndian(b)
    ensures a == b
    decreases |a|
  {
    if a != [] {
      LittleEndianInjective(a[1..], b[1..]);
      assert a == [a[0]] + a[1..] && b == [b[0]] + b[1..];
    }
  }

  lemma SubsetSize(a: set<nat>, b: set<nat>)
    requires a <= b
    ensures |a| <= |b| && (|a| == |b| ==> a == b)
  {
    assert b == a + (b - a);
    assert |b| == |a| + |b - a|;
  }
}
