/** The counter in a certificate: a DER INTEGER of up to 31 bits (section 8.3 of X.690). */
module Der {
  import opened Words

  const ASN1_INTEGER: Byte := 0x02

  /** The big-endian value of `bytes`. */
  function BigEndian(bytes: seq<Byte>): nat {
    if bytes == [] then 0 else BigEndian(bytes[..|bytes| - 1]) * 0x100 + bytes[|bytes| - 1]
  }

  function Value(data: seq<Byte>): nat {
    if |data| < 2 then 0 else BigEndian(data[2..])
  }

  /** What the parser in `auth_nvctr` accepts. */
  predicate Accepted(data: seq<Byte>) {
    && |data| >= 3 && data[0] == ASN1_INTEGER
    && data[1] <= 4 && data[1] == |data| - 2
    && data[2] < 0x80
  }

  /** `auth_nvctr`, the decoding of the counter. */
  method Decode(data: seq<Byte>) returns (counter: Option<nat>)
    ensures counter == if Accepted(data) then Some(Value(data)) else None
  {
    if |data| < 3 || data[0] != ASN1_INTEGER { return None; }
    var len := data[1];
    if len > 4 || |data| - 2 != len { return None; }
    if data[2] >= 0x80 { return None; }
    var value: nat, i: nat := 0, 0;
    while i < len
      invariant 0 <= i <= len && value == BigEndian(data[2..2 + i])
    {
      assert data[2..2 + (i + 1)][..i] == data[2..2 + i];
      value := value * 0x100 + data[2 + i];
      i := i + 1;
    }
    assert data[2..2 + len] == data[2..];
    return Some(value);
  }

  lemma {:induction false} BigEndianBound(bytes: seq<Byte>)
    ensures BigEndian(bytes) < Limit(|bytes|)
    decreases |bytes|
  {
    if bytes != [] { BigEndianBound(bytes[..|bytes| - 1]); }
  }

  lemma {:induction false} BigEndianFirst(bytes: seq<Byte>)
    requires bytes != []
    ensures BigEndian(bytes) < (bytes[0] + 1) * Limit(|bytes| - 1)
    ensures BigEndian(bytes) >= bytes[0] * Limit(|bytes| - 1)
    decreases |bytes|
  {
    if |bytes| > 1 {
      var front := bytes[..|bytes| - 1];
      BigEndianFirst(front);
      var first: nat, l := bytes[0], Limit(|front| - 1);
      assert Limit(|front|) == 0x100 * l;
      assert (first + 1) * l * 0x100 == (first + 1) * (0x100 * l);
      assert first * l * 0x100 == first * (0x100 * l);
    } else {
      assert bytes[..0] == [] && Limit(0) == 1;
    }
  }

  lemma Limits()
    ensures Limit(0) == 1 && Limit(1) == 0x100 && Limit(2) == 0x1_0000 && Limit(3) == 0x100_0000
  {
  }

  /** Nothing of 2^31 or more is accepted. */
  lemma AcceptedBelow31Bits(data: seq<Byte>)
    requires Accepted(data)
    ensures Value(data) < 0x8000_0000
  {
    BigEndianFirst(data[2..]);
    Limits();
  }

  /** The shortest big-endian form whose top bit is clear. */
  function Minimal(n: nat): (bytes: seq<Byte>)
    ensures bytes != [] && bytes[0] < 0x80
  {
    if n < 0x80 then [n] else Minimal(n / 0x100) + [n % 0x100]
  }

  lemma BigEndianPush(bytes: seq<Byte>, b: Byte)
    ensures BigEndian(bytes + [b]) == BigEndian(bytes) * 0x100 + b
  {
    assert (bytes + [b])[..|bytes|] == bytes;
  }

  lemma {:induction false} MinimalValue(n: nat)
    ensures BigEndian(Minimal(n)) == n
  {
    if n < 0x80 {
      BigEndianPush([], n);
      assert [] + [n] == [n];
    } else {
      MinimalValue(n / 0x100);
      BigEndianPush(Minimal(n / 0x100), n % 0x100);
    }
  }

  lemma {:induction false} MinimalLength(n: nat, k: nat)
    requires n < 0x80 * Limit(k)
    ensures |Minimal(n)| <= k + 1
    decreases k
  {
    if n >= 0x80 { MinimalLength(n / 0x100, k - 1); }
  }

  lemma FourBytes(n: nat)
    requires n < 0x8000_0000
    ensures |Minimal(n)| <= 4
  {
    Limits();
    MinimalLength(n, 3);
  }

  /** The DER encoding of a non-negative integer below 2^31. */
  function Encode(n: nat): seq<Byte>
    requires n < 0x8000_0000
  {
    FourBytes(n);
    [ASN1_INTEGER, |Minimal(n)|] + Minimal(n)
  }

  /** Decoding inverts the DER encoding of every integer below 2^31. */
  lemma RoundTrip(n: nat)
    requires n < 0x8000_0000
    ensures Accepted(Encode(n)) && Value(Encode(n)) == n
  {
    FourBytes(n);
    MinimalValue(n);
    assert Encode(n)[2..] == Minimal(n);
  }

  /** No leading byte that carries nothing but the sign. */
  predicate NoRedundantZero(bytes: seq<Byte>)
    requires bytes != []
  {
    |bytes| == 1 || bytes[0] != 0 || bytes[1] >= 0x80
  }

  lemma {:induction false} MinimalIff(m: seq<Byte>)
    requires m != [] && m[0] < 0x80
    ensures m == Minimal(BigEndian(m)) <==> NoRedundantZero(m)
    decreases |m|
  {
    var last := |m| - 1;
    var front := m[..last];
    assert m == front + [m[last]];
    BigEndianPush(front, m[last]);
    if last == 0 {
      assert front == [];
      assert BigEndian(m) == m[0];
    } else {
      MinimalIff(front);
      ZeroFront(front);
      MinimalPush(front, BigEndian(front), m[last]);
    }
  }

  /** One more byte: still minimal unless everything before it was zero and it needs no sign. */
  lemma MinimalPush(front: seq<Byte>, v: nat, b: Byte)
    requires front != []
    ensures front + [b] == Minimal(v * 0x100 + b) <==> v * 0x100 + b >= 0x80 && front == Minimal(v)
  {
    var n := v * 0x100 + b;
    if n >= 0x80 {
      assert Minimal(n) == Minimal(v) + [b];
      SameEnd(front, Minimal(v), b);
    }
  }

  lemma SameEnd(x: seq<Byte>, y: seq<Byte>, b: Byte)
    ensures x + [b] == y + [b] <==> x == y
  {
    if x + [b] == y + [b] {
      assert (x + [b])[..|x|] == x && (y + [b])[..|y|] == y;
    }
  }

  lemma {:induction false} ZeroFront(bytes: seq<Byte>)
    ensures BigEndian(bytes) == 0 <==> forall i :: 0 <= i < |bytes| ==> bytes[i] == 0
    decreases |bytes|
  {
    if bytes != [] {
      var front := bytes[..|bytes| - 1];
      ZeroFront(front);
      assert forall i :: 0 <= i < |front| ==> front[i] == bytes[i];
    }
  }

  /** The decoder takes more than DER: what it accepts is the DER encoding of its value
      exactly when there is no redundant leading zero. */
  lemma AcceptedIsDerIff(data: seq<Byte>)
    requires Accepted(data)
    ensures Value(data) < 0x8000_0000
    ensures data == Encode(Value(data)) <==> NoRedundantZero(data[2..])
  {
    AcceptedBelow31Bits(data);
    MinimalIff(data[2..]);
    assert data == [data[0], data[1]] + data[2..];
    assert Encode(Value(data))[2..] == Minimal(Value(data));
  }

  /** An input that shows it: 5 with a leading zero. */
  lemma RedundantZeroAccepted()
    ensures Accepted([0x02, 0x02, 0x00, 0x05]) && Value([0x02, 0x02, 0x00, 0x05]) == 5
    ensures [0x02, 0x02, 0x00, 0x05] != Encode(5)
  {
    var data: seq<Byte> := [0x02, 0x02, 0x00, 0x05];
    assert data[2..] == [0x00] + [0x05] && [0x00] == [] + [0x00];
    BigEndianPush([], 0x00);
    BigEndianPush([0x00], 0x05);
    AcceptedIsDerIff(data);
  }
}
