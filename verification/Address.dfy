/**
  Addresses, subnets, and the bits of an address from the most significant on.
 */
module Address {
  import opened Common

  const AF_INET: int := 2
  const AF_INET6: int := 10

  /** addrlenof: 0 for a family that the library does not know. */
  function LenOf(family: int): nat {
    if family == AF_INET then 4 else if family == AF_INET6 then 16 else 0
  }

  datatype IpAddress = IpAddress(family: int, bytes: seq<Byte>, port: nat)

  type Address = a: IpAddress | |a.bytes| == LenOf(a.family) witness IpAddress(0, [], 0)

  datatype IpSubnet = IpSubnet(addr: Address, maskbits: int)

  predicate KnownFamily(family: int) {
    LenOf(family) != 0
  }

  // ---------- bits of a byte ----------

  type Octet = b: seq<bool> | |b| == 8 witness [false, false, false, false, false, false, false, false]

  function Pow2(w: nat): (p: nat)
    ensures p > 0
  {
    if w == 0 then 1 else 2 * Pow2(w - 1)
  }

  /** The low `w` bits of `x`, most significant first. */
  function BinaryOf(x: nat, w: nat): (b: seq<bool>)
    ensures |b| == w
  {
    if w == 0 then [] else BinaryOf(x / 2, w - 1) + [x % 2 == 1]
  }

  function NatOf(b: seq<bool>): (x: nat)
    ensures x < Pow2(|b|)
  {
    if b == [] then 0 else 2 * NatOf(b[..|b| - 1]) + (if b[|b| - 1] then 1 else 0)
  }

  lemma {:induction false} BinaryOfNat(b: seq<bool>)
    ensures BinaryOf(NatOf(b), |b|) == b
  {
    if b != [] {
      var n := |b| - 1;
      BinaryOfNat(b[..n]);
      assert NatOf(b) / 2 == NatOf(b[..n]);
    }
  }

  lemma {:induction false} NatOfBinary(x: nat, w: nat)
    requires x < Pow2(w)
    ensures NatOf(BinaryOf(x, w)) == x
  {
    if w > 0 {
      NatOfBinary(x / 2, w - 1);
      assert BinaryOf(x, w)[..w - 1] == BinaryOf(x / 2, w - 1);
    }
  }

  function OctetOf(x: Byte): Octet {
    BinaryOf(x, 8)
  }

  function ByteOf(b: Octet): Byte {
    assert Pow2(8) == 256;
    NatOf(b)
  }

  lemma OctetOfByte(b: Octet)
    ensures OctetOf(ByteOf(b)) == b
  {
    BinaryOfNat(b);
  }

  lemma ByteOfOctet(x: Byte)
    ensures ByteOf(OctetOf(x)) == x
  {
    assert Pow2(8) == 256;
    NatOfBinary(x, 8);
  }

  /** The operator & on bytes. */
  function And(x: Byte, y: Byte): (z: Byte)
    ensures forall i :: 0 <= i < 8 ==> (OctetOf(z)[i] <==> OctetOf(x)[i] && OctetOf(y)[i])
  {
    var b: Octet := seq(8, i requires 0 <= i < 8 => OctetOf(x)[i] && OctetOf(y)[i]);
    OctetOfByte(b);
    ByteOf(b)
  }

  /** The operator ~ on bytes. */
  function Not(x: Byte): (z: Byte)
    ensures forall i :: 0 <= i < 8 ==> (OctetOf(z)[i] <==> !OctetOf(x)[i])
  {
    var b: Octet := seq(8, i requires 0 <= i < 8 => !OctetOf(x)[i]);
    OctetOfByte(b);
    ByteOf(b)
  }

  /** The operator >> on bytes. */
  function Shr(x: Byte, c: nat): Byte {
    if c == 0 then x else Shr(x / 2, c - 1)
  }

  lemma {:induction false} WiderBinary(x: nat, w: nat)
    requires x < Pow2(w)
    ensures BinaryOf(x, w + 1) == [false] + BinaryOf(x, w)
  {
    if w > 0 {
      WiderBinary(x / 2, w - 1);
    }
  }

  lemma HalfBits(x: Byte)
    ensures OctetOf(x / 2) == [false] + OctetOf(x)[..7]
  {
    assert Pow2(7) == 128;
    WiderBinary(x / 2, 7);
    assert OctetOf(x) == BinaryOf(x / 2, 7) + [x % 2 == 1];
  }

  lemma {:induction false} ShrBits(x: Byte, c: nat)
    ensures forall i :: 0 <= i < 8 ==> (OctetOf(Shr(x, c))[i] <==> i >= c && OctetOf(x)[i - c])
  {
    hide OctetOf;
    if c > 0 {
      ShrBits(x / 2, c - 1);
      HalfBits(x);
    }
  }

  /** 0xff >> c: the low bits of a byte whose top `c` bits belong to the network. */
  function LowMask(c: nat): (m: Byte)
    ensures forall i :: 0 <= i < 8 ==> (OctetOf(m)[i] <==> i >= c)
  {
    ShrBits(0xff, c);
    FullByte(0xff);
    Shr(0xff, c)
  }

  lemma ZeroByte(x: Byte)
    ensures x == 0 <==> forall i :: 0 <= i < 8 ==> !OctetOf(x)[i]
  {
    ByteOfOctet(x);
    if forall i :: 0 <= i < 8 ==> !OctetOf(x)[i] {
      assert OctetOf(x) == OctetOf(0);
      ByteOfOctet(0);
    }
  }

  lemma FullByte(x: Byte)
    ensures x == 0xff <==> forall i :: 0 <= i < 8 ==> OctetOf(x)[i]
  {
    assert OctetOf(0xff) == [true, true, true, true, true, true, true, true];
    ByteOfOctet(x);
    ByteOfOctet(0xff);
    if forall i :: 0 <= i < 8 ==> OctetOf(x)[i] {
      assert OctetOf(x) == OctetOf(0xff);
    }
  }

  lemma SameOctet(x: Byte, y: Byte)
    ensures x == y <==> forall i :: 0 <= i < 8 ==> OctetOf(x)[i] == OctetOf(y)[i]
  {
    ByteOfOctet(x);
    ByteOfOctet(y);
    if forall i :: 0 <= i < 8 ==> OctetOf(x)[i] == OctetOf(y)[i] {
      assert OctetOf(x) == OctetOf(y);
    }
  }

  // ---------- bits of an address ----------

  /** Bit `k` of the address, counted from the most significant one. */
  function BitAt(bs: seq<Byte>, k: nat): bool
    requires k < 8 * |bs|
  {
    OctetOf(bs[k / 8])[k % 8]
  }

  function Bits(bs: seq<Byte>): (b: seq<bool>)
    ensures |b| == 8 * |bs| && forall k :: 0 <= k < 8 * |bs| ==> b[k] == BitAt(bs, k)
  {
    seq(8 * |bs|, k requires 0 <= k < 8 * |bs| => BitAt(bs, k))
  }

  lemma BitInByte(bs: seq<Byte>, j: nat, i: nat)
    requires j < |bs| && i < 8
    ensures BitAt(bs, 8 * j + i) == OctetOf(bs[j])[i]
  {
    assert (8 * j + i) / 8 == j && (8 * j + i) % 8 == i;
  }

  function BytesOfBits(b: seq<bool>): (bs: seq<Byte>)
    requires |b| % 8 == 0
    ensures |bs| == |b| / 8
  {
    seq(|b| / 8, j requires 0 <= j < |b| / 8 => ByteOf(b[8 * j..8 * j + 8]))
  }

  lemma BitsOfBytes(b: seq<bool>)
    requires |b| % 8 == 0
    ensures Bits(BytesOfBits(b)) == b
  {
    var bs := BytesOfBits(b);
    forall k | 0 <= k < |b|
      ensures BitAt(bs, k) == b[k]
    {
      var j := k / 8;
      OctetOfByte(b[8 * j..8 * j + 8]);
    }
  }

  /** The bits determine the bytes. */
  lemma SameBits(a: seq<Byte>, b: seq<Byte>)
    requires Bits(a) == Bits(b)
    ensures a == b
  {
    forall j | 0 <= j < |a|
      ensures a[j] == b[j]
    {
      forall i | 0 <= i < 8
        ensures OctetOf(a[j])[i] == OctetOf(b[j])[i]
      {
        BitInByte(a, j, i);
        BitInByte(b, j, i);
        assert Bits(a)[8 * j + i] == Bits(b)[8 * j + i];
      }
      SameOctet(a[j], b[j]);
    }
  }
}
