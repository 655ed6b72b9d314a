/**
  Masks and subnets: subnettypeof.c, initsubnet.c and sameaddr.c.  A subnet is
  a prefix of bits; every byte loop is proved against that reading.
 */
module Subnet {
  import opened Common
  import opened Address

  // ---------- masks ----------

  /** `k` one bits, then zero bits only. */
  ghost predicate IsMask(bs: seq<Byte>, k: int) {
    0 <= k <= 8 * |bs| && forall j :: 0 <= j < 8 * |bs| ==> (BitAt(bs, j) <==> j < k)
  }

  function MaskBytes(n: nat, k: nat): (bs: seq<Byte>)
    ensures |bs| == n && (k <= 8 * n ==> IsMask(bs, k))
  {
    var b := seq(8 * n, j => j < k);
    BitsOfBytes(b);
    assert forall j :: 0 <= j < 8 * n ==> Bits(BytesOfBits(b))[j] == BitAt(BytesOfBits(b), j);
    BytesOfBits(b)
  }

  lemma MaskIsMaskBytes(bs: seq<Byte>, k: nat)
    requires IsMask(bs, k)
    ensures bs == MaskBytes(|bs|, k)
  {
    var m := MaskBytes(|bs|, k);
    assert Bits(bs) == Bits(m);
    SameBits(bs, m);
  }

  lemma ByteBits(bs: seq<Byte>, j: nat)
    requires j < |bs|
    ensures forall i :: 0 <= i < 8 ==> OctetOf(bs[j])[i] == BitAt(bs, 8 * j + i)
  {
    forall i | 0 <= i < 8
      ensures OctetOf(bs[j])[i] == BitAt(bs, 8 * j + i)
    {
      BitInByte(bs, j, i);
    }
  }

  /** Byte `j` of a mask. */
  lemma MaskByte(n: nat, k: nat, j: nat)
    requires k <= 8 * n && j < n
    ensures MaskBytes(n, k)[j] ==
      if 8 * j + 8 <= k then 0xff else if k <= 8 * j then 0 else Not(LowMask(k - 8 * j))
  {
    hide OctetOf, Not, LowMask;
    var x := MaskBytes(n, k)[j];
    ByteBits(MaskBytes(n, k), j);
    FullByte(x);
    ZeroByte(x);
    if 8 * j < k < 8 * j + 8 {
      SameOctet(x, Not(LowMask(k - 8 * j)));
    }
  }

  /** maskof: None where the source leaves its result untouched. */
  method Maskof(src: IpSubnet) returns (dst: Option<Address>)
    ensures var n := LenOf(src.addr.family);
      dst == if n != 0 && 0 <= src.maskbits <= 8 * n
             then Some(IpAddress(src.addr.family, MaskBytes(n, src.maskbits), 0)) else None
  {
    hide MaskBytes, LowMask, Not;
    var n := LenOf(src.addr.family);
    if src.maskbits < 0 || src.maskbits > n * 8 || n > 16 {
      return None;
    }
    var buf := new Byte[16];
    ghost var mask := MaskBytes(n, src.maskbits);
    var p := 0;
    var b := src.maskbits;
    while b >= 8
      invariant 0 <= p <= n && b == src.maskbits - 8 * p >= 0
      invariant forall j :: 0 <= j < p ==> buf[j] == mask[j]
    {
      MaskByte(n, src.maskbits, p);
      buf[p] := 0xff;
      p, b := p + 1, b - 8;
    }
    if b != 0 {
      MaskByte(n, src.maskbits, p);
      buf[p] := Not(LowMask(b));
      p := p + 1;
    }
    while p < n
      invariant 0 <= p <= n && 8 * p >= src.maskbits
      invariant forall j :: 0 <= j < p ==> buf[j] == mask[j]
    {
      MaskByte(n, src.maskbits, p);
      buf[p] := 0;
      p := p + 1;
    }
    if n == 0 {
      return None;
    }
    assert buf[..n] == mask;
    return Some(IpAddress(src.addr.family, buf[..n], 0));
  }

  /** What a mask counts, and -1 for everything that is not a mask. */
  ghost function CountResult(bs: seq<Byte>): int {
    if bs != [] && exists k :: IsMask(bs, k) then (var k :| IsMask(bs, k); k) else -1
  }

  lemma CountOfMask(bs: seq<Byte>, k: int)
    requires bs != [] && IsMask(bs, k)
    ensures CountResult(bs) == k
  {
    var k' := CountResult(bs);
    assert IsMask(bs, k');
    var j := if k < k' then k else k';
    if j < 8 * |bs| {
      assert BitAt(bs, j) <==> j < k;
      assert BitAt(bs, j) <==> j < k';
    }
  }

  /** masktocount undoes maskof. */
  lemma CountUndoesMask(n: nat, k: nat)
    requires 0 < n && k <= 8 * n
    ensures CountResult(MaskBytes(n, k)) == k
  {
    CountOfMask(MaskBytes(n, k), k);
  }

  /** A one bit after a zero bit: not a mask. */
  lemma NotContiguous(bs: seq<Byte>, i: nat, j: nat)
    requires i < j < 8 * |bs| && !BitAt(bs, i) && BitAt(bs, j)
    ensures CountResult(bs) == -1
  {
    forall k | IsMask(bs, k)
      ensures false
    {
    }
  }

  lemma {:induction false} ZeroBinary(w: nat)
    ensures forall i :: 0 <= i < w ==> !BinaryOf(0, w)[i]
  {
    if w > 0 {
      ZeroBinary(w - 1);
    }
  }

  lemma HighBit(b: Byte)
    ensures OctetOf(b) == [b >= 128] + BinaryOf(b % 128, 7)
  {
    hide BinaryOf, Pow2;
    PowerOf7();
    TopBit(b, 7);
    LowSeven(b);
  }

  lemma PowerOf7()
    ensures Pow2(7) == 128
  {
  }

  lemma LowSeven(b: Byte)
    ensures b % 128 == if b >= 128 then b - 128 else b
  {
  }

  lemma TestHighBit(b: Byte)
    ensures And(b, 0x80) != 0 <==> OctetOf(b)[0]
  {
    hide BinaryOf;
    HighBit(0x80);
    ZeroBinary(7);
    ZeroByte(And(b, 0x80));
  }

  /** b <<= 1, of which only the low eight bits are ever looked at. */
  function ShiftLeft(b: Byte): (d: Byte)
    ensures OctetOf(d) == OctetOf(b)[1..] + [false]
  {
    HighBit(b);
    assert (2 * (b % 128)) / 2 == b % 128;
    2 * (b % 128)
  }

  lemma {:induction false} TopBit(x: nat, w: nat)
    requires x < 2 * Pow2(w)
    ensures BinaryOf(x, w + 1) == [x >= Pow2(w)] + BinaryOf(if x >= Pow2(w) then x - Pow2(w) else x, w)
  {
    if w == 0 {
      assert BinaryOf(x, 1) == BinaryOf(x / 2, 0) + [x % 2 == 1];
    } else {
      TopBit(x / 2, w - 1);
      var y := if x >= Pow2(w) then x - Pow2(w) else x;
      assert y / 2 == if x / 2 >= Pow2(w - 1) then x / 2 - Pow2(w - 1) else x / 2;
      assert y % 2 == x % 2;
    }
  }

  /** The part of masktocount inside one byte: how many one bits it starts with. */
  method LeadingOnes(x: Byte) returns (ones: nat, rest: Byte)
    requires x != 0xff
    ensures ones < 8 && !OctetOf(x)[ones] && forall i :: 0 <= i < ones ==> OctetOf(x)[i]
    ensures rest != 0 <==> exists i :: ones <= i < 8 && OctetOf(x)[i]
  {
    hide OctetOf, And, ShiftLeft;
    FullByte(x);
    ghost var zero :| 0 <= zero < 8 && !OctetOf(x)[zero];
    var b := x;
    ones := 0;
    TestHighBit(b);
    while And(b, 0x80) != 0
      invariant 0 <= ones <= zero
      invariant forall i :: 0 <= i < ones ==> OctetOf(x)[i]
      invariant forall i :: 0 <= i < 8 ==> (OctetOf(b)[i] <==> i + ones < 8 && OctetOf(x)[i + ones])
      invariant And(b, 0x80) != 0 <==> OctetOf(b)[0]
      decreases 8 - ones
    {
      b := ShiftLeft(b);
      ones := ones + 1;
      TestHighBit(b);
    }
    rest := b;
    ZeroByte(rest);
    if rest != 0 {
      var i :| 0 <= i < 8 && OctetOf(b)[i];
      assert OctetOf(x)[i + ones];
    }
    if j :| ones <= j < 8 && OctetOf(x)[j] {
      assert OctetOf(b)[j - ones];
    }
  }

  method Masktocount(src: Address) returns (r: int)
    ensures r == CountResult(src.bytes)
  {
    hide OctetOf, BitAt;
    var bp := src.bytes;
    if |bp| == 0 {
      return -1;
    }
    var p, stop := 0, |bp|;
    var n := 0;
    while p < stop && bp[p] == 0xff
      invariant 0 <= p <= stop && n == 8 * p
      invariant forall j :: 0 <= j < p ==> bp[j] == 0xff
    {
      p, n := p + 1, n + 8;
    }
    ghost var q := p;
    if p < stop {
      ZeroByte(bp[p]);
    }
    if p < stop && bp[p] != 0 {
      var ones, rest := LeadingOnes(bp[p]);
      n := n + ones;
      if rest != 0 {
        BrokenByte(bp, p, ones);
        return -1;
      }
      assert forall i :: 0 <= i < 8 ==> (OctetOf(bp[q])[i] <==> i < n - 8 * q);
      p := p + 1;
    }
    ghost var start := p;
    while p < stop && bp[p] == 0
      invariant start <= p <= stop
      invariant forall j :: start <= j < p ==> bp[j] == 0
    {
      p := p + 1;
    }
    if p != stop {
      BrokenTail(bp, q, p);
      return -1;
    }
    CountedMask(bp, q, n);
    return n;
  }

  /** A one bit after the leading one bits of byte `p`. */
  lemma BrokenByte(bs: seq<Byte>, p: nat, ones: nat)
    requires p < |bs| && ones < 8 && !OctetOf(bs[p])[ones]
    requires exists i :: ones <= i < 8 && OctetOf(bs[p])[i]
    ensures CountResult(bs) == -1
  {
    ByteBits(bs, p);
    var i :| ones <= i < 8 && OctetOf(bs[p])[i];
    NotContiguous(bs, 8 * p + ones, 8 * p + i);
  }

  /** A byte that is not zero after a byte that is not full. */
  lemma BrokenTail(bs: seq<Byte>, q: nat, p: nat)
    requires q < p < |bs| && bs[q] != 0xff && bs[p] != 0
    ensures CountResult(bs) == -1
  {
    ByteBits(bs, q);
    ByteBits(bs, p);
    FullByte(bs[q]);
    ZeroByte(bs[p]);
    var i :| 0 <= i < 8 && !OctetOf(bs[q])[i];
    var j :| 0 <= j < 8 && OctetOf(bs[p])[j];
    NotContiguous(bs, 8 * q + i, 8 * p + j);
  }

  /** Full bytes up to `q`, `n - 8q` one bits in byte `q`, and zero bytes after it. */
  lemma CountedMask(bs: seq<Byte>, q: nat, n: nat)
    requires bs != [] && q <= |bs| && 8 * q <= n && (if q < |bs| then n < 8 * q + 8 else n == 8 * q)
    requires forall j :: 0 <= j < q ==> bs[j] == 0xff
    requires forall j :: q < j < |bs| ==> bs[j] == 0
    requires q < |bs| ==> forall i :: 0 <= i < 8 ==> (OctetOf(bs[q])[i] <==> i < n - 8 * q)
    ensures CountResult(bs) == n
  {
    hide OctetOf;
    forall k | 0 <= k < 8 * |bs|
      ensures BitAt(bs, k) <==> k < n
    {
      FullByte(bs[k / 8]);
      ZeroByte(bs[k / 8]);
    }
    CountOfMask(bs, n);
  }

  // ---------- initsubnet ----------

  /** The address with its bits from `count` on cleared. */
  function Masked(bs: seq<Byte>, count: nat): (r: seq<Byte>)
    ensures |r| == |bs|
    ensures forall k :: 0 <= k < 8 * |bs| ==> (BitAt(r, k) <==> k < count && BitAt(bs, k))
  {
    var b := seq(8 * |bs|, k requires 0 <= k < 8 * |bs| => k < count && BitAt(bs, k));
    BitsOfBytes(b);
    assert forall k :: 0 <= k < 8 * |bs| ==> Bits(BytesOfBits(b))[k] == BitAt(BytesOfBits(b), k);
    BytesOfBits(b)
  }

  predicate HostBitsOn(bs: seq<Byte>, count: nat) {
    exists k :: count <= k < 8 * |bs| && BitAt(bs, k)
  }

  datatype InitError = UnknownFamily | UnknownClash | ImpossibleCount | HostPartOn

  /**
    initsubnet.  The count is only compared in whole bytes, so up to seven bits
    more than the address has are accepted, and such a subnet has no host bits.
   */
  function InitResult(addr: Address, count: nat, clash: char): Result<IpSubnet, InitError> {
    if !KnownFamily(addr.family) then Err(UnknownFamily)
    else if clash != '0' && clash != 'x' then Err(UnknownClash)
    else if count / 8 > |addr.bytes| then Err(ImpossibleCount)
    else if clash == 'x' && HostBitsOn(addr.bytes, count) then Err(HostPartOn)
    else Ok(IpSubnet(IpAddress(addr.family, Masked(addr.bytes, count), addr.port), count))
  }

  /** The mask that the loop applies to byte `j`: its host bits. */
  function HostMask(count: nat, j: nat): Byte {
    if count <= 8 * j then 0xff else if count >= 8 * j + 8 then 0 else LowMask(count - 8 * j)
  }

  lemma HostMaskBits(count: nat, j: nat)
    ensures forall i :: 0 <= i < 8 ==> (OctetOf(HostMask(count, j))[i] <==> 8 * j + i >= count)
  {
    hide OctetOf, LowMask;
    FullByte(0xff);
    ZeroByte(0);
  }

  lemma MaskedByte(bs: seq<Byte>, count: nat, j: nat)
    requires j < |bs|
    ensures Masked(bs, count)[j] == And(bs[j], Not(HostMask(count, j)))
    ensures And(bs[j], HostMask(count, j)) == 0 ==> Masked(bs, count)[j] == bs[j]
    ensures And(bs[j], HostMask(count, j)) != 0 ==> HostBitsOn(bs, count)
    ensures And(bs[j], HostMask(count, j)) == 0 ==>
      forall k :: 8 * j <= k < 8 * j + 8 && k >= count ==> !BitAt(bs, k)
  {
    hide OctetOf, And, Not, HostMask, Masked, BitAt;
    var r := Masked(bs, count);
    var host := And(bs[j], HostMask(count, j));
    ByteBits(bs, j);
    ByteBits(r, j);
    HostMaskBits(count, j);
    SameOctet(r[j], And(bs[j], Not(HostMask(count, j))));
    SameOctet(r[j], bs[j]);
    ZeroByte(host);
    if host != 0 {
      var i :| 0 <= i < 8 && OctetOf(host)[i];
      assert BitAt(bs, 8 * j + i);
    } else {
      assert forall k :: 8 * j <= k < 8 * j + 8 ==> BitAt(bs, k) == OctetOf(bs[j])[k - 8 * j];
    }
  }

  lemma NoHostBits(bs: seq<Byte>, count: nat, from: nat)
    requires 8 * from <= count
    requires forall j :: from <= j < |bs| ==> And(bs[j], HostMask(count, j)) == 0
    ensures !HostBitsOn(bs, count) && Masked(bs, count) == bs
  {
    hide And, HostMask, Masked, BitAt;
    forall k | count <= k < 8 * |bs|
      ensures !BitAt(bs, k)
    {
      MaskedByte(bs, count, k / 8);
      assert 8 * (k / 8) + k % 8 == k;
    }
    assert Bits(Masked(bs, count)) == Bits(bs);
    SameBits(Masked(bs, count), bs);
  }

  method Initsubnet(addr: Address, count: nat, clash: char) returns (r: Result<IpSubnet, InitError>)
    ensures r == InitResult(addr, count, clash)
  {
    hide And, Not, HostMask, Masked, HostBitsOn, LowMask;
    var n := LenOf(addr.family);
    if n == 0 {
      return Err(UnknownFamily);
    }
    var die;
    if clash == '0' {
      die := false;
    } else if clash == 'x' {
      die := true;
    } else {
      return Err(UnknownClash);
    }
    var c := count / 8;
    if c > n {
      return Err(ImpossibleCount);
    }
    ghost var bs := addr.bytes;
    var dst := new Byte[n](i requires 0 <= i < n => addr.bytes[i]);
    var p := c;
    var m := 0xff;
    c := count % 8;
    if n - p > 0 && c != 0 {
      m := LowMask(c);
    }
    HostMaskFrom(count, n);
    while p < n
      invariant count / 8 <= p <= n
      invariant p < n ==> m == HostMask(count, p)
      invariant forall j :: 0 <= j < count / 8 || p <= j < n ==> dst[j] == bs[j]
      invariant forall j :: count / 8 <= j < p ==> dst[j] == Masked(bs, count)[j]
      invariant die ==> forall j :: count / 8 <= j < p ==> And(bs[j], HostMask(count, j)) == 0
    {
      MaskedByte(bs, count, p);
      if And(dst[p], m) != 0 {
        if die {
          return Err(HostPartOn);
        }
        dst[p] := And(dst[p], Not(m));
      }
      m := 0xff;
      p := p + 1;
    }
    forall j | 0 <= j < count / 8
      ensures Masked(bs, count)[j] == bs[j]
    {
      KeptByte(bs, count, j);
    }
    assert dst[..] == Masked(bs, count);
    if die {
      NoHostBits(bs, count, count / 8);
    }
    return Ok(IpSubnet(IpAddress(addr.family, dst[..], addr.port), count));
  }

  lemma HostMaskFrom(count: nat, n: nat)
    ensures forall j :: count / 8 < j <= n ==> HostMask(count, j) == 0xff
    ensures HostMask(count, count / 8) == if count % 8 != 0 then LowMask(count % 8) else 0xff
  {
  }

  lemma KeptByte(bs: seq<Byte>, count: nat, j: nat)
    requires j < |bs| && 8 * j + 8 <= count
    ensures Masked(bs, count)[j] == bs[j]
  {
    hide OctetOf, Masked, BitAt;
    ByteBits(bs, j);
    ByteBits(Masked(bs, count), j);
    SameOctet(Masked(bs, count)[j], bs[j]);
  }

  // ---------- sameaddr.c ----------

  /** The first `n` bits agree. */
  predicate SameTop(a: seq<Byte>, b: seq<Byte>, n: nat)
    requires |a| == |b| && n <= 8 * |a|
  {
    forall k :: 0 <= k < n ==> BitAt(a, k) == BitAt(b, k)
  }

  /** The first `n` bits as a number. */
  function TopNumber(a: seq<Byte>, n: nat): nat
    requires n <= 8 * |a|
  {
    NatOf(Bits(a)[..n])
  }

  lemma SameTopIsSameNumber(a: seq<Byte>, b: seq<Byte>, n: nat)
    requires |a| == |b| && n <= 8 * |a|
    ensures SameTop(a, b, n) <==> TopNumber(a, n) == TopNumber(b, n)
  {
    hide BitAt;
    var s, t := Bits(a)[..n], Bits(b)[..n];
    if SameTop(a, b, n) {
      assert s == t;
    }
    if NatOf(s) == NatOf(t) {
      BinaryOfNat(s);
      BinaryOfNat(t);
      assert s == t;
      assert forall k :: 0 <= k < n ==> s[k] == BitAt(a, k) && t[k] == BitAt(b, k);
    }
  }

  /** samenbits; a negative count is compared as a huge unsigned number. */
  predicate SameBitsResult(a: Address, b: Address, nbits: int) {
    a.family == b.family && KnownFamily(a.family) && 0 <= nbits <= 8 * |a.bytes| && SameTop(a.bytes, b.bytes, nbits)
  }

  method Samenbits(a: Address, b: Address, nbits0: int) returns (r: bool)
    ensures r == SameBitsResult(a, b, nbits0)
  {
    hide BitAt, OctetOf, And;
    if a.family != b.family {
      return false;
    }
    var ap, bp := a.bytes, b.bytes;
    var n := |ap|;
    if n == 0 || nbits0 < 0 || nbits0 > 8 * n {
      return false;
    }
    var nbits, j := nbits0, 0;
    while nbits >= 8 && ap[j] == bp[j]
      invariant 0 <= j <= n && nbits == nbits0 - 8 * j >= 0
      invariant forall k :: 0 <= k < 8 * j ==> BitAt(ap, k) == BitAt(bp, k)
      decreases nbits
    {
      ByteBits(ap, j);
      ByteBits(bp, j);
      assert forall k :: 8 * j <= k < 8 * j + 8 ==> BitAt(ap, k) == OctetOf(ap[j])[k - 8 * j];
      assert forall k :: 8 * j <= k < 8 * j + 8 ==> BitAt(bp, k) == OctetOf(bp[j])[k - 8 * j];
      nbits, j := nbits - 8, j + 1;
    }
    if nbits > 0 {
      ByteBits(ap, j);
      ByteBits(bp, j);
      SameOctet(ap[j], bp[j]);
      assert forall k :: 8 * j <= k < 8 * j + 8 ==> BitAt(ap, k) == OctetOf(ap[j])[k - 8 * j];
      assert forall k :: 8 * j <= k < 8 * j + 8 ==> BitAt(bp, k) == OctetOf(bp[j])[k - 8 * j];
    }
    if nbits >= 8 {
      return false;
    }
    if nbits > 0 {
      var m := Not(LowMask(nbits));
      SameOctet(And(ap[j], m), And(bp[j], m));
      if And(ap[j], m) != And(bp[j], m) {
        return false;
      }
    }
    return true;
  }

  function Addrinsubnet(a: Address, s: IpSubnet): bool {
    a.family == s.addr.family && SameBitsResult(a, s.addr, s.maskbits)
  }

  function Subnetinsubnet(a: IpSubnet, b: IpSubnet): bool {
    a.addr.family == b.addr.family && a.maskbits >= b.maskbits && SameBitsResult(a.addr, b.addr, b.maskbits)
  }

  predicate ProperSubnet(s: IpSubnet) {
    KnownFamily(s.addr.family) && 0 <= s.maskbits <= 8 * |s.addr.bytes|
  }

  /** The address of `s` with its bit `k` flipped. */
  function Flipped(s: Address, k: nat): (r: Address)
    requires k < 8 * |s.bytes|
    ensures r.family == s.family
    ensures forall j :: 0 <= j < 8 * |s.bytes| ==> (BitAt(r.bytes, j) <==> (BitAt(s.bytes, j) != (j == k)))
  {
    var b := seq(8 * |s.bytes|, j requires 0 <= j < 8 * |s.bytes| => BitAt(s.bytes, j) != (j == k));
    BitsOfBytes(b);
    assert forall j :: 0 <= j < 8 * |s.bytes| ==> Bits(BytesOfBits(b))[j] == BitAt(BytesOfBits(b), j);
    IpAddress(s.family, BytesOfBits(b), s.port)
  }

  /** A larger subnet has an address that a smaller one lacks. */
  lemma AddressOutside(a: IpSubnet, b: IpSubnet) returns (x: Address)
    requires ProperSubnet(a) && ProperSubnet(b) && a.maskbits < b.maskbits && Addrinsubnet(a.addr, b)
    ensures Addrinsubnet(x, a) && !Addrinsubnet(x, b)
  {
    hide BitAt;
    var k := a.maskbits;
    x := Flipped(a.addr, k);
    assert BitAt(x.bytes, k) != BitAt(a.addr.bytes, k) == BitAt(b.addr.bytes, k);
  }

  /** Containment of subnets is inclusion of their addresses. */
  lemma ContainmentIsInclusion(a: IpSubnet, b: IpSubnet)
    requires ProperSubnet(a) && ProperSubnet(b)
    ensures Subnetinsubnet(a, b) <==> forall x: Address :: Addrinsubnet(x, a) ==> Addrinsubnet(x, b)
  {
    hide BitAt;
    if forall x: Address :: Addrinsubnet(x, a) ==> Addrinsubnet(x, b) {
      assert Addrinsubnet(a.addr, a);
      assert Addrinsubnet(a.addr, b);
      if a.maskbits < b.maskbits {
        var x := AddressOutside(a, b);
      }
    }
  }

  lemma ContainmentIsTransitive(a: IpSubnet, b: IpSubnet, c: IpSubnet)
    requires Subnetinsubnet(a, b) && Subnetinsubnet(b, c)
    ensures Subnetinsubnet(a, c)
  {
    hide BitAt;
    forall k | 0 <= k < c.maskbits
      ensures BitAt(a.addr.bytes, k) == BitAt(c.addr.bytes, k)
    {
      assert BitAt(a.addr.bytes, k) == BitAt(b.addr.bytes, k);
    }
  }

  /** Two subnets of one family are nested or have no address in common. */
  lemma NestedOrDisjoint(a: IpSubnet, b: IpSubnet)
    requires ProperSubnet(a) && ProperSubnet(b) && a.addr.family == b.addr.family
    ensures Subnetinsubnet(a, b) || Subnetinsubnet(b, a)
      || forall x: Address :: !(Addrinsubnet(x, a) && Addrinsubnet(x, b))
  {
    hide BitAt;
    if x: Address :| Addrinsubnet(x, a) && Addrinsubnet(x, b) {
      var m := if a.maskbits < b.maskbits then a.maskbits else b.maskbits;
      forall k | 0 <= k < m
        ensures BitAt(a.addr.bytes, k) == BitAt(b.addr.bytes, k)
      {
        assert BitAt(x.bytes, k) == BitAt(a.addr.bytes, k) && BitAt(x.bytes, k) == BitAt(b.addr.bytes, k);
      }
    }
  }

  /** Each refusal of initsubnet, and the one reason for it. */
  lemma RefusedExactly(addr: Address, count: nat, clash: char)
    ensures var r, n := InitResult(addr, count, clash), |addr.bytes|;
      && (r == Err(UnknownFamily) <==> n == 0)
      && (r == Err(UnknownClash) <==> n > 0 && clash !in {'0', 'x'})
      && (r == Err(ImpossibleCount) <==> n > 0 && clash in {'0', 'x'} && count >= 8 * n + 8)
      && (r == Err(HostPartOn) <==>
            n > 0 && clash == 'x' && count < 8 * n + 8 && exists k :: count <= k < 8 * n && BitAt(addr.bytes, k))
  {
    hide BitAt;
  }

  /** The counts that initsubnet accepts: up to seven more than the address has bits. */
  lemma AcceptedCounts(addr: Address, count: nat)
    requires KnownFamily(addr.family)
    ensures InitResult(addr, count, '0').Ok? <==> count <= 8 * |addr.bytes| + 7
  {
  }

  /** A count that is too large and accepted: 129 for an IPv6 address, whose subnet is empty of that address. */
  lemma OneBitTooMany(addr: Address)
    requires addr.family == AF_INET6
    ensures InitResult(addr, 129, '0').Ok? && !Addrinsubnet(addr, InitResult(addr, 129, '0').value)
  {
    AcceptedCounts(addr, 129);
  }

  /**
    The subnet that initsubnet makes holds exactly the addresses that mask to
    its own, if the count is one of the address; if it is larger it holds none,
    not even the address it was made from.
   */
  lemma MadeSubnetMembers(addr: Address, count: nat, x: Address)
    requires KnownFamily(addr.family) && count <= 8 * |addr.bytes| + 7 && x.family == addr.family
    ensures var s := InitResult(addr, count, '0');
      && s.Ok?
      && (Addrinsubnet(x, s.value) <==>
            count <= 8 * |addr.bytes| && Masked(x.bytes, count) == s.value.addr.bytes)
      && (Addrinsubnet(addr, s.value) <==> count <= 8 * |addr.bytes|)
  {
    hide BitAt, Masked, Addrinsubnet, SameBitsResult;
    AcceptedCounts(addr, count);
    MembersMaskAlike(addr, count, x);
    MembersMaskAlike(addr, count, addr);
  }

  lemma MembersMaskAlike(addr: Address, count: nat, x: Address)
    requires KnownFamily(addr.family) && x.family == addr.family
    ensures var s := IpSubnet(IpAddress(addr.family, Masked(addr.bytes, count), addr.port), count);
      Addrinsubnet(x, s) <==> count <= 8 * |addr.bytes| && Masked(x.bytes, count) == s.addr.bytes
  {
    hide BitAt, Masked;
    var r, y := Masked(addr.bytes, count), Masked(x.bytes, count);
    if count <= 8 * |addr.bytes| && SameTop(x.bytes, r, count) {
      assert Bits(y) == Bits(r);
      SameBits(y, r);
    }
    if count <= 8 * |addr.bytes| && y == r {
      forall k | 0 <= k < count
        ensures BitAt(x.bytes, k) == BitAt(r, k)
      {
        assert BitAt(y, k) == BitAt(x.bytes, k);
      }
    }
  }

  /** With 'x', initsubnet succeeds just when there is nothing to clear, and clears nothing. */
  lemma StrictInitSubnet(addr: Address, count: nat)
    requires KnownFamily(addr.family) && count / 8 <= |addr.bytes|
    ensures InitResult(addr, count, 'x').Ok? <==> Masked(addr.bytes, count) == addr.bytes
    ensures InitResult(addr, count, 'x').Ok? ==> InitResult(addr, count, 'x') == Ok(IpSubnet(addr, count))
  {
    hide BitAt, Masked;
    var bs := addr.bytes;
    if !HostBitsOn(bs, count) {
      assert Bits(Masked(bs, count)) == Bits(bs);
      SameBits(Masked(bs, count), bs);
    } else {
      var k :| count <= k < 8 * |bs| && BitAt(bs, k);
      assert !BitAt(Masked(bs, count), k);
    }
  }

  // ---------- addrcmp ----------

  /** memcmp over the first `n` bytes. */
  function Memcmp(a: seq<Byte>, b: seq<Byte>, n: nat): int
    requires n <= |a| && n <= |b|
  {
    if n == 0 then 0 else if a[0] != b[0] then a[0] - b[0] else Memcmp(a[1..], b[1..], n - 1)
  }

  function Addrcmp(a: Address, b: Address): int {
    var n := Min(|a.bytes|, |b.bytes|);
    var c := Memcmp(a.bytes, b.bytes, n);
    if c != 0 then if c < 0 then -1 else 1
    else if |a.bytes| != |b.bytes| then if |a.bytes| < |b.bytes| then -1 else 1
    else if a.family != b.family then if a.family < b.family then -1 else 1
    else 0
  }

  lemma {:induction false} MemcmpFlips(a: seq<Byte>, b: seq<Byte>, n: nat)
    requires n <= |a| && n <= |b|
    ensures Memcmp(b, a, n) == -Memcmp(a, b, n)
    ensures Memcmp(a, b, n) == 0 <==> a[..n] == b[..n]
  {
    if n > 0 && a[0] == b[0] {
      MemcmpFlips(a[1..], b[1..], n - 1);
      assert a[..n] == [a[0]] + a[1..][..n - 1] && b[..n] == [b[0]] + b[1..][..n - 1];
    } else if n > 0 {
      assert a[..n][0] != b[..n][0];
    }
  }

  /** Lexical order: a proper prefix comes first, otherwise the first byte that differs decides. */
  ghost predicate Before(a: seq<Byte>, b: seq<Byte>) {
    a < b || exists k: nat :: FirstDifference(a, b, k) && a[k] < b[k]
  }

  ghost predicate FirstDifference(a: seq<Byte>, b: seq<Byte>, k: nat) {
    k < |a| && k < |b| && a[..k] == b[..k] && a[k] != b[k]
  }

  /** memcmp and then the lengths. */
  function Lexical(a: seq<Byte>, b: seq<Byte>): int {
    var c := Memcmp(a, b, Min(|a|, |b|));
    if c != 0 then c else |a| - |b|
  }

  lemma {:induction false} LexicalTransitive(a: seq<Byte>, b: seq<Byte>, c: seq<Byte>)
    requires Lexical(a, b) <= 0 && Lexical(b, c) <= 0
    ensures Lexical(a, c) <= 0
    ensures Lexical(a, b) < 0 || Lexical(b, c) < 0 ==> Lexical(a, c) < 0
  {
    if a != [] && b != [] && c != [] && a[0] == b[0] == c[0] {
      LexicalTransitive(a[1..], b[1..], c[1..]);
    }
  }

  lemma {:induction false} LexicalIsBefore(a: seq<Byte>, b: seq<Byte>)
    ensures Lexical(a, b) < 0 <==> Before(a, b)
  {
    if a != [] && b != [] {
      if a[0] == b[0] {
        LexicalIsBefore(a[1..], b[1..]);
        BeforeTail(a, b);
      } else {
        assert FirstDifference(a, b, 0);
        assert forall k: nat :: FirstDifference(a, b, k) && k > 0 ==> a[..k][0] == b[..k][0];
      }
    }
  }

  lemma BeforeTail(a: seq<Byte>, b: seq<Byte>)
    requires a != [] && b != [] && a[0] == b[0]
    ensures Before(a, b) <==> Before(a[1..], b[1..])
  {
    var c, d := a[1..], b[1..];
    assert a == [a[0]] + c && b == [b[0]] + d;
    if k: nat :| FirstDifference(a, b, k) && a[k] < b[k] {
      assert a[..k][1..] == c[..k - 1] && b[..k][1..] == d[..k - 1];
      assert FirstDifference(c, d, k - 1);
    }
    if k: nat :| FirstDifference(c, d, k) && c[k] < d[k] {
      assert a[..k + 1] == [a[0]] + c[..k] && b[..k + 1] == [b[0]] + d[..k];
      assert FirstDifference(a, b, k + 1);
    }
  }

  lemma AddrcmpIsLexicalSign(a: Address, b: Address)
    ensures Addrcmp(a, b) < 0 <==>
      Lexical(a.bytes, b.bytes) < 0 || (Lexical(a.bytes, b.bytes) == 0 && a.family < b.family)
    ensures Addrcmp(a, b) == 0 <==> Lexical(a.bytes, b.bytes) == 0 && a.family == b.family
  {
  }

  /** addrcmp orders addresses lexically by their bytes, and by family where these are the same. */
  lemma AddrcmpIsLexical(a: Address, b: Address)
    ensures Addrcmp(a, b) == -1 <==> Before(a.bytes, b.bytes) || (a.bytes == b.bytes && a.family < b.family)
    ensures Addrcmp(a, b) == 1 <==> Before(b.bytes, a.bytes) || (a.bytes == b.bytes && a.family > b.family)
    ensures Addrcmp(a, b) == 0 <==> a.bytes == b.bytes && a.family == b.family
  {
    hide Addrcmp, Lexical, Before;
    AddrcmpSigns(a, b);
    AddrcmpIsLexicalSign(a, b);
    LexicalFlips(a.bytes, b.bytes);
    LexicalIsBefore(a.bytes, b.bytes);
    LexicalIsBefore(b.bytes, a.bytes);
  }

  /** addrcmp is a total order; equal means the same family and bytes, the port aside. */
  lemma AddrcmpIsOrder(a: Address, b: Address, c: Address)
    ensures Addrcmp(a, b) == -Addrcmp(b, a)
    ensures Addrcmp(a, b) == 0 <==> a.family == b.family && a.bytes == b.bytes
    ensures Addrcmp(a, b) <= 0 && Addrcmp(b, c) <= 0 ==> Addrcmp(a, c) <= 0
  {
    hide Addrcmp, Lexical;
    AddrcmpIsLexicalSign(a, b);
    AddrcmpIsLexicalSign(b, a);
    AddrcmpIsLexicalSign(b, c);
    AddrcmpIsLexicalSign(a, c);
    LexicalFlips(a.bytes, b.bytes);
    AddrcmpSigns(a, b);
    AddrcmpSigns(b, a);
    if Lexical(a.bytes, b.bytes) <= 0 && Lexical(b.bytes, c.bytes) <= 0 {
      LexicalTransitive(a.bytes, b.bytes, c.bytes);
    }
  }

  lemma AddrcmpSigns(a: Address, b: Address)
    ensures Addrcmp(a, b) in {-1, 0, 1}
  {
  }

  lemma LexicalFlips(a: seq<Byte>, b: seq<Byte>)
    ensures Lexical(b, a) == -Lexical(a, b)
    ensures Lexical(a, b) == 0 <==> a == b
  {
    var n := Min(|a|, |b|);
    MemcmpFlips(a, b, n);
    if |a| == |b| {
      assert a[..n] == a && b[..n] == b;
    }
  }
}
