/**
  The Internet checksum as the code computes it, over little-endian words of
  memory with two folds at the end (iface.cpp, pcap_iface.cpp), against the sum
  that a receiver computes over words in network order (section 8.1 of RFC
  8200).
 */
module Checksum {
  import opened Common

  const ALL_ONES: int := 0xFFFF

  // ---------- sums of words ----------

  predicate Even(b: seq<Byte>) {
    |b| % 2 == 0
  }

  /** The sum of the words as a little-endian machine loads them. */
  function WordSum(b: seq<Byte>): (n: nat)
    requires Even(b)
    ensures n <= ALL_ONES * (|b| / 2)
  {
    if b == [] then 0
    else WordSum(b[..|b| - 2]) + b[|b| - 2] as int + 0x100 * b[|b| - 1] as int
  }

  /** One's complement addition: the carry comes back in at the end. */
  function OnesAdd(x: nat, y: nat): nat {
    if x + y > ALL_ONES then x + y - ALL_ONES else x + y
  }

  /** The sum of section 8.1 of RFC 8200: words in network order, one's complement. */
  function OnesSum(b: seq<Byte>): (n: nat)
    requires Even(b)
    ensures n <= ALL_ONES
  {
    if b == [] then 0
    else OnesAdd(OnesSum(b[..|b| - 2]), 0x100 * b[|b| - 2] as int + b[|b| - 1] as int)
  }

  /** The residue modulo 0xFFFF, with 0 for 0 only. */
  function Canonical(n: nat): (c: nat)
    ensures c <= ALL_ONES && c <= n
    ensures c == 0 <==> n == 0
  {
    if n == 0 then 0 else (n - 1) % 0xFFFF + 1
  }

  lemma CanonicalAdd(a: nat, b: nat)
    ensures Canonical(Canonical(a) + b) == Canonical(a + b)
  {
    if a > 0 {
      assert a == (a - 1) / 0xFFFF * 0xFFFF + Canonical(a);
      Periodic(Canonical(a) + b, (a - 1) / 0xFFFF);
    }
  }

  lemma Periodic(n: nat, q: nat)
    requires n > 0
    ensures Canonical(n + q * 0xFFFF) == Canonical(n)
  {
    assert (n - 1 + q * 0xFFFF) % 0xFFFF == (n - 1) % 0xFFFF;
  }

  lemma {:induction false} WordSumOfParts(a: seq<Byte>, b: seq<Byte>)
    requires Even(a) && Even(b)
    ensures WordSum(a + b) == WordSum(a) + WordSum(b)
  {
    if b == [] {
      assert a + b == a;
    } else {
      WordSumOfParts(a, b[..|b| - 2]);
      assert (a + b)[..|a + b| - 2] == a + b[..|b| - 2];
    }
  }

  // ---------- csum_partial ----------

  /** The high half of a word of 32 bits added to its low half. */
  function Fold(s: nat): nat {
    s % 0x1_0000 + s / 0x1_0000
  }

  /** What csum_partial returns. */
  function Csum(b: seq<Byte>, sum: nat): (r: nat)
    requires Even(b)
    ensures r <= ALL_ONES
  {
    Fold(Fold((sum + WordSum(b)) % UINT_SPAN)) % 0x1_0000
  }

  /** Two folds are enough for any sum of 32 bits. */
  lemma TwoFolds(s: nat)
    requires s < UINT_SPAN
    ensures Fold(Fold(s)) == Canonical(s)
  {
    var lo, hi := s % 0x1_0000, s / 0x1_0000;
    assert s == hi * 0xFFFF + (hi + lo);
    if s > 0 {
      Periodic(hi + lo, hi);
      FoldOnce(hi + lo);
    }
  }

  lemma FoldOnce(x: nat)
    requires x <= 2 * ALL_ONES
    ensures Fold(x) == Canonical(x)
  {
  }

  lemma CsumIsCanonical(b: seq<Byte>, sum: nat)
    requires Even(b)
    ensures Csum(b, sum) == Canonical((sum + WordSum(b)) % UINT_SPAN)
  {
    hide WordSum, Canonical, Fold;
    TwoFolds((sum + WordSum(b)) % UINT_SPAN);
  }

  /** The result is the residue of the whole sum exactly when no carry left the 32 bits. */
  lemma CsumExactly(b: seq<Byte>, sum: nat)
    requires Even(b) && |b| < 0x8000_0000 && sum < UINT_SPAN
    ensures Csum(b, sum) == Canonical(sum + WordSum(b)) <==> sum + WordSum(b) < UINT_SPAN
  {
    hide WordSum, Canonical, Csum;
    CsumIsCanonical(b, sum);
    CarriesAreLost(sum + WordSum(b));
  }

  lemma CarriesAreLost(s: nat)
    requires s < 0xFFFF * UINT_SPAN
    ensures Canonical(s % UINT_SPAN) == Canonical(s) <==> s < UINT_SPAN
  {
    hide Canonical;
    var q, r := s / UINT_SPAN, s % UINT_SPAN;
    if q > 0 {
      assert s == (q + r) + q * 65537 * 0xFFFF;
      Periodic(q + r, q * 65537);
      CarriesShift(r, q);
    }
  }

  lemma CarriesShift(r: nat, q: nat)
    requires 0 < q < 0xFFFF
    ensures Canonical(r + q) != Canonical(r)
  {
  }

  lemma CsumOfSmall(b: seq<Byte>, sum: nat)
    requires Even(b) && sum + WordSum(b) < UINT_SPAN
    ensures Csum(b, sum) == Canonical(sum + WordSum(b))
  {
    hide WordSum, Csum, Canonical;
    CsumIsCanonical(b, sum);
  }

  lemma WordSumStep(b: seq<Byte>, x: Byte, y: Byte)
    requires Even(b)
    ensures WordSum(b + [x, y]) == WordSum(b) + x as int + 0x100 * y as int
  {
    assert (b + [x, y])[..|b + [x, y]| - 2] == b;
  }

  /** Over a split at an even place, the second sum goes on where the first one ended. */
  lemma CsumChains(a: seq<Byte>, b: seq<Byte>, sum: nat)
    requires Even(a) && Even(b) && sum + WordSum(a) + WordSum(b) < UINT_SPAN
    ensures Csum(b, Csum(a, sum)) == Csum(a + b, sum)
  {
    hide WordSum, Csum, Canonical, Fold;
    WordSumOfParts(a, b);
    CsumOfSmall(a, sum);
    CsumOfSmall(b, Csum(a, sum));
    CsumOfSmall(a + b, sum);
    CanonicalAdd(sum + WordSum(a), WordSum(b));
  }

  function RoundUp(n: nat): (m: nat)
    ensures m % 2 == 0 && n <= m <= n + 1
  {
    n + n % 2
  }

  /** csum_partial: for an odd length the byte behind the block is added as well. */
  method CsumPartial(buff: array<Byte>, at: nat, len: nat, sum: nat) returns (r: nat)
    requires at + RoundUp(len) <= buff.Length && sum < UINT_SPAN
    ensures r == Csum(buff[at..at + RoundUp(len)], sum)
  {
    hide WordSum, Fold;
    var s, n, p := sum, len as int, at;
    ghost var carries := 0;
    assert WordSum([]) == 0 by {
      WordSumOfParts([], []);
    }
    while n > 0
      invariant at <= p && p - at + n == len && n >= -1 && (p - at) % 2 == 0
      invariant 0 <= s < UINT_SPAN && s + carries * UINT_SPAN == sum + WordSum(buff[at..p])
      decreases n
    {
      assert buff[at..p + 2] == buff[at..p] + [buff[p], buff[p + 1]];
      WordSumStep(buff[at..p], buff[p], buff[p + 1]);
      var t := s + buff[p] as int + 0x100 * buff[p + 1] as int;
      s, carries := t % UINT_SPAN, carries + t / UINT_SPAN;
      p, n := p + 2, n - 2;
    }
    LowWord(sum + WordSum(buff[at..p]), s, carries);
    r := TwiceFolded(s);
  }

  lemma LowWord(total: int, s: int, carries: int)
    requires 0 <= s < UINT_SPAN && s + carries * UINT_SPAN == total
    ensures s == total % UINT_SPAN
  {
  }

  /** The end of csum_partial. */
  method TwiceFolded(s: nat) returns (r: nat)
    ensures r == Fold(Fold(s)) % 0x1_0000
  {
    var t := s % 0x1_0000 + s / 0x1_0000;
    t := t % 0x1_0000 + t / 0x1_0000;
    r := t % 0x1_0000;
  }

  // ---------- what a receiver sums ----------

  /** The byte order of the words turns the sum by eight bits, and no more. */
  lemma {:induction false} OnesSumIsTurned(b: seq<Byte>)
    requires Even(b)
    ensures OnesSum(b) == Canonical(0x100 * WordSum(b))
  {
    if b != [] {
      var a, x, y := b[..|b| - 2], b[|b| - 2] as int, b[|b| - 1] as int;
      OnesSumIsTurned(a);
      AddTurned(WordSum(a), x, y);
    }
  }

  lemma AddTurned(w: nat, x: nat, y: nat)
    requires x < 256 && y < 256
    ensures OnesAdd(Canonical(0x100 * w), 0x100 * x + y) == Canonical(0x100 * (w + x + 0x100 * y))
  {
    var net := 0x100 * x + y;
    CanonicalAdd(0x100 * w, net);
    if 0x100 * w + net > 0 {
      Periodic(0x100 * w + net, y);
    }
    AddIsCanonical(Canonical(0x100 * w), net);
  }

  lemma AddIsCanonical(x: nat, y: nat)
    requires x <= ALL_ONES && y <= ALL_ONES
    ensures OnesAdd(x, y) == Canonical(x + y)
  {
  }

  lemma AllOnesTurned(w: nat)
    ensures Canonical(0x100 * w) == ALL_ONES <==> Canonical(w) == ALL_ONES
  {
    if Canonical(w) == ALL_ONES {
      assert w == ((w - 1) / 0xFFFF + 1) * 0xFFFF;
      Periodic(ALL_ONES, ((w - 1) / 0xFFFF + 1) * 0x100 - 1);
    }
    if Canonical(0x100 * w) == ALL_ONES {
      var q := (0x100 * w - 1) / 0xFFFF + 1;
      assert 0x100 * w == q * 0xFFFF;
      assert w == (0x100 * q - w) * 0xFFFF;
      Periodic(ALL_ONES, 0x100 * q - w - 1);
    }
  }

  // ---------- the packet ----------

  type Addr6 = a: seq<Byte> | |a| == 16 witness seq(16, _ => 0)

  const NEXT_ICMPV6: Byte := 58
  const PSEUDO_SIZE: nat := 40
  const LAYER3: nat := 14
  const PAYLOAD: nat := 54

  /** htons */
  function Net16(n: nat): (b: seq<Byte>)
    ensures |b| == 2
  {
    [n / 0x100 % 0x100, n % 0x100]
  }

  function PseudoHeader(src: Addr6, dst: Addr6, len: nat, next: Byte): (p: seq<Byte>)
    ensures |p| == PSEUDO_SIZE && Even(p)
  {
    src + dst + NetworkWord(len) + [0, 0, 0, next]
  }

  function Padded(m: seq<Byte>): (p: seq<Byte>)
    ensures Even(p) && |p| == RoundUp(|m|)
  {
    if Even(m) then m else m + [0]
  }

  /** An ICMP message with `ck` in its checksum field, stored as memory holds a short. */
  function WithChecksum(m: seq<Byte>, ck: nat): (r: seq<Byte>)
    requires |m| >= 4 && ck <= ALL_ONES
    ensures |r| == |m|
  {
    m[..2] + [ck % 0x100, ck / 0x100] + m[4..]
  }

  /** What send_raw_icmp stores. */
  function StoredSum(src: Addr6, dst: Addr6, m: seq<Byte>): (ck: nat)
    requires |m| >= 4
    ensures ck <= ALL_ONES
  {
    ALL_ONES - Csum(Padded(WithChecksum(m, 0)), Csum(PseudoHeader(src, dst, |m|, NEXT_ICMPV6), 0))
  }

  /** The sum of a receiver, over the pseudo-header and the message as it came. */
  function ReceiverSum(src: Addr6, dst: Addr6, m: seq<Byte>): nat {
    OnesSum(PseudoHeader(src, dst, |m|, NEXT_ICMPV6) + Padded(m))
  }

  // ---------- the sum by its fields ----------

  /** The plain sum of the words in network order. */
  function NetSum(b: seq<Byte>): nat
    requires Even(b)
  {
    if b == [] then 0 else NetSum(b[..|b| - 2]) + 0x100 * b[|b| - 2] as nat + b[|b| - 1] as nat
  }

  lemma {:induction false} OnesSumIsNet(b: seq<Byte>)
    requires Even(b)
    ensures OnesSum(b) == Canonical(NetSum(b))
  {
    if b != [] {
      var front, word := b[..|b| - 2], 0x100 * b[|b| - 2] as nat + b[|b| - 1] as nat;
      OnesSumIsNet(front);
      AddIsCanonical(OnesSum(front), word);
      CanonicalAdd(NetSum(front), word);
    }
  }

  lemma {:induction false} NetSumOfParts(a: seq<Byte>, b: seq<Byte>)
    requires Even(a) && Even(b)
    ensures NetSum(a + b) == NetSum(a) + NetSum(b)
  {
    if b == [] {
      assert a + b == a;
    } else {
      NetSumOfParts(a, b[..|b| - 2]);
      assert (a + b)[..|a + b| - 2] == a + b[..|b| - 2];
    }
  }

  /** The receiver sums the addresses, the length in 32 bits, the next header, 58, and the message. */
  lemma ReceiverSums(src: Addr6, dst: Addr6, m: seq<Byte>)
    ensures ReceiverSum(src, dst, m) == Canonical(NetSum(src) + NetSum(dst)
      + |m| / 0x1_0000 % 0x1_0000 + |m| % 0x1_0000 + 58 + NetSum(Padded(m)))
  {
    hide Padded, NetworkWord, NetSum;
    var word, p := NetworkWord(|m|), PseudoHeader(src, dst, |m|, NEXT_ICMPV6);
    var last: seq<Byte> := [0, 0, 0, NEXT_ICMPV6];
    OnesSumIsNet(p + Padded(m));
    NetSumOfParts(p, Padded(m));
    assert p == src + dst + word + last;
    NetSumOfParts(src + dst + word, last);
    NetSumOfParts(src + dst, word);
    NetSumOfParts(src, dst);
    SumOfWord(|m|);
    SumOfLast();
  }

  lemma SumOfWord(n: nat)
    ensures NetSum(NetworkWord(n)) == n / 0x1_0000 % 0x1_0000 + n % 0x1_0000
  {
    var w := NetworkWord(n);
    assert w[..2][..0] == [];
    assert NetSum(w[..2]) == 0x100 * w[0] as nat + w[1] as nat;
    TwoBytes(n);
    TwoBytes(n / 0x1_0000);
    NextByte(n, 0x1_0000);
  }

  lemma TwoBytes(n: nat)
    ensures n % 0x1_0000 == 0x100 * (n / 0x100 % 0x100) + n % 0x100
  {
  }

  lemma SumOfLast()
    ensures NetSum([0, 0, 0, NEXT_ICMPV6]) == 58
  {
    var b: seq<Byte> := [0, 0, 0, NEXT_ICMPV6];
    assert b[..2] == [0, 0] && b[..2][..0] == [];
    assert NetSum(b[..2]) == 0;
  }

  lemma FieldAdds(m: seq<Byte>, ck: nat)
    requires |m| >= 4 && ck <= ALL_ONES
    ensures WordSum(Padded(WithChecksum(m, ck))) == WordSum(Padded(WithChecksum(m, 0))) + ck
  {
    var rest := Padded(m[4..]);
    FieldApart(m, ck, rest);
    FieldApart(m, 0, rest);
  }

  lemma FieldApart(m: seq<Byte>, ck: nat, rest: seq<Byte>)
    requires |m| >= 4 && ck <= ALL_ONES && rest == Padded(m[4..])
    ensures WordSum(Padded(WithChecksum(m, ck))) == WordSum(m[..2]) + ck + WordSum(rest)
  {
    assert Padded(WithChecksum(m, ck)) == m[..2] + [ck % 0x100, ck / 0x100] + rest;
    WordSumOfParts(m[..2] + [ck % 0x100, ck / 0x100], rest);
    WordSumStep(m[..2], ck % 0x100, ck / 0x100);
  }

  /** The word sum of everything but the checksum: positive, and within 32 bits. */
  function Unsummed(src: Addr6, dst: Addr6, m: seq<Byte>): (n: nat)
    requires 4 <= |m| <= 0xFFFF
    ensures 0 < n < UINT_SPAN - ALL_ONES
  {
    var p := PseudoHeader(src, dst, |m|, NEXT_ICMPV6);
    assert p[..38] + [0, NEXT_ICMPV6] == p;
    WordSumStep(p[..38], 0, NEXT_ICMPV6);
    WordSum(p) + WordSum(Padded(WithChecksum(m, 0)))
  }

  lemma StoredIsComplement(src: Addr6, dst: Addr6, m: seq<Byte>)
    requires 4 <= |m| <= 0xFFFF
    ensures StoredSum(src, dst, m) == ALL_ONES - Canonical(Unsummed(src, dst, m))
  {
    hide WordSum, Csum, Canonical, PseudoHeader, Padded, WithChecksum;
    var p, b := PseudoHeader(src, dst, |m|, NEXT_ICMPV6), Padded(WithChecksum(m, 0));
    assert WordSum(p) + WordSum(b) == Unsummed(src, dst, m);
    CsumOfSmall(p, 0);
    CsumOfSmall(b, Csum(p, 0));
    CanonicalAdd(WordSum(p), WordSum(b));
  }

  lemma ReceivedSum(src: Addr6, dst: Addr6, m: seq<Byte>, ck: nat)
    requires 4 <= |m| <= 0xFFFF && ck <= ALL_ONES
    ensures ReceiverSum(src, dst, WithChecksum(m, ck)) == Canonical(0x100 * (Unsummed(src, dst, m) + ck))
  {
    hide WordSum, OnesSum, Canonical, PseudoHeader, Padded, WithChecksum;
    var p, b := PseudoHeader(src, dst, |m|, NEXT_ICMPV6), Padded(WithChecksum(m, ck));
    FieldAdds(m, ck);
    WordSumOfParts(p, b);
    OnesSumIsTurned(p + b);
  }

  /**
    A receiver accepts the packet with the checksum that is stored, and with no
    other, but that 0 and 0xFFFF stand for each other.
   */
  lemma AcceptedExactly(src: Addr6, dst: Addr6, m: seq<Byte>, ck: nat)
    requires 4 <= |m| <= 0xFFFF && ck <= ALL_ONES
    ensures ReceiverSum(src, dst, WithChecksum(m, ck)) == ALL_ONES <==>
      ck == StoredSum(src, dst, m) || (ck == ALL_ONES && StoredSum(src, dst, m) == 0)
  {
    hide StoredSum, ReceiverSum, Unsummed;
    var n := Unsummed(src, dst, m);
    StoredIsComplement(src, dst, m);
    ReceivedSum(src, dst, m, ck);
    AllOnesTurned(n + ck);
    CanonicalAdd(n, ck);
    AllOnesExactly(Canonical(n) + ck);
  }

  lemma AllOnesExactly(x: nat)
    requires 0 < x <= 2 * ALL_ONES
    ensures Canonical(x) == ALL_ONES <==> x == ALL_ONES || x == 2 * ALL_ONES
  {
  }

  // ---------- send_raw_icmp ----------

  /** memcpy of `b` to a[at..]. */
  method Store(a: array<Byte>, at: nat, b: seq<Byte>)
    requires at + |b| <= a.Length
    modifies a
    ensures a[at..at + |b|] == b && SameOutside(a, old(a[..]), at, at + |b|)
  {
    forall i | 0 <= i < |b| {
      a[at + i] := b[i];
    }
  }

  /** csum_ipv6_magic: `proto` is cut to the byte that the pseudo-header has for it. */
  method CsumIpv6Magic(saddr: Addr6, daddr: Addr6, len: nat, proto: nat, sum: nat) returns (r: nat)
    requires sum < UINT_SPAN
    ensures r == Csum(PseudoHeader(saddr, daddr, len, proto % 0x100), sum)
  {
    hide NetworkWord, Csum;
    var ph := new Byte[PSEUDO_SIZE](_ => 0);
    Store(ph, 0, saddr);
    Store(ph, 16, daddr);
    Store(ph, 32, NetworkWord(len));
    ph[39] := proto % 0x100;
    assert ph[..16] == saddr && ph[16..32] == daddr && ph[32..36] == NetworkWord(len) && ph[36..] == [0, 0, 0, ph[39]];
    assert ph[0..40] == ph[..16] + ph[16..32] + ph[32..36] + ph[36..];
    r := CsumPartial(ph, 0, PSEUDO_SIZE, sum);
  }

  function Layer2(hwaddr: seq<Byte>): seq<Byte> {
    [0x02, 0x34, 0x56, 0x78, 0x9a, 0xbc] + hwaddr + [0x86, 0xdd]
  }

  /** The header of section 3 of RFC 8200, with hop limit 64. */
  function Ipv6Header(src: Addr6, dst: Addr6, len: nat): (b: seq<Byte>)
    ensures |b| == PAYLOAD - LAYER3
  {
    [0x60, 0, 0, 0] + Net16(len) + [NEXT_ICMPV6, 64] + src + dst
  }

  /** Its fields: version 6, the payload length, the next header, the hop limit and the addresses. */
  lemma HeaderFields(src: Addr6, dst: Addr6, len: nat)
    ensures var b := Ipv6Header(src, dst, len);
      && b[0] / 16 == 6 && 0x100 * b[4] as nat + b[5] as nat == len % 0x1_0000 && b[6] == 58 && b[7] == 64
      && b[8..24] == src && b[24..] == dst
  {
    TwoBytes(len);
  }

  method FillLayer3(packet: array<Byte>, src: Addr6, dst: Addr6, len: nat)
    requires packet.Length >= PAYLOAD && forall i :: LAYER3 <= i < PAYLOAD ==> packet[i] == 0
    modifies packet
    ensures packet[LAYER3..PAYLOAD] == Ipv6Header(src, dst, len)
    ensures SameOutside(packet, old(packet[..]), LAYER3, PAYLOAD)
  {
    hide Net16;
    Store(packet, LAYER3 + 8, src);
    packet[LAYER3] := 0x60;
    Store(packet, LAYER3 + 24, dst);
    packet[LAYER3 + 6] := NEXT_ICMPV6;
    packet[LAYER3 + 7] := 64;
    Store(packet, LAYER3 + 4, Net16(len));
    Layer3Parts(packet, src, dst, len);
  }

  lemma Layer3Parts(packet: array<Byte>, src: Addr6, dst: Addr6, len: nat)
    requires packet.Length >= PAYLOAD
    requires packet[LAYER3] == 0x60 && packet[LAYER3 + 1] == packet[LAYER3 + 2] == packet[LAYER3 + 3] == 0
    requires packet[LAYER3 + 4..LAYER3 + 6] == Net16(len)
    requires packet[LAYER3 + 6] == NEXT_ICMPV6 && packet[LAYER3 + 7] == 64
    requires packet[LAYER3 + 8..LAYER3 + 24] == src && packet[LAYER3 + 24..PAYLOAD] == dst
    ensures packet[LAYER3..PAYLOAD] == Ipv6Header(src, dst, len)
  {
    hide Net16;
    var b := packet[LAYER3..PAYLOAD];
    assert b[..4] == [0x60, 0, 0, 0] && b[6..8] == [NEXT_ICMPV6, 64];
    assert b[4..6] == packet[LAYER3 + 4..LAYER3 + 6];
    assert b[8..24] == packet[LAYER3 + 8..LAYER3 + 24];
    assert b[24..] == packet[LAYER3 + 24..PAYLOAD];
    FiveParts(b, 4, 6, 8, 24);
  }

  lemma FiveParts(b: seq<Byte>, i: nat, j: nat, k: nat, l: nat)
    requires i <= j <= k <= l <= |b|
    ensures b == b[..i] + b[i..j] + b[j..k] + b[k..l] + b[l..]
  {
    assert b == b[..l] + b[l..] && b[..l] == b[..k] + b[k..l];
    assert b[..k] == b[..j] + b[j..k] && b[..j] == b[..i] + b[i..j];
  }

  /** Stores a short, as the machine has it, in the checksum field of the message. */
  method StoreField(packet: array<Byte>, ghost m: seq<Byte>, ck: nat)
    requires |m| >= 4 && packet.Length >= PAYLOAD + |m| && ck <= ALL_ONES
    requires packet[PAYLOAD..PAYLOAD + 2] == m[..2] && packet[PAYLOAD + 4..PAYLOAD + |m|] == m[4..]
    modifies packet
    ensures packet[PAYLOAD..PAYLOAD + |m|] == WithChecksum(m, ck)
    ensures packet[PAYLOAD..PAYLOAD + 2] == m[..2] && packet[PAYLOAD + 4..PAYLOAD + |m|] == m[4..]
    ensures SameOutside(packet, old(packet[..]), PAYLOAD + 2, PAYLOAD + 4)
  {
    packet[PAYLOAD + 2], packet[PAYLOAD + 3] := ck % 0x100, ck / 0x100;
    assert packet[PAYLOAD..PAYLOAD + 2] == m[..2] && packet[PAYLOAD + 4..PAYLOAD + |m|] == m[4..];
    assert packet[PAYLOAD..PAYLOAD + |m|] == packet[PAYLOAD..PAYLOAD + 2]
      + [packet[PAYLOAD + 2], packet[PAYLOAD + 3]] + packet[PAYLOAD + 4..PAYLOAD + |m|];
  }

  lemma SpareByteIsPadding(packet: array<Byte>, len: nat)
    requires packet.Length > PAYLOAD + len && packet[PAYLOAD + len] == 0
    ensures packet[PAYLOAD..PAYLOAD + RoundUp(len)] == Padded(packet[PAYLOAD..PAYLOAD + len])
  {
  }

  /** The payload part: copies the message, sums it with its checksum field zero and fills that in. */
  method FillPayload(packet: array<Byte>, src: Addr6, dst: Addr6, icmpBody: seq<Byte>)
    requires |icmpBody| >= 4 && packet.Length == PAYLOAD + |icmpBody| + 2
    requires forall i :: PAYLOAD <= i < packet.Length ==> packet[i] == 0
    modifies packet
    ensures packet[PAYLOAD..PAYLOAD + |icmpBody|] == WithChecksum(icmpBody, StoredSum(src, dst, icmpBody))
    ensures SameOutside(packet, old(packet[..]), PAYLOAD, PAYLOAD + |icmpBody|)
  {
    hide Csum, PseudoHeader, WithChecksum, Padded;
    var len := |icmpBody|;
    Store(packet, PAYLOAD, icmpBody);
    assert packet[PAYLOAD..PAYLOAD + 2] == packet[PAYLOAD..PAYLOAD + len][..2];
    assert packet[PAYLOAD + 4..PAYLOAD + len] == packet[PAYLOAD..PAYLOAD + len][4..];
    StoreField(packet, icmpBody, 0);
    SpareByteIsPadding(packet, len);
    var icmp6sum := CsumIpv6Magic(src, dst, len, NEXT_ICMPV6, 0);
    icmp6sum := CsumPartial(packet, PAYLOAD, len, icmp6sum);
    StoreField(packet, icmpBody, ALL_ONES - icmp6sum);
  }

  const ALL_HOSTS: Addr6 := [0xff, 0x02] + seq(13, _ => 0) + [1]

  /** send_raw_icmp, up to the write of the packet: what it sends passes the check of a receiver. */
  method SendRawIcmp(dest: Option<Addr6>, src: Option<Addr6>, linkLocal: Addr6, hwaddr: seq<Byte>, icmpBody: seq<Byte>)
      returns (packet: array<Byte>)
    requires |hwaddr| == 6 && |icmpBody| >= 4
    ensures packet.Length == PAYLOAD + |icmpBody| + 2
    ensures var from, to := src.UnwrapOr(linkLocal), dest.UnwrapOr(ALL_HOSTS);
      && packet[..PAYLOAD] == Layer2(hwaddr) + Ipv6Header(from, to, |icmpBody|)
      && packet[PAYLOAD..PAYLOAD + |icmpBody|] == WithChecksum(icmpBody, StoredSum(from, to, icmpBody))
      && (|icmpBody| <= 0xFFFF ==> ReceiverSum(from, to, packet[PAYLOAD..PAYLOAD + |icmpBody|]) == ALL_ONES)
  {
    hide StoredSum, WithChecksum, ReceiverSum;
    var to := dest.UnwrapOr(ALL_HOSTS);
    var from := src.UnwrapOr(linkLocal);
    packet := new Byte[|icmpBody| + 40 + 16](_ => 0);
    Store(packet, 0, [0x02, 0x34, 0x56, 0x78, 0x9a, 0xbc]);
    Store(packet, 6, hwaddr);
    packet[12], packet[13] := 0x86, 0xdd;
    assert packet[..LAYER3] == Layer2(hwaddr);
    FillLayer3(packet, from, to, |icmpBody|);
    assert packet[..LAYER3] == Layer2(hwaddr);
    FillPayload(packet, from, to, icmpBody);
    assert packet[..PAYLOAD] == packet[..LAYER3] + packet[LAYER3..PAYLOAD];
    if |icmpBody| <= 0xFFFF {
      AcceptedExactly(from, to, icmpBody, StoredSum(from, to, icmpBody));
    }
  }
}
