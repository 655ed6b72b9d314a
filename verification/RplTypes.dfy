/**
  What RPL messages carry: IPv6 addresses as sixteen bytes and their prefixes,
  the identifier of a DODAG and its mode of operation.
 */
module RplTypes {
  import opened Common

  const ADDR_LEN: nat := 16
  const IID_LEN: nat := 8
  const DAGID_LEN: nat := 16

  type Addr = a: seq<Byte> | |a| == ADDR_LEN witness seq(ADDR_LEN, _ => 0)
  type Dagid = d: seq<Byte> | |d| == DAGID_LEN witness seq(DAGID_LEN, _ => 0)

  /** The low half of the addresses that an interface configures. */
  type Identifier = i: seq<Byte> | |i| == IID_LEN witness seq(IID_LEN, _ => 0)

  /** The three bits of a mode of operation. */
  type Mode = m: nat | m < 8 witness 3

  type PrefixLen = n: nat | n <= 128

  /** An address and a prefix length. */
  datatype Prefix = Prefix(addr: Addr, len: PrefixLen)

  /** As many bytes as a prefix of that length takes. */
  function PrefixBytes(len: PrefixLen): (n: nat)
    ensures n <= ADDR_LEN && len <= 8 * n < len + 8
  {
    (len + 7) / 8
  }

  /** The bytes of the prefix that its length covers, and zeros. */
  function Shown(p: Prefix): Prefix {
    var n := PrefixBytes(p.len);
    p.(addr := p.addr[..n] + Repeat<Byte>(0, ADDR_LEN - n))
  }

  /** Nothing of a prefix is lost just when there are only zeros behind these bytes. */
  lemma ShownExactly(p: Prefix)
    ensures Shown(p) == p <==> forall k :: PrefixBytes(p.len) <= k < ADDR_LEN ==> p.addr[k] == 0
  {
    var n := PrefixBytes(p.len);
    assert p.addr == p.addr[..n] + p.addr[n..];
    if forall k :: n <= k < ADDR_LEN ==> p.addr[k] == 0 {
      assert p.addr[n..] == Repeat<Byte>(0, ADDR_LEN - n);
    } else {
      var k :| n <= k < ADDR_LEN && p.addr[k] != 0;
      assert Shown(p).addr[k] == 0;
    }
  }
}
