/**
  The DIO message on the wire (section 6.3 of RFC 6550) with its prefix option
  (section 6.7.10): build_dio, and what the receiver reads from it.
 */
module DioCodec {
  import opened Common
  import opened DaoCodec
  import opened RplOptions
  import opened RplTypes

  const ND_RPL_DAG_IO: Byte := 1
  const RPL_DIO_DESTPREFIX: Byte := 8
  const RPL_DIO_AUTONOMOUS: Byte := 0x40
  const DIO_HEADER: nat := 24      // sizeof(struct nd_rpl_dio)
  const PREFIX_SIZE: nat := 32     // sizeof(struct rpl_dio_destprefix)
  const DIO_SIZE: nat := 64        // ICMP header, DIO and option, rounded up

  /** What a DIO says, besides its prefix. */
  datatype DioValues = DioValues(
    instance: nat, version: nat, rank: nat, grounded: bool, mode: Mode, dtsn: nat, dagid: Dagid)

  /** The flag, the mode in the three bits below and the preference, which is 0. */
  function ModeByte(grounded: bool, mode: Mode): Byte
  {
    (if grounded then 0x80 else 0) + 8 * mode
  }

  function DioHeader(v: DioValues): (h: seq<Byte>)
    ensures |h| == ICMP6_HEADER + DIO_HEADER
  {
    HeaderFront(v) + v.dagid
  }

  function HeaderFront(v: DioValues): (h: seq<Byte>)
    ensures |h| == 12
  {
    [ND_RPL_MESSAGE, ND_RPL_DAG_IO, 0, 0, v.instance % 256, v.version % 256,
     v.rank % USHORT_SPAN / 256, v.rank % 256, ModeByte(v.grounded, v.mode), v.dtsn % 256, 0, 0]
  }

  function PrefixOption(prefix: Prefix, lifetime: nat): (o: seq<Byte>)
    ensures |o| == PREFIX_SIZE
  {
    [RPL_DIO_DESTPREFIX, 30, prefix.len, RPL_DIO_AUTONOMOUS] + NetworkWord(lifetime) + NetworkWord(lifetime)
      + [0, 0, 0, 0] + Shown(prefix).addr
  }

  function DioPacket(v: DioValues, prefix: Prefix, lifetime: nat): (p: seq<Byte>)
    ensures |p| == DIO_SIZE
  {
    DioHeader(v) + PrefixOption(prefix, lifetime) + [0, 0, 0, 0]
  }

  // ---------- the builder ----------

  /** The part of dag_network that the DIO builder works on. */
  class DioBuilder {
    var mInstanceid: nat
    var mVersion: nat
    var mMyRank: nat
    var mGrounded: bool
    var mMode: Mode
    var mDTSN: nat             // unsigned short
    var mDagid: Dagid
    var mDioLifetime: nat
    const optbuff: array<Byte>
    var optlen: nat

    predicate Valid()
      reads this
    {
      optbuff.Length == 256
    }

    /** The values that the next DIO announces. */
    function Values(): DioValues
      reads this
    {
      DioValues(mInstanceid, mVersion, mMyRank, mGrounded, mMode, mDTSN, mDagid)
    }

    constructor (v: DioValues, lifetime: nat)
        ensures Valid() && Values() == v && mDioLifetime == lifetime && fresh(optbuff)
    {
      mInstanceid, mVersion, mMyRank, mGrounded := v.instance, v.version, v.rank, v.grounded;
      mMode, mDTSN, mDagid, mDioLifetime := v.mode, v.dtsn, v.dagid, lifetime;
      optbuff := new Byte[256](_ => 0);
      optlen := 0;
    }

    /** build_prefix_dioopt: only the bytes that the prefix length covers are copied. */
    method BuildPrefixDioopt(prefix: Prefix) returns (len: nat)
      requires Valid()
      modifies optbuff, this`optlen
      ensures len == optlen == PREFIX_SIZE
      ensures optbuff[2..PREFIX_SIZE] == PrefixOption(prefix, mDioLifetime)[2..]
    {
      Clear(optbuff, optbuff.Length);
      optbuff[2] := prefix.len;
      optbuff[3] := RPL_DIO_AUTONOMOUS;
      PutLong(4, mDioLifetime);
      PutLong(8, mDioLifetime);
      var i := 0;
      while i < (prefix.len + 7) / 8 && i <= 128
        invariant 0 <= i <= PrefixBytes(prefix.len) <= ADDR_LEN
        invariant optbuff[2] == prefix.len && optbuff[3] == RPL_DIO_AUTONOMOUS
        invariant optbuff[4..8] == NetworkWord(mDioLifetime) && optbuff[8..12] == NetworkWord(mDioLifetime)
        invariant forall k :: 12 <= k < 16 || 16 + i <= k < PREFIX_SIZE ==> optbuff[k] == 0
        invariant forall k :: 0 <= k < i ==> optbuff[16 + k] == prefix.addr[k]
      {
        optbuff[16 + i] := prefix.addr[i];
        i := i + 1;
      }
      optlen := PREFIX_SIZE;
      len := optlen;
      OptionBytes(optbuff, prefix, mDioLifetime);
    }

    /** htonl of a lifetime. */
    method PutLong(at: nat, n: nat)
      requires at + 4 <= optbuff.Length
      modifies optbuff
      ensures optbuff[at..at + 4] == NetworkWord(n) && SameOutside(optbuff, old(optbuff[..]), at, at + 4)
    {
      optbuff[at], optbuff[at + 1] := n / 0x100_0000 % 256, n / 0x1_0000 % 256;
      optbuff[at + 2], optbuff[at + 3] := n / 256 % 256, n % 256;
    }

    /** The first part of build_dio. */
    method WriteDioHeader(buff: array<Byte>, buffLen: nat)
      requires Valid() && DIO_SIZE <= buffLen <= buff.Length
      modifies buff, this`mDTSN
      ensures mDTSN == (old(mDTSN) + 1) % USHORT_SPAN
      ensures buff[..ICMP6_HEADER + DIO_HEADER] == DioHeader(old(Values()))
      ensures forall i :: ICMP6_HEADER + DIO_HEADER <= i < buffLen ==> buff[i] == 0
    {
      Clear(buff, buffLen);
      WriteFront(buff);
      ghost var was := buff[..];
      mDTSN := (mDTSN + 1) % USHORT_SPAN;
      forall i | 0 <= i < DAGID_LEN {
        buff[12 + i] := mDagid[i];
      }
      SliceIs(buff, 12, mDagid);
      assert buff[..12] == was[..12];
      assert buff[..ICMP6_HEADER + DIO_HEADER] == buff[..12] + buff[12..28];
    }

    /** The fields before the DAGID. */
    method WriteFront(buff: array<Byte>)
      requires Valid() && buff.Length >= 12 && forall i :: 0 <= i < 12 ==> buff[i] == 0
      modifies buff
      ensures buff[..12] == HeaderFront(Values()) && SameOutside(buff, old(buff[..]), 0, 12)
    {
      buff[0], buff[1] := ND_RPL_MESSAGE, ND_RPL_DAG_IO;
      buff[4], buff[5] := mInstanceid % 256, mVersion % 256;
      var mopprf := if mGrounded then 0x80 else 0;
      mopprf := mopprf + 8 * mMode;
      buff[8] := mopprf;
      buff[9] := mDTSN % 256;
      buff[6], buff[7] := mMyRank % USHORT_SPAN / 256, mMyRank % 256;
    }

    /** build_dio.  The room it gives the option is the option's own length, so it always fits. */
    method BuildDio(buff: array<Byte>, buffLen: nat, prefix: Prefix) returns (len: int)
      requires Valid() && buff != optbuff && DIO_SIZE <= buffLen <= buff.Length
      modifies buff, optbuff, this`optlen, this`mDTSN
      ensures mDTSN == (old(mDTSN) + 1) % USHORT_SPAN
      ensures len == DIO_SIZE && buff[..DIO_SIZE] == DioPacket(old(Values()), prefix, mDioLifetime)
    {
      hide DioHeader, PrefixOption;
      WriteDioHeader(buff, buffLen);
      ghost var header := DioHeader(old(Values()));
      var nextopt := ICMP6_HEADER + DIO_HEADER;
      var diooptlen := BuildPrefixDioopt(prefix);
      ghost var was := buff[..];
      var nextoptlen := AppendSuboption(buff, nextopt, diooptlen, RPL_DIO_DESTPREFIX, optbuff, 2, optlen - 2);
      assert buff[..nextopt] == was[..nextopt] == header;
      OptionFront(prefix, mDioLifetime);
      nextopt := nextopt + nextoptlen;
      assert buff[nextopt..DIO_SIZE] == [0, 0, 0, 0];
      assert buff[..DIO_SIZE] == buff[..28] + buff[28..nextopt] + buff[nextopt..DIO_SIZE];
      len := (nextopt + 7) / 8 * 8;
    }
  }

  lemma OptionBytes(o: array<Byte>, prefix: Prefix, lifetime: nat)
    requires o.Length == 256
    requires o[2] == prefix.len && o[3] == RPL_DIO_AUTONOMOUS
    requires o[4..8] == NetworkWord(lifetime) && o[8..12] == NetworkWord(lifetime)
    requires forall k :: 12 <= k < 16 || 16 + PrefixBytes(prefix.len) <= k < PREFIX_SIZE ==> o[k] == 0
    requires forall k :: 0 <= k < PrefixBytes(prefix.len) ==> o[16 + k] == prefix.addr[k]
    ensures o[2..PREFIX_SIZE] == PrefixOption(prefix, lifetime)[2..]
  {
    hide NetworkWord;
    SliceIs(o, 16, Shown(prefix).addr);
    assert o[12..16] == [0, 0, 0, 0] && o[2..4] == [prefix.len, RPL_DIO_AUTONOMOUS];
    assert o[2..PREFIX_SIZE] == o[2..4] + o[4..8] + o[8..12] + o[12..16] + o[16..PREFIX_SIZE];
  }

  lemma OptionFront(prefix: Prefix, lifetime: nat)
    ensures var o := PrefixOption(prefix, lifetime); o == [RPL_DIO_DESTPREFIX, 30] + o[2..]
  {
  }

  // ---------- the receiver ----------

  datatype DioFrame = DioFrame(values: DioValues, data: seq<Byte>)

  /** The fields of the DIO that receive_dio and potentially_lower_rank read; `dat` starts at icmp6_data8. */
  function ParseDio(dat: seq<Byte>): (f: Option<DioFrame>)
    ensures f.Some? ==> f.value.values.dtsn < 256 && |f.value.data| == |dat| - DIO_HEADER
  {
    if |dat| < DIO_HEADER then None
    else
      Some(DioFrame(
        DioValues(dat[0], dat[1], 256 * (dat[2] as nat) + dat[3], dat[4] / 128 == 1, dat[4] / 8 % 8, dat[5],
          dat[8..DIO_HEADER]),
        dat[DIO_HEADER..]))
  }

  /** An option that is in the message, for a prefix no longer than an address if it has room for one. */
  predicate DestAt(b: seq<Byte>, x: nat) {
    x + 2 <= |b| && x + 2 + b[x + 1] as int <= |b| && (WholeDest(b, x) ==> b[x + 2] <= 128)
  }

  predicate WholeDest(b: seq<Byte>, x: nat)
    requires x + 2 <= |b|
  {
    b[x + 1] as int + 2 >= PREFIX_SIZE
  }

  ghost predicate Dests(b: seq<Byte>, xs: seq<nat>) {
    forall i :: 0 <= i < |xs| ==> DestAt(b, xs[i])
  }

  /** The prefix bytes that the length covers, then zeros. */
  function PrefixAt(b: seq<Byte>, x: nat): Prefix
    requires DestAt(b, x) && WholeDest(b, x)
  {
    var n := PrefixBytes(b[x + 2]);
    Prefix(b[x + 16..x + 16 + n] + Repeat<Byte>(0, ADDR_LEN - n), b[x + 2])
  }

  /** Prefixes up to the first option that is too short for one. */
  ghost function PrefixesAt(b: seq<Byte>, xs: seq<nat>): seq<Prefix>
    requires Dests(b, xs)
  {
    if xs == [] || !WholeDest(b, xs[0]) then []
    else [PrefixAt(b, xs[0])] + PrefixesAt(b, xs[1..])
  }

  /** rpl_dio::destprefix: the offset of the next prefix option, or -1. */
  method Destprefix(msg: RplMsg) returns (at: int)
    requires msg.Valid() && Dests(msg.Message(), msg.Left(RPL_DIO_DESTPREFIX))
    modifies msg.mOptions
    ensures msg.Valid() && msg.Message() == old(msg.Message())
    ensures var xs := old(msg.Left(RPL_DIO_DESTPREFIX));
      if xs == [] || !WholeDest(msg.Message(), xs[0]) then at == -1
      else at == xs[0] && msg.Left(RPL_DIO_DESTPREFIX) == xs[1..]
  {
    hide OfType, OnPath, Known, Remaining, Unambiguous, Consistent, WellFormed, Outcome;
    ghost var b, xs := msg.Message(), msg.Left(RPL_DIO_DESTPREFIX);
    var optlen;
    at, optlen := msg.SearchSubopt(RPL_DIO_DESTPREFIX);
    if at < 0 {
      return -1;
    }
    assert DestAt(b, xs[0]);
    if optlen < PREFIX_SIZE {
      return -1;
    }
  }

  /** The loop of potentially_lower_rank over the prefixes of a DIO. */
  method ReceivePrefixes(data: seq<Byte>) returns (prefixes: seq<Prefix>)
    requires |data| <= MAX_BYTES && WellFormed(data, 0)
    requires Dests(data, OfType(data, 0, RPL_DIO_DESTPREFIX))
    ensures prefixes == PrefixesAt(data, OfType(data, 0, RPL_DIO_DESTPREFIX))
  {
    hide OfType, OnPath, Known, Remaining, Unambiguous, Consistent, WellFormed, Outcome, PrefixAt, DestAt, WholeDest;
    assert data[..Min(|data|, MAX_BYTES)] == data;
    var msg := new RplMsg(data);
    prefixes := [];
    ghost var xs := msg.Left(RPL_DIO_DESTPREFIX);
    ghost var all := PrefixesAt(data, xs);
    assert prefixes + all == all;
    while true
      invariant msg.Valid() && msg.Message() == data && fresh(msg.mOptions)
      invariant xs == msg.Left(RPL_DIO_DESTPREFIX) && Dests(data, xs)
      invariant all == prefixes + PrefixesAt(data, xs)
      decreases |xs|
    {
      var at := Destprefix(msg);
      if at < 0 {
        break;
      }
      assert DestAt(data, xs[0]);
      var prefix := CopyPrefix(msg, at);
      ghost var rest := PrefixesAt(data, xs[1..]);
      assert prefixes + ([prefix] + rest) == prefixes + [prefix] + rest;
      prefixes := prefixes + [prefix];
      xs := xs[1..];
    }
  }

  /** The prefix of the option at `at`: a cleared address and a memcpy of the prefix bytes. */
  method CopyPrefix(msg: RplMsg, at: nat) returns (prefix: Prefix)
    requires msg.mLen <= msg.mBytes.Length && DestAt(msg.Message(), at) && WholeDest(msg.Message(), at)
    ensures prefix == PrefixAt(msg.Message(), at)
  {
    ghost var b := msg.Message();
    var prefixlen := msg.mBytes[at + 2];
    assert b[at + 2] == prefixlen;
    var n := PrefixBytes(prefixlen);
    var v6bytes := new Byte[ADDR_LEN](_ => 0);
    forall i | 0 <= i < n {
      v6bytes[i] := msg.mBytes[at + 16 + i];
    }
    assert v6bytes[..] == b[at + 16..at + 16 + n] + Repeat<Byte>(0, ADDR_LEN - n);
    prefix := Prefix(v6bytes[..], prefixlen);
  }

  // ---------- round trip ----------

  /** What the fields of the message can hold of the values. */
  function OnWire(v: DioValues): DioValues {
    v.(instance := v.instance % 256, version := v.version % 256, rank := v.rank % USHORT_SPAN, dtsn := v.dtsn % 256)
  }

  /** The options of a DIO that build_dio made. */
  function DioOptions(prefix: Prefix, lifetime: nat): seq<Byte> {
    PrefixOption(prefix, lifetime) + [0, 0, 0, 0]
  }

  /** From `data`, what follows the header, the receiver gets these prefixes and no others. */
  ghost predicate Announces(data: seq<Byte>, prefixes: seq<Prefix>) {
    && WellFormed(data, 0) && Dests(data, OfType(data, 0, RPL_DIO_DESTPREFIX))
    && PrefixesAt(data, OfType(data, 0, RPL_DIO_DESTPREFIX)) == prefixes
  }

  lemma HeaderRead(v: DioValues, options: seq<Byte>)
    ensures ParseDio((DioHeader(v) + options)[ICMP6_HEADER..]) == Some(DioFrame(OnWire(v), options))
  {
    hide HeaderFront, ModeByte;
    var front, dat := HeaderFront(v), (DioHeader(v) + options)[ICMP6_HEADER..];
    assert dat == front[ICMP6_HEADER..] + v.dagid + options;
    assert dat[8..DIO_HEADER] == v.dagid && dat[DIO_HEADER..] == options;
    FrontRead(v);
    ModeRead(v.grounded, v.mode);
    RankRead(v.rank);
    assert forall k :: 0 <= k < 6 ==> dat[k] == front[ICMP6_HEADER + k];
  }

  lemma FrontRead(v: DioValues)
    ensures HeaderFront(v)[ICMP6_HEADER..][..6] == [v.instance % 256, v.version % 256,
      v.rank % USHORT_SPAN / 256, v.rank % 256, ModeByte(v.grounded, v.mode), v.dtsn % 256]
  {
    hide ModeByte;
  }

  lemma ModeRead(grounded: bool, mode: Mode)
    ensures ModeByte(grounded, mode) / 128 == (if grounded then 1 else 0) && ModeByte(grounded, mode) / 8 % 8 == mode
  {
  }

  lemma RankRead(rank: nat)
    ensures 256 * (rank % USHORT_SPAN / 256) + rank % 256 == rank % USHORT_SPAN
  {
    var q, r := rank / USHORT_SPAN, rank % USHORT_SPAN;
    LowByte(256 * q + r / 256, r % 256);
    assert rank == 256 * (256 * q + r / 256) + r % 256;
  }

  lemma LowByte(k: nat, low: nat)
    requires low < 256
    ensures (256 * k + low) % 256 == low
  {
  }

  lemma OptionsRead(prefix: Prefix, lifetime: nat)
    ensures Announces(DioOptions(prefix, lifetime), [Shown(prefix)])
  {
    var b, o := DioOptions(prefix, lifetime), PrefixOption(prefix, lifetime);
    assert b[0] == o[0] == RPL_DIO_DESTPREFIX && b[1] == o[1] == 30 && b[2] == o[2] == prefix.len;
    PaddingHasNoOption(b, PREFIX_SIZE, RPL_DIO_DESTPREFIX);
    assert OfType(b, 0, RPL_DIO_DESTPREFIX) == [0];
    OptionBytesRead(prefix, lifetime);
    assert PrefixesAt(b, [0]) == [PrefixAt(b, 0)];
  }

  lemma OptionBytesRead(prefix: Prefix, lifetime: nat)
    ensures var b := DioOptions(prefix, lifetime);
      && DestAt(b, 0) && WholeDest(b, 0)
      && PrefixAt(b, 0) == Shown(prefix)
  {
    var b, o, n := DioOptions(prefix, lifetime), PrefixOption(prefix, lifetime), PrefixBytes(prefix.len);
    assert b[1] == o[1] == 30 && b[2] == o[2] == prefix.len;
    assert b[16..16 + n] == o[16..16 + n] == prefix.addr[..n];
  }

  /** The fields of the prefix option that the receiver does not look at. */
  lemma OptionFields(prefix: Prefix, lifetime: nat)
    ensures var o := PrefixOption(prefix, lifetime);
      && o[0] == RPL_DIO_DESTPREFIX && o[1] as nat + 2 == |o| && o[2] == prefix.len && o[3] == RPL_DIO_AUTONOMOUS
      && WordValue(o[4..8]) == WordValue(o[8..12]) == lifetime % UINT_SPAN && o[12..16] == [0, 0, 0, 0]
  {
    hide NetworkWord, WordValue;
    WordRoundTrip(lifetime);
    var o, w := PrefixOption(prefix, lifetime), NetworkWord(lifetime);
    assert o[4..8] == w && o[8..12] == w;
  }

  /** The receiver reads the values that were announced, and the prefix as far as its length covers it. */
  lemma DioRoundTrip(v: DioValues, prefix: Prefix, lifetime: nat)
    ensures var frame := ParseDio(DioPacket(v, prefix, lifetime)[ICMP6_HEADER..]);
      && frame.Some? && frame.value.values == OnWire(v)
      && Announces(frame.value.data, [Shown(prefix)])
  {
    hide DioHeader, PrefixOption, Announces, Shown, ParseDio;
    Assoc(DioHeader(v), PrefixOption(prefix, lifetime), [0, 0, 0, 0]);
    HeaderRead(v, DioOptions(prefix, lifetime));
    OptionsRead(prefix, lifetime);
  }

  /** The prefix itself arrives just when it has only zeros behind the bytes that its length covers. */
  lemma PrefixArrivesExactly(v: DioValues, prefix: Prefix, lifetime: nat)
    ensures var frame := ParseDio(DioPacket(v, prefix, lifetime)[ICMP6_HEADER..]);
      && frame.Some?
      && (Announces(frame.value.data, [prefix]) <==>
           forall k :: PrefixBytes(prefix.len) <= k < ADDR_LEN ==> prefix.addr[k] == 0)
  {
    hide ParseDio, DioPacket;
    DioRoundTrip(v, prefix, lifetime);
    ShownExactly(prefix);
    assert [Shown(prefix)][0] == Shown(prefix) && [prefix][0] == prefix;
  }
}
