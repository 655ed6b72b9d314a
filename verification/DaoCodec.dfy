/**
  The DAO and DAO-ACK messages on the wire (sections 6.4 and 6.5 of RFC 6550):
  build_dao and build_daoack, and the framing and target loop of the receiver.
 */
module DaoCodec {
  import opened Common
  import opened RplOptions
  import opened RplTypes

  const ND_RPL_MESSAGE: Byte := 155
  const ND_RPL_DAO: Byte := 2
  const ND_RPL_DAO_ACK: Byte := 3
  const RPL_DAO_RPLTARGET: Byte := 5
  const ICMP6_HEADER: nat := 4     // type, code and checksum, before icmp6_data8
  const DAO_HEADER: nat := 4       // sizeof(struct nd_rpl_dao)
  const DAO_FLAGS: Byte := 0xC0    // RPL_DAO_D_MASK|RPL_DAO_K_MASK
  const DAOACK_FLAGS: Byte := 0x80 // RPL_DAOACK_D_MASK
  const TARGET_SIZE: nat := 20     // struct rpl_dao_target and a whole address
  const OPTIONS_AT: nat := 24

  function Addresses(ps: seq<Prefix>): (addrs: seq<Addr>)
    ensures |addrs| == |ps|
  {
    seq(|ps|, i requires 0 <= i < |ps| => ps[i].addr)
  }

  // ---------- what is on the wire ----------

  /** One RPL target option: the prefix length is always 128. */
  function TargetOption(a: Addr): (o: seq<Byte>)
    ensures |o| == TARGET_SIZE
  {
    [RPL_DAO_RPLTARGET, 18, 0, 128] + a
  }

  function TargetOptions(targets: seq<Addr>): (o: seq<Byte>)
    ensures |o| == TARGET_SIZE * |targets|
  {
    if targets == [] then [] else TargetOptions(targets[..|targets| - 1]) + TargetOption(targets[|targets| - 1])
  }

  /** Up to the next multiple of 64 bits. */
  function RoundUp(len: nat): (r: nat)
    ensures len <= r < len + 8 && r % 8 == 0
  {
    (len + 7) / 8 * 8
  }

  function DaoHeader(instance: nat, daoseq: nat, dagid: Dagid): (h: seq<Byte>)
    ensures |h| == OPTIONS_AT
  {
    [ND_RPL_MESSAGE, ND_RPL_DAO, 0, 0, instance % 256, DAO_FLAGS, 0, daoseq % 256] + dagid
  }

  function DaoPacket(instance: nat, daoseq: nat, dagid: Dagid, targets: seq<Addr>): seq<Byte> {
    var p := DaoHeader(instance, daoseq, dagid) + TargetOptions(targets);
    p + Repeat<Byte>(0, RoundUp(|p|) - |p|)
  }

  function DaoAckPacket(instance: nat, daoseq: nat, dagid: Dagid): seq<Byte> {
    [ND_RPL_MESSAGE, ND_RPL_DAO_ACK, 0, 0, instance % 256, DAOACK_FLAGS, daoseq % 256, 0] + dagid
  }

  // ---------- the builder ----------

  /** append_suboption: the bytes used, or -1 and nothing written when they do not fit. */
  method AppendSuboption(
    buff: array<Byte>, at: nat, room: nat, subopt: Byte, data: array<Byte>, from: nat, suboptLen: nat)
    returns (n: int)
    requires buff != data && at + room <= buff.Length && from + suboptLen <= data.Length && suboptLen < 256
    modifies buff
    ensures n == if room < suboptLen + 2 then -1 else suboptLen + 2
    ensures n < 0 ==> buff[..] == old(buff[..])
    ensures n >= 0 ==> buff[at..at + n] == [subopt, suboptLen] + data[from..from + suboptLen]
    ensures n >= 0 ==> SameOutside(buff, old(buff[..]), at, at + n)
  {
    if room < suboptLen + 2 {
      return -1;
    }
    buff[at] := subopt;
    buff[at + 1] := suboptLen;
    forall i | 0 <= i < suboptLen {
      buff[at + 2 + i] := data[from + i];
    }
    n := suboptLen + 2;
    OptionWritten(buff, at, subopt, data[from..from + suboptLen]);
  }

  lemma OptionWritten(buff: array<Byte>, at: nat, subopt: Byte, bytes: seq<Byte>)
    requires |bytes| < 256 && at + 2 + |bytes| <= buff.Length && buff[at] == subopt && buff[at + 1] == |bytes|
    requires forall k :: 0 <= k < |bytes| ==> buff[at + 2 + k] == bytes[k]
    ensures buff[at..at + 2 + |bytes|] == [subopt, |bytes|] + bytes
  {
    SliceIs(buff, at, [subopt, |bytes|] + bytes);
  }

  /** The part of dag_network that the DAO builder works on; both maps in iteration order. */
  class DaoBuilder {
    var mInstanceid: nat
    var mDagid: Dagid
    var mDAOSequence: nat      // unsigned short
    var dagChildren: seq<Prefix>
    var dagAnnounced: seq<Prefix>
    const optbuff: array<Byte>
    var optlen: nat

    constructor (instance: nat, dagid: Dagid)
      ensures mInstanceid == instance && mDagid == dagid && mDAOSequence == 1
      ensures dagChildren == [] && dagAnnounced == [] && fresh(optbuff) && Valid()
    {
      mInstanceid, mDagid, mDAOSequence := instance, dagid, 1;
      dagChildren, dagAnnounced := [], [];
      optbuff := new Byte[256](_ => 0);
      optlen := 0;
    }

    /** The addresses that a DAO is about: the children's, then this node's own. */
    function Targets(): seq<Addr>
      reads this
    {
      Addresses(dagChildren) + Addresses(dagAnnounced)
    }

    predicate Valid()
      reads this
    {
      optbuff.Length == 256 && mDAOSequence < USHORT_SPAN
    }

    /** build_target_opt: whatever mask is asked for, the whole address is sent. */
    method BuildTargetOpt(addr: Addr, maskbits0: nat)
      requires Valid()
      modifies optbuff, this`optlen
      ensures optlen == TARGET_SIZE
      ensures optbuff[2..TARGET_SIZE] == TargetOption(addr)[2..]
    {
      Clear(optbuff, optbuff.Length);
      var maskbits := 128;
      optbuff[2] := 0;
      optbuff[3] := maskbits;
      var i := 0;
      while i < (maskbits + 7) / 8
        invariant 0 <= i <= ADDR_LEN
        invariant optbuff[2] == 0 && optbuff[3] == 128
        invariant forall k :: 0 <= k < i ==> optbuff[4 + k] == addr[k]
      {
        optbuff[4 + i] := addr[i];
        i := i + 1;
      }
      optlen := (maskbits + 7) / 8 + 4;
      assert optbuff[2..TARGET_SIZE] == TargetOption(addr)[2..];
    }

    /** append_suboption with the option in optbuff: the bytes used, or -1 when they do not fit. */
    method AppendOption(buff: array<Byte>, at: nat, room: nat, subopt: Byte) returns (n: int)
      requires Valid() && buff != optbuff && at + room <= buff.Length && 2 <= optlen < 256
      modifies buff
      ensures n == if room < optlen then -1 else optlen
      ensures n < 0 ==> buff[..] == old(buff[..])
      ensures n >= 0 ==> buff[at..at + n] == [subopt, optlen - 2] + optbuff[2..optlen]
      ensures n >= 0 ==> SameOutside(buff, old(buff[..]), at, at + n)
    {
      n := AppendSuboption(buff, at, room, subopt, optbuff, 2, optlen - 2);
    }

    /** One of the two loops of build_dao, over a map in iteration order. */
    method AppendTargets(buff: array<Byte>, buffLen: nat, nextopt0: nat, targets: seq<Prefix>)
        returns (nextopt: nat)
      requires Valid() && buff != optbuff && InRange(nextopt0, buffLen) && buffLen <= buff.Length
      modifies buff, optbuff, this`optlen
      ensures InRange(nextopt, buffLen)
      ensures Laying(buff[..buffLen], nextopt) == LayAll(Laying(old(buff[..buffLen]), nextopt0), Addresses(targets))
      ensures buff[buffLen..] == old(buff[buffLen..])
    {
      hide LayOne, LayAll, TargetOption, InRange;
      nextopt := nextopt0;
      ghost var start, addrs := Laying(buff[..buffLen], nextopt), Addresses(targets);
      LayNothing(start, addrs);
      var i := 0;
      while i < |targets|
        invariant 0 <= i <= |targets| && InRange(nextopt, buffLen)
        invariant Laying(buff[..buffLen], nextopt) == LayAll(start, addrs[..i])
        invariant buff[buffLen..] == old(buff[buffLen..])
      {
        LayNext(start, addrs, i);
        nextopt := AppendTarget(buff, buffLen, nextopt, targets[i]);
        i := i + 1;
      }
      assert addrs[..i] == addrs;
    }

    /** The body of these loops: a target that does not fit moves the end back by one. */
    method AppendTarget(buff: array<Byte>, buffLen: nat, nextopt0: nat, target: Prefix) returns (nextopt: nat)
      requires Valid() && buff != optbuff && InRange(nextopt0, buffLen) && buffLen <= buff.Length
      modifies buff, optbuff, this`optlen
      ensures InRange(nextopt, buffLen)
      ensures Laying(buff[..buffLen], nextopt) == LayOne(Laying(old(buff[..buffLen]), nextopt0), target.addr)
      ensures buff[buffLen..] == old(buff[buffLen..])
    {
      BuildTargetOpt(target.addr, target.len);
      ghost var was := buff[..];
      var len := AppendOption(buff, nextopt0, buffLen - nextopt0, RPL_DAO_RPLTARGET);
      nextopt := nextopt0 + len;
      if len >= 0 {
        assert buff[nextopt0..nextopt] == TargetOption(target.addr);
        SplicedTail(buff, was, nextopt0, nextopt, buffLen);
      }
    }

    /** The first part of build_dao: a cleared buffer and the two headers. */
    method WriteDaoHeader(buff: array<Byte>, buffLen: nat)
      requires Valid() && OPTIONS_AT <= buffLen <= buff.Length
      modifies buff, this`mDAOSequence
      ensures mDAOSequence == (old(mDAOSequence) + 1) % USHORT_SPAN
      ensures buff[..buffLen] == DaoHeader(mInstanceid, mDAOSequence, mDagid) + Repeat<Byte>(0, buffLen - OPTIONS_AT)
      ensures buff[buffLen..] == old(buff[buffLen..])
    {
      Clear(buff, buffLen);
      mDAOSequence := (mDAOSequence + 1) % USHORT_SPAN;
      WriteFront(buff, ND_RPL_DAO, DAO_FLAGS, 0, mDAOSequence % 256);
      HeaderWritten(buff, buffLen, DaoHeader(mInstanceid, mDAOSequence, mDagid));
    }

    /** The ICMP header, the four bytes of a DAO or DAO-ACK and the DAGID, in a cleared buffer. */
    method WriteFront(buff: array<Byte>, code: Byte, flags: Byte, third: Byte, fourth: Byte)
      requires buff.Length >= OPTIONS_AT
      modifies buff
      ensures buff[..OPTIONS_AT] == [ND_RPL_MESSAGE, code, 0, 0, mInstanceid % 256, flags, third, fourth] + mDagid
      ensures SameOutside(buff, old(buff[..]), 0, OPTIONS_AT)
    {
      buff[0], buff[1], buff[2], buff[3] := ND_RPL_MESSAGE, code, 0, 0;
      buff[4], buff[5], buff[6], buff[7] := mInstanceid % 256, flags, third, fourth;
      SliceIs(buff, 0, [ND_RPL_MESSAGE, code, 0, 0, mInstanceid % 256, flags, third, fourth]);
      ghost var front := buff[..8];
      forall i | 0 <= i < DAGID_LEN {
        buff[8 + i] := mDagid[i];
      }
      SliceIs(buff, 8, mDagid);
      SliceIs(buff, 0, front);
      assert buff[..OPTIONS_AT] == buff[..8] + buff[8..OPTIONS_AT];
    }

    /** build_dao: what it leaves in the buffer, whether or not the targets fit. */
    method BuildDao(buff: array<Byte>, buffLen: nat) returns (len: nat)
      requires Valid() && buff != optbuff && OPTIONS_AT <= buffLen <= buff.Length
      modifies buff, optbuff, this`optlen, this`mDAOSequence
      ensures mDAOSequence == (old(mDAOSequence) + 1) % USHORT_SPAN
      ensures var built := Built(mInstanceid, mDAOSequence, mDagid, Targets(), buffLen);
        buff[..buffLen] == built.buff && len == RoundUp(built.nextopt)
      ensures buff[buffLen..] == old(buff[buffLen..])
    {
      hide DaoHeader, LayAll;
      WriteDaoHeader(buff, buffLen);
      ghost var start := Laying(buff[..buffLen], OPTIONS_AT);
      var nextopt := 8 + DAGID_LEN;
      nextopt := AppendTargets(buff, buffLen, nextopt, dagChildren);
      nextopt := AppendTargets(buff, buffLen, nextopt, dagAnnounced);
      LayParts(start, Addresses(dagChildren), Addresses(dagAnnounced));
      len := nextopt;
      len := (len + 7) / 8 * 8;
    }

    /** build_daoack. */
    method BuildDaoack(buff: array<Byte>, buffLen: nat, seqNum: nat) returns (len: nat)
      requires OPTIONS_AT <= buffLen <= buff.Length
      modifies buff
      ensures len <= buffLen && buff[..len] == DaoAckPacket(mInstanceid, seqNum, mDagid)
    {
      Clear(buff, buffLen);
      WriteFront(buff, ND_RPL_DAO_ACK, DAOACK_FLAGS, seqNum % 256, 0);
      var nextopt := 8 + DAGID_LEN;
      len := nextopt;
      len := (len + 7) / 8 * 8;
    }
  }

  lemma HeaderWritten(buff: array<Byte>, n: nat, header: seq<Byte>)
    requires |header| <= n <= buff.Length && buff[..|header|] == header
    requires forall k :: |header| <= k < n ==> buff[k] == 0
    ensures buff[..n] == header + Repeat<Byte>(0, n - |header|)
  {
    SliceIs(buff, |header|, Repeat<Byte>(0, n - |header|));
    assert buff[..n] == buff[..|header|] + buff[|header|..n];
  }

  lemma SplicedTail(buff: array<Byte>, was: seq<Byte>, lo: nat, hi: nat, n: nat)
    requires lo <= hi <= n <= buff.Length && SameOutside(buff, was, lo, hi)
    ensures buff[..n] == was[..n][..lo] + buff[lo..hi] + was[..n][hi..] && buff[n..] == was[n..]
  {
  }

  // ---------- what the loops lay down ----------

  /** The buffer and the place of the next option. */
  datatype Laying = Laying(buff: seq<Byte>, nextopt: nat)

  /** The end may have moved back, by one for each target that did not fit, but never by a whole option. */
  predicate InRange(nextopt: nat, buffLen: nat) {
    OPTIONS_AT <= buffLen && nextopt <= buffLen && (nextopt >= OPTIONS_AT || nextopt + TARGET_SIZE >= buffLen)
  }

  function LayOne(l: Laying, a: Addr): (r: Laying)
    requires InRange(l.nextopt, |l.buff|)
    ensures |r.buff| == |l.buff| && InRange(r.nextopt, |r.buff|)
  {
    var end := l.nextopt + TARGET_SIZE;
    if end > |l.buff| then l.(nextopt := l.nextopt - 1)
    else Laying(l.buff[..l.nextopt] + TargetOption(a) + l.buff[end..], end)
  }

  function LayAll(l: Laying, targets: seq<Addr>): (r: Laying)
    requires InRange(l.nextopt, |l.buff|)
    ensures |r.buff| == |l.buff| && InRange(r.nextopt, |r.buff|)
  {
    if targets == [] then l else LayOne(LayAll(l, targets[..|targets| - 1]), targets[|targets| - 1])
  }

  function Built(instance: nat, daoseq: nat, dagid: Dagid, targets: seq<Addr>, buffLen: nat): (l: Laying)
    requires OPTIONS_AT <= buffLen
    ensures |l.buff| == buffLen && InRange(l.nextopt, buffLen)
  {
    LayAll(Laying(DaoHeader(instance, daoseq, dagid) + Repeat<Byte>(0, buffLen - OPTIONS_AT), OPTIONS_AT), targets)
  }

  lemma LayNothing(l: Laying, targets: seq<Addr>)
    requires InRange(l.nextopt, |l.buff|)
    ensures LayAll(l, targets[..0]) == l
  {
  }

  lemma LayNext(l: Laying, targets: seq<Addr>, i: nat)
    requires InRange(l.nextopt, |l.buff|) && i < |targets|
    ensures LayAll(l, targets[..i + 1]) == LayOne(LayAll(l, targets[..i]), targets[i])
  {
    assert targets[..i + 1][..i] == targets[..i];
  }

  lemma {:induction false} LayParts(l: Laying, a: seq<Addr>, b: seq<Addr>)
    requires InRange(l.nextopt, |l.buff|)
    ensures LayAll(l, a + b) == LayAll(LayAll(l, a), b)
  {
    hide LayOne;
    if b == [] {
      assert a + b == a;
    } else {
      var n := |b| - 1;
      LayParts(l, a, b[..n]);
      assert (a + b)[..|a + b| - 1] == a + b[..n];
    }
  }

  predicate Fits(targets: seq<Addr>, buffLen: nat) {
    OPTIONS_AT + TARGET_SIZE * |targets| <= buffLen
  }

  /** Targets that fit stand one behind the other, and only zeros after them. */
  lemma {:induction false} LaidThatFit(header: seq<Byte>, targets: seq<Addr>, buffLen: nat)
    requires |header| == OPTIONS_AT && Fits(targets, buffLen)
    ensures var end := OPTIONS_AT + TARGET_SIZE * |targets|;
      LayAll(Laying(header + Repeat<Byte>(0, buffLen - OPTIONS_AT), OPTIONS_AT), targets)
        == Laying(header + TargetOptions(targets) + Repeat<Byte>(0, buffLen - end), end)
  {
    var start := Laying(header + Repeat<Byte>(0, buffLen - OPTIONS_AT), OPTIONS_AT);
    if targets == [] {
      assert header + [] == header;
    } else {
      hide TargetOption, TargetOptions, LayOne, InRange;
      var n := |targets| - 1;
      LaidThatFit(header, targets[..n], buffLen);
      OptionLaid(header, TargetOptions(targets[..n]), targets[n], buffLen - OPTIONS_AT - TARGET_SIZE * n);
      LastOption(targets);
      Assoc(header, TargetOptions(targets[..n]), TargetOption(targets[n]));
    }
  }

  lemma LastOption(targets: seq<Addr>)
    requires targets != []
    ensures TargetOptions(targets) == TargetOptions(targets[..|targets| - 1]) + TargetOption(targets[|targets| - 1])
  {
  }

  lemma OptionLaid(header: seq<Byte>, options: seq<Byte>, a: Addr, room: nat)
    requires |header| == OPTIONS_AT && room >= TARGET_SIZE
    ensures var l := Laying(header + options + Repeat<Byte>(0, room), |header + options|);
      && InRange(l.nextopt, |l.buff|)
      && LayOne(l, a) == Laying(header + options + TargetOption(a) + Repeat<Byte>(0, room - TARGET_SIZE),
                                |header + options| + TARGET_SIZE)
  {
    hide TargetOption;
    var l := Laying(header + options + Repeat<Byte>(0, room), |header + options|);
    assert l.buff[..l.nextopt] == header + options;
    assert l.buff[l.nextopt + TARGET_SIZE..] == Repeat<Byte>(0, room - TARGET_SIZE);
  }

  /** What build_dao makes is the packet whenever its targets fit the buffer, whose size is a multiple of eight. */
  lemma BuiltIsPacket(instance: nat, daoseq: nat, dagid: Dagid, targets: seq<Addr>, buffLen: nat)
    requires OPTIONS_AT <= buffLen && buffLen % 8 == 0 && Fits(targets, buffLen)
    ensures var built := Built(instance, daoseq, dagid, targets, buffLen);
      RoundUp(built.nextopt) <= buffLen
      && built.buff[..RoundUp(built.nextopt)] == DaoPacket(instance, daoseq, dagid, targets)
  {
    hide TargetOptions, DaoHeader, LayAll;
    var header := DaoHeader(instance, daoseq, dagid);
    LaidThatFit(header, targets, buffLen);
    var p := header + TargetOptions(targets);
    assert (p + Repeat<Byte>(0, buffLen - |p|))[..RoundUp(|p|)] == p + Repeat<Byte>(0, RoundUp(|p|) - |p|);
  }

  // ---------- the receiver ----------

  /** A target option whose prefix length and data are in the message. */
  predicate HeldAt(b: seq<Byte>, x: nat) {
    x + 4 <= |b| && x + 2 + b[x + 1] as int <= |b|
  }

  ghost predicate Held(b: seq<Byte>, xs: seq<nat>) {
    forall i :: 0 <= i < |xs| ==> HeldAt(b, xs[i])
  }

  /** One for a prefix no longer than an address. */
  predicate ReadableAt(b: seq<Byte>, x: nat) {
    HeldAt(b, x) && b[x + 3] <= 128
  }

  ghost predicate Readable(b: seq<Byte>, xs: seq<nat>) {
    forall i :: 0 <= i < |xs| ==> ReadableAt(b, xs[i])
  }

  lemma ReadableIsHeld(b: seq<Byte>, xs: seq<nat>)
    requires Readable(b, xs)
    ensures Held(b, xs)
  {
  }

  /** The option holds as many bytes as its prefix length says. */
  predicate LongEnough(b: seq<Byte>, x: nat)
    requires HeldAt(b, x)
  {
    b[x + 1] as int + 2 >= (b[x + 3] as int + 7) / 8 + 4
  }

  /** The option at `x` as receive_dao copies it: the prefix bytes, then zeros. */
  function TargetAt(b: seq<Byte>, x: nat): Prefix
    requires ReadableAt(b, x) && LongEnough(b, x)
  {
    var n := PrefixBytes(b[x + 3]);
    Prefix(b[x + 4..x + 4 + n] + Repeat<Byte>(0, ADDR_LEN - n), b[x + 3])
  }

  /** Targets up to the first option too short for its own prefix. */
  ghost function TargetsAt(b: seq<Byte>, xs: seq<nat>): seq<Prefix>
    requires Readable(b, xs)
  {
    if xs == [] || !LongEnough(b, xs[0]) then []
    else [TargetAt(b, xs[0])] + TargetsAt(b, xs[1..])
  }

  /** rpl_dao::rpltarget: the offset of the next target option, or -1. */
  method Rpltarget(msg: RplMsg) returns (at: int)
    requires msg.Valid() && Held(msg.Message(), msg.Left(RPL_DAO_RPLTARGET))
    modifies msg.mOptions
    ensures msg.Valid() && msg.Message() == old(msg.Message())
    ensures var xs := old(msg.Left(RPL_DAO_RPLTARGET));
      if xs == [] || !LongEnough(msg.Message(), xs[0]) then at == -1
      else at == xs[0] && msg.Left(RPL_DAO_RPLTARGET) == xs[1..]
  {
    hide OfType, OnPath, Known, Remaining, Unambiguous, Consistent, WellFormed, Outcome;
    ghost var b, xs := msg.Message(), msg.Left(RPL_DAO_RPLTARGET);
    var optlen;
    at, optlen := msg.SearchSubopt(RPL_DAO_RPLTARGET);
    if at < 0 {
      return -1;
    }
    assert HeldAt(b, xs[0]);
    assert b[at] == msg.mBytes[at] && b[at + 1] == msg.mBytes[at + 1] && b[at + 3] == msg.mBytes[at + 3];
    var prefixbytes := (msg.mBytes[at + 3] as int + 7) / 8;
    if optlen < prefixbytes + 4 {
      return -1;
    }
  }

  /** The loop of receive_dao over the targets of a DAO. */
  method ReceiveTargets(data: seq<Byte>) returns (targets: seq<Prefix>)
    requires |data| <= MAX_BYTES && WellFormed(data, 0)
    requires Readable(data, OfType(data, 0, RPL_DAO_RPLTARGET))
    ensures targets == TargetsAt(data, OfType(data, 0, RPL_DAO_RPLTARGET))
  {
    hide OfType, OnPath, Known, Remaining, Unambiguous, Consistent, WellFormed, Outcome;
    hide TargetAt, ReadableAt, LongEnough;
    assert data[..Min(|data|, MAX_BYTES)] == data;
    var msg := new RplMsg(data);
    targets := [];
    ghost var xs := msg.Left(RPL_DAO_RPLTARGET);
    ghost var all := TargetsAt(data, xs);
    assert targets + all == all;
    while true
      invariant msg.Valid() && msg.Message() == data && fresh(msg.mOptions)
      invariant xs == msg.Left(RPL_DAO_RPLTARGET) && Readable(data, xs)
      invariant all == targets + TargetsAt(data, xs)
      decreases |xs|
    {
      ReadableIsHeld(data, xs);
      var at := Rpltarget(msg);
      if at < 0 {
        break;
      }
      assert ReadableAt(data, xs[0]);
      var target := CopyTarget(msg, at);
      ghost var rest := TargetsAt(data, xs[1..]);
      assert targets + ([target] + rest) == targets + [target] + rest;
      targets := targets + [target];
      xs := xs[1..];
    }
  }

  /** The prefix of the option at `at`: a cleared address and a memcpy of the prefix bytes. */
  method CopyTarget(msg: RplMsg, at: nat) returns (target: Prefix)
    requires msg.mLen <= msg.mBytes.Length && ReadableAt(msg.Message(), at) && LongEnough(msg.Message(), at)
    ensures target == TargetAt(msg.Message(), at)
  {
    ghost var b := msg.Message();
    var prefixlen := msg.mBytes[at + 3];
    assert b[at + 3] == prefixlen;
    var n := PrefixBytes(prefixlen);
    var v6bytes := new Byte[ADDR_LEN](_ => 0);
    forall i | 0 <= i < n {
      v6bytes[i] := msg.mBytes[at + 4 + i];
    }
    assert v6bytes[..] == b[at + 4..at + 4 + n] + Repeat<Byte>(0, ADDR_LEN - n);
    target := Prefix(v6bytes[..], prefixlen);
  }

  datatype DaoFrame = DaoFrame(instance: Byte, daoseq: Byte, ackWanted: bool, dagid: Option<Dagid>, data: seq<Byte>)

  /** network_interface::receive_dao up to the search for the DAG; `dat` starts at icmp6_data8. */
  function ParseDao(dat: seq<Byte>): (f: Option<DaoFrame>)
    requires |dat| > 1 && dat[1] / 64 % 2 == 1 ==> |dat| < DAO_HEADER || |dat| >= DAO_HEADER + DAGID_LEN
    ensures f.Some? ==> |f.value.data| <= |dat|
  {
    if |dat| < DAO_HEADER then None
    else
      var hasDagid := dat[1] / 64 % 2 == 1;
      Some(DaoFrame(dat[0], dat[3], dat[1] / 128 == 1,
        if hasDagid then Some(dat[DAO_HEADER..DAO_HEADER + DAGID_LEN]) else None,
        dat[if hasDagid then DAO_HEADER + DAGID_LEN else DAO_HEADER..]))
  }

  // ---------- round trip ----------

  /** The options of `targets` followed by padding zeros, from offset `at` of `b` on. */
  ghost predicate Laid(b: seq<Byte>, at: nat, targets: seq<Addr>) {
    && at + TARGET_SIZE * |targets| <= |b|
    && (forall i :: 0 <= i < |targets| ==>
         b[at + TARGET_SIZE * i..at + TARGET_SIZE * i + TARGET_SIZE] == TargetOption(targets[i]))
    && (forall k :: at + TARGET_SIZE * |targets| <= k < |b| ==> b[k] == 0)
  }

  lemma {:induction false} PaddingHasNoOption(b: seq<Byte>, o: nat, t: Byte)
    requires o <= |b| && t != PAD0 && forall k :: o <= k < |b| ==> b[k] == 0
    ensures WellFormed(b, o) && OfType(b, o, t) == []
    decreases |b| - o
  {
    if !Stops(b, o) {
      PaddingHasNoOption(b, o + 1, t);
    }
  }

  lemma {:induction false} LaidTargets(b: seq<Byte>, at: nat, targets: seq<Addr>)
    requires Laid(b, at, targets)
    ensures WellFormed(b, at) && Readable(b, OfType(b, at, RPL_DAO_RPLTARGET))
    ensures var ps := TargetsAt(b, OfType(b, at, RPL_DAO_RPLTARGET));
      |ps| == |targets| && forall i :: 0 <= i < |ps| ==> ps[i] == Prefix(targets[i], 128)
    decreases |targets|
  {
    if targets == [] {
      PaddingHasNoOption(b, at, RPL_DAO_RPLTARGET);
    } else {
      hide Laid, TargetAt, ReadableAt, LongEnough;
      var n := at + TARGET_SIZE;
      FirstLaid(b, at, targets);
      LaidTargets(b, n, targets[1..]);
      var xs := OfType(b, at, RPL_DAO_RPLTARGET);
      assert xs == [at] + OfType(b, n, RPL_DAO_RPLTARGET);
      assert xs[1..] == OfType(b, n, RPL_DAO_RPLTARGET);
    }
  }

  lemma FirstLaid(b: seq<Byte>, at: nat, targets: seq<Addr>)
    requires Laid(b, at, targets) && targets != []
    ensures at + TARGET_SIZE <= |b| && !Stops(b, at) && Size(b, at) == TARGET_SIZE
    ensures b[at] == RPL_DAO_RPLTARGET && ReadableAt(b, at) && LongEnough(b, at)
    ensures TargetAt(b, at) == Prefix(targets[0], 128)
    ensures Laid(b, at + TARGET_SIZE, targets[1..])
  {
    assert b[at..at + TARGET_SIZE] == TargetOption(targets[0]) by {
      assert at + TARGET_SIZE * 0 == at;
    }
    OptionRead(b, at, targets[0]);
    var n := at + TARGET_SIZE;
    forall i | 0 <= i < |targets| - 1
      ensures b[n + TARGET_SIZE * i..n + TARGET_SIZE * i + TARGET_SIZE] == TargetOption(targets[1..][i])
    {
      assert n + TARGET_SIZE * i == at + TARGET_SIZE * (i + 1);
    }
  }

  lemma OptionRead(b: seq<Byte>, at: nat, a: Addr)
    requires at + TARGET_SIZE <= |b| && b[at..at + TARGET_SIZE] == TargetOption(a)
    ensures !Stops(b, at) && Size(b, at) == TARGET_SIZE
    ensures b[at] == RPL_DAO_RPLTARGET && ReadableAt(b, at) && LongEnough(b, at)
    ensures TargetAt(b, at) == Prefix(a, 128)
  {
    var o := TargetOption(a);
    assert forall k :: 0 <= k < TARGET_SIZE ==> b[at + k] == o[k];
    assert b[at + 4..at + 20] == o[4..] == a;
    assert b[at + 4..at + 20] + Repeat<Byte>(0, 0) == a;
  }

  lemma {:induction false} OptionsLaid(targets: seq<Addr>, pad: nat)
    ensures Laid(TargetOptions(targets) + Repeat<Byte>(0, pad), 0, targets)
  {
    var b := TargetOptions(targets) + Repeat<Byte>(0, pad);
    forall i | 0 <= i < |targets|
      ensures b[TARGET_SIZE * i..TARGET_SIZE * i + TARGET_SIZE] == TargetOption(targets[i])
    {
      OptionAt(targets, i);
      var t := TargetOptions(targets);
      assert b[TARGET_SIZE * i..TARGET_SIZE * i + TARGET_SIZE] == t[TARGET_SIZE * i..TARGET_SIZE * i + TARGET_SIZE];
    }
  }

  lemma {:induction false} OptionAt(targets: seq<Addr>, i: nat)
    requires i < |targets|
    ensures TargetOptions(targets)[TARGET_SIZE * i..TARGET_SIZE * i + TARGET_SIZE] == TargetOption(targets[i])
  {
    var n := |targets| - 1;
    var t, front := TargetOptions(targets), TargetOptions(targets[..n]);
    if i < n {
      OptionAt(targets[..n], i);
      assert t[TARGET_SIZE * i..TARGET_SIZE * i + TARGET_SIZE] == front[TARGET_SIZE * i..TARGET_SIZE * i + TARGET_SIZE];
    }
  }

  /** From `data`, what follows the DAGID, the receiver gets these targets and no others. */
  ghost predicate ReadsAs(data: seq<Byte>, targets: seq<Addr>) {
    && WellFormed(data, 0) && Readable(data, OfType(data, 0, RPL_DAO_RPLTARGET))
    && var ps := TargetsAt(data, OfType(data, 0, RPL_DAO_RPLTARGET));
       |ps| == |targets| && forall i :: 0 <= i < |ps| ==> ps[i] == Prefix(targets[i], 128)
  }

  /**
    Framing and repeated rpltarget() on what build_dao made give its targets in
    order, each with prefix length 128; the rounding adds none.
   */
  lemma DaoRoundTrip(instance: nat, daoseq: nat, dagid: Dagid, targets: seq<Addr>)
    ensures var dat := DaoPacket(instance, daoseq, dagid, targets)[ICMP6_HEADER..];
      && |dat| >= DAO_HEADER + DAGID_LEN
      && var frame := ParseDao(dat);
      && frame.Some?
      && frame.value.instance == instance % 256 && frame.value.daoseq == daoseq % 256
      && frame.value.ackWanted && frame.value.dagid == Some(dagid)
      && ReadsAs(frame.value.data, targets)
  {
    hide DaoHeader, TargetOptions, OfType, WellFormed, TargetsAt, Readable, Laid, ParseDao;
    var header := DaoHeader(instance, daoseq, dagid);
    var p := header + TargetOptions(targets);
    var pad := RoundUp(|p|) - |p|;
    var data := TargetOptions(targets) + Repeat<Byte>(0, pad);
    var packet := DaoPacket(instance, daoseq, dagid, targets);
    assert packet == header + data;
    FrameRead(packet, instance, daoseq, dagid);
    assert packet[OPTIONS_AT..] == data;
    OptionsLaid(targets, pad);
    LaidTargets(data, 0, targets);
  }

  lemma FrameRead(packet: seq<Byte>, instance: nat, daoseq: nat, dagid: Dagid)
    requires |packet| >= OPTIONS_AT && packet[..OPTIONS_AT] == DaoHeader(instance, daoseq, dagid)
    ensures ParseDao(packet[ICMP6_HEADER..])
      == Some(DaoFrame(instance % 256, daoseq % 256, true, Some(dagid), packet[OPTIONS_AT..]))
  {
    var header, dat := DaoHeader(instance, daoseq, dagid), packet[ICMP6_HEADER..];
    assert forall k :: 0 <= k < OPTIONS_AT ==> packet[k] == header[k];
    assert dat[DAO_HEADER..DAO_HEADER + DAGID_LEN] == header[8..OPTIONS_AT] == dagid;
    assert dat[DAO_HEADER + DAGID_LEN..] == packet[OPTIONS_AT..];
  }

  // ---------- when the targets fit ----------

  /** Every target is a whole address. */
  ghost predicate AllWhole(ps: seq<Prefix>) {
    forall i :: 0 <= i < |ps| ==> ps[i].len == 128
  }

  /** Targets of a whole address take their room, wherever they stand. */
  lemma {:induction false} TargetsTakeRoom(b: seq<Byte>, o: nat)
    requires WellFormed(b, o) && Readable(b, OfType(b, o, RPL_DAO_RPLTARGET))
    requires AllWhole(TargetsAt(b, OfType(b, o, RPL_DAO_RPLTARGET)))
    ensures o + TARGET_SIZE * |TargetsAt(b, OfType(b, o, RPL_DAO_RPLTARGET))| <= |b|
    decreases |b| - o
  {
    hide AllWhole, Readable, TargetsAt;
    if Stops(b, o) {
      NoTargets(b);
    } else {
      var n := o + Size(b, o);
      var xs, more := OfType(b, o, RPL_DAO_RPLTARGET), OfType(b, n, RPL_DAO_RPLTARGET);
      if b[o] != RPL_DAO_RPLTARGET {
        assert xs == more;
        TargetsTakeRoom(b, n);
      } else {
        assert xs == [o] + more;
        FirstTakesRoom(b, o, xs, more);
        if TargetsAt(b, xs) != [] {
          TargetsTakeRoom(b, n);
        }
      }
    }
  }

  lemma NoTargets(b: seq<Byte>)
    ensures Readable(b, []) && TargetsAt(b, []) == []
  {
  }

  lemma FirstTakesRoom(b: seq<Byte>, o: nat, xs: seq<nat>, more: seq<nat>)
    requires xs == [o] + more && Readable(b, xs) && AllWhole(TargetsAt(b, xs))
    ensures Readable(b, more) && o + 1 < |b|
    ensures TargetsAt(b, xs) != [] ==>
      && AllWhole(TargetsAt(b, more)) && |TargetsAt(b, xs)| == 1 + |TargetsAt(b, more)|
      && b[o + 1] as int + 2 >= TARGET_SIZE
  {
    assert xs[0] == o && xs[1..] == more;
    assert ReadableAt(b, xs[0]);
    forall i | 0 <= i < |more|
      ensures ReadableAt(b, more[i])
    {
      assert more[i] == xs[i + 1];
    }
    var ps := TargetsAt(b, xs);
    if ps != [] {
      assert ps == [TargetAt(b, o)] + TargetsAt(b, more);
      FrontWhole(TargetAt(b, o), TargetsAt(b, more));
    }
  }

  lemma FrontWhole(p: Prefix, ps: seq<Prefix>)
    requires AllWhole([p] + ps)
    ensures p.len == 128 && AllWhole(ps)
  {
    assert ([p] + ps)[0] == p;
    forall i | 0 <= i < |ps|
      ensures ps[i].len == 128
    {
      assert ([p] + ps)[i + 1] == ps[i];
    }
  }

  /** A DAO tells its receiver all targets, and only these, just when they fit the sender's buffer. */
  lemma AllTargetsExactly(instance: nat, daoseq: nat, dagid: Dagid, targets: seq<Addr>, buffLen: nat)
    requires OPTIONS_AT <= buffLen && buffLen % 8 == 0
    ensures var built := Built(instance, daoseq, dagid, targets, buffLen);
      && RoundUp(built.nextopt) <= buffLen == |built.buff|
      && var packet := built.buff[..RoundUp(built.nextopt)];
         (|packet| >= OPTIONS_AT && ReadsAs(packet[OPTIONS_AT..], targets)) <==> Fits(targets, buffLen)
  {
    hide DaoHeader, LayAll, TargetsAt, OfType, WellFormed, Readable;
    var built := Built(instance, daoseq, dagid, targets, buffLen);
    assert RoundUp(built.nextopt) <= buffLen;
    var packet := built.buff[..RoundUp(built.nextopt)];
    if Fits(targets, buffLen) {
      BuiltIsPacket(instance, daoseq, dagid, targets, buffLen);
      PacketReads(instance, daoseq, dagid, targets);
    }
    if |packet| >= OPTIONS_AT && ReadsAs(packet[OPTIONS_AT..], targets) {
      TargetsTakeRoom(packet[OPTIONS_AT..], 0);
    }
  }

  lemma PacketReads(instance: nat, daoseq: nat, dagid: Dagid, targets: seq<Addr>)
    ensures var packet := DaoPacket(instance, daoseq, dagid, targets);
      |packet| >= OPTIONS_AT && ReadsAs(packet[OPTIONS_AT..], targets)
  {
    hide DaoHeader, TargetOptions, TargetsAt, OfType, WellFormed, Readable, Laid;
    var p := DaoHeader(instance, daoseq, dagid) + TargetOptions(targets);
    OptionsLaid(targets, RoundUp(|p|) - |p|);
    var data := TargetOptions(targets) + Repeat<Byte>(0, RoundUp(|p|) - |p|);
    assert DaoPacket(instance, daoseq, dagid, targets)[OPTIONS_AT..] == data;
    LaidTargets(data, 0, targets);
  }

  // ---------- when they do not ----------

  /** The header is never written over. */
  lemma {:induction false} HeaderStays(l: Laying, targets: seq<Addr>)
    requires InRange(l.nextopt, |l.buff|) && |l.buff| >= OPTIONS_AT + TARGET_SIZE
    ensures LayAll(l, targets).buff[..OPTIONS_AT] == l.buff[..OPTIONS_AT] && LayAll(l, targets).nextopt >= OPTIONS_AT
  {
    if targets != [] {
      hide LayOne, LayAll;
      var n := |targets| - 1;
      HeaderStays(l, targets[..n]);
      OneStays(LayAll(l, targets[..n]), targets[n]);
      LayNext(l, targets, n);
      assert targets[..n + 1] == targets;
    } else {
      assert targets == targets[..0];
    }
  }

  lemma OneStays(l: Laying, a: Addr)
    requires InRange(l.nextopt, |l.buff|) && |l.buff| >= OPTIONS_AT + TARGET_SIZE && l.nextopt >= OPTIONS_AT
    ensures LayOne(l, a).buff[..OPTIONS_AT] == l.buff[..OPTIONS_AT] && LayOne(l, a).nextopt >= OPTIONS_AT
  {
  }

  lemma BuiltHeader(instance: nat, daoseq: nat, dagid: Dagid, targets: seq<Addr>, buffLen: nat)
    requires OPTIONS_AT + TARGET_SIZE <= buffLen && buffLen % 8 == 0
    ensures var built := Built(instance, daoseq, dagid, targets, buffLen);
      && OPTIONS_AT <= RoundUp(built.nextopt) <= buffLen
      && built.buff[..OPTIONS_AT] == DaoHeader(instance, daoseq, dagid)
  {
    hide DaoHeader, LayAll;
    var header := DaoHeader(instance, daoseq, dagid);
    var start := header + Repeat<Byte>(0, buffLen - OPTIONS_AT);
    HeaderStays(Laying(start, OPTIONS_AT), targets);
    assert start[..OPTIONS_AT] == header;
  }

  /** Targets that do not fit move the end back, one byte each, as long as there is no room for one. */
  lemma {:induction false} LaidPastTheEnd(l: Laying, targets: seq<Addr>)
    requires InRange(l.nextopt, |l.buff|) && |l.buff| + |targets| <= l.nextopt + TARGET_SIZE && |targets| <= l.nextopt
    ensures LayAll(l, targets) == l.(nextopt := l.nextopt - |targets|)
  {
    if targets != [] {
      LaidPastTheEnd(l, targets[..|targets| - 1]);
    }
  }

  /** What is left of an address whose option is laid over the one behind it, beginning at that one's address. */
  function Garbled(a: Addr): Addr {
    [RPL_DAO_RPLTARGET, 18, 0, 128] + a[..12]
  }

  lemma GarbledOption(a: Addr)
    ensures [RPL_DAO_RPLTARGET, 18, 0, 128] + TargetOption(a) == TargetOption(Garbled(a)) + a[12..]
  {
    assert a == a[..12] + a[12..];
  }

  /** Options of which the last is cut: the scan runs past the end. */
  lemma {:induction false} CutShort(b: seq<Byte>, at: nat, targets: seq<Addr>)
    requires targets != [] && at + TARGET_SIZE * (|targets| - 1) + GENOPTION < |b| < at + TARGET_SIZE * |targets|
    requires forall i :: 0 <= i < |targets| - 1 ==>
      b[at + TARGET_SIZE * i..at + TARGET_SIZE * i + TARGET_SIZE] == TargetOption(targets[i])
    requires var o := at + TARGET_SIZE * (|targets| - 1); b[o] == RPL_DAO_RPLTARGET && b[o + 1] == 18
    ensures !WellFormed(b, at)
    decreases |targets|
  {
    if |targets| > 1 {
      hide TargetOption;
      var n := at + TARGET_SIZE;
      assert b[at..n] == TargetOption(targets[0]) by {
        assert at + TARGET_SIZE * 0 == at;
      }
      OptionRead(b, at, targets[0]);
      forall i | 0 <= i < |targets| - 2
        ensures b[n + TARGET_SIZE * i..n + TARGET_SIZE * i + TARGET_SIZE] == TargetOption(targets[1..][i])
      {
        assert n + TARGET_SIZE * i == at + TARGET_SIZE * (i + 1);
      }
      CutShort(b, n, targets[1..]);
    }
  }
}
