/**
  The network with its messages as bytes: built by build_dio, build_dao and
  build_daoack, and read back by the receivers.  Every run of it is a run of
  RplNetwork, so what is proved there holds of the bytes too.
 */
module RplWire {
  import opened Common
  import opened DagSpec
  import opened DaoCodec
  import opened DioCodec
  import RplAgreement
  import opened RplNetwork
  import opened RplOptions
  import RplReach
  import opened RplTypes

  const ICMP_BODY: nat := 2048     // the buffer of send_dao
  const MAX_TARGETS: nat := 101    // as many as fit it

  // ---------- sending ----------

  function ValuesOf(s: NodeState): DioValues {
    DioValues(s.advert.instance, s.advert.version, s.myRank, s.advert.grounded, s.advert.mode, s.dtsn, s.advert.dagid)
  }

  function DioBytes(s: NodeState, lifetime: nat): seq<Byte> {
    DioPacket(ValuesOf(s), s.prefix, lifetime)
  }

  function Elements(ts: seq<Prefix>): set<Prefix> {
    set t | t in ts
  }

  /** What send_dao sends: the buffer that build_dao leaves, as far as the length it returns. */
  function DaoBytes(s: NodeState, targets: seq<Prefix>): seq<Byte> {
    var built :=
      Built(s.advert.instance, SentDao(s).daoSequence, s.advert.dagid, Addresses(targets), ICMP_BODY);
    built.buff[..RoundUp(built.nextopt)]
  }

  function AckBytes(s: NodeState, daoseq: Byte): seq<Byte> {
    DaoAckPacket(s.advert.instance, daoseq, s.advert.dagid)
  }

  // ---------- receiving ----------

  predicate HasCode(packet: seq<Byte>, code: Byte) {
    |packet| >= ICMP6_HEADER && packet[0] == ND_RPL_MESSAGE && packet[1] == code
  }

  /** The DIO that a receiver reads from a packet. */
  ghost function DioRead(packet: seq<Byte>): Option<Dio> {
    if !HasCode(packet, ND_RPL_DAG_IO) then None
    else match ParseDio(packet[ICMP6_HEADER..])
      case None => None
      case Some(f) => DioIn(f)
  }

  ghost predicate DioOptionsOk(data: seq<Byte>) {
    |data| <= MAX_BYTES && WellFormed(data, 0) && Dests(data, OfType(data, 0, RPL_DIO_DESTPREFIX))
  }

  ghost function DioIn(f: DioFrame): Option<Dio> {
    if !DioOptionsOk(f.data) then None
    else
      var v := f.values;
      Some(Dio(v.rank, v.dtsn % 256, Advert(v.grounded, v.instance, v.version, v.mode, v.dagid),
        PrefixesAt(f.data, OfType(f.data, 0, RPL_DIO_DESTPREFIX))))
  }

  /** The DAO that a receiver reads, and the instance that it is for. */
  datatype DaoIn = DaoIn(instance: nat, dao: Dao)

  ghost function DaoRead(packet: seq<Byte>): Option<DaoIn> {
    if !HasCode(packet, ND_RPL_DAO) || ICMP6_HEADER + DAO_HEADER <= |packet| < OPTIONS_AT then None
    else match ParseDao(packet[ICMP6_HEADER..])
      case None => None
      case Some(f) => TargetsIn(f)
  }

  ghost predicate DaoOptionsOk(data: seq<Byte>) {
    |data| <= MAX_BYTES && WellFormed(data, 0) && Readable(data, OfType(data, 0, RPL_DAO_RPLTARGET))
  }

  ghost function TargetsIn(f: DaoFrame): Option<DaoIn> {
    if !DaoOptionsOk(f.data) then None
    else
      Some(DaoIn(f.instance,
        Dao(f.daoseq, f.ackWanted, TargetsAt(f.data, OfType(f.data, 0, RPL_DAO_RPLTARGET)))))
  }

  /** The targets that the receiver gets, if it can read the packet. */
  ghost function TargetsGot(packet: seq<Byte>): seq<Prefix> {
    match DaoRead(packet) case None => [] case Some(m) => m.dao.targets
  }

  function DaoNumber(packet: seq<Byte>): Byte {
    if |packet| < ICMP6_HEADER + DAO_HEADER then 0 else packet[7]
  }

  datatype AckIn = AckIn(instance: nat, daoseq: Byte)

  /** network_interface::receive_daoack up to the search for the DAG; without a DAGID it is ignored. */
  function AckRead(packet: seq<Byte>): Option<AckIn> {
    if !HasCode(packet, ND_RPL_DAO_ACK) || |packet| < ICMP6_HEADER + DAO_HEADER || packet[5] / 128 == 0 then None
    else Some(AckIn(packet[4], packet[6]))
  }

  /** find_by_instanceid, which looks at the instance only. */
  predicate Serves(s: NodeState, instance: nat) {
    s.advert.instance == instance
  }

  // ---------- what is sent is what is read ----------

  lemma DioCode(v: DioValues, prefix: Prefix, lifetime: nat)
    ensures HasCode(DioPacket(v, prefix, lifetime), ND_RPL_DAG_IO)
  {
    var front := HeaderFront(v);
    assert DioHeader(v)[0] == front[0] && DioHeader(v)[1] == front[1];
  }

  lemma DioInReads(f: DioFrame, prefixes: seq<Prefix>)
    requires |f.data| <= MAX_BYTES && Announces(f.data, prefixes)
    ensures var v := f.values;
      DioIn(f) == Some(Dio(v.rank, v.dtsn % 256, Advert(v.grounded, v.instance, v.version, v.mode, v.dagid), prefixes))
  {
  }

  lemma DioArrives(s: NodeState, lifetime: nat)
    ensures DioRead(DioBytes(s, lifetime)) == Some(DioOf(s))
  {
    hide DioPacket, ParseDio, Announces, DioIn, HasCode;
    DioCode(ValuesOf(s), s.prefix, lifetime);
    DioRoundTrip(ValuesOf(s), s.prefix, lifetime);
    DioInReads(ParseDio(DioBytes(s, lifetime)[ICMP6_HEADER..]).value, [Shown(s.prefix)]);
  }

  /** A node takes the DIO of another of the same instance just when the instance is a number of eight bits. */
  lemma HeardExactly(s: NodeState, t: NodeState, lifetime: nat)
    requires t.advert.instance == s.advert.instance
    ensures DioRead(DioBytes(s, lifetime)).Some?
    ensures Serves(t, DioRead(DioBytes(s, lifetime)).value.advert.instance) <==> s.advert.instance <= 255
  {
    hide DioRead, DioBytes;
    DioArrives(s, lifetime);
  }

  /** As many targets as MAX_TARGETS fit the buffer, and no more. */
  lemma RoomForTargets(targets: seq<Prefix>)
    ensures Fits(Addresses(targets), ICMP_BODY) <==> |targets| <= MAX_TARGETS
  {
  }

  lemma DaoCode(instance: nat, daoseq: nat, dagid: Dagid, targets: seq<Addr>)
    ensures var packet := DaoPacket(instance, daoseq, dagid, targets);
      HasCode(packet, ND_RPL_DAO) && |packet| >= OPTIONS_AT
  {
    hide TargetOptions;
    var header := DaoHeader(instance, daoseq, dagid);
    assert DaoPacket(instance, daoseq, dagid, targets)[..OPTIONS_AT] == header;
    assert header[0] == ND_RPL_MESSAGE && header[1] == ND_RPL_DAO;
  }

  lemma TargetsInReads(f: DaoFrame, targets: seq<Prefix>)
    requires |f.data| <= MAX_BYTES && ReadsAs(f.data, Addresses(targets))
    requires forall i :: 0 <= i < |targets| ==> targets[i].len == 128
    ensures TargetsIn(f) == Some(DaoIn(f.instance, Dao(f.daoseq, f.ackWanted, targets)))
  {
    hide OfType, WellFormed, Readable, TargetsAt;
    var ps := TargetsAt(f.data, OfType(f.data, 0, RPL_DAO_RPLTARGET));
    forall i | 0 <= i < |targets|
      ensures ps[i] == targets[i]
    {
      assert ps[i] == Prefix(Addresses(targets)[i], 128);
    }
    assert ps == targets;
  }

  lemma DaoBytesArePacket(s: NodeState, targets: seq<Prefix>)
    requires |targets| <= MAX_TARGETS
    ensures |DaoBytes(s, targets)| <= ICMP_BODY
    ensures DaoBytes(s, targets)
      == DaoPacket(s.advert.instance, SentDao(s).daoSequence, s.advert.dagid, Addresses(targets))
  {
    hide Built, DaoPacket, RoundUp, SentDao;
    BuiltIsPacket(s.advert.instance, SentDao(s).daoSequence, s.advert.dagid, Addresses(targets), ICMP_BODY);
  }

  lemma DaoArrives(s: NodeState, targets: seq<Prefix>)
    requires |targets| <= MAX_TARGETS && forall i :: 0 <= i < |targets| ==> targets[i].len == 128
    ensures DaoRead(DaoBytes(s, targets))
      == Some(DaoIn(s.advert.instance % 256, Dao(SentDao(s).daoSequence % 256, true, targets)))
  {
    hide DaoPacket, DaoBytes, ParseDao, TargetsIn, ReadsAs, HasCode, SentDao;
    var addrs, daoseq := Addresses(targets), SentDao(s).daoSequence;
    DaoBytesArePacket(s, targets);
    DaoCode(s.advert.instance, daoseq, s.advert.dagid, addrs);
    DaoRoundTrip(s.advert.instance, daoseq, s.advert.dagid, addrs);
    TargetsInReads(ParseDao(DaoBytes(s, targets)[ICMP6_HEADER..]).value, targets);
  }

  /** The frame of a DAO is the same however many targets there are. */
  lemma DaoFrameOf(s: NodeState, targets: seq<Prefix>)
    ensures var bytes := DaoBytes(s, targets);
      && OPTIONS_AT <= |bytes| <= ICMP_BODY && HasCode(bytes, ND_RPL_DAO)
      && DaoNumber(bytes) == SentDao(s).daoSequence % 256
      && ParseDao(bytes[ICMP6_HEADER..]) == Some(DaoFrame(s.advert.instance % 256, SentDao(s).daoSequence % 256, true,
            Some(s.advert.dagid), bytes[OPTIONS_AT..]))
  {
    hide Built, SentDao, RoundUp, DaoHeader, ParseDao;
    var daoseq := SentDao(s).daoSequence;
    BuiltHeader(s.advert.instance, daoseq, s.advert.dagid, Addresses(targets), ICMP_BODY);
    var bytes := DaoBytes(s, targets);
    var header := DaoHeader(s.advert.instance, daoseq, s.advert.dagid);
    assert bytes[..OPTIONS_AT] == header;
    FrameRead(bytes, s.advert.instance, daoseq, s.advert.dagid);
    HeaderFields(s.advert.instance, daoseq, s.advert.dagid);
    assert bytes[0] == header[0] && bytes[1] == header[1] && bytes[7] == header[7];
  }

  lemma HeaderFields(instance: nat, daoseq: nat, dagid: Dagid)
    ensures var header := DaoHeader(instance, daoseq, dagid);
      header[0] == ND_RPL_MESSAGE && header[1] == ND_RPL_DAO && header[7] == daoseq % 256
  {
  }

  lemma DaoFrontArrives(s: NodeState, targets: seq<Prefix>)
    ensures var bytes := DaoBytes(s, targets);
      && DaoNumber(bytes) == SentDao(s).daoSequence % 256
      && (DaoRead(bytes).Some? ==>
            DaoRead(bytes).value
              == DaoIn(s.advert.instance % 256, Dao(SentDao(s).daoSequence % 256, true, TargetsGot(bytes))))
  {
    hide DaoBytes, TargetsIn, SentDao, ParseDao, HasCode, DaoNumber;
    DaoFrameOf(s, targets);
    var bytes := DaoBytes(s, targets);
    if DaoRead(bytes).Some? {
      FrameOf(ParseDao(bytes[ICMP6_HEADER..]).value);
    }
  }

  lemma FrameOf(f: DaoFrame)
    requires TargetsIn(f).Some?
    ensures TargetsIn(f).value.instance == f.instance
    ensures TargetsIn(f).value.dao.daoseq == f.daoseq && TargetsIn(f).value.dao.ackWanted == f.ackWanted
  {
  }

  // ---------- more targets than fit ----------

  /** What is built with a few targets too many: a cut of what is built with those that fit. */
  lemma OverlongBuilt(instance: nat, daoseq: nat, dagid: Dagid, addrs: seq<Addr>)
    requires MAX_TARGETS <= |addrs| <= MAX_TARGETS + 16
    ensures Built(instance, daoseq, dagid, addrs, ICMP_BODY) == Laying(
      DaoHeader(instance, daoseq, dagid) + TargetOptions(addrs[..MAX_TARGETS]) + [0, 0, 0, 0],
      2044 - (|addrs| - MAX_TARGETS))
  {
    hide DaoHeader, TargetOptions, LayOne, LayAll;
    var header, first, more := DaoHeader(instance, daoseq, dagid), addrs[..MAX_TARGETS], addrs[MAX_TARGETS..];
    var start := Laying(header + Repeat<Byte>(0, ICMP_BODY - OPTIONS_AT), OPTIONS_AT);
    LaidThatFit(header, first, ICMP_BODY);
    assert Repeat<Byte>(0, 4) == [0, 0, 0, 0];
    LayParts(start, first, more);
    assert first + more == addrs;
    LaidPastTheEnd(LayAll(start, first), more);
  }

  /** Up to three targets too many are left out, and the others arrive. */
  lemma FirstTargetsArrive(s: NodeState, targets: seq<Prefix>)
    requires MAX_TARGETS <= |targets| <= MAX_TARGETS + 3 && forall i :: 0 <= i < |targets| ==> targets[i].len == 128
    ensures DaoRead(DaoBytes(s, targets))
      == Some(DaoIn(s.advert.instance % 256, Dao(SentDao(s).daoSequence % 256, true, targets[..MAX_TARGETS])))
  {
    hide DaoHeader, TargetOptions, Built, DaoRead, SentDao;
    var first := targets[..MAX_TARGETS];
    var daoseq := SentDao(s).daoSequence;
    OverlongBuilt(s.advert.instance, daoseq, s.advert.dagid, Addresses(targets));
    OverlongBuilt(s.advert.instance, daoseq, s.advert.dagid, Addresses(first));
    assert Addresses(first)[..MAX_TARGETS] == Addresses(targets)[..MAX_TARGETS];
    assert DaoBytes(s, targets) == DaoBytes(s, first);
    DaoArrives(s, first);
  }

  /** With 4 to 16 too many, the length cuts the last option, and the scan of the receiver runs past the end. */
  lemma CutTargetsAreLost(s: NodeState, targets: seq<Prefix>)
    requires MAX_TARGETS + 4 <= |targets| <= MAX_TARGETS + 16
    ensures DaoRead(DaoBytes(s, targets)) == None
  {
    hide DaoHeader, TargetOptions, Built, WellFormed, HasCode, ParseDao;
    var addrs := Addresses(targets)[..MAX_TARGETS];
    OverlongBuilt(s.advert.instance, SentDao(s).daoSequence, s.advert.dagid, Addresses(targets));
    DaoFrameOf(s, targets);
    var options, data := TargetOptions(addrs), DaoBytes(s, targets)[OPTIONS_AT..];
    assert data == options[..|data|];
    CutOptions(data, addrs);
  }

  lemma CutOptions(data: seq<Byte>, addrs: seq<Addr>)
    requires |addrs| == MAX_TARGETS && TARGET_SIZE * (MAX_TARGETS - 1) + GENOPTION < |data| < TARGET_SIZE * MAX_TARGETS
    requires data == TargetOptions(addrs)[..|data|]
    ensures !WellFormed(data, 0)
  {
    hide TargetOptions, WellFormed, TargetOption;
    var options, last := TargetOptions(addrs), MAX_TARGETS - 1;
    forall i | 0 <= i < last
      ensures data[0 + TARGET_SIZE * i..0 + TARGET_SIZE * i + TARGET_SIZE] == TargetOption(addrs[i])
    {
      OptionAt(addrs, i);
      assert data[TARGET_SIZE * i..TARGET_SIZE * i + TARGET_SIZE]
        == options[TARGET_SIZE * i..TARGET_SIZE * i + TARGET_SIZE];
    }
    OptionAt(addrs, last);
    OptionStarts(addrs[last]);
    var o := options[TARGET_SIZE * last..TARGET_SIZE * last + TARGET_SIZE];
    assert data[TARGET_SIZE * last] == o[0] && data[TARGET_SIZE * last + 1] == o[1];
    CutShort(data, 0, addrs);
  }

  lemma OptionStarts(a: Addr)
    ensures TargetOption(a)[0] == RPL_DAO_RPLTARGET && TargetOption(a)[1] == 18
  {
  }

  /** So, up to 16 too many, the receiver can read a DAO just when at most three targets are too many. */
  lemma ReadableExactly(s: NodeState, targets: seq<Prefix>)
    requires |targets| <= MAX_TARGETS + 16 && forall i :: 0 <= i < |targets| ==> targets[i].len == 128
    ensures DaoRead(DaoBytes(s, targets)).Some? <==> |targets| <= MAX_TARGETS + 3
  {
    hide DaoBytes, DaoRead;
    if |targets| <= MAX_TARGETS {
      DaoArrives(s, targets);
    } else if |targets| <= MAX_TARGETS + 3 {
      FirstTargetsArrive(s, targets);
    } else {
      CutTargetsAreLost(s, targets);
    }
  }

  /**
    The 118th target is laid over the 101st, from that one's address on: where
    the last address ends in zeros, the bytes are those of 101 targets, the last
    of them an address that nobody has.
   */
  lemma LastTargetOverwrites(s: NodeState, targets: seq<Prefix>)
    requires |targets| == MAX_TARGETS + 17 && targets[|targets| - 1].addr[12..] == [0, 0, 0, 0]
    ensures DaoBytes(s, targets) ==
      DaoBytes(s, targets[..MAX_TARGETS - 1] + [Prefix(Garbled(targets[|targets| - 1].addr), 128)])
  {
    hide DaoHeader, TargetOptions, Built, TargetOption, Garbled;
    var addrs, a := Addresses(targets), targets[|targets| - 1].addr;
    var instead := targets[..MAX_TARGETS - 1] + [Prefix(Garbled(a), 128)];
    var header := DaoHeader(s.advert.instance, SentDao(s).daoSequence, s.advert.dagid);
    var hundred := addrs[..MAX_TARGETS - 1];
    OverwrittenBuilt(s.advert.instance, SentDao(s).daoSequence, s.advert.dagid, addrs);
    OverlongBuilt(s.advert.instance, SentDao(s).daoSequence, s.advert.dagid, Addresses(instead));
    LastOption(Addresses(instead));
    assert Addresses(instead)[..MAX_TARGETS] == Addresses(instead);
    assert Addresses(instead)[..MAX_TARGETS - 1] == hundred;
    GarbledOption(a);
    var front := header + TargetOptions(hundred);
    Assoc(front, [RPL_DAO_RPLTARGET, 18, 0, 128], TargetOption(a));
    Assoc(front, TargetOption(Garbled(a)), [0, 0, 0, 0]);
    Assoc(header, TargetOptions(hundred), TargetOption(Garbled(a)));
  }

  lemma OverwrittenBuilt(instance: nat, daoseq: nat, dagid: Dagid, addrs: seq<Addr>)
    requires |addrs| == MAX_TARGETS + 17
    ensures Built(instance, daoseq, dagid, addrs, ICMP_BODY) == Laying(
      DaoHeader(instance, daoseq, dagid) + TargetOptions(addrs[..MAX_TARGETS - 1])
        + [RPL_DAO_RPLTARGET, 18, 0, 128] + TargetOption(addrs[|addrs| - 1]), ICMP_BODY)
  {
    hide DaoHeader, TargetOptions;
    var n := |addrs| - 1;
    var header, first := DaoHeader(instance, daoseq, dagid), addrs[..MAX_TARGETS];
    OverlongBuilt(instance, daoseq, dagid, addrs[..n]);
    assert addrs[..n][..MAX_TARGETS] == first && first[..MAX_TARGETS - 1] == addrs[..MAX_TARGETS - 1];
    LastOption(first);
    var l := Built(instance, daoseq, dagid, addrs[..n], ICMP_BODY);
    assert l.buff[..l.nextopt]
      == header + TargetOptions(addrs[..MAX_TARGETS - 1]) + [RPL_DAO_RPLTARGET, 18, 0, 128];
    assert l.buff[ICMP_BODY..] == [];
  }

  lemma TargetsWhole(s: NodeState, targets: seq<Prefix>)
    requires Elements(targets) == TargetSet(s)
    ensures forall i :: 0 <= i < |targets| ==> targets[i].len == 128
  {
    forall i | 0 <= i < |targets|
      ensures targets[i].len == 128
    {
      assert targets[i] in Elements(targets);
    }
  }

  /** With at most 101 targets, the receiver learns all of the sender's tables and nothing else. */
  lemma TablesArrive(s: NodeState, targets: seq<Prefix>)
    requires Elements(targets) == TargetSet(s) && |targets| <= MAX_TARGETS
    ensures DaoRead(DaoBytes(s, targets)).Some? && Elements(TargetsGot(DaoBytes(s, targets))) == TargetSet(s)
  {
    hide DaoBytes, DaoRead, TargetSet, Elements;
    TargetsWhole(s, targets);
    DaoArrives(s, targets);
  }

  lemma AckArrives(s: NodeState, daoseq: Byte)
    ensures AckRead(AckBytes(s, daoseq)) == Some(AckIn(s.advert.instance % 256, daoseq))
  {
  }

  // ---------- the network of bytes ----------

  datatype DioWire = DioWire(from: NodeId, packet: seq<Byte>)

  datatype DaoWire = DaoWire(from: NodeId, to: NodeId, count: nat, packet: seq<Byte>)

  datatype AckWire = AckWire(answered: DaoWire, packet: seq<Byte>)

  datatype WireNet = WireNet(nodes: map<NodeId, NodeState>, latest: map<NodeId, nat>,
                             dios: set<DioWire>, daos: set<DaoWire>, acks: set<AckWire>)

  datatype WireStep =
    | PutDio(n: NodeId, lifetime: nat)
    | TakeDio(n: NodeId, m: DioWire, iface: nat)
    | PutDao(n: NodeId, targets: seq<Prefix>)
    | TakeDao(d: DaoWire)
    | TakeAck(a: AckWire)

  ghost predicate DaoReadable(d: DaoWire) {
    DaoRead(d.packet).Some?
  }

  /** A DAO that the receiver would read past its end is not taken. */
  ghost predicate WireEnabled(w: WireNet, step: WireStep) {
    match step
    case PutDio(n, _) => n in w.nodes && Joined(w.nodes[n])
    case TakeDio(n, m, _) => n in w.nodes && m in w.dios
    case PutDao(n, targets) =>
      && n in w.nodes && n in w.latest && w.nodes[n].bestParent != None
      && Elements(targets) == TargetSet(w.nodes[n])
    case TakeDao(d) => d in w.daos && d.to in w.nodes && DaoReadable(d)
    case TakeAck(a) => a in w.acks && a.answered.from in w.nodes
  }

  /** What a packet does to the node that gets it: nothing if it cannot be read or is for another instance. */
  ghost function TakenDio(s: NodeState, m: DioWire, iface: nat): NodeState {
    match DioRead(m.packet)
    case None => s
    case Some(dio) => if Serves(s, dio.advert.instance) then ReceiveDio(s, Link(m.from, iface), dio) else s
  }

  ghost predicate ForNode(s: NodeState, d: DaoWire)
    requires DaoReadable(d)
  {
    Serves(s, DaoRead(d.packet).value.instance)
  }

  predicate AckForNode(s: NodeState, a: AckWire) {
    AckRead(a.packet).Some? && Serves(s, AckRead(a.packet).value.instance)
  }

  function Put(w: WireNet, n: NodeId, s: NodeState): WireNet {
    w.(nodes := w.nodes[n := s])
  }

  ghost function WireApply(w: WireNet, step: WireStep): WireNet
    requires WireEnabled(w, step)
  {
    match step
    case PutDio(n, lifetime) =>
      Put(w, n, SentDio(w.nodes[n])).(dios := w.dios + {DioWire(n, DioBytes(w.nodes[n], lifetime))})
    case TakeDio(n, m, iface) => Put(w, n, TakenDio(w.nodes[n], m, iface))
    case PutDao(n, targets) =>
      var s := w.nodes[n];
      Put(w, n, SentDao(s)).(
        latest := w.latest[n := w.latest[n] + 1],
        daos := w.daos + {DaoWire(n, s.bestParent.value.peer, w.latest[n] + 1, DaoBytes(s, targets))})
    case TakeDao(d) =>
      var s := w.nodes[d.to];
      if !ForNode(s, d) then w
      else
        var dao := DaoRead(d.packet).value.dao;
        Put(w, d.to, ReceiveDao(s, d.from, dao)).(
          acks := w.acks + (if SendsAck(s, d.from, dao) then {AckWire(d, AckBytes(s, dao.daoseq))} else {}))
    case TakeAck(a) =>
      var n := a.answered.from;
      if !AckForNode(w.nodes[n], a) then w
      else Put(w, n, ReceiveDaoack(w.nodes[n], a.answered.to, AckRead(a.packet).value.daoseq))
  }

  // ---------- what it stands for ----------

  ghost predicate DioReadable(m: DioWire) {
    DioRead(m.packet).Some?
  }

  ghost function DioMeant(m: DioWire): DioMsg
    requires DioReadable(m)
  {
    DioMsg(m.from, DioRead(m.packet).value)
  }

  /** A DAO that cannot be read has its number and no targets. */
  ghost function DaoMeant(d: DaoWire): DaoMsg {
    DaoMsg(d.from, d.to, d.count,
      match DaoRead(d.packet) case None => Dao(DaoNumber(d.packet), true, []) case Some(m) => m.dao)
  }

  /** The acknowledgement carries the number of the DAO that it answers. */
  ghost predicate AckOk(a: AckWire) {
    && DaoReadable(a.answered) && AckRead(a.packet).Some?
    && AckRead(a.packet).value.daoseq == DaoRead(a.answered.packet).value.dao.daoseq
  }

  ghost predicate WireInv(w: WireNet) {
    && (forall m :: m in w.dios ==> DioReadable(m))
    && (forall a :: a in w.acks ==> AckOk(a))
  }

  /** The network whose messages are what the receivers read. */
  ghost function Meaning(w: WireNet): Net
    requires WireInv(w)
  {
    Net(w.nodes, w.latest,
      set m | m in w.dios :: DioMeant(m),
      set d | d in w.daos :: DaoMeant(d),
      set a | a in w.acks :: AckMsg(DaoMeant(a.answered)))
  }

  /** The step of RplNetwork that a step stands for, if it does anything. */
  ghost function StepMeant(w: WireNet, step: WireStep): Option<Step>
    requires WireInv(w) && WireEnabled(w, step)
  {
    match step
    case PutDio(n, _) => Some(SendDio(n))
    case TakeDio(n, m, iface) =>
      if Serves(w.nodes[n], DioRead(m.packet).value.advert.instance) then Some(GetDio(n, DioMeant(m), iface)) else None
    case PutDao(n, targets) => Some(SendDao(n, TargetsGot(DaoBytes(w.nodes[n], targets))))
    case TakeDao(d) => if ForNode(w.nodes[d.to], d) then Some(GetDao(DaoMeant(d))) else None
    case TakeAck(a) =>
      if AckForNode(w.nodes[a.answered.from], a) then Some(GetAck(AckMsg(DaoMeant(a.answered)))) else None
  }

  /** A step on bytes is a step on what they mean, or no step. */
  ghost predicate Refines(w: WireNet, step: WireStep)
    requires WireInv(w) && WireEnabled(w, step)
  {
    var w' := WireApply(w, step);
    && WireInv(w')
    && match StepMeant(w, step)
       case None => Meaning(w') == Meaning(w)
       case Some(st) => Enabled(Meaning(w), st) && Meaning(w') == Apply(Meaning(w), st)
  }

  // ---------- every step ----------

  lemma PutDioRefines(w: WireNet, n: NodeId, lifetime: nat)
    requires WireInv(w) && WireEnabled(w, PutDio(n, lifetime))
    ensures Refines(w, PutDio(n, lifetime))
  {
    hide DioBytes, DioOf, SentDio, DioRead;
    var m := DioWire(n, DioBytes(w.nodes[n], lifetime));
    DioArrives(w.nodes[n], lifetime);
    var w' := WireApply(w, PutDio(n, lifetime));
    assert DioReadable(m) && WireInv(w');
    assert Meaning(w').dios == Meaning(w).dios + {DioMeant(m)};
  }

  lemma TakeDioRefines(w: WireNet, n: NodeId, m: DioWire, iface: nat)
    requires WireInv(w) && WireEnabled(w, TakeDio(n, m, iface))
    ensures Refines(w, TakeDio(n, m, iface))
  {
    hide ReceiveDio, DioRead;
    assert DioReadable(m);
    assert w.nodes[n := w.nodes[n]] == w.nodes;
    assert DioMeant(m) in Meaning(w).dios;
  }

  lemma PutDaoRefines(w: WireNet, n: NodeId, targets: seq<Prefix>)
    requires WireInv(w) && WireEnabled(w, PutDao(n, targets))
    ensures Refines(w, PutDao(n, targets))
  {
    hide DaoBytes, TargetSet, DaoRead, Elements, DaoNumber;
    var s := w.nodes[n];
    var d := DaoWire(n, s.bestParent.value.peer, w.latest[n] + 1, DaoBytes(s, targets));
    DaoFrontArrives(s, targets);
    var w' := WireApply(w, PutDao(n, targets));
    assert Meaning(w').daos == Meaning(w).daos + {DaoMeant(d)};
  }

  lemma TakeDaoRefines(w: WireNet, d: DaoWire)
    requires WireInv(w) && WireEnabled(w, TakeDao(d))
    ensures Refines(w, TakeDao(d))
  {
    hide ReceiveDao, DaoRead, AckBytes, AckRead;
    assert DaoMeant(d) in Meaning(w).daos;
    var s := w.nodes[d.to];
    if ForNode(s, d) && SendsAck(s, d.from, DaoRead(d.packet).value.dao) {
      var daoseq := DaoRead(d.packet).value.dao.daoseq;
      var a := AckWire(d, AckBytes(s, daoseq));
      AckArrives(s, daoseq);
      var w' := WireApply(w, TakeDao(d));
      assert AckOk(a) && WireInv(w');
      assert Meaning(w').acks == Meaning(w).acks + {AckMsg(DaoMeant(d))};
    }
  }

  lemma TakeAckRefines(w: WireNet, a: AckWire)
    requires WireInv(w) && WireEnabled(w, TakeAck(a))
    ensures Refines(w, TakeAck(a))
  {
    hide ReceiveDaoack, DaoRead, AckRead;
    assert AckOk(a);
    assert AckMsg(DaoMeant(a.answered)) in Meaning(w).acks;
  }

  lemma StepRefines(w: WireNet, step: WireStep)
    requires WireInv(w) && WireEnabled(w, step)
    ensures Refines(w, step)
  {
    hide WireInv, Refines, WireEnabled;
    match step
    case PutDio(n, lifetime) => PutDioRefines(w, n, lifetime);
    case TakeDio(n, m, iface) => TakeDioRefines(w, n, m, iface);
    case PutDao(n, targets) => PutDaoRefines(w, n, targets);
    case TakeDao(d) => TakeDaoRefines(w, d);
    case TakeAck(a) => TakeAckRefines(w, a);
  }

  // ---------- runs ----------

  datatype WireRun = WireRun(nets: seq<WireNet>, steps: seq<WireStep>)

  ghost predicate WireInitial(w: WireNet, root: NodeId) {
    w.dios == {} && w.daos == {} && w.acks == {} && Initial(Net(w.nodes, w.latest, {}, {}, {}), root)
  }

  ghost predicate IsWireRun(r: WireRun, root: NodeId) {
    && |r.nets| == |r.steps| + 1
    && WireInitial(r.nets[0], root)
    && forall i :: 0 <= i < |r.steps| ==>
         WireEnabled(r.nets[i], r.steps[i]) && r.nets[i + 1] == WireApply(r.nets[i], r.steps[i])
  }

  /** Every state of a run on bytes is, by its meaning, the last state of a run of RplNetwork from the same start. */
  lemma {:induction false} RunRefines(r: WireRun, root: NodeId, i: nat) returns (run: Run)
    requires IsWireRun(r, root) && i < |r.nets|
    ensures WireInv(r.nets[i]) && IsRun(run, root) && |run.steps| <= i && run.nets != []
    ensures run.nets[0].nodes == r.nets[0].nodes && Last(run) == Meaning(r.nets[i])
  {
    hide WireApply, WireEnabled, Apply, Enabled, WireInv, Initial, Meaning;
    if i == 0 {
      InitialMeaning(r.nets[0], root);
      run := Run([Meaning(r.nets[0])], []);
    } else {
      run := RunRefines(r, root, i - 1);
      StepRefines(r.nets[i - 1], r.steps[i - 1]);
      match StepMeant(r.nets[i - 1], r.steps[i - 1])
      case None =>
      case Some(step) =>
        run := Longer(run, root, step);
    }
  }

  lemma InitialMeaning(w: WireNet, root: NodeId)
    requires WireInitial(w, root)
    ensures WireInv(w) && Meaning(w) == Net(w.nodes, w.latest, {}, {}, {})
  {
  }

  /** A path of best parents. */
  ghost predicate WirePath(w: WireNet, path: seq<NodeId>) {
    && path != []
    && (forall k :: 0 <= k < |path| ==> path[k] in w.nodes)
    && forall k :: 0 <= k < |path| - 1 ==> PeerOf(w.nodes[path[k]].bestParent) == Some(path[k + 1])
  }

  /** Loop freedom, with nothing but bytes between the nodes. */
  lemma WireLoopFree(r: WireRun, root: NodeId, i: nat, path: seq<NodeId>)
    requires IsWireRun(r, root) && |r.nets[0].nodes| < USHORT_SPAN && i < |r.nets|
    requires WirePath(r.nets[i], path) && |path| > 1
    ensures path[0] != path[|path| - 1]
  {
    hide WireInv, IsRun;
    var run := RunRefines(r, root, i);
    assert BestPath(Meaning(r.nets[i]), path);
    LoopFree(run, root, |run.nets| - 1, path);
  }

  lemma WireReachesTheRoot(r: WireRun, root: NodeId, i: nat, n: NodeId) returns (path: seq<NodeId>)
    requires IsWireRun(r, root) && |r.nets[0].nodes| < USHORT_SPAN && i < |r.nets|
    requires n in r.nets[i].nodes && Joined(r.nets[i].nodes[n])
    ensures WirePath(r.nets[i], path) && path[0] == n && path[|path| - 1] == root
    ensures |path| <= r.nets[i].nodes[n].myRank < USHORT_SPAN
  {
    hide WireInv, IsRun, JoinedSet;
    var run := RunRefines(r, root, i);
    path := EveryoneReachesTheRoot(run, root, |run.nets| - 1, n);
    assert BestPath(Meaning(r.nets[i]), path);
  }

  lemma WireAgreement(r: WireRun, root: NodeId, i: nat)
    requires IsWireRun(r, root) && i < |r.nets|
    ensures WireInv(r.nets[i]) && RplAgreement.AgreementInv(Meaning(r.nets[i]))
  {
    hide IsRun, IsWireRun, WireInv, RplAgreement.AgreementInv;
    var run := RunRefines(r, root, i);
    RplAgreement.RunKeepsAgreement(run, root, |run.nets| - 1);
  }

  /**
    A node that accepts the bytes of a DAO-ACK commits to its best parent.  They
    answer its latest DAO, and the parent has, from then on for ever, the same
    route for every target that it read in it.
   */
  lemma WireCommitMeansAgreement(r: WireRun, root: NodeId, i: nat, a: AckWire, j: nat)
    requires IsWireRun(r, root) && i < |r.steps| && r.steps[i] == TakeAck(a)
    requires var s := r.nets[i].nodes[a.answered.from];
      AckForNode(s, a) && AckAccepted(s, a.answered.to, AckRead(a.packet).value.daoseq)
    requires a.answered.from in r.nets[i].latest && r.nets[i].latest[a.answered.from] < USHORT_SPAN
    requires i <= j < |r.nets|
    ensures a.answered.count == r.nets[i].latest[a.answered.from] && DaoReadable(a.answered)
    ensures a.answered.from in r.nets[i + 1].nodes
    ensures r.nets[i + 1].nodes[a.answered.from].parent == r.nets[i].nodes[a.answered.from].bestParent
    ensures PeerOf(r.nets[i].nodes[a.answered.from].bestParent) == Some(a.answered.to)
    ensures a.answered.to in r.nets[i].nodes && a.answered.to in r.nets[j].nodes
    ensures forall p :: p in TargetsGot(a.answered.packet) ==>
      SameRoute(r.nets[i].nodes[a.answered.to], r.nets[j].nodes[a.answered.to], p)
  {
    hide WireInv, RplAgreement.AgreementInv, RplAgreement.HasRoute, DaoRead, AckRead, Commit, SameRoute;
    WireAgreement(r, root, i);
    var net, ack, to := Meaning(r.nets[i]), AckMsg(DaoMeant(a.answered)), a.answered.to;
    assert AckOk(a) by {
      AcksAreOk(r.nets[i], a);
    }
    assert ack in net.acks;
    RplAgreement.AcceptedAckAgrees(net, ack);
    RplAgreement.CommitSetsParent(r.nets[i].nodes[a.answered.from]);
    WireNodesStay(r, root, i, j);
    forall p | p in TargetsGot(a.answered.packet)
      ensures SameRoute(r.nets[i].nodes[to], r.nets[j].nodes[to], p)
    {
      WireRoutesLast(r, root, i, j, to, p);
    }
  }

  lemma {:induction false} WireNodesStay(r: WireRun, root: NodeId, i: nat, j: nat)
    requires IsWireRun(r, root) && i <= j < |r.nets|
    ensures r.nets[j].nodes.Keys == r.nets[i].nodes.Keys
    decreases j - i
  {
    if i < j {
      StepKeepsNodes(r.nets[i], r.steps[i]);
      WireNodesStay(r, root, i + 1, j);
    }
  }

  lemma StepKeepsNodes(w: WireNet, step: WireStep)
    requires WireEnabled(w, step)
    ensures WireApply(w, step).nodes.Keys == w.nodes.Keys
  {
  }

  lemma AcksAreOk(w: WireNet, a: AckWire)
    requires WireInv(w) && a in w.acks
    ensures AckOk(a)
  {
  }

  /** Both nodes have a route for the prefix, with the same entry. */
  ghost predicate SameRoute(s: NodeState, t: NodeState, p: Prefix) {
    RplAgreement.HasRoute(s, p) && RplAgreement.HasRoute(t, p) && t.children[p] == s.children[p]
  }

  lemma {:induction false} WireRoutesLast(r: WireRun, root: NodeId, i: nat, j: nat, n: NodeId, p: Prefix)
    requires IsWireRun(r, root) && i <= j < |r.nets| && n in r.nets[i].nodes
    requires RplAgreement.HasRoute(r.nets[i].nodes[n], p)
    ensures n in r.nets[j].nodes && SameRoute(r.nets[i].nodes[n], r.nets[j].nodes[n], p)
    decreases j - i
  {
    hide WireInv, WireApply, WireEnabled, Apply, Enabled, Initial, RplAgreement.AgreementInv;
    if i < j {
      WireAgreement(r, root, i);
      StepRefines(r.nets[i], r.steps[i]);
      var step := StepMeant(r.nets[i], r.steps[i]);
      if step.Some? {
        RplAgreement.StepKeepsAgreement(Meaning(r.nets[i]), step.value);
        RplAgreement.RouteStays(r.nets[i].nodes[n], r.nets[i + 1].nodes[n], p);
      }
      WireRoutesLast(r, root, i + 1, j, n, p);
    }
  }

  // ---------- a DIO and a handshake in bytes ----------

  /** The bytes of a DIO do to a node of the same instance what the DIO does, if the instance has eight bits. */
  lemma WireDio(w: WireNet, p: NodeId, lifetime: nat, c: NodeId, iface: nat)
    returns (m: DioWire, w1: WireNet, w2: WireNet)
    requires WireEnabled(w, PutDio(p, lifetime)) && c in w.nodes && c != p
    requires w.nodes[c].advert.instance == w.nodes[p].advert.instance <= 255
    ensures w1 == WireApply(w, PutDio(p, lifetime))
    ensures WireEnabled(w1, TakeDio(c, m, iface)) && w2 == WireApply(w1, TakeDio(c, m, iface))
    ensures w2.nodes[c] == ReceiveDio(w.nodes[c], Link(p, iface), DioOf(w.nodes[p]))
  {
    hide ReceiveDio, DioBytes, DioRead;
    m, w1 := DioWire(p, DioBytes(w.nodes[p], lifetime)), WireApply(w, PutDio(p, lifetime));
    DioArrives(w.nodes[p], lifetime);
    w2 := WireApply(w1, TakeDio(c, m, iface));
  }

  /** A node and its best parent, which is active and of the same instance. */
  predicate MayCommit(w: WireNet, n: NodeId) {
    && n in w.nodes && n in w.latest && w.latest[n] + 1 < USHORT_SPAN && w.nodes[n].bestParent != None
    && var p := w.nodes[n].bestParent.value.peer;
    && p in w.nodes && w.nodes[p].cfg.active && w.nodes[p].advert.instance == w.nodes[n].advert.instance <= 255
  }

  /** The bytes of a DAO and of its answer make the node commit up to number 255 and no further. */
  lemma WireHandshake(w: WireNet, root: NodeId, n: NodeId, targets: seq<Prefix>)
    returns (d: DaoWire, a: AckWire, w1: WireNet, w2: WireNet, w3: WireNet)
    requires WireInv(w) && RankInv(Meaning(w), root) && RplAgreement.AgreementInv(Meaning(w))
    requires MayCommit(w, n) && WireEnabled(w, PutDao(n, targets)) && |targets| <= MAX_TARGETS
    ensures w1 == WireApply(w, PutDao(n, targets))
    ensures WireEnabled(w1, TakeDao(d)) && w2 == WireApply(w1, TakeDao(d))
    ensures WireEnabled(w2, TakeAck(a)) && w3 == WireApply(w2, TakeAck(a)) && n in w3.nodes && d.to in w3.nodes
    ensures PeerOf(w.nodes[n].bestParent) == Some(d.to)
    ensures forall p :: p in targets ==> RplAgreement.HasRoute(w3.nodes[d.to], p)
    ensures w3.nodes[n].parent == if w.latest[n] + 1 <= 255 then w3.nodes[n].bestParent else w.nodes[n].parent
  {
    hide WireInv, WireEnabled, WireApply, RankInv, RplAgreement.AgreementInv, RplAgreement.HasRoute, Apply, Enabled;
    hide DaoRead, AckRead, RplAgreement.Commits, RplNetwork.SameRank, RplReach.SameStart;
    RplReach.ParentFacts(Meaning(w), root, n);
    var d', net1, net2, net3 := RplReach.Handshake(Meaning(w), root, n, targets);
    d, w1 := PutMeans(w, n, targets);
    a, w2 := TakeMeans(w1, d);
    w3 := AnswerMeans(w2, a);
  }

  lemma PutMeans(w: WireNet, n: NodeId, targets: seq<Prefix>) returns (d: DaoWire, w1: WireNet)
    requires WireInv(w) && n in w.nodes && WireEnabled(w, PutDao(n, targets)) && |targets| <= MAX_TARGETS
    ensures w1 == WireApply(w, PutDao(n, targets)) && WireInv(w1)
    ensures Enabled(Meaning(w), SendDao(n, targets)) && Meaning(w1) == Apply(Meaning(w), SendDao(n, targets))
    ensures d in w1.daos && DaoReadable(d) && DaoMeant(d) == DaoSent(Meaning(w), n, targets)
    ensures DaoRead(d.packet).value.instance == w.nodes[n].advert.instance % 256
    ensures DaoRead(d.packet).value.dao.ackWanted
    ensures w1.nodes == w.nodes[n := SentDao(w.nodes[n])]
  {
    hide DaoBytes, DaoRead, TargetSet, Elements, SentDao;
    var s := w.nodes[n];
    d := DaoWire(n, s.bestParent.value.peer, w.latest[n] + 1, DaoBytes(s, targets));
    w1 := WireApply(w, PutDao(n, targets));
    TargetsWhole(s, targets);
    DaoArrives(s, targets);
    PutDaoRefines(w, n, targets);
  }

  lemma TakeMeans(w: WireNet, d: DaoWire) returns (a: AckWire, w1: WireNet)
    requires WireInv(w) && d in w.daos && DaoReadable(d) && d.to in w.nodes
    requires ForNode(w.nodes[d.to], d) && SendsAck(w.nodes[d.to], d.from, DaoRead(d.packet).value.dao)
    ensures WireEnabled(w, TakeDao(d)) && w1 == WireApply(w, TakeDao(d)) && WireInv(w1)
    ensures Enabled(Meaning(w), GetDao(DaoMeant(d))) && Meaning(w1) == Apply(Meaning(w), GetDao(DaoMeant(d)))
    ensures a in w1.acks && a.answered == d && AckRead(a.packet).Some?
    ensures AckRead(a.packet).value.instance == w.nodes[d.to].advert.instance % 256
    ensures w1.nodes == w.nodes[d.to := ReceiveDao(w.nodes[d.to], d.from, DaoRead(d.packet).value.dao)]
  {
    hide ReceiveDao, DaoRead, AckBytes, AckRead;
    var s, daoseq := w.nodes[d.to], DaoRead(d.packet).value.dao.daoseq;
    a, w1 := AckWire(d, AckBytes(s, daoseq)), WireApply(w, TakeDao(d));
    AckArrives(s, daoseq);
    TakeDaoRefines(w, d);
  }

  lemma AnswerMeans(w: WireNet, a: AckWire) returns (w1: WireNet)
    requires WireInv(w) && a in w.acks && a.answered.from in w.nodes && AckForNode(w.nodes[a.answered.from], a)
    ensures WireEnabled(w, TakeAck(a)) && w1 == WireApply(w, TakeAck(a)) && WireInv(w1)
    ensures Enabled(Meaning(w), GetAck(AckMsg(DaoMeant(a.answered))))
    ensures Meaning(w1) == Apply(Meaning(w), GetAck(AckMsg(DaoMeant(a.answered))))
  {
    hide ReceiveDaoack, DaoRead, AckRead;
    w1 := WireApply(w, TakeAck(a));
    TakeAckRefines(w, a);
  }
}
