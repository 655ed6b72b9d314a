/**
  One RPL node as functions on its state: what a DIO, a DAO and a DAO-ACK do to
  it, and what it sends (dag.cpp).  A peer is known by its address, an interface
  by a number.  The class DagNetwork does the same in place.
 */
module DagSpec {
  import opened Common
  import opened RplTypes

  type NodeId = nat

  const RANK_INFINITE: nat := 65537
  const INVALID_SEQUENCE: nat := 257
  const UINT_MAX: nat := 0xFFFF_FFFF

  // ---------- data ----------

  const NO_PREFIX: Prefix := Prefix(Repeat<Byte>(0, ADDR_LEN), 0)

  /** A DAG Information Object, with the prefixes of its options. */
  datatype Dio = Dio(rank: nat, dtsn: Byte, advert: Advert, prefixes: seq<Prefix>)

  /** A DAO, with its targets. */
  datatype Dao = Dao(daoseq: Byte, ackWanted: bool, targets: seq<Prefix>)

  datatype Child = Child(announcer: NodeId, installed: bool)

  /** A call of add_route_to_node. */
  datatype Route = Route(prefix: Prefix, via: NodeId)

  datatype Link = Link(peer: NodeId, iface: nat)

  /** What does not change while the node runs; `iid` is the low half of the addresses it configures. */
  datatype Config = Config(me: NodeId, iid: Identifier, active: bool, ignorePio: bool)

  /** What a node takes over from its parent's DIO. */
  datatype Advert = Advert(grounded: bool, instance: nat, version: nat, mode: Mode, dagid: Dagid)

  /** A call of add_parent_route_to_prefix, or of add_parent_route_to_default for no prefix. */
  datatype Upward = Upward(prefix: Option<Prefix>, via: Link)

  datatype NodeState = NodeState(
    cfg: Config,
    lastSeq: nat,                   // mLastSeq
    dioReceived: nat,               // mStats[PS_DIO_PACKET_RECEIVED]
    myRank: nat,
    bestRank: nat,
    dtsn: nat,                      // mDTSN
    daoSequence: nat,               // mDAOSequence
    advert: Advert,
    prefix: Prefix,                 // mPrefix
    bestParent: Option<Link>,
    parent: Option<Link>,
    lastParent: Option<NodeId>,
    children: map<Prefix, Child>,
    learnt: map<Prefix, bool>,      // dag_prefixes, with the flag `installed`
    announced: map<Prefix, Prefix>,
    routes: seq<Route>,
    upward: seq<Upward>,            // routes towards the parent
    daoNeeded: bool,
    daoQueued: bool,                // a send_dao event is in the queue
    dioQueued: bool)                // a send_dio event is in the queue

  function PeerOf(l: Option<Link>): Option<NodeId> {
    match l case None => None case Some(link) => Some(link.peer)
  }

  predicate RootNode(s: NodeState) {
    s.myRank == 1
  }

  /** dag_rank_infinite is false: the node has joined the DAG. */
  predicate Joined(s: NodeState) {
    s.bestRank < RANK_INFINITE
  }

  /** init_dag. */
  function Fresh(
    me: NodeId, iid: Identifier, active: bool, ignorePio: bool, instance: nat, dagid: Dagid): NodeState
  {
    NodeState(Config(me, iid, active, ignorePio), 0, 0, UINT_MAX, UINT_MAX, INVALID_SEQUENCE, 1,
      Advert(false, instance, 1, 3, dagid), NO_PREFIX, None, None, None,
      map[], map[], map[], [], [], false, false, false)
  }

  // ---------- sequence numbers ----------

  /** seq_too_old, with the comparisons of the source. */
  function SeqTooOld(last: nat, seqno: Byte): bool {
    var low := last % 256;
    var diff := seqno - low;
    if 0 < diff < 128 then false
    else if -128 < diff < 0 then true
    else low < 128 && seqno > 128 && diff > 128
  }

  /** seq_update, in unsigned int. */
  function SeqUpdate(last: nat, seqno: Byte): nat {
    var low := last % 256;
    if seqno > low then (last + (seqno - low)) % UINT_SPAN
    else if seqno + 256 > low then (last + (seqno + 256 - low)) % UINT_SPAN
    else last
  }

  // ---------- scheduling ----------

  function ScheduleDio(s: NodeState): NodeState {
    if Joined(s) then s.(dioQueued := true) else s
  }

  function MaybeScheduleDio(s: NodeState): NodeState {
    if s.lastParent != PeerOf(s.parent) then ScheduleDio(s).(lastParent := PeerOf(s.parent)) else s
  }

  function MaybeSendDao(s: NodeState): NodeState {
    if s.daoNeeded && s.bestParent != None then
      s.(daoNeeded := false, daoQueued := s.daoQueued || !RootNode(s))
    else s
  }

  // ---------- DIO ----------

  /** The address configured in a prefix: its upper 64 bits, and the interface's identifier. */
  function OwnAddress(s: NodeState, p: Prefix): Prefix {
    Prefix(p.addr[..ADDR_LEN - IID_LEN] + s.cfg.iid, 128)
  }

  /** set_installed assigns its own parameter; the flag of the prefix stays. */
  function SetInstalled(flag: bool, installed: bool): bool {
    flag
  }

  /** add_prefix; set_prefix resets the flag of the prefix, so that cfg_new_node takes the address as new. */
  function AddPrefix(s: NodeState, p: Prefix): NodeState {
    var s1 :=
      if p in s.learnt && s.learnt[p] then s
      else MaybeScheduleDio(
        s.(prefix := p, learnt := s.learnt[p := SetInstalled(false, true)], daoNeeded := true));
    if s1.cfg.ignorePio then s1
    else s1.(announced := s1.announced[p := OwnAddress(s1, p)], daoNeeded := true)
  }

  function AddPrefixes(s: NodeState, ps: seq<Prefix>): NodeState {
    if ps == [] then s else AddPrefix(AddPrefixes(s, ps[..|ps| - 1]), ps[|ps| - 1])
  }

  datatype DioOutcome = SeqOld | SelfPacket | Watched | RankRejected | SameParent | SameSequence | Adopted

  /** The values that a node takes from the DIO of its new best parent. */
  function TakeOver(s: NodeState, from: Link, dio: Dio): NodeState {
    s.(dtsn := dio.dtsn, bestRank := dio.rank, myRank := dio.rank + 1, advert := dio.advert, bestParent := Some(from))
  }

  /** DIOs are sent only once there is a confirmed parent; a DAO goes to the new one. */
  function ScheduleAfterAdoption(s: NodeState): NodeState {
    MaybeSendDao(if s.parent != None then MaybeScheduleDio(s) else s)
  }

  function Adopt(s: NodeState, from: Link, dio: Dio): NodeState {
    ScheduleAfterAdoption(AddPrefixes(TakeOver(s, from, dio), dio.prefixes))
  }

  function RankOutcome(s: NodeState, from: NodeId, dio: Dio): DioOutcome {
    if dio.rank > s.bestRank then RankRejected
    else if PeerOf(s.bestParent) == Some(from) || PeerOf(s.parent) == Some(from) then SameParent
    else if s.dtsn != INVALID_SEQUENCE && s.dtsn >= dio.dtsn then SameSequence
    else Adopted
  }

  /** potentially_lower_rank. */
  function LowerRank(s: NodeState, from: Link, dio: Dio): NodeState {
    if RankOutcome(s, from.peer, dio) == Adopted then Adopt(s, from, dio) else s
  }

  function DioOutcomeOf(s: NodeState, from: NodeId, dio: Dio): DioOutcome {
    if SeqTooOld(s.lastSeq, dio.dtsn) && dio.dtsn != 0 && (s.dioReceived + 1) % UINT_SPAN != 1 then SeqOld
    else if from == s.cfg.me then SelfPacket
    else if !s.cfg.active then Watched
    else RankOutcome(s, from, dio)
  }

  /** receive_dio. */
  function ReceiveDio(s: NodeState, from: Link, dio: Dio): NodeState {
    var s1 := s.(dioReceived := (s.dioReceived + 1) % UINT_SPAN);
    var outcome := DioOutcomeOf(s, from.peer, dio);
    if outcome == SeqOld || outcome == SelfPacket then s1
    else
      var s2 := s1.(lastSeq := SeqUpdate(s.lastSeq, dio.dtsn));
      if outcome == Watched then s2 else LowerRank(s2, from, dio)
  }

  /** The DIO that build_dio makes, of the prefix only what its length covers. */
  function DioOf(s: NodeState): Dio {
    Dio(s.myRank % USHORT_SPAN, s.dtsn % 256,
        s.advert.(instance := s.advert.instance % 256, version := s.advert.version % 256), [Shown(s.prefix)])
  }

  function SentDio(s: NodeState): NodeState {
    s.(dtsn := (s.dtsn + 1) % USHORT_SPAN)
  }

  // ---------- DAO ----------

  /** add_childnode: the first announcer of a prefix gets its route, later ones change nothing. */
  function AddChild(s: NodeState, from: NodeId, p: Prefix): NodeState {
    if p in s.children && s.children[p].installed then s
    else s.(children := s.children[p := Child(from, true)], routes := s.routes + [Route(p, from)], daoNeeded := true)
  }

  function AddChildren(s: NodeState, from: NodeId, ps: seq<Prefix>): NodeState {
    if ps == [] then s else AddChild(AddChildren(s, from, ps[..|ps| - 1]), from, ps[|ps| - 1])
  }

  /** receive_dao. */
  function ReceiveDao(s: NodeState, from: NodeId, dao: Dao): NodeState {
    if from == s.cfg.me || !s.cfg.active then s else MaybeSendDao(AddChildren(s, from, dao.targets))
  }

  predicate SendsAck(s: NodeState, from: NodeId, dao: Dao) {
    from != s.cfg.me && s.cfg.active && dao.ackWanted
  }

  /** send_dao uses up a sequence number when there is a parent to send to. */
  function SentDao(s: NodeState): NodeState {
    if s.bestParent == None then s else s.(daoSequence := (s.daoSequence + 1) % USHORT_SPAN)
  }

  /** What build_dao is about: each child, and each own address, as a whole address. */
  function TargetSet(s: NodeState): set<Prefix> {
    (set p | p in s.children :: Prefix(p.addr, 128)) + (set p | p in s.announced :: Prefix(s.announced[p].addr, 128))
  }

  // ---------- DAO-ACK ----------

  predicate AckAccepted(s: NodeState, from: NodeId, daoseq: Byte) {
    PeerOf(s.bestParent) == Some(from) && daoseq == s.daoSequence
  }

  /** The routes that commit_parent installs: to the DAG's prefix, and to anywhere when the DAG is grounded. */
  function RoutesUp(s: NodeState, parent: Link): (r: seq<Upward>)
    ensures r != [] && forall i :: 0 <= i < |r| ==> r[i].via == parent
  {
    [Upward(Some(s.prefix), parent)] + (if s.advert.grounded then [Upward(None, parent)] else [])
  }

  /** commit_parent. */
  function Commit(s: NodeState): NodeState
    requires s.bestParent != None
  {
    if s.bestParent != s.parent then
      MaybeScheduleDio(s.(lastParent := PeerOf(s.parent), parent := s.bestParent,
        upward := s.upward + RoutesUp(s, s.bestParent.value)))
    else s
  }

  /** receive_daoack. */
  function ReceiveDaoack(s: NodeState, from: NodeId, daoseq: Byte): NodeState {
    if AckAccepted(s, from, daoseq) then Commit(s) else s
  }
}
