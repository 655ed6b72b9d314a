/**
  class dag_network with its fields updated in place; every method is proved
  equal to the function of DagSpec that specifies it.
 */
module DagNetwork {
  import opened Common
  import opened Spec = DagSpec
  import opened RplTypes

  class DagNetwork {
    const cfg: Config
    var mLastSeq: nat
    var mDioReceived: nat
    var mMyRank: nat
    var mBestRank: nat
    var mDTSN: nat
    var mDAOSequence: nat
    var mAdvert: Advert        // mGrounded, mInstanceid, mVersion, mMode and mDagid
    var mPrefix: Prefix
    var dagBestparent: Option<Link>
    var dagParent: Option<Link>
    var dagLastparent: Option<NodeId>
    var dagChildren: map<Prefix, Child>
    var dagPrefixes: map<Prefix, bool>    // the flag `installed` of each
    var dagAnnounced: map<Prefix, Prefix>
    var routes: seq<Route>
    var upward: seq<Upward>
    var daoNeeded: bool
    var daoQueued: bool
    var dioQueued: bool

    function State(): NodeState
      reads this
    {
      NodeState(cfg, mLastSeq, mDioReceived, mMyRank, mBestRank, mDTSN, mDAOSequence, mAdvert, mPrefix,
        dagBestparent, dagParent, dagLastparent, dagChildren, dagPrefixes, dagAnnounced, routes, upward,
        daoNeeded, daoQueued, dioQueued)
    }

    /** init_dag. */
    constructor (me: NodeId, iid: Identifier, active: bool, ignorePio: bool, instance: nat, dagid: Dagid)
      ensures State() == Fresh(me, iid, active, ignorePio, instance, dagid)
    {
      cfg := Config(me, iid, active, ignorePio);
      mLastSeq, mDioReceived := 0, 0;
      mMyRank, mBestRank := UINT_MAX, UINT_MAX;
      mDTSN, mDAOSequence := INVALID_SEQUENCE, 1;
      mAdvert := Advert(false, instance, 1, 3, dagid);
      mPrefix := NO_PREFIX;
      dagBestparent, dagParent, dagLastparent := None, None, None;
      dagChildren, dagPrefixes, dagAnnounced := map[], map[], map[];
      routes, upward := [], [];
      daoNeeded, daoQueued, dioQueued := false, false, false;
    }

    method SeqTooOld(seqno: Byte) returns (tooOld: bool)
      ensures tooOld == Spec.SeqTooOld(mLastSeq, seqno)
    {
      var low8bit := mLastSeq % 256;
      var diff := seqno - low8bit;
      if diff > 0 && diff < 128 {
        return false;
      }
      if diff < 0 && diff > -128 {
        return true;
      }
      if low8bit < 128 && seqno > 128 && diff > 128 {
        return true;
      }
      return false;
    }

    method SeqUpdate(seqno: Byte)
      modifies this`mLastSeq
      ensures mLastSeq == Spec.SeqUpdate(old(mLastSeq), seqno)
    {
      var low8bit := mLastSeq % 256;
      if seqno > low8bit {
        mLastSeq := (mLastSeq + (seqno - low8bit)) % UINT_SPAN;
      } else if seqno + 256 > low8bit {
        mLastSeq := (mLastSeq + (seqno + 256 - low8bit)) % UINT_SPAN;
      }
    }

    method ScheduleDio()
      modifies this`dioQueued
      ensures State() == Spec.ScheduleDio(old(State()))
    {
      if mBestRank >= RANK_INFINITE {
        return;
      }
      dioQueued := true;
    }

    method MaybeScheduleDio()
      modifies this`dioQueued, this`dagLastparent
      ensures State() == Spec.MaybeScheduleDio(old(State()))
    {
      if dagLastparent != PeerOf(dagParent) {
        ScheduleDio();
        dagLastparent := PeerOf(dagParent);
      }
    }

    method MaybeSendDao()
      modifies this`daoNeeded, this`daoQueued
      ensures State() == Spec.MaybeSendDao(old(State()))
    {
      if daoNeeded && dagBestparent != None {
        if !RootNode(State()) {
          daoQueued := true;
        }
        daoNeeded := false;
      }
    }

    /** A new prefix: set_prefix resets its flag, set_installed leaves it. */
    method Learn(prefix: Prefix)
      modifies this`mPrefix, this`dagPrefixes, this`daoNeeded
      ensures State() == old(State()).(prefix := prefix,
        learnt := old(State()).learnt[prefix := SetInstalled(false, true)], daoNeeded := true)
    {
      mPrefix := prefix;
      dagPrefixes := dagPrefixes[prefix := false];
      var flag := SetInstalled(dagPrefixes[prefix], true);
      dagPrefixes := dagPrefixes[prefix := flag];
      daoNeeded := true;
    }

    method AddPrefix(prefix: Prefix)
      modifies this`mPrefix, this`dagPrefixes, this`daoNeeded, this`dioQueued, this`dagLastparent, this`dagAnnounced
      ensures State() == Spec.AddPrefix(old(State()), prefix)
    {
      hide Spec.MaybeScheduleDio, OwnAddress, SetInstalled;
      if !(prefix in dagPrefixes && dagPrefixes[prefix]) {
        Learn(prefix);
        MaybeScheduleDio();
      }
      ghost var s1 := State();
      if !cfg.ignorePio {
        // add_address and cfg_new_node store the prefix, configureip replaces it by the address
        var own := OwnAddress(State(), prefix);
        dagAnnounced := dagAnnounced[prefix := own];
        daoNeeded := true;
        assert State() == s1.(announced := s1.announced[prefix := own], daoNeeded := true);
      }
    }

    method PotentiallyLowerRank(peer: NodeId, iface: nat, dio: Dio) returns (outcome: DioOutcome)
      modifies this
      ensures outcome == RankOutcome(old(State()), peer, dio)
      ensures State() == LowerRank(old(State()), Link(peer, iface), dio)
    {
      hide Adopt;
      var rank := dio.rank;
      if rank > mBestRank {
        return RankRejected;
      }
      if PeerOf(dagBestparent) == Some(peer) || PeerOf(dagParent) == Some(peer) {
        return SameParent;
      }
      if mDTSN != INVALID_SEQUENCE && mDTSN >= dio.dtsn {
        return SameSequence;
      }
      AdoptParent(peer, iface, dio);
      return Adopted;
    }

    /** The rest of potentially_lower_rank: the new parent's values, its prefixes, and what to send. */
    method AdoptParent(peer: NodeId, iface: nat, dio: Dio)
      modifies this
      ensures State() == Adopt(old(State()), Link(peer, iface), dio)
    {
      hide AddPrefixes, ScheduleAfterAdoption, TakeOver;
      TakeValues(peer, iface, dio);
      AddAllPrefixes(dio.prefixes);
      SendAfterAdoption();
    }

    method TakeValues(peer: NodeId, iface: nat, dio: Dio)
      modifies this`mDTSN, this`mBestRank, this`mMyRank, this`mAdvert, this`dagBestparent
      ensures State() == TakeOver(old(State()), Link(peer, iface), dio)
    {
      mDTSN := dio.dtsn;
      mBestRank := dio.rank;
      mMyRank := dio.rank + 1;
      mAdvert := dio.advert;
      dagBestparent := Some(Link(peer, iface));
    }

    method SendAfterAdoption()
      modifies this`dioQueued, this`dagLastparent, this`daoNeeded, this`daoQueued
      ensures State() == ScheduleAfterAdoption(old(State()))
    {
      hide Spec.MaybeScheduleDio, Spec.MaybeSendDao;
      if dagParent != None {
        MaybeScheduleDio();
      }
      MaybeSendDao();
    }

    /** The loop over the prefix options of a DIO. */
    method AddAllPrefixes(prefixes: seq<Prefix>)
      modifies this`mPrefix, this`dagPrefixes, this`daoNeeded, this`dioQueued, this`dagLastparent, this`dagAnnounced
      ensures State() == AddPrefixes(old(State()), prefixes)
    {
      hide Spec.AddPrefix;
      ghost var s := State();
      var i := 0;
      assert prefixes[..0] == [];
      while i < |prefixes|
        invariant 0 <= i <= |prefixes|
        invariant State() == AddPrefixes(s, prefixes[..i])
      {
        AddPrefix(prefixes[i]);
        assert prefixes[..i + 1][..i] == prefixes[..i];
        i := i + 1;
      }
      assert prefixes[..i] == prefixes;
    }

    method ReceiveDio(peer: NodeId, iface: nat, dio: Dio) returns (outcome: DioOutcome)
      modifies this
      ensures outcome == DioOutcomeOf(old(State()), peer, dio)
      ensures State() == Spec.ReceiveDio(old(State()), Link(peer, iface), dio)
    {
      hide LowerRank;
      mDioReceived := (mDioReceived + 1) % UINT_SPAN;
      var tooOld := SeqTooOld(dio.dtsn);
      if tooOld && dio.dtsn != 0 && mDioReceived != 1 {
        return SeqOld;
      }
      if peer == cfg.me {
        return SelfPacket;
      }
      SeqUpdate(dio.dtsn);
      if !cfg.active {
        return Watched;
      }
      outcome := PotentiallyLowerRank(peer, iface, dio);
    }

    /** build_dio: the content of the message; the sequence number is used up. */
    method BuildDio() returns (dio: Dio)
      modifies this`mDTSN
      ensures dio == DioOf(old(State())) && State() == SentDio(old(State()))
    {
      dio := Dio(mMyRank % USHORT_SPAN, mDTSN % 256,
                 mAdvert.(instance := mAdvert.instance % 256, version := mAdvert.version % 256), [Shown(mPrefix)]);
      mDTSN := (mDTSN + 1) % USHORT_SPAN;
    }

    method AddChildnode(announcingPeer: NodeId, prefix: Prefix)
      modifies this`dagChildren, this`routes, this`daoNeeded
      ensures State() == AddChild(old(State()), announcingPeer, prefix)
    {
      if !(prefix in dagChildren && dagChildren[prefix].installed) {
        daoNeeded := true;
        dagChildren := dagChildren[prefix := Child(announcingPeer, false)];
        routes := routes + [Route(prefix, dagChildren[prefix].announcer)];
        dagChildren := dagChildren[prefix := dagChildren[prefix].(installed := true)];
      }
    }

    /** receive_dao: the targets are those that rpltarget() yields; the result tells whether to acknowledge. */
    method ReceiveDao(peer: NodeId, dao: Dao) returns (ack: bool)
      modifies this`dagChildren, this`routes, this`daoNeeded, this`daoQueued
      ensures ack == SendsAck(old(State()), peer, dao)
      ensures State() == Spec.ReceiveDao(old(State()), peer, dao)
    {
      hide AddChild, Spec.MaybeSendDao;
      if peer == cfg.me {
        return false;
      }
      if !cfg.active {
        return false;
      }
      ghost var s := State();
      var i := 0;
      assert dao.targets[..0] == [];
      while i < |dao.targets|
        invariant 0 <= i <= |dao.targets|
        invariant State() == AddChildren(s, peer, dao.targets[..i])
      {
        AddChildnode(peer, dao.targets[i]);
        assert dao.targets[..i + 1][..i] == dao.targets[..i];
        i := i + 1;
      }
      assert dao.targets[..i] == dao.targets;
      MaybeSendDao();
      return dao.ackWanted;
    }

    /** send_dao: to whom, with which sequence number, or None without a parent. */
    method SendDao() returns (to: Option<Link>, daoseq: Byte)
      modifies this`mDAOSequence
      ensures State() == SentDao(old(State()))
      ensures to == dagBestparent && (to != None ==> daoseq == mDAOSequence % 256)
    {
      if dagBestparent == None {
        return None, 0;
      }
      mDAOSequence := (mDAOSequence + 1) % USHORT_SPAN;
      return dagBestparent, mDAOSequence % 256;
    }

    method CommitParent()
      requires dagBestparent != None
      modifies this`dagParent, this`upward, this`dioQueued, this`dagLastparent
      ensures State() == Commit(old(State()))
    {
      hide Spec.MaybeScheduleDio;
      if dagBestparent != dagParent {
        dagLastparent := PeerOf(dagParent);
        dagParent := dagBestparent;
        AddRoutesUp(dagParent.value);
        MaybeScheduleDio();
      }
    }

    /** add_parent_route_to_prefix, and add_parent_route_to_default when the DAG is grounded. */
    method AddRoutesUp(parent: Link)
      modifies this`upward
      ensures upward == old(upward) + RoutesUp(old(State()), parent)
    {
      upward := upward + [Upward(Some(mPrefix), parent)];
      if mAdvert.grounded {
        upward := upward + [Upward(None, parent)];
      }
    }

    method ReceiveDaoack(peer: NodeId, daoseq: Byte) returns (accepted: bool)
      modifies this`dagParent, this`upward, this`dioQueued, this`dagLastparent
      ensures accepted == AckAccepted(old(State()), peer, daoseq)
      ensures State() == Spec.ReceiveDaoack(old(State()), peer, daoseq)
    {
      if PeerOf(dagBestparent) != Some(peer) {
        return false;
      }
      if daoseq != mDAOSequence {
        return false;
      }
      CommitParent();
      return true;
    }
  }
}
