/**
  What a node does with a message, from outside: exactly when it adopts a
  parent, and what it then takes over, announces and schedules; what a DAO adds
  and who is answered; what a commitment installs.
 */
module RplProgress {
  import opened Common
  import opened DagRuns
  import opened DagSpec
  import opened RplAgreement
  import opened RplNetwork
  import opened RplTypes
  import opened SequenceRuns

  // ---------- a DIO ----------

  /** The sequence filter lets the DIO through: not behind on the circle, or 0, or the first. */
  predicate LetThrough(s: NodeState, dio: Dio) {
    (dio.dtsn - s.lastSeq) % 256 <= 128 || dio.dtsn == 0 || (s.dioReceived + 1) % UINT_SPAN == 1
  }

  /** The sender becomes the best parent. */
  predicate Takes(s: NodeState, from: NodeId, dio: Dio) {
    && LetThrough(s, dio) && s.cfg.active && from != s.cfg.me
    && PeerOf(s.bestParent) != Some(from) && PeerOf(s.parent) != Some(from)
    && dio.rank <= s.bestRank && (s.dtsn == INVALID_SEQUENCE || s.dtsn < dio.dtsn)
  }

  /** The state with the filter of another: what a DIO records in any case. */
  function Filtered(s: NodeState, t: NodeState): NodeState {
    s.(lastSeq := t.lastSeq, dioReceived := t.dioReceived)
  }

  lemma OutcomeIs(s: NodeState, from: NodeId, dio: Dio)
    ensures DioOutcomeOf(s, from, dio) == Adopted <==> Takes(s, from, dio)
  {
    hide SeqTooOld;
    DroppedExactly(s, from, dio);
  }

  /** A DIO that is not taken changes the filter only. */
  lemma OthersChangeNothing(s: NodeState, from: Link, dio: Dio)
    requires !Takes(s, from.peer, dio)
    ensures ReceiveDio(s, from, dio) == Filtered(s, ReceiveDio(s, from, dio))
  {
    hide SeqTooOld, SeqUpdate, Adopt;
    DroppedExactly(s, from.peer, dio);
  }

  lemma TakenIs(s: NodeState, from: Link, dio: Dio)
    requires Takes(s, from.peer, dio)
    ensures var t := ReceiveDio(s, from, dio); t == Adopt(Filtered(s, t), from, dio)
  {
    hide SeqTooOld, SeqUpdate, Adopt, LetThrough;
    OutcomeIs(s, from.peer, dio);
    FilterEffect(s, from, dio);
  }

  /** A node has the sender as its best parent afterwards just when it had before, on that link, or takes it. */
  lemma AdoptsExactly(s: NodeState, from: Link, dio: Dio)
    ensures ReceiveDio(s, from, dio).bestParent == Some(from) <==>
      s.bestParent == Some(from) || Takes(s, from.peer, dio)
  {
    hide Takes, ReceiveDio, Adopt;
    if Takes(s, from.peer, dio) {
      TakenIs(s, from, dio);
      AdoptRank(Filtered(s, ReceiveDio(s, from, dio)), from, dio);
    } else {
      OthersChangeNothing(s, from, dio);
    }
  }

  /** And then it has the values of the DIO, and the next rank. */
  lemma TakesOver(s: NodeState, from: Link, dio: Dio)
    requires Takes(s, from.peer, dio)
    ensures var t := ReceiveDio(s, from, dio);
      && t.bestParent == Some(from) && t.bestRank == dio.rank && t.myRank == dio.rank + 1
      && t.dtsn == dio.dtsn && t.advert == dio.advert
      && t.parent == s.parent && t.upward == s.upward && SameTables(s, t)
  {
    hide Takes, ReceiveDio, AddPrefixes, MaybeScheduleDio, MaybeSendDao;
    TakenIs(s, from, dio);
    var s1 := TakeOver(Filtered(s, ReceiveDio(s, from, dio)), from, dio);
    PrefixesKeep(s1, dio.prefixes);
    var s2 := AddPrefixes(s1, dio.prefixes);
    ScheduleExactly(s2);
    SendDaoExactly(s2);
    SendDaoExactly(MaybeScheduleDio(s2));
  }

  /** A node that has not joined yet and heard nothing does so on the first DIO it hears. */
  lemma JoinsAtOnce(s: NodeState, from: Link, dio: Dio)
    requires s.cfg.active && from.peer != s.cfg.me && s.bestParent == None && s.parent == None
    requires s.dioReceived == 0 && s.dtsn == INVALID_SEQUENCE && s.bestRank == UINT_MAX && dio.rank < RANK_INFINITE
    ensures var t := ReceiveDio(s, from, dio);
      !Joined(s) && Joined(t) && t.bestParent == Some(from) && t.myRank == dio.rank + 1
  {
    hide ReceiveDio;
    TakesOver(s, from, dio);
  }

  // ---------- what is scheduled ----------

  /** All fields but those that scheduling is about. */
  predicate SameButQueues(s: NodeState, t: NodeState) {
    t == s.(dioQueued := t.dioQueued, lastParent := t.lastParent, daoNeeded := t.daoNeeded, daoQueued := t.daoQueued)
  }

  /** A DIO is scheduled when the node has joined and its parent is not the last one it was scheduled for. */
  lemma ScheduleExactly(s: NodeState)
    ensures var t := MaybeScheduleDio(s);
      && SameButQueues(s, t) && t.daoNeeded == s.daoNeeded && t.daoQueued == s.daoQueued
      && t.lastParent == PeerOf(s.parent)
      && (t.dioQueued <==> s.dioQueued || (Joined(s) && s.lastParent != PeerOf(s.parent)))
  {
  }

  /** A DAO is scheduled when one is needed and there is a parent for it, but not by the root. */
  lemma SendDaoExactly(s: NodeState)
    ensures var t := MaybeSendDao(s);
      && SameButQueues(s, t) && t.dioQueued == s.dioQueued && t.lastParent == s.lastParent
      && (t.daoQueued <==> s.daoQueued || (s.daoNeeded && s.bestParent != None && s.myRank != 1))
      && (t.daoNeeded <==> s.daoNeeded && s.bestParent == None)
  {
  }

  /** The address that a node configures in a prefix: the prefix in front, its own identifier behind. */
  predicate IsOwnAddress(s: NodeState, p: Prefix, own: Prefix) {
    && own.len == 128
    && (forall k :: 0 <= k < 8 ==> own.addr[k] == p.addr[k])
    && (forall k :: 8 <= k < 16 ==> own.addr[k] == s.cfg.iid[k - 8])
  }

  /** Some prefix of the list makes a DAO needed: it is not installed, or an address is configured in it. */
  predicate NeedsDao(s: NodeState, ps: seq<Prefix>) {
    exists p :: p in ps && (p !in Installed(s) || !s.cfg.ignorePio)
  }

  predicate HasNew(s: NodeState, ps: seq<Prefix>) {
    exists p :: p in ps && p !in Installed(s)
  }

  /** All that a list of prefixes leaves alone. */
  predicate SameButPrefixes(s: NodeState, t: NodeState) {
    t == s.(prefix := t.prefix, learnt := t.learnt, announced := t.announced,
            daoNeeded := t.daoNeeded, dioQueued := t.dioQueued, lastParent := t.lastParent)
  }

  /** The effect of the prefixes of a DIO. */
  ghost predicate Announced(s: NodeState, t: NodeState, ps: seq<Prefix>) {
    && SameButPrefixes(s, t) && Installed(t) == Installed(s)
    && (t.daoNeeded <==> s.daoNeeded || NeedsDao(s, ps))
    && (t.dioQueued <==> s.dioQueued || (Joined(s) && s.lastParent != PeerOf(s.parent) && HasNew(s, ps)))
    && (t.lastParent == if HasNew(s, ps) then PeerOf(s.parent) else s.lastParent)
    && Addressed(s, t, ps)
  }

  /** In each prefix the node has its address, unless it ignores them, and elsewhere what it had. */
  ghost predicate Addressed(s: NodeState, t: NodeState, ps: seq<Prefix>) {
    && (s.cfg.ignorePio ==> t.announced == s.announced)
    && (!s.cfg.ignorePio ==> forall p :: p in ps ==> p in t.announced && IsOwnAddress(s, p, t.announced[p]))
    && (forall p :: p in s.announced && p !in ps ==> p in t.announced && t.announced[p] == s.announced[p])
    && (forall p :: p in t.announced ==> p in s.announced || p in ps)
  }

  lemma OneAnnounced(s: NodeState, p: Prefix)
    ensures Announced(s, AddPrefix(s, p), [p])
  {
    hide MaybeScheduleDio;
    LearntAnew(s, p);
    var s1 := s.(prefix := p, learnt := s.learnt[p := SetInstalled(false, true)], daoNeeded := true);
    ScheduleExactly(s1);
    assert p in [p];
  }

  lemma {:induction false} PrefixesAnnounced(s: NodeState, ps: seq<Prefix>)
    ensures Announced(s, AddPrefixes(s, ps), ps)
  {
    if ps != [] {
      hide AddPrefix, Announced, NeedsDao, HasNew;
      var n := |ps| - 1;
      PrefixesAnnounced(s, ps[..n]);
      OneAnnounced(AddPrefixes(s, ps[..n]), ps[n]);
      OneMore(s, AddPrefixes(s, ps[..n]), AddPrefixes(s, ps), ps[..n], ps[n]);
      assert ps == ps[..n] + [ps[n]];
    }
  }

  lemma OneMore(s: NodeState, mid: NodeState, t: NodeState, ps: seq<Prefix>, p: Prefix)
    requires Announced(s, mid, ps) && Announced(mid, t, [p])
    ensures Announced(s, t, ps + [p])
  {
    hide Addressed, NeedsDao, HasNew, Installed;
    MoreNew(s, mid, ps, p);
    OneMoreAddress(s, mid, t, ps, p);
  }

  lemma MoreNew(s: NodeState, mid: NodeState, ps: seq<Prefix>, p: Prefix)
    requires Installed(mid) == Installed(s) && mid.cfg == s.cfg
    ensures HasNew(s, ps + [p]) <==> HasNew(s, ps) || HasNew(mid, [p])
    ensures NeedsDao(s, ps + [p]) <==> NeedsDao(s, ps) || NeedsDao(mid, [p])
  {
    hide Installed;
    assert forall q :: q in ps + [p] <==> q in ps || q in [p];
  }

  lemma OneMoreAddress(s: NodeState, mid: NodeState, t: NodeState, ps: seq<Prefix>, p: Prefix)
    requires mid.cfg == s.cfg && Addressed(s, mid, ps) && Addressed(mid, t, [p])
    ensures Addressed(s, t, ps + [p])
  {
    hide IsOwnAddress;
    SameCfgSameAddress(s, mid);
    assert forall q :: q in ps + [p] <==> q in ps || q == p;
  }

  lemma PrefixesKeep(s: NodeState, ps: seq<Prefix>)
    ensures SameButPrefixes(s, AddPrefixes(s, ps))
  {
    hide AddPrefixes, NeedsDao, HasNew, IsOwnAddress, Installed;
    PrefixesAnnounced(s, ps);
  }

  /** What a DIO that is taken makes the node announce and send. */
  lemma AdoptionSchedules(s: NodeState, from: Link, dio: Dio)
    requires Takes(s, from.peer, dio)
    ensures var t := ReceiveDio(s, from, dio);
      && !t.daoNeeded
      && (t.daoQueued <==> s.daoQueued || ((s.daoNeeded || NeedsDao(s, dio.prefixes)) && dio.rank > 0))
      && (t.dioQueued <==> s.dioQueued || (dio.rank < RANK_INFINITE && MoreDios(s, dio)))
      && (s.cfg.ignorePio ==> t.announced == s.announced)
      && (!s.cfg.ignorePio ==>
            forall p :: p in dio.prefixes ==> p in t.announced && IsOwnAddress(s, p, t.announced[p]))
      && (forall p :: p in t.announced ==> p in s.announced || p in dio.prefixes)
  {
    hide Takes, ReceiveDio, AddPrefixes, MaybeScheduleDio, MaybeSendDao, IsOwnAddress;
    TakenIs(s, from, dio);
    var s0 := Filtered(s, ReceiveDio(s, from, dio));
    var s1 := TakeOver(s0, from, dio);
    PrefixesAnnounced(s1, dio.prefixes);
    SameCfgSameAddress(s, s1);
    var s2 := AddPrefixes(s1, dio.prefixes);
    ScheduleExactly(s2);
    SendDaoExactly(s2);
    SendDaoExactly(MaybeScheduleDio(s2));
  }

  /** The parent is not the last one that a DIO was scheduled for, and there is occasion to look. */
  predicate MoreDios(s: NodeState, dio: Dio) {
    s.lastParent != PeerOf(s.parent) && (HasNew(s, dio.prefixes) || s.parent != None)
  }

  lemma SameCfgSameAddress(s: NodeState, t: NodeState)
    requires s.cfg == t.cfg
    ensures forall p, own :: IsOwnAddress(s, p, own) <==> IsOwnAddress(t, p, own)
  {
  }

  // ---------- a DAO ----------

  /** A target that the node has no route for yet. */
  predicate IsNew(s: NodeState, p: Prefix) {
    !(p in s.children && s.children[p].installed)
  }

  /** The effect of the targets of a DAO: each new one is routed to its sender. */
  ghost predicate Routed(s: NodeState, t: NodeState, from: NodeId, ps: seq<Prefix>) {
    && t == s.(children := t.children, routes := t.routes, daoNeeded := t.daoNeeded)
    && (t.daoNeeded <==> Wanting(s, ps))
    && Entered(s, t, from, ps) && RoutesAdded(s, t, from, ps)
  }

  ghost predicate Entered(s: NodeState, t: NodeState, from: NodeId, ps: seq<Prefix>) {
    && (forall p :: p in t.children <==> p in s.children || p in ps)
    && (forall p :: p in ps && IsNew(s, p) ==> t.children[p] == Child(from, true))
    && (forall p :: p in s.children && !(p in ps && IsNew(s, p)) ==> t.children[p] == s.children[p])
  }

  ghost predicate RoutesAdded(s: NodeState, t: NodeState, from: NodeId, ps: seq<Prefix>) {
    && s.routes <= t.routes
    && (forall p :: p in ps && IsNew(s, p) ==> Route(p, from) in t.routes)
    && (forall r :: r in t.routes ==> r in s.routes || (r.prefix in ps && IsNew(s, r.prefix) && r.via == from))
  }

  lemma OneRouted(s: NodeState, from: NodeId, p: Prefix)
    ensures Routed(s, AddChild(s, from, p), from, [p])
  {
    var t := AddChild(s, from, p);
    assert p in [p];
    if IsNew(s, p) {
      assert t.routes[|s.routes|] == Route(p, from);
    }
  }

  lemma {:induction false} AllRouted(s: NodeState, from: NodeId, ps: seq<Prefix>)
    ensures Routed(s, AddChildren(s, from, ps), from, ps)
  {
    if ps != [] {
      hide AddChild, Routed;
      var n := |ps| - 1;
      AllRouted(s, from, ps[..n]);
      OneRouted(AddChildren(s, from, ps[..n]), from, ps[n]);
      OneMoreRouted(s, AddChildren(s, from, ps[..n]), AddChildren(s, from, ps), from, ps[..n], ps[n]);
      assert ps == ps[..n] + [ps[n]];
    }
  }

  lemma OneMoreRouted(s: NodeState, mid: NodeState, t: NodeState, from: NodeId, ps: seq<Prefix>, p: Prefix)
    requires Routed(s, mid, from, ps) && Routed(mid, t, from, [p])
    ensures Routed(s, t, from, ps + [p])
  {
    hide Entered, RoutesAdded, IsNew;
    NewLater(s, mid, from, ps, p);
    OneMoreEntered(s, mid, t, from, ps, p);
    OneMoreRoute(s, mid, t, from, ps, p);
    assert forall q :: q in ps + [p] <==> q in ps || q == p;
    assert p in [p];
  }

  lemma NewLater(s: NodeState, mid: NodeState, from: NodeId, ps: seq<Prefix>, p: Prefix)
    requires Entered(s, mid, from, ps)
    ensures IsNew(mid, p) <==> IsNew(s, p) && p !in ps
  {
  }

  lemma OneMoreEntered(s: NodeState, mid: NodeState, t: NodeState, from: NodeId, ps: seq<Prefix>, p: Prefix)
    requires Entered(s, mid, from, ps) && Entered(mid, t, from, [p])
    ensures Entered(s, t, from, ps + [p])
  {
    NewLater(s, mid, from, ps, p);
    assert forall q :: q in ps + [p] <==> q in ps || q == p;
  }

  lemma OneMoreRoute(s: NodeState, mid: NodeState, t: NodeState, from: NodeId, ps: seq<Prefix>, p: Prefix)
    requires Entered(s, mid, from, ps) && RoutesAdded(s, mid, from, ps) && RoutesAdded(mid, t, from, [p])
    ensures RoutesAdded(s, t, from, ps + [p])
  {
    hide Entered, IsNew;
    NewLater(s, mid, from, ps, p);
    assert forall q :: q in ps + [p] <==> q in ps || q == p;
  }

  /** A DAO is for an active node, and not for its sender. */
  predicate Heard(s: NodeState, from: NodeId) {
    from != s.cfg.me && s.cfg.active
  }

  /** What a DAO adds, and that what is new goes on upwards. */
  lemma DaoEffect(s: NodeState, from: NodeId, dao: Dao)
    ensures var t := ReceiveDao(s, from, dao);
      if !Heard(s, from) then t == s
      else
        && Routed(s, t.(daoNeeded := Wanting(s, dao.targets), daoQueued := s.daoQueued), from, dao.targets)
        && (t.daoQueued <==> s.daoQueued || (Wanting(s, dao.targets) && s.bestParent != None && s.myRank != 1))
        && (t.daoNeeded <==> Wanting(s, dao.targets) && s.bestParent == None)
  {
    hide AddChildren, MaybeSendDao, Routed;
    if Heard(s, from) {
      var mid := AddChildren(s, from, dao.targets);
      AllRouted(s, from, dao.targets);
      RoutedKeeps(s, mid, from, dao.targets);
      SendDaoExactly(mid);
    }
  }

  /** A DAO is needed, at the latest with these targets. */
  predicate Wanting(s: NodeState, ps: seq<Prefix>) {
    s.daoNeeded || exists p :: p in ps && IsNew(s, p)
  }

  lemma RoutedKeeps(s: NodeState, t: NodeState, from: NodeId, ps: seq<Prefix>)
    requires Routed(s, t, from, ps)
    ensures t == s.(children := t.children, routes := t.routes, daoNeeded := t.daoNeeded)
    ensures t.daoNeeded <==> Wanting(s, ps)
  {
  }

  /** An acknowledgement answers a DAO that is heard and wants one, and nothing else. */
  lemma AnsweredExactly(net: Net, d: DaoMsg)
    requires Enabled(net, GetDao(d))
    ensures var net', wanted := Apply(net, GetDao(d)), Heard(net.nodes[d.to], d.from) && d.dao.ackWanted;
      net'.acks == if wanted then net.acks + {AckMsg(d)} else net.acks
  {
    hide ReceiveDao;
  }

  // ---------- a DAO-ACK ----------

  /** The node commits to another parent. */
  predicate Recommits(s: NodeState) {
    s.bestParent != None && s.bestParent != s.parent
  }

  /** A commitment: routes to the DAG's prefix and, if grounded, to anywhere; a DIO if the neighbour is another. */
  lemma CommitEffect(s: NodeState)
    requires s.bestParent != None
    ensures var t := Commit(s);
      && t == s.(parent := s.bestParent, upward := t.upward, dioQueued := t.dioQueued, lastParent := t.lastParent)
      && s.upward <= t.upward
      && (!Recommits(s) ==> t == s)
      && (Recommits(s) ==>
            && (forall u :: u in t.upward <==> u in s.upward || NewRoute(s, u))
            && (t.dioQueued <==> s.dioQueued || (Joined(s) && PeerOf(s.bestParent) != PeerOf(s.parent))))
  {
    hide MaybeScheduleDio;
    if Recommits(s) {
      var s1 := s.(lastParent := PeerOf(s.parent), parent := s.bestParent,
        upward := s.upward + RoutesUp(s, s.bestParent.value));
      ScheduleExactly(s1);
      assert forall u :: u in RoutesUp(s, s.bestParent.value) <==> NewRoute(s, u);
    }
  }

  /** The routes that a commitment of this node installs. */
  predicate NewRoute(s: NodeState, u: Upward) {
    && s.bestParent == Some(u.via)
    && match u.prefix case Some(p) => p == s.prefix case None => s.advert.grounded
  }

  /** An answer is accepted from the best parent, to the number of the counter, and others change nothing. */
  lemma AckEffect(s: NodeState, from: NodeId, daoseq: Byte)
    ensures var t := ReceiveDaoack(s, from, daoseq);
      if PeerOf(s.bestParent) == Some(from) && daoseq == s.daoSequence then t == Commit(s) else t == s
  {
  }

  // ---------- what is sent ----------

  /** A DIO uses up a number and a DAO, if there is somebody to send it to; nothing else changes. */
  lemma SendingEffect(s: NodeState)
    ensures var t := SentDio(s); t == s.(dtsn := t.dtsn) && DioOf(t).dtsn == (DioOf(s).dtsn + 1) % 256
    ensures var t := SentDao(s); t == s.(daoSequence := t.daoSequence) && (s.bestParent == None ==> t == s)
    ensures s.bestParent != None ==> SentDao(s).daoSequence % 256 == (s.daoSequence + 1) % 256
  {
    WrapKeepsByte(s.dtsn);
    WrapKeepsByte(s.daoSequence);
  }

  lemma WrapKeepsByte(n: nat)
    ensures (n + 1) % USHORT_SPAN % 256 == (n + 1) % 256 == (n % 256 + 1) % 256
  {
    var q, r := (n + 1) / USHORT_SPAN, (n + 1) % USHORT_SPAN;
    SameResidue(n + 1, r, 256 * q);
    SameResidue(n + 1, n % 256 + 1, n / 256);
  }

  predicate ChildAt(s: NodeState, a: Addr) {
    exists q :: q in s.children && q.addr == a
  }

  predicate OwnAt(s: NodeState, a: Addr) {
    exists q :: q in s.announced && s.announced[q].addr == a
  }

  /** The targets of a DAO are the addresses of the children's and the node's own prefixes, as whole addresses. */
  lemma TargetsExactly(s: NodeState, p: Prefix)
    ensures p in TargetSet(s) <==> p.len == 128 && (ChildAt(s, p.addr) || OwnAt(s, p.addr))
  {
    forall q | q in s.children && q.addr == p.addr && p.len == 128
      ensures p in TargetSet(s)
    {
      assert p == Prefix(q.addr, 128);
    }
    forall q | q in s.announced && s.announced[q].addr == p.addr && p.len == 128
      ensures p in TargetSet(s)
    {
      assert p == Prefix(s.announced[q].addr, 128);
    }
  }
}
