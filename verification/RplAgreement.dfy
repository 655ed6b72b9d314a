/**
  What an accepted DAO-ACK stands for: the parent has processed the node's
  latest DAO, and every target in it has an entry with an installed route.
  The acknowledgement carries eight bits of a sixteen-bit counter.
 */
module RplAgreement {
  import opened Common
  import opened DagSpec
  import opened RplNetwork
  import opened RplTypes
  import opened SequenceRuns

  // ---------- the table of children and its routes ----------

  predicate HasRoute(s: NodeState, p: Prefix) {
    p in s.children && s.children[p].installed && Route(p, s.children[p].announcer) in s.routes
  }

  /** Every entry has an installed route, to its announcer, and no prefix has two routes. */
  ghost predicate TablesOk(s: NodeState) {
    && (forall p :: p in s.children ==> HasRoute(s, p))
    && (forall i :: 0 <= i < |s.routes| ==> s.routes[i].prefix in s.children)
    && (forall i, j :: 0 <= i < j < |s.routes| ==> s.routes[i].prefix != s.routes[j].prefix)
  }

  /** Entries are kept for ever with their announcers, and routes are only added. */
  ghost predicate TablesGrow(s: NodeState, t: NodeState) {
    && (forall p :: p in s.children ==> p in t.children && t.children[p] == s.children[p])
    && s.routes <= t.routes
  }

  lemma AddChildTables(s: NodeState, from: NodeId, p: Prefix)
    requires TablesOk(s)
    ensures var t := AddChild(s, from, p);
      TablesOk(t) && TablesGrow(s, t) && HasRoute(t, p)
  {
    var t := AddChild(s, from, p);
    if t != s {
      assert p !in s.children;
      assert t.routes[|s.routes|] == Route(p, from);
      forall q | q in t.children
        ensures HasRoute(t, q)
      {
        if q != p {
          assert HasRoute(s, q);
        }
      }
    }
  }

  lemma {:induction false} AddChildrenTables(s: NodeState, from: NodeId, ps: seq<Prefix>)
    requires TablesOk(s)
    ensures var t := AddChildren(s, from, ps);
      && TablesOk(t) && TablesGrow(s, t)
      && forall p :: p in ps ==> HasRoute(t, p)
  {
    hide AddChild, TablesOk;
    if ps != [] {
      var n := |ps| - 1;
      var mid := AddChildren(s, from, ps[..n]);
      AddChildrenTables(s, from, ps[..n]);
      AddChildTables(mid, from, ps[n]);
      var t := AddChildren(s, from, ps);
      forall p | p in ps
        ensures HasRoute(t, p)
      {
        if p != ps[n] {
          assert p in ps[..n];
          assert HasRoute(mid, p);
        }
      }
    }
  }

  /**
    A DAO that is processed leaves a route for each of its targets; a second
    copy of it, from anybody, adds no route and changes no announcer.
   */
  lemma ProcessedDao(s: NodeState, from: NodeId, dao: Dao)
    requires TablesOk(s)
    ensures var t := ReceiveDao(s, from, dao);
      && TablesOk(t) && TablesGrow(s, t)
      && (SendsAck(s, from, dao) ==> forall p :: p in dao.targets ==> HasRoute(t, p))
  {
    hide AddChildren, TablesOk;
    AddChildrenTables(s, from, dao.targets);
    ScheduledTables(AddChildren(s, from, dao.targets));
  }

  lemma ScheduledTables(s: NodeState)
    ensures SameTables(s, MaybeSendDao(s))
    ensures TablesOk(s) ==> TablesOk(MaybeSendDao(s))
    ensures forall p :: HasRoute(s, p) ==> HasRoute(MaybeSendDao(s), p)
  {
  }

  lemma {:induction false} KnownTargetsChangeNothing(s: NodeState, from: NodeId, ps: seq<Prefix>)
    requires forall p :: p in ps ==> HasRoute(s, p)
    ensures AddChildren(s, from, ps) == s
  {
    if ps != [] {
      KnownTargetsChangeNothing(s, from, ps[..|ps| - 1]);
      assert HasRoute(s, ps[|ps| - 1]);
    }
  }

  lemma DuplicateDao(s: NodeState, from: NodeId, again: NodeId, dao: Dao)
    requires TablesOk(s) && from != s.cfg.me && s.cfg.active
    ensures var t := ReceiveDao(s, from, dao);
      SameTables(t, ReceiveDao(t, again, dao))
  {
    hide AddChildren, TablesOk, MaybeSendDao;
    var mid := AddChildren(s, from, dao.targets);
    AddChildrenTables(s, from, dao.targets);
    ScheduledTables(mid);
    var t := ReceiveDao(s, from, dao);
    KnownTargetsChangeNothing(t, again, dao.targets);
    ScheduledTables(t);
  }

  // ---------- the agreement invariant ----------

  ghost predicate DaoOk(net: Net, d: DaoMsg) {
    && d.from in net.nodes && d.from in net.latest && 2 <= d.count <= net.latest[d.from]
    && d.dao.daoseq == d.count % 256
  }

  /** The receiver has a route for every target of a DAO that it acknowledged. */
  ghost predicate AckOk(net: Net, a: AckMsg) {
    var d := a.answered;
    && d in net.daos && d.to in net.nodes
    && forall p :: p in d.dao.targets ==> HasRoute(net.nodes[d.to], p)
  }

  /** mDAOSequence starts at 1 and follows the number of DAOs in 16 bits. */
  ghost predicate CounterOk(net: Net, n: NodeId)
    requires n in net.nodes && n in net.latest
  {
    net.latest[n] >= 1 && net.nodes[n].daoSequence == net.latest[n] % USHORT_SPAN
  }

  ghost predicate AgreementInv(net: Net) {
    && net.latest.Keys == net.nodes.Keys
    && (forall n :: n in net.nodes ==> CounterOk(net, n) && TablesOk(net.nodes[n]))
    && (forall d :: d in net.daos ==> DaoOk(net, d))
    && (forall d, e :: d in net.daos && e in net.daos && d.from == e.from && d.count == e.count ==> d == e)
    && (forall a :: a in net.acks ==> AckOk(net, a))
  }

  /** Whatever a step does, entries and routes stay. */
  ghost predicate NetGrows(net: Net, net': Net) {
    && net'.nodes.Keys == net.nodes.Keys
    && forall n :: n in net.nodes ==> TablesGrow(net.nodes[n], net'.nodes[n])
  }

  lemma RouteStays(s: NodeState, t: NodeState, p: Prefix)
    requires HasRoute(s, p) && TablesGrow(s, t)
    ensures HasRoute(t, p)
  {
    var r := Route(p, s.children[p].announcer);
    var i :| 0 <= i < |s.routes| && s.routes[i] == r;
    assert t.routes[i] == r;
  }

  lemma AckStays(net: Net, net': Net, a: AckMsg)
    requires AckOk(net, a) && NetGrows(net, net') && net.daos <= net'.daos
    ensures AckOk(net', a)
  {
    var d := a.answered;
    forall p | p in d.dao.targets
      ensures HasRoute(net'.nodes[d.to], p)
    {
      RouteStays(net.nodes[d.to], net'.nodes[d.to], p);
    }
  }

  lemma SameTablesGrow(s: NodeState, t: NodeState)
    requires SameTables(s, t)
    ensures TablesGrow(s, t) && (TablesOk(s) ==> TablesOk(t))
  {
  }

  /** A step that changes one node, whose tables stay in order and whose counter follows. */
  lemma NodeStep(net: Net, net': Net, n: NodeId)
    requires AgreementInv(net) && OnlyNode(net, net', n)
    requires TablesOk(net'.nodes[n]) && TablesGrow(net.nodes[n], net'.nodes[n])
    requires net'.nodes[n].daoSequence == net.nodes[n].daoSequence
    requires net'.latest == net.latest && net'.daos == net.daos && net'.acks == net.acks
    ensures AgreementInv(net') && NetGrows(net, net')
  {
    hide TablesOk, AckOk;
    forall k | k in net.nodes
      ensures TablesGrow(net.nodes[k], net'.nodes[k])
    {
    }
    forall d | d in net.daos
      ensures DaoOk(net', d)
    {
      assert DaoOk(net, d);
    }
    forall a | a in net.acks
      ensures AckOk(net', a)
    {
      AckStays(net, net', a);
    }
  }

  lemma GetDaoStep(net: Net, d: DaoMsg)
    requires AgreementInv(net) && Enabled(net, GetDao(d))
    ensures AgreementInv(Apply(net, GetDao(d))) && NetGrows(net, Apply(net, GetDao(d)))
  {
    hide TablesOk, AckOk, DaoOk, ReceiveDao, TablesGrow;
    var s := net.nodes[d.to];
    ProcessedDao(s, d.from, d.dao);
    DaoKeepsRank(s, d.from, d.dao);
    var mid := Update(net, d.to, ReceiveDao(s, d.from, d.dao));
    NodeStep(net, mid, d.to);
    var net' := Apply(net, GetDao(d));
    forall a | a in net'.acks
      ensures AckOk(net', a)
    {
      if a in net.acks {
        AckSameNodes(mid, net', a);
      } else {
        NewAck(net, d);
      }
    }
    forall e | e in net'.daos
      ensures DaoOk(net', e)
    {
      assert DaoOk(mid, e);
      DaoSameNodes(mid, net', e);
    }
  }

  lemma NewAck(net: Net, d: DaoMsg)
    requires AgreementInv(net) && Enabled(net, GetDao(d)) && SendsAck(net.nodes[d.to], d.from, d.dao)
    ensures AckOk(Apply(net, GetDao(d)), AckMsg(d))
  {
    hide TablesOk, ReceiveDao, TablesGrow, HasRoute;
    ProcessedDao(net.nodes[d.to], d.from, d.dao);
  }

  lemma AckSameNodes(a: Net, b: Net, m: AckMsg)
    requires a.nodes == b.nodes && a.daos == b.daos && AckOk(a, m)
    ensures AckOk(b, m)
  {
  }

  lemma DaoSameNodes(a: Net, b: Net, d: DaoMsg)
    requires a.nodes == b.nodes && a.latest == b.latest && DaoOk(a, d)
    ensures DaoOk(b, d)
  {
  }

  lemma SendDaoStep(net: Net, n: NodeId, targets: seq<Prefix>)
    requires AgreementInv(net) && Enabled(net, SendDao(n, targets))
    ensures AgreementInv(Apply(net, SendDao(n, targets))) && NetGrows(net, Apply(net, SendDao(n, targets)))
  {
    hide TablesOk, AckOk, TablesGrow, SentDao, DaoOk, CounterOk;
    var net' := Apply(net, SendDao(n, targets));
    var s := net.nodes[n];
    SameTablesButCount(s);
    forall k | k in net.nodes
      ensures CounterOk(net', k)
    {
      CountAfterDao(net, n, targets, k);
    }
    assert NetGrows(net, net') by {
      forall k | k in net.nodes
        ensures TablesGrow(net.nodes[k], net'.nodes[k])
      {
        if k != n {
          SameTablesGrow(net.nodes[k], net'.nodes[k]);
        }
      }
    }
    forall d | d in net'.daos
      ensures DaoOk(net', d)
    {
      DaoAfterDao(net, n, targets, d);
    }
    NumbersStayUnique(net, n, targets);
    forall a | a in net'.acks
      ensures AckOk(net', a)
    {
      AckStays(net, net', a);
    }
  }

  lemma CountAfterDao(net: Net, n: NodeId, targets: seq<Prefix>, k: NodeId)
    requires AgreementInv(net) && Enabled(net, SendDao(n, targets)) && k in net.nodes
    ensures CounterOk(Apply(net, SendDao(n, targets)), k)
  {
    hide TablesOk, AckOk, DaoOk;
    assert CounterOk(net, k);
    CounterStep(net.latest[n]);
  }

  lemma DaoAfterDao(net: Net, n: NodeId, targets: seq<Prefix>, d: DaoMsg)
    requires AgreementInv(net) && Enabled(net, SendDao(n, targets)) && d in Apply(net, SendDao(n, targets)).daos
    ensures DaoOk(Apply(net, SendDao(n, targets)), d)
  {
    hide TablesOk, AckOk;
    assert CounterOk(net, n);
    CounterStep(net.latest[n]);
    if d in net.daos {
      assert DaoOk(net, d);
    }
  }

  lemma NumbersStayUnique(net: Net, n: NodeId, targets: seq<Prefix>)
    requires AgreementInv(net) && Enabled(net, SendDao(n, targets))
    ensures var net' := Apply(net, SendDao(n, targets));
      forall d, e :: d in net'.daos && e in net'.daos && d.from == e.from && d.count == e.count ==> d == e
  {
    hide TablesOk, AckOk;
    forall d | d in net.daos
      ensures DaoOk(net, d)
    {
    }
  }

  lemma SameTablesButCount(s: NodeState)
    ensures TablesGrow(s, SentDao(s)) && (TablesOk(s) ==> TablesOk(SentDao(s)))
  {
  }

  /** The counter of the source, 16 bits wide, and the 8 bits that are sent. */
  lemma CounterStep(latest: nat)
    ensures (latest % USHORT_SPAN + 1) % USHORT_SPAN == (latest + 1) % USHORT_SPAN
    ensures (latest + 1) % USHORT_SPAN % 256 == (latest + 1) % 256
  {
    var q, r := latest / USHORT_SPAN, latest % USHORT_SPAN;
    if r + 1 == USHORT_SPAN {
      assert latest + 1 == (q + 1) * USHORT_SPAN;
      SameResidue(latest + 1, 0, 256 * (q + 1));
    } else {
      assert latest + 1 == q * USHORT_SPAN + (r + 1);
      SameResidue(latest + 1, r + 1, 256 * q);
    }
  }

  lemma StepKeepsAgreement(net: Net, step: Step)
    requires AgreementInv(net) && Enabled(net, step)
    ensures AgreementInv(Apply(net, step)) && NetGrows(net, Apply(net, step))
  {
    hide ReceiveDio, ReceiveDao, ReceiveDaoack, SentDao, TablesOk, TablesGrow, NetGrows, DaoOk, AckOk, DioOf;
    var net' := Apply(net, step);
    match step
    case SendDio(n) =>
      SameTablesGrow(net.nodes[n], net'.nodes[n]);
      NodeStep(net, net', n);
    case GetDio(n, m, iface) =>
      DioRank(net.nodes[n], Link(m.from, iface), m.dio);
      SameTablesGrow(net.nodes[n], net'.nodes[n]);
      NodeStep(net, net', n);
    case SendDao(n, targets) =>
      SendDaoStep(net, n, targets);
    case GetDao(d) =>
      GetDaoStep(net, d);
    case GetAck(a) =>
      var n := a.answered.from;
      AckKeepsRank(net.nodes[n], a.answered.to, a.answered.dao.daoseq);
      SameTablesGrow(net.nodes[n], net'.nodes[n]);
      NodeStep(net, net', n);
  }

  lemma InitialAgreement(net: Net, root: NodeId)
    requires Initial(net, root)
    ensures AgreementInv(net)
  {
    forall n | n in net.nodes
      ensures CounterOk(net, n) && TablesOk(net.nodes[n])
    {
      assert InitialNode(n, net.nodes[n], root);
    }
  }

  lemma {:induction false} RunKeepsAgreement(r: Run, root: NodeId, i: nat)
    requires IsRun(r, root) && i < |r.nets|
    ensures AgreementInv(r.nets[i])
  {
    hide AgreementInv, Apply, Enabled, Initial;
    if i == 0 {
      InitialAgreement(r.nets[0], root);
    } else {
      RunKeepsAgreement(r, root, i - 1);
      StepKeepsAgreement(r.nets[i - 1], r.steps[i - 1]);
    }
  }

  // ---------- what an accepted acknowledgement stands for ----------

  /** The acknowledgement is taken, so that the node commits to its best parent. */
  ghost predicate Commits(net: Net, a: AckMsg) {
    && a in net.acks && a.answered.from in net.nodes
    && AckAccepted(net.nodes[a.answered.from], a.answered.to, a.answered.dao.daoseq)
  }

  /** The parent `d.to` has processed `d`, the latest DAO of its sender, and has a route for every target. */
  ghost predicate Agreed(net: Net, d: DaoMsg) {
    && d in net.daos && d.from in net.latest && d.count == net.latest[d.from]
    && (forall e :: e in net.daos && e.from == d.from ==> e == d || e.count < d.count)
    && d.from in net.nodes && PeerOf(net.nodes[d.from].bestParent) == Some(d.to)
    && d.to in net.nodes && forall p :: p in d.dao.targets ==> HasRoute(net.nodes[d.to], p)
  }

  lemma AcceptedAckAgrees(net: Net, a: AckMsg)
    requires AgreementInv(net) && Commits(net, a)
    requires net.latest[a.answered.from] < USHORT_SPAN
    ensures Agreed(net, a.answered)
  {
    hide TablesOk, HasRoute;
    var d := a.answered;
    assert AckOk(net, a) && DaoOk(net, d);
    assert d.count == net.latest[d.from];
    forall e | e in net.daos && e.from == d.from
      ensures e == d || e.count < d.count
    {
      assert DaoOk(net, e);
    }
  }

  /** Past its 255th sequence number a node accepts no acknowledgement, until the counter wraps. */
  lemma NoCommitPast255(net: Net, n: NodeId, from: NodeId, daoseq: Byte)
    requires AgreementInv(net) && n in net.nodes && n in net.latest && 255 < net.latest[n] < USHORT_SPAN
    ensures !AckAccepted(net.nodes[n], from, daoseq)
  {
    hide TablesOk;
    assert CounterOk(net, n);
  }

  /**
    An answer of the best parent makes the node commit just when the eight bits
    of the DAO that it answers are all sixteen bits of the counter.
   */
  lemma CommitsByNumber(net: Net, a: AckMsg)
    requires AgreementInv(net) && a in net.acks && a.answered.from in net.nodes
    requires PeerOf(net.nodes[a.answered.from].bestParent) == Some(a.answered.to)
    ensures a.answered.from in net.latest
    ensures Commits(net, a) <==> a.answered.count % 256 == net.latest[a.answered.from] % USHORT_SPAN
  {
    hide TablesOk, HasRoute;
    assert AckOk(net, a) && DaoOk(net, a.answered) && CounterOk(net, a.answered.from);
  }

  /** An answer to the node's latest DAO, from its best parent, makes it commit up to number 255 and no further. */
  lemma CommitsExactly(net: Net, a: AckMsg)
    requires AgreementInv(net) && a in net.acks && a.answered.from in net.nodes
    requires a.answered.count == net.latest[a.answered.from] < USHORT_SPAN
    requires PeerOf(net.nodes[a.answered.from].bestParent) == Some(a.answered.to)
    ensures Commits(net, a) <==> net.latest[a.answered.from] <= 255
  {
    CommitsByNumber(net, a);
  }

  /**
    In a run in which the node has sent fewer than 65535 DAOs, whenever it
    commits to a parent, that parent has processed its latest DAO and holds a
    route for every target of it; and the routes are there ever after.
   */
  lemma CommitMeansAgreement(r: Run, root: NodeId, i: nat, a: AckMsg, j: nat, p: Prefix)
    requires IsRun(r, root) && i < |r.steps| && r.steps[i] == GetAck(a) && Commits(r.nets[i], a)
    requires a.answered.from in r.nets[i].latest && r.nets[i].latest[a.answered.from] < USHORT_SPAN
    requires i <= j < |r.nets| && p in a.answered.dao.targets
    ensures Agreed(r.nets[i], a.answered)
    ensures r.nets[i + 1].nodes[a.answered.from].parent == r.nets[i].nodes[a.answered.from].bestParent
    ensures a.answered.to in r.nets[j].nodes && HasRoute(r.nets[j].nodes[a.answered.to], p)
    ensures r.nets[j].nodes[a.answered.to].children[p] == r.nets[i].nodes[a.answered.to].children[p]
  {
    hide AgreementInv, HasRoute, Initial;
    RunKeepsAgreement(r, root, i);
    AcceptedAckAgrees(r.nets[i], a);
    CommitSetsParent(r.nets[i].nodes[a.answered.from]);
    RoutesLast(r, root, i, j, a.answered.to, p);
  }

  /**
    If the DAO named all of the sender's tables, the parent that the sender then
    commits to has a route for each child and each own address in them.
   */
  lemma CommitCoversTables(
    r: Run, root: NodeId, k: nat, n: NodeId, targets: seq<Prefix>, i: nat, a: AckMsg, j: nat, p: Prefix)
    requires IsRun(r, root) && k < i < |r.steps| && r.steps[k] == SendDao(n, targets)
    requires a.answered == DaoSent(r.nets[k], n, targets)
    requires r.steps[i] == GetAck(a) && Commits(r.nets[i], a)
    requires n in r.nets[i].latest && r.nets[i].latest[n] < USHORT_SPAN
    requires TargetSet(r.nets[k].nodes[n]) <= (set t | t in targets) && p in TargetSet(r.nets[k].nodes[n])
    requires i <= j < |r.nets|
    ensures a.answered.to in r.nets[j].nodes && HasRoute(r.nets[j].nodes[a.answered.to], p)
  {
    hide Initial, Apply, TargetSet, HasRoute, Commits;
    CommitMeansAgreement(r, root, i, a, j, p);
  }

  lemma CommitSetsParent(s: NodeState)
    requires s.bestParent != None
    ensures Commit(s).parent == s.bestParent
  {
  }

  lemma {:induction false} RoutesLast(r: Run, root: NodeId, i: nat, j: nat, n: NodeId, p: Prefix)
    requires IsRun(r, root) && i <= j < |r.nets| && n in r.nets[i].nodes && HasRoute(r.nets[i].nodes[n], p)
    ensures n in r.nets[j].nodes && HasRoute(r.nets[j].nodes[n], p)
    ensures r.nets[j].nodes[n].children[p] == r.nets[i].nodes[n].children[p]
    decreases j - i
  {
    hide AgreementInv, Initial, Apply, Enabled;
    if i < j {
      RunKeepsAgreement(r, root, i);
      StepKeepsAgreement(r.nets[i], r.steps[i]);
      RouteStays(r.nets[i].nodes[n], r.nets[i + 1].nodes[n], p);
      RoutesLast(r, root, i + 1, j, n, p);
    }
  }
}
