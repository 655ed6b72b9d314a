/**
  What happens over runs of the network because of the protocol: routes that
  were announced and only those, routes upwards from commitments and only those,
  and runs in which the nodes join, send their DAOs and commit.
 */
module RplReach {
  import opened Common
  import opened DagRuns
  import opened DagSpec
  import opened RplAgreement
  import opened RplNetwork
  import opened RplProgress
  import opened RplTypes

  // ---------- every route was announced ----------

  /** A DAO from the node that the route leads to, to this node, names its prefix. */
  ghost predicate WasAnnounced(net: Net, n: NodeId, r: Route) {
    exists d :: d in net.daos && d.from == r.via && d.to == n && r.prefix in d.dao.targets
  }

  ghost predicate RoutesInv(net: Net) {
    forall n, r :: n in net.nodes && r in net.nodes[n].routes ==> WasAnnounced(net, n, r)
  }

  lemma AnnouncedStays(net: Net, net': Net, n: NodeId, r: Route)
    requires WasAnnounced(net, n, r) && net.daos <= net'.daos
    ensures WasAnnounced(net', n, r)
  {
  }

  /** The routes of a node after a step were there or come from the DAO it got. */
  lemma RoutesOfStep(net: Net, step: Step, n: NodeId, r: Route)
    requires Enabled(net, step) && n in net.nodes && r in Apply(net, step).nodes[n].routes
    ensures r in net.nodes[n].routes
      || (step.GetDao? && step.d.to == n && r.via == step.d.from && r.prefix in step.d.dao.targets)
  {
    hide ReceiveDio, ReceiveDao, ReceiveDaoack, DioOf;
    match step
    case SendDio(k) =>
    case GetDio(k, m, iface) => DioRank(net.nodes[k], Link(m.from, iface), m.dio);
    case SendDao(k, _) =>
    case GetDao(d) => RoutesOfDao(net.nodes[d.to], d.from, d.dao);
    case GetAck(a) =>
      AckKeepsRank(net.nodes[a.answered.from], a.answered.to, a.answered.dao.daoseq);
  }

  lemma RoutesOfDao(s: NodeState, from: NodeId, dao: Dao)
    ensures forall r :: r in ReceiveDao(s, from, dao).routes ==>
      r in s.routes || (r.via == from && r.prefix in dao.targets)
  {
    hide ReceiveDao, IsNew, Entered, Wanting;
    DaoEffect(s, from, dao);
  }

  lemma StepKeepsRoutes(net: Net, step: Step)
    requires RoutesInv(net) && Enabled(net, step)
    ensures RoutesInv(Apply(net, step))
  {
    hide ReceiveDio, ReceiveDao, ReceiveDaoack, DioOf, SentDao, SentDio, WasAnnounced;
    var net' := Apply(net, step);
    assert net.daos <= net'.daos;
    forall n, r | n in net'.nodes && r in net'.nodes[n].routes
      ensures WasAnnounced(net', n, r)
    {
      RoutesOfStep(net, step, n, r);
      if r in net.nodes[n].routes {
        AnnouncedStays(net, net', n, r);
      } else {
        AnnouncedBy(net', n, r, step.d);
      }
    }
  }

  lemma AnnouncedBy(net: Net, n: NodeId, r: Route, d: DaoMsg)
    requires d in net.daos && d.to == n && r.via == d.from && r.prefix in d.dao.targets
    ensures WasAnnounced(net, n, r)
  {
  }

  /** In every state of every run, a node has routes only for what was announced to it, to who announced it. */
  lemma {:induction false} RoutesWereAnnounced(r: Run, root: NodeId, i: nat)
    requires IsRun(r, root) && i < |r.nets|
    ensures RoutesInv(r.nets[i])
  {
    hide Apply, Enabled, WasAnnounced;
    if i == 0 {
      forall n | n in r.nets[0].nodes
        ensures r.nets[0].nodes[n].routes == []
      {
        assert InitialNode(n, r.nets[0].nodes[n], root);
      }
    } else {
      RoutesWereAnnounced(r, root, i - 1);
      StepKeepsRoutes(r.nets[i - 1], r.steps[i - 1]);
    }
  }

  // ---------- every route upwards comes from a commitment ----------

  /** With this step the node commits to another parent. */
  predicate CommitsAnew(net: Net, step: Step, n: NodeId) {
    && step.GetAck? && step.a.answered.from == n && n in net.nodes
    && AckAccepted(net.nodes[n], step.a.answered.to, step.a.answered.dao.daoseq)
    && Recommits(net.nodes[n])
  }

  lemma UpwardOfStep(net: Net, step: Step, n: NodeId, u: Upward)
    requires Enabled(net, step) && n in net.nodes
    ensures n in Apply(net, step).nodes
    ensures u in Apply(net, step).nodes[n].upward <==>
      u in net.nodes[n].upward || (CommitsAnew(net, step, n) && NewRoute(net.nodes[n], u))
  {
    hide ReceiveDio, ReceiveDao, Commit, DioOf, NewRoute, Installed;
    match step
    case SendDio(k) =>
    case GetDio(k, m, iface) => DioKeeps(net.nodes[k], Link(m.from, iface), m.dio);
    case SendDao(k, _) =>
    case GetDao(d) => DaoKeeps(net.nodes[d.to], d.from, d.dao);
    case GetAck(a) =>
      var s := net.nodes[a.answered.from];
      if s.bestParent != None {
        CommitEffect(s);
      }
  }

  /**
    In every state of every run a node has a route upwards if and only if it has
    committed anew to the link it leads by, for the prefix that its DAG had then,
    or, for the default route, in a DAG that was grounded then.
   */
  lemma {:induction false} UpwardExactly(r: Run, root: NodeId, j: nat, n: NodeId, u: Upward)
    requires IsRun(r, root) && j < |r.nets| && n in r.nets[0].nodes
    ensures n in r.nets[j].nodes
    ensures u in r.nets[j].nodes[n].upward <==>
      exists i :: 0 <= i < j && CommitsAnew(r.nets[i], r.steps[i], n) && NewRoute(r.nets[i].nodes[n], u)
  {
    hide Apply, Enabled, CommitsAnew, NewRoute;
    if j == 0 {
      assert InitialNode(n, r.nets[0].nodes[n], root);
    } else {
      UpwardExactly(r, root, j - 1, n, u);
      UpwardOfStep(r.nets[j - 1], r.steps[j - 1], n, u);
    }
  }

  // ---------- nothing is forgotten ----------

  /** A node with a best parent has no DAO needed that is not scheduled. */
  ghost predicate NoneOverdue(net: Net) {
    forall n :: n in net.nodes && net.nodes[n].bestParent != None ==> !net.nodes[n].daoNeeded
  }

  lemma DioSchedules(s: NodeState, from: Link, dio: Dio)
    requires s.bestParent != None ==> !s.daoNeeded
    ensures var t := ReceiveDio(s, from, dio); t.bestParent != None ==> !t.daoNeeded
  {
    hide Takes, ReceiveDio, NeedsDao, HasNew, IsOwnAddress, MoreDios;
    if Takes(s, from.peer, dio) {
      AdoptionSchedules(s, from, dio);
    } else {
      OthersChangeNothing(s, from, dio);
    }
  }

  lemma DaoSchedules(s: NodeState, from: NodeId, dao: Dao)
    requires s.bestParent != None ==> !s.daoNeeded
    ensures var t := ReceiveDao(s, from, dao); t.bestParent != None ==> !t.daoNeeded
  {
    hide ReceiveDao, Entered, RoutesAdded, Wanting, IsNew;
    DaoEffect(s, from, dao);
  }

  lemma StepSchedules(net: Net, step: Step)
    requires NoneOverdue(net) && Enabled(net, step)
    ensures NoneOverdue(Apply(net, step))
  {
    hide ReceiveDio, ReceiveDao, Commit, DioOf;
    match step
    case SendDio(k) =>
    case GetDio(k, m, iface) => DioSchedules(net.nodes[k], Link(m.from, iface), m.dio);
    case SendDao(k, _) =>
    case GetDao(d) => DaoSchedules(net.nodes[d.to], d.from, d.dao);
    case GetAck(a) =>
      var s := net.nodes[a.answered.from];
      if s.bestParent != None {
        CommitEffect(s);
      }
  }

  lemma {:induction false} NothingIsForgotten(r: Run, root: NodeId, i: nat)
    requires IsRun(r, root) && i < |r.nets|
    ensures NoneOverdue(r.nets[i])
  {
    hide Apply, Enabled;
    if i == 0 {
      forall n | n in r.nets[0].nodes
        ensures r.nets[0].nodes[n].bestParent == None
      {
        assert InitialNode(n, r.nets[0].nodes[n], root);
      }
    } else {
      NothingIsForgotten(r, root, i - 1);
      StepSchedules(r.nets[i - 1], r.steps[i - 1]);
    }
  }

  // ---------- a handshake ----------

  /**
    When a node sends a DAO, its best parent gets it and the node gets the answer,
    the parent has a route for each target, and the node has committed to it if
    and only if its DAOs are at most 255 in number; the first has number 2.
   */
  lemma Handshake(net: Net, root: NodeId, n: NodeId, targets: seq<Prefix>)
    returns (d: DaoMsg, net1: Net, net2: Net, net3: Net)
    requires RankInv(net, root) && AgreementInv(net) && n in net.nodes && net.nodes[n].bestParent != None
    requires var p := net.nodes[n].bestParent.value.peer; p in net.nodes ==> net.nodes[p].cfg.active
    requires n in net.latest && net.latest[n] + 1 < USHORT_SPAN
    ensures Enabled(net, SendDao(n, targets))
    ensures d == DaoSent(net, n, targets) && net1 == Apply(net, SendDao(n, targets))
    ensures Enabled(net1, GetDao(d)) && net2 == Apply(net1, GetDao(d))
    ensures Enabled(net2, GetAck(AckMsg(d))) && net3 == Apply(net2, GetAck(AckMsg(d)))
    ensures d.to in net.nodes && d.to != n && PeerOf(net.nodes[n].bestParent) == Some(d.to)
    ensures net3.nodes.Keys == net.nodes.Keys && net3.latest.Keys == net.latest.Keys
    ensures forall p :: p in targets ==> HasRoute(net3.nodes[d.to], p)
    ensures Commits(net2, AckMsg(d)) <==> net.latest[n] + 1 <= 255
    ensures net3.nodes[n].parent == if net.latest[n] + 1 <= 255 then net3.nodes[n].bestParent else net.nodes[n].parent
    ensures forall k :: k in net.nodes && k != n && k != d.to ==> net3.nodes[k] == net.nodes[k]
    ensures SameRank(net.nodes[n], net3.nodes[n]) && SameRank(net.nodes[d.to], net3.nodes[d.to])
    ensures SameStart(net.nodes[d.to], net3.nodes[d.to]) && net3.nodes[n].announced == net.nodes[n].announced
    ensures TablesGrow(net.nodes[d.to], net3.nodes[d.to])
    ensures forall k :: k in net.latest && k != n ==> k in net3.latest && net3.latest[k] == net.latest[k]
  {
    hide ReceiveDao, ReceiveDaoack, RankInv, AgreementInv, HasRoute, Commits, TablesGrow;
    ParentFacts(net, root, n);
    d, net1 := DaoSent(net, n, targets), Apply(net, SendDao(n, targets));
    StepKeepsAgreement(net, SendDao(n, targets));
    SentDaoKeeps(net.nodes[n]);
    net2 := Apply(net1, GetDao(d));
    StepKeepsAgreement(net1, GetDao(d));
    AnsweredExactly(net1, d);
    TargetsRouted(net1, d);
    DaoMoves(net1.nodes[d.to], d.from, d.dao);
    net3 := Apply(net2, GetAck(AckMsg(d)));
    CommitsExactly(net2, AckMsg(d));
    AckMoves(net2, AckMsg(d));
  }

  predicate SameStart(s: NodeState, t: NodeState) {
    t.parent == s.parent && t.announced == s.announced
  }

  lemma SentDaoKeeps(s: NodeState)
    ensures SameRank(s, SentDao(s)) && SameStart(s, SentDao(s))
  {
  }

  lemma DaoMoves(s: NodeState, from: NodeId, dao: Dao)
    ensures SameRank(s, ReceiveDao(s, from, dao)) && SameStart(s, ReceiveDao(s, from, dao))
  {
    hide ReceiveDao, Entered, RoutesAdded, Wanting, IsNew;
    DaoEffect(s, from, dao);
  }

  lemma AckMoves(net: Net, a: AckMsg)
    requires Enabled(net, GetAck(a))
    ensures var s, t := net.nodes[a.answered.from], Apply(net, GetAck(a)).nodes[a.answered.from];
      SameRank(s, t) && t.announced == s.announced
      && t.parent == if Commits(net, a) then t.bestParent else s.parent
  {
    hide ReceiveDaoack, Commit;
    var s := net.nodes[a.answered.from];
    AckKeepsRank(s, a.answered.to, a.answered.dao.daoseq);
    if s.bestParent != None {
      CommitEffect(s);
    }
    AckEffect(s, a.answered.to, a.answered.dao.daoseq);
  }

  lemma ParentFacts(net: Net, root: NodeId, n: NodeId)
    requires RankInv(net, root) && n in net.nodes && net.nodes[n].bestParent != None
    ensures var p := net.nodes[n].bestParent.value.peer;
      p != n && p in net.nodes && net.nodes[p].cfg.me == p && net.nodes[n].cfg.me == n && n != root
  {
    assert RankOk(net, root, n);
    var p := net.nodes[n].bestParent.value.peer;
    assert ParentOk(net, n, p);
    assert RankOk(net, root, p);
  }

  lemma TargetsRouted(net: Net, d: DaoMsg)
    requires AgreementInv(net) && Enabled(net, GetDao(d)) && Heard(net.nodes[d.to], d.from)
    ensures forall p :: p in d.dao.targets ==> HasRoute(Apply(net, GetDao(d)).nodes[d.to], p)
  {
    hide AddChildren, TablesOk, MaybeSendDao, HasRoute;
    var s := net.nodes[d.to];
    AddChildrenTables(s, d.from, d.dao.targets);
    ScheduledTables(AddChildren(s, d.from, d.dao.targets));
  }

  // ---------- every tree can form ----------

  /** The node is active and has not heard any DIO. */
  predicate Unheard(s: NodeState) {
    s.cfg.active && s.dioReceived == 0 && s.dtsn == INVALID_SEQUENCE
  }

  /** A node as init_dag leaves it may start a run, and has heard nothing. */
  lemma FreshMayStart(
    me: NodeId, iid: Identifier, ignorePio: bool, instance: nat, dagid: Dagid, root: NodeId)
    requires me != root
    ensures var s := Fresh(me, iid, true, ignorePio, instance, dagid);
      InitialNode(me, s, root) && Unheard(s) && !Joined(s)
  {
  }

  /** `order` names nodes, the root first and each after its parent, whose place is in `up`. */
  ghost predicate IsTree(net: Net, root: NodeId, order: seq<NodeId>, up: seq<nat>) {
    && |up| == |order| > 0 && order[0] == root && Distinct(order)
    && (forall i :: 0 <= i < |order| ==> order[i] in net.nodes && net.nodes[order[i]].cfg.active)
    && (forall i :: 0 < i < |order| ==> Unheard(net.nodes[order[i]]) && up[i] < i)
  }

  /** The node at `i` has joined below its parent, and committed to it. */
  ghost predicate InPlace(net: Net, order: seq<NodeId>, up: seq<nat>, i: nat)
    requires 0 < i < |order| == |up| && up[i] < i
  {
    && order[i] in net.nodes && order[up[i]] in net.nodes
    && var s, p := net.nodes[order[i]], net.nodes[order[up[i]]];
    && Joined(s) && PeerOf(s.bestParent) == Some(order[up[i]]) && s.parent == s.bestParent
    && s.myRank == p.myRank + 1
    && forall q :: q in s.announced ==> HasRoute(p, Prefix(s.announced[q].addr, 128))
  }

  ghost predicate Formed(net: Net, start: Net, root: NodeId, order: seq<NodeId>, up: seq<nat>, n: nat)
    requires n <= |order| == |up|
  {
    && net.nodes.Keys == start.nodes.Keys && net.latest.Keys == start.latest.Keys
    && (forall i :: 0 <= i < n ==> HasJoined(net, order[i]))
    && (forall i :: 0 < i < n ==> up[i] < i && InPlace(net, order, up, i))
    && (forall k :: k in start.nodes && k !in order[..n] ==> Untouched(net, start, k))
  }

  predicate HasJoined(net: Net, k: NodeId) {
    k in net.nodes && Joined(net.nodes[k]) && net.nodes[k].cfg.active
  }

  ghost predicate Untouched(net: Net, start: Net, k: NodeId)
    requires k in start.nodes
  {
    && k in net.nodes && net.nodes[k] == start.nodes[k]
    && k in start.latest && k in net.latest && net.latest[k] == start.latest[k]
  }

  /** A node that can join below `p`, which has. */
  predicate MayJoin(net: Net, c: NodeId, p: NodeId) {
    && c in net.nodes && p in net.nodes && c != p && c in net.latest && net.latest[c] == 1
    && Joined(net.nodes[p]) && net.nodes[p].cfg.active
    && Unheard(net.nodes[c]) && net.nodes[c].cfg.me == c
    && net.nodes[c].bestParent == None && net.nodes[c].parent == None && net.nodes[c].bestRank == UINT_MAX
  }

  /** Nothing has changed but at `c` and `p`, and there neither the rank of `p` nor its parents. */
  ghost predicate OnlyBelow(net: Net, net': Net, c: NodeId, p: NodeId) {
    && c in net.nodes && p in net.nodes
    && net'.nodes.Keys == net.nodes.Keys && net'.latest.Keys == net.latest.Keys
    && (forall k :: k in net.nodes && k != c && k != p ==> net'.nodes[k] == net.nodes[k])
    && (forall k :: k in net.latest && k != c ==> net'.latest[k] == net.latest[k])
    && SameRank(net.nodes[p], net'.nodes[p]) && SameStart(net.nodes[p], net'.nodes[p])
    && TablesGrow(net.nodes[p], net'.nodes[p]) && net'.nodes[c].cfg == net.nodes[c].cfg
  }

  /** The parent's DIO arrives. */
  lemma NodeAdopts(run: Run, root: NodeId, c: NodeId, p: NodeId) returns (longer: Run)
    requires IsRun(run, root) && run.nets != [] && Small(run.nets[0]) && MayJoin(Last(run), c, p)
    ensures IsRun(longer, root) && longer.nets != [] && longer.nets[0] == run.nets[0]
    ensures var net, net' := Last(run), Last(longer);
      && OnlyBelow(net, net', c, p) && net'.latest == net.latest
      && Joined(net'.nodes[c]) && PeerOf(net'.nodes[c].bestParent) == Some(p)
      && net'.nodes[c].myRank == net.nodes[p].myRank + 1
  {
    hide RankInv, IsRun, Small, ReceiveDio, DioOf, JoinedSet;
    var net := Last(run);
    RunKeepsRanks(run, root, |run.nets| - 1);
    NotTruncated(net, root, p);
    var m := DioMsg(p, DioOf(net.nodes[p]));
    longer := Longer(run, root, SendDio(p));
    longer := Longer(longer, root, GetDio(c, m, 0));
    JoinsAtOnce(net.nodes[c], Link(p, 0), m.dio);
    AdoptionKeeps(net.nodes[c], Link(p, 0), m.dio);
  }

  /** Then the node's DAO, and the answer to it. */
  lemma NodeCommits(run: Run, root: NodeId, c: NodeId, p: NodeId, targets: seq<Prefix>) returns (longer: Run)
    requires IsRun(run, root) && run.nets != [] && Small(run.nets[0])
    requires var net := Last(run);
      && c in net.nodes && p in net.nodes && net.nodes[p].cfg.active && c in net.latest && net.latest[c] == 1
      && PeerOf(net.nodes[c].bestParent) == Some(p)
    ensures IsRun(longer, root) && longer.nets != [] && longer.nets[0] == run.nets[0]
    ensures var net, net' := Last(run), Last(longer);
      && OnlyBelow(net, net', c, p) && SameRank(net.nodes[c], net'.nodes[c])
      && net'.nodes[c].announced == net.nodes[c].announced
      && net'.nodes[c].parent == net'.nodes[c].bestParent
      && (forall t :: t in targets ==> HasRoute(net'.nodes[p], t))
  {
    hide RankInv, AgreementInv, IsRun, Small, Commits, HasRoute, Apply, Enabled, DaoSent;
    var net := Last(run);
    RunKeepsRanks(run, root, |run.nets| - 1);
    RunKeepsAgreement(run, root, |run.nets| - 1);
    var d, net1, net2, net3 := Handshake(net, root, c, targets);
    longer := Longer(run, root, SendDao(c, targets));
    longer := Longer(longer, root, GetDao(d));
    longer := Longer(longer, root, GetAck(AckMsg(d)));
  }

  lemma AdoptionKeeps(s: NodeState, from: Link, dio: Dio)
    ensures ReceiveDio(s, from, dio).cfg == s.cfg
  {
    hide ReceiveDio;
    DioRank(s, from, dio);
  }

  lemma {:induction false} Listed(ps: set<Prefix>) returns (targets: seq<Prefix>)
    ensures forall p :: p in targets <==> p in ps
  {
    targets := [];
    if ps != {} {
      var p :| p in ps;
      targets := Listed(ps - {p});
      targets := targets + [p];
    }
  }

  lemma NodeJoins(run: Run, root: NodeId, c: NodeId, p: NodeId) returns (longer: Run)
    requires IsRun(run, root) && run.nets != [] && Small(run.nets[0]) && MayJoin(Last(run), c, p)
    ensures IsRun(longer, root) && longer.nets != [] && longer.nets[0] == run.nets[0]
    ensures OnlyBelow(Last(run), Last(longer), c, p) && HasJoined(Last(longer), c)
    ensures var s, t := Last(longer).nodes[c], Last(longer).nodes[p];
      && Joined(s) && PeerOf(s.bestParent) == Some(p) && s.parent == s.bestParent && s.myRank == t.myRank + 1
      && forall q :: q in s.announced ==> HasRoute(t, Prefix(s.announced[q].addr, 128))
  {
    hide IsRun, Small, HasRoute, TargetSet;
    longer := NodeAdopts(run, root, c, p);
    var s := Last(longer).nodes[c];
    var targets := Listed(TargetSet(s));
    longer := NodeCommits(longer, root, c, p, targets);
    forall q | q in s.announced
      ensures Prefix(s.announced[q].addr, 128) in targets
    {
      OwnIsTarget(s, q);
    }
  }

  lemma OwnIsTarget(s: NodeState, q: Prefix)
    requires q in s.announced
    ensures Prefix(s.announced[q].addr, 128) in TargetSet(s)
  {
  }

  /** A node in its place stays there when another joins. */
  lemma StaysInPlace(net: Net, net': Net, order: seq<NodeId>, up: seq<nat>, i: nat, n: nat, p: NodeId)
    requires 0 < i < n < |order| == |up| && up[i] < i && Distinct(order)
    requires InPlace(net, order, up, i) && OnlyBelow(net, net', order[n], p) && p in order[..n]
    ensures InPlace(net', order, up, i)
  {
    hide HasRoute, TablesGrow;
    var s, t := net.nodes[order[up[i]]], net'.nodes[order[up[i]]];
    forall q | q in net'.nodes[order[i]].announced
      ensures HasRoute(t, Prefix(net'.nodes[order[i]].announced[q].addr, 128))
    {
      if order[up[i]] == p {
        RouteStays(s, t, Prefix(net.nodes[order[i]].announced[q].addr, 128));
      }
    }
  }

  /**
    Every tree of active nodes can form: there is a run after which each of its
    nodes has joined and committed to its parent, one rank below it, and the
    parent has routes for the addresses that the node has configured.
   */
  lemma {:induction false} TreeForms(net: Net, root: NodeId, order: seq<NodeId>, up: seq<nat>, n: nat)
    returns (run: Run)
    requires Initial(net, root) && Small(net) && IsTree(net, root, order, up) && 0 < n <= |order|
    ensures IsRun(run, root) && run.nets != [] && run.nets[0] == net
    ensures Formed(Last(run), net, root, order, up, n)
  {
    hide IsTree, Formed, Initial, Small;
    if n == 1 {
      run := Run([net], []);
      RootAlone(net, root, order, up);
    } else {
      run := TreeForms(net, root, order, up, n - 1);
      run := OneMoreNode(run, root, order, up, n - 1);
    }
  }

  lemma RootAlone(net: Net, root: NodeId, order: seq<NodeId>, up: seq<nat>)
    requires Initial(net, root) && IsTree(net, root, order, up)
    ensures Formed(net, net, root, order, up, 1)
  {
    assert InitialNode(root, net.nodes[root], root);
  }

  lemma OneMoreNode(run: Run, root: NodeId, order: seq<NodeId>, up: seq<nat>, n: nat) returns (longer: Run)
    requires IsRun(run, root) && run.nets != [] && Small(run.nets[0]) && IsTree(run.nets[0], root, order, up)
    requires 0 < n < |order| && Formed(Last(run), run.nets[0], root, order, up, n)
    ensures IsRun(longer, root) && longer.nets != [] && longer.nets[0] == run.nets[0]
    ensures Formed(Last(longer), run.nets[0], root, order, up, n + 1)
  {
    hide InPlace, OnlyBelow, Small, HasRoute, MayJoin, Formed, HasJoined, Initial;
    var c, p := order[n], order[up[n]];
    NextMayJoin(Last(run), run.nets[0], root, order, up, n);
    longer := NodeJoins(run, root, c, p);
    BothThere(Last(run), Last(longer), c, p);
    NowInPlace(Last(longer), order, up, n);
    FormsFurther(Last(run), Last(longer), run.nets[0], root, order, up, n);
  }

  lemma BothThere(net: Net, net': Net, c: NodeId, p: NodeId)
    requires OnlyBelow(net, net', c, p)
    ensures c in net'.nodes && p in net'.nodes
  {
  }

  lemma NowInPlace(net: Net, order: seq<NodeId>, up: seq<nat>, n: nat)
    requires 0 < n < |order| == |up| && up[n] < n && order[n] in net.nodes && order[up[n]] in net.nodes
    requires var s, t := net.nodes[order[n]], net.nodes[order[up[n]]];
      && Joined(s) && PeerOf(s.bestParent) == Some(order[up[n]]) && s.parent == s.bestParent && s.myRank == t.myRank + 1
      && forall q :: q in s.announced ==> HasRoute(t, Prefix(s.announced[q].addr, 128))
    ensures InPlace(net, order, up, n)
  {
  }

  lemma NextMayJoin(net: Net, start: Net, root: NodeId, order: seq<NodeId>, up: seq<nat>, n: nat)
    requires Initial(start, root) && IsTree(start, root, order, up) && 0 < n < |order|
    requires Formed(net, start, root, order, up, n)
    ensures MayJoin(net, order[n], order[up[n]])
  {
    var c := order[n];
    assert InitialNode(c, start.nodes[c], root);
    assert c !in order[..n] && c != root;
  }

  lemma FormsFurther(net: Net, net': Net, start: Net, root: NodeId, order: seq<NodeId>, up: seq<nat>, n: nat)
    requires IsTree(start, root, order, up) && 0 < n < |order| && Formed(net, start, root, order, up, n)
    requires OnlyBelow(net, net', order[n], order[up[n]]) && HasJoined(net', order[n]) && InPlace(net', order, up, n)
    ensures Formed(net', start, root, order, up, n + 1)
  {
    hide InPlace, OnlyBelow, HasJoined, Untouched;
    var c, p := order[n], order[up[n]];
    assert p in order[..n];
    KeysStay(net, net', c, p);
    forall i | 0 <= i < n + 1
      ensures HasJoined(net', order[i])
    {
      if i < n {
        JoinedStays(net, net', c, p, order[i]);
      }
    }
    forall i | 0 < i < n + 1
      ensures InPlace(net', order, up, i)
    {
      if i < n {
        StaysInPlace(net, net', order, up, i, n, p);
      }
    }
    forall k | k in start.nodes && k !in order[..n + 1]
      ensures Untouched(net', start, k)
    {
      assert order[..n + 1] == order[..n] + [c];
      UntouchedStays(net, net', start, c, p, k);
    }
  }

  lemma KeysStay(net: Net, net': Net, c: NodeId, p: NodeId)
    requires OnlyBelow(net, net', c, p)
    ensures net'.nodes.Keys == net.nodes.Keys && net'.latest.Keys == net.latest.Keys
  {
  }

  lemma JoinedStays(net: Net, net': Net, c: NodeId, p: NodeId, k: NodeId)
    requires OnlyBelow(net, net', c, p) && HasJoined(net, k) && k != c
    ensures HasJoined(net', k)
  {
  }

  lemma UntouchedStays(net: Net, net': Net, start: Net, c: NodeId, p: NodeId, k: NodeId)
    requires OnlyBelow(net, net', c, p) && k in start.nodes && Untouched(net, start, k) && k != c && k != p
    ensures Untouched(net', start, k)
  {
  }
}
