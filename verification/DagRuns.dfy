/**
  What holds of every node over whole runs, besides ranks and agreement: the
  prefixes that count as installed are those that did at the start, and the
  newest route upwards leads to the committed parent.
 */
module DagRuns {
  import opened Common
  import opened DagSpec
  import opened RplNetwork
  import opened RplTypes

  /** The prefixes whose flag is set; for the root, its own one may be. */
  function Installed(s: NodeState): set<Prefix> {
    set p | p in s.learnt && s.learnt[p]
  }

  /** There are routes upwards just when there is a parent, and the last of them goes to it. */
  predicate UpToParent(s: NodeState) {
    if s.upward == [] then s.parent == None else s.parent == Some(s.upward[|s.upward| - 1].via)
  }

  predicate Kept(s: NodeState, installed: set<Prefix>) {
    Installed(s) == installed && UpToParent(s)
  }

  /** The node has taken the prefix as a new one: it is the prefix of the DAG, not installed, and a DAO is due. */
  predicate TakenAsNew(t: NodeState, p: Prefix) {
    t.prefix == p && p in t.learnt && !t.learnt[p] && t.daoNeeded
  }

  /** Neither learnt prefixes nor parent and routes upwards have changed. */
  predicate SameHistory(s: NodeState, t: NodeState) {
    t.learnt == s.learnt && t.parent == s.parent && t.upward == s.upward
  }

  predicate SameStanding(s: NodeState, t: NodeState) {
    Installed(t) == Installed(s) && t.parent == s.parent && t.upward == s.upward
  }

  // ---------- the functions of a node ----------

  lemma SchedulingKeeps(s: NodeState)
    ensures SameHistory(s, MaybeScheduleDio(s)) && SameHistory(s, MaybeSendDao(s))
  {
  }

  lemma TakeOverKeeps(s: NodeState, from: Link, dio: Dio)
    ensures SameHistory(s, TakeOver(s, from, dio))
  {
  }

  /**
    An announcement is taken as new if and only if the prefix is not installed,
    and it never becomes so.  Without the option to ignore such announcements,
    a DAO is due after each of them.
   */
  lemma LearntAnew(s: NodeState, p: Prefix)
    ensures var t := AddPrefix(s, p);
      && (TakenAsNew(t, p) <==> p !in Installed(s))
      && (p in Installed(s) ==> t.prefix == s.prefix && t.learnt == s.learnt)
      && (!s.cfg.ignorePio ==> t.daoNeeded)
      && SameStanding(s, t)
  {
    hide MaybeScheduleDio;
    var s1 := s.(prefix := p, learnt := s.learnt[p := SetInstalled(false, true)], daoNeeded := true);
    ScheduleKeepsPrefix(s1);
    if p !in Installed(s) {
      assert Installed(s1) == Installed(s);
    }
  }

  lemma ScheduleKeepsPrefix(s: NodeState)
    ensures var t := MaybeScheduleDio(s);
      SameHistory(s, t) && t.cfg == s.cfg && t.prefix == s.prefix && t.daoNeeded == s.daoNeeded
  {
  }

  lemma {:induction false} PrefixesLearnt(s: NodeState, ps: seq<Prefix>)
    ensures var t := AddPrefixes(s, ps); SameStanding(s, t)
  {
    hide AddPrefix, Installed;
    if ps != [] {
      var n := |ps| - 1;
      PrefixesLearnt(s, ps[..n]);
      LearntAnew(AddPrefixes(s, ps[..n]), ps[n]);
    }
  }

  lemma DioKeeps(s: NodeState, from: Link, dio: Dio)
    ensures var t := ReceiveDio(s, from, dio); SameStanding(s, t)
  {
    hide LowerRank, DioOutcomeOf, SeqUpdate;
    LowerRankKeeps(s.(dioReceived := (s.dioReceived + 1) % UINT_SPAN, lastSeq := SeqUpdate(s.lastSeq, dio.dtsn)),
      from, dio);
  }

  lemma LowerRankKeeps(s: NodeState, from: Link, dio: Dio)
    ensures var t := LowerRank(s, from, dio); SameStanding(s, t)
  {
    hide AddPrefixes, TakeOver, MaybeScheduleDio, MaybeSendDao, RankOutcome;
    var s1 := TakeOver(s, from, dio);
    TakeOverKeeps(s, from, dio);
    PrefixesLearnt(s1, dio.prefixes);
    var s2 := AddPrefixes(s1, dio.prefixes);
    SchedulingKeeps(s2);
    SchedulingKeeps(MaybeScheduleDio(s2));
  }

  lemma {:induction false} ChildrenKeep(s: NodeState, from: NodeId, ps: seq<Prefix>)
    ensures SameHistory(s, AddChildren(s, from, ps))
  {
    if ps != [] {
      ChildrenKeep(s, from, ps[..|ps| - 1]);
    }
  }

  lemma DaoKeeps(s: NodeState, from: NodeId, dao: Dao)
    ensures SameHistory(s, ReceiveDao(s, from, dao))
  {
    hide AddChildren, MaybeSendDao;
    ChildrenKeep(s, from, dao.targets);
    SchedulingKeeps(AddChildren(s, from, dao.targets));
  }

  lemma SendingKeeps(s: NodeState)
    ensures SameHistory(s, SentDao(s)) && SameHistory(s, SentDio(s))
  {
  }

  /** A commitment to another parent installs routes to it. */
  lemma CommitLeadsUp(s: NodeState)
    requires s.bestParent != None && UpToParent(s)
    ensures var t := Commit(s);
      && t.learnt == s.learnt && UpToParent(t) && t.parent == s.bestParent && t.upward != []
  {
    hide MaybeScheduleDio;
    if s.bestParent != s.parent {
      SchedulingKeeps(s.(lastParent := PeerOf(s.parent), parent := s.bestParent,
        upward := s.upward + RoutesUp(s, s.bestParent.value)));
    }
  }

  // ---------- runs ----------

  /** Of each node, what has been kept since `start`. */
  ghost predicate HistoryInv(net: Net, start: Net) {
    && net.nodes.Keys == start.nodes.Keys
    && forall n :: n in net.nodes ==> Kept(net.nodes[n], Installed(start.nodes[n]))
  }

  lemma StepKeepsHistory(net: Net, step: Step, start: Net)
    requires HistoryInv(net, start) && Enabled(net, step)
    ensures HistoryInv(Apply(net, step), start)
  {
    hide ReceiveDio, ReceiveDao, ReceiveDaoack, SentDao, SentDio, DioOf, Kept, Installed;
    match step
    case SendDio(n) => SentKeeps(net.nodes[n], Installed(start.nodes[n]));
    case GetDio(n, m, iface) =>
      GetDioKeeps(net.nodes[n], Link(m.from, iface), m.dio, Installed(start.nodes[n]));
    case SendDao(n, _) => SentKeeps(net.nodes[n], Installed(start.nodes[n]));
    case GetDao(d) => GetDaoKeeps(net.nodes[d.to], d.from, d.dao, Installed(start.nodes[d.to]));
    case GetAck(a) =>
      var n := a.answered.from;
      GetAckKeeps(net.nodes[n], a.answered.to, a.answered.dao.daoseq, Installed(start.nodes[n]));
  }

  lemma SentKeeps(s: NodeState, installed: set<Prefix>)
    requires Kept(s, installed)
    ensures Kept(SentDio(s), installed) && Kept(SentDao(s), installed)
  {
    hide SentDio, SentDao;
    SendingKeeps(s);
  }

  lemma GetDioKeeps(s: NodeState, from: Link, dio: Dio, installed: set<Prefix>)
    requires Kept(s, installed)
    ensures Kept(ReceiveDio(s, from, dio), installed)
  {
    hide ReceiveDio, Installed;
    DioKeeps(s, from, dio);
  }

  lemma GetDaoKeeps(s: NodeState, from: NodeId, dao: Dao, installed: set<Prefix>)
    requires Kept(s, installed)
    ensures Kept(ReceiveDao(s, from, dao), installed)
  {
    hide ReceiveDao;
    DaoKeeps(s, from, dao);
  }

  lemma GetAckKeeps(s: NodeState, from: NodeId, daoseq: Byte, installed: set<Prefix>)
    requires Kept(s, installed)
    ensures Kept(ReceiveDaoack(s, from, daoseq), installed)
  {
    hide Commit, UpToParent;
    if AckAccepted(s, from, daoseq) {
      CommitLeadsUp(s);
    }
  }

  /**
    In every state of every run, the installed prefixes of a node are those that
    it started with, and the last route upwards goes to the committed parent.
   */
  lemma {:induction false} HistoryOverRuns(r: Run, root: NodeId, i: nat)
    requires IsRun(r, root) && i < |r.nets|
    ensures HistoryInv(r.nets[i], r.nets[0])
  {
    hide Apply, Enabled, HistoryInv, Initial;
    if i == 0 {
      InitialHistory(r.nets[0], root);
    } else {
      HistoryOverRuns(r, root, i - 1);
      StepKeepsHistory(r.nets[i - 1], r.steps[i - 1], r.nets[0]);
    }
  }

  lemma InitialHistory(net: Net, root: NodeId)
    requires Initial(net, root)
    ensures HistoryInv(net, net)
  {
    forall n | n in net.nodes
      ensures Kept(net.nodes[n], Installed(net.nodes[n]))
    {
      assert InitialNode(n, net.nodes[n], root);
    }
  }

  /** So at any time an announcement is new to a node just when the prefix was not installed there at the start. */
  lemma NewThroughoutRuns(r: Run, root: NodeId, i: nat, n: NodeId, p: Prefix)
    requires IsRun(r, root) && i < |r.nets| && n in r.nets[0].nodes
    ensures n in r.nets[i].nodes
    ensures TakenAsNew(AddPrefix(r.nets[i].nodes[n], p), p) <==> p !in Installed(r.nets[0].nodes[n])
  {
    hide IsRun, AddPrefix, TakenAsNew, Installed, UpToParent;
    HistoryOverRuns(r, root, i);
    LearntAnew(r.nets[i].nodes[n], p);
  }
}
