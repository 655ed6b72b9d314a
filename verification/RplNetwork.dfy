/**
  A network of RPL nodes as a transition system.  A message that was sent stays
  available for ever, so it may be delivered late, more than once, out of order
  or never.  Two invariants: ranks, which make the best-parent graph loop free,
  and the agreement that a DAO-ACK stands for.
 */
module RplNetwork {
  import opened Common
  import opened DagSpec
  import opened RplTypes

  datatype DioMsg = DioMsg(from: NodeId, dio: Dio)

  /** `count` numbers the sender's DAOs without wrapping; on the wire is `dao.daoseq`. */
  datatype DaoMsg = DaoMsg(from: NodeId, to: NodeId, count: nat, dao: Dao)

  /** The acknowledgement of a DAO, from its receiver to its sender. */
  datatype AckMsg = AckMsg(answered: DaoMsg)

  /** `latest[n]` is the number of the last DAO of `n`; the first one has number 2. */
  datatype Net = Net(nodes: map<NodeId, NodeState>, latest: map<NodeId, nat>,
                     dios: set<DioMsg>, daos: set<DaoMsg>, acks: set<AckMsg>)

  /** A DAO is sent about any targets; which ones its bytes tell the receiver is the subject of RplWire. */
  datatype Step =
    | SendDio(n: NodeId)
    | GetDio(n: NodeId, m: DioMsg, iface: nat)
    | SendDao(n: NodeId, targets: seq<Prefix>)
    | GetDao(d: DaoMsg)
    | GetAck(a: AckMsg)

  predicate Enabled(net: Net, step: Step) {
    match step
    case SendDio(n) => n in net.nodes && Joined(net.nodes[n])
    case GetDio(n, m, _) => n in net.nodes && m in net.dios
    case SendDao(n, _) => n in net.nodes && n in net.latest && net.nodes[n].bestParent != None
    case GetDao(d) => d in net.daos && d.to in net.nodes
    case GetAck(a) => a in net.acks && a.answered.from in net.nodes
  }

  function DaoSent(net: Net, n: NodeId, targets: seq<Prefix>): DaoMsg
    requires Enabled(net, SendDao(n, targets))
  {
    var s := net.nodes[n];
    DaoMsg(n, s.bestParent.value.peer, net.latest[n] + 1, Dao(SentDao(s).daoSequence % 256, true, targets))
  }

  function Update(net: Net, n: NodeId, s: NodeState): Net {
    net.(nodes := net.nodes[n := s])
  }

  function Apply(net: Net, step: Step): Net
    requires Enabled(net, step)
  {
    match step
    case SendDio(n) =>
      Update(net, n, SentDio(net.nodes[n])).(dios := net.dios + {DioMsg(n, DioOf(net.nodes[n]))})
    case GetDio(n, m, iface) =>
      Update(net, n, ReceiveDio(net.nodes[n], Link(m.from, iface), m.dio))
    case SendDao(n, targets) =>
      Update(net, n, SentDao(net.nodes[n])).(
        latest := net.latest[n := net.latest[n] + 1], daos := net.daos + {DaoSent(net, n, targets)})
    case GetDao(d) =>
      var s := net.nodes[d.to];
      Update(net, d.to, ReceiveDao(s, d.from, d.dao)).(
        acks := net.acks + (if SendsAck(s, d.from, d.dao) then {AckMsg(d)} else {}))
    case GetAck(a) =>
      var n := a.answered.from;
      Update(net, n, ReceiveDaoack(net.nodes[n], a.answered.to, a.answered.dao.daoseq))
  }

  /** A node before anything happened; the root has been given rank 1. */
  predicate InitialNode(n: NodeId, s: NodeState, root: NodeId) {
    && s.cfg.me == n && s.bestParent == None && s.parent == None
    && s.children == map[] && s.routes == [] && s.upward == [] && s.daoSequence == 1
    && (if n == root then s.myRank == 1 && s.bestRank == 1 else s.myRank == UINT_MAX && s.bestRank == UINT_MAX)
  }

  ghost predicate Initial(net: Net, root: NodeId) {
    && root in net.nodes && net.latest.Keys == net.nodes.Keys
    && (forall n :: n in net.nodes ==> InitialNode(n, net.nodes[n], root) && net.latest[n] == 1)
    && net.dios == {} && net.daos == {} && net.acks == {}
  }

  /** Fewer than 65536 nodes. */
  ghost predicate Small(net: Net) {
    |net.nodes| < USHORT_SPAN
  }

  datatype Run = Run(nets: seq<Net>, steps: seq<Step>)

  ghost predicate IsRun(r: Run, root: NodeId) {
    && |r.nets| == |r.steps| + 1
    && Initial(r.nets[0], root)
    && forall i :: 0 <= i < |r.steps| ==>
         Enabled(r.nets[i], r.steps[i]) && r.nets[i + 1] == Apply(r.nets[i], r.steps[i])
  }

  function Last(run: Run): Net
    requires run.nets != []
  {
    run.nets[|run.nets| - 1]
  }

  lemma Longer(run: Run, root: NodeId, step: Step) returns (longer: Run)
    requires IsRun(run, root) && run.nets != [] && Enabled(Last(run), step)
    ensures IsRun(longer, root) && |longer.steps| == |run.steps| + 1 && longer.nets != []
    ensures longer.nets[0] == run.nets[0] && Last(longer) == Apply(Last(run), step)
  {
    hide Apply, Enabled, Initial;
    longer := Run(run.nets + [Apply(Last(run), step)], run.steps + [step]);
  }

  // ---------- what a message does to ranks ----------

  predicate SameRank(s: NodeState, t: NodeState) {
    t.cfg == s.cfg && t.myRank == s.myRank && t.bestRank == s.bestRank && t.bestParent == s.bestParent
  }

  lemma {:induction false} PrefixesKeepRank(s: NodeState, ps: seq<Prefix>)
    ensures SameRank(s, AddPrefixes(s, ps)) && SameTables(s, AddPrefixes(s, ps))
  {
    if ps != [] {
      PrefixesKeepRank(s, ps[..|ps| - 1]);
    }
  }

  predicate SameTables(s: NodeState, t: NodeState) {
    t.children == s.children && t.routes == s.routes && t.daoSequence == s.daoSequence
  }

  lemma AdoptionSchedulingKeeps(s: NodeState)
    ensures SameRank(s, ScheduleAfterAdoption(s)) && SameTables(s, ScheduleAfterAdoption(s))
  {
    hide MaybeScheduleDio, MaybeSendDao;
    ScheduleKeeps(s);
    SendDaoKeeps(s);
    SendDaoKeeps(MaybeScheduleDio(s));
  }

  lemma ScheduleKeeps(s: NodeState)
    ensures SameRank(s, MaybeScheduleDio(s)) && SameTables(s, MaybeScheduleDio(s))
  {
  }

  lemma SendDaoKeeps(s: NodeState)
    ensures SameRank(s, MaybeSendDao(s)) && SameTables(s, MaybeSendDao(s))
  {
  }

  /** The node took the sender of the DIO as its best parent, for a rank no higher than before. */
  predicate Adopts(s: NodeState, t: NodeState, from: Link, rank: nat) {
    && t.cfg == s.cfg && from.peer != s.cfg.me && rank <= s.bestRank
    && t.bestRank == rank && t.myRank == rank + 1 && t.bestParent == Some(from)
  }

  lemma AdoptRank(s: NodeState, from: Link, dio: Dio)
    ensures var t := Adopt(s, from, dio);
      && t.cfg == s.cfg && t.bestRank == dio.rank && t.myRank == dio.rank + 1 && t.bestParent == Some(from)
      && SameTables(s, t)
  {
    hide AddPrefixes, ScheduleAfterAdoption;
    var s1 := TakeOver(s, from, dio);
    PrefixesKeepRank(s1, dio.prefixes);
    AdoptionSchedulingKeeps(AddPrefixes(s1, dio.prefixes));
  }

  lemma DioRank(s: NodeState, from: Link, dio: Dio)
    ensures var t := ReceiveDio(s, from, dio);
      SameTables(s, t) && (SameRank(s, t) || Adopts(s, t, from, dio.rank))
  {
    hide Adopt, SeqUpdate, SeqTooOld;
    var s2 := s.(dioReceived := (s.dioReceived + 1) % UINT_SPAN, lastSeq := SeqUpdate(s.lastSeq, dio.dtsn));
    AdoptRank(s2, from, dio);
  }

  lemma {:induction false} ChildrenKeepRank(s: NodeState, from: NodeId, ps: seq<Prefix>)
    ensures SameRank(s, AddChildren(s, from, ps)) && AddChildren(s, from, ps).daoSequence == s.daoSequence
  {
    if ps != [] {
      ChildrenKeepRank(s, from, ps[..|ps| - 1]);
    }
  }

  lemma DaoKeepsRank(s: NodeState, from: NodeId, dao: Dao)
    ensures SameRank(s, ReceiveDao(s, from, dao)) && ReceiveDao(s, from, dao).daoSequence == s.daoSequence
  {
    hide AddChildren;
    ChildrenKeepRank(s, from, dao.targets);
  }

  lemma AckKeepsRank(s: NodeState, from: NodeId, daoseq: Byte)
    ensures SameRank(s, ReceiveDaoack(s, from, daoseq)) && SameTables(s, ReceiveDaoack(s, from, daoseq))
  {
    hide MaybeScheduleDio, RoutesUp;
    if AckAccepted(s, from, daoseq) {
      ScheduleKeeps(s.(lastParent := PeerOf(s.parent), parent := s.bestParent,
        upward := s.upward + RoutesUp(s, s.bestParent.value)));
    }
  }

  // ---------- the rank invariant ----------

  ghost function JoinedSet(net: Net): set<NodeId> {
    set n | n in net.nodes && Joined(net.nodes[n])
  }

  ghost predicate RankOk(net: Net, root: NodeId, n: NodeId)
    requires n in net.nodes
  {
    var s := net.nodes[n];
    && s.cfg.me == n
    && if n == root then s.myRank == 1 && s.bestRank == 1 && s.bestParent == None
       else if !Joined(s) then s.myRank == UINT_MAX && s.bestRank == UINT_MAX && s.bestParent == None
       else
         && s.myRank == s.bestRank + 1 <= |JoinedSet(net)|
         && s.bestParent != None && ParentOk(net, n, s.bestParent.value.peer)
  }

  /** The best parent has joined, and its rank is lower than this node's. */
  ghost predicate ParentOk(net: Net, n: NodeId, p: NodeId)
    requires n in net.nodes
  {
    p != n && p in net.nodes && Joined(net.nodes[p]) && 1 <= net.nodes[p].myRank <= net.nodes[n].bestRank
  }

  /** A DIO shows a rank that its sender has or had. */
  ghost predicate DioOk(net: Net, m: DioMsg) {
    && m.from in net.nodes && Joined(net.nodes[m.from])
    && net.nodes[m.from].myRank <= m.dio.rank <= |JoinedSet(net)|
  }

  ghost predicate RankInv(net: Net, root: NodeId) {
    && root in net.nodes
    && (forall n :: n in net.nodes ==> RankOk(net, root, n))
    && (forall m :: m in net.dios ==> DioOk(net, m))
  }

  lemma SubsetSize<T>(a: set<T>, b: set<T>)
    requires a <= b
    ensures |a| <= |b|
  {
    assert |b| == |a| + |b - a| by {
      assert b == a + (b - a);
    }
  }

  lemma JoinedAtMostAll(net: Net)
    ensures |JoinedSet(net)| <= |net.nodes|
  {
    SubsetSize(JoinedSet(net), net.nodes.Keys);
  }

  /** Only node `n` changed. */
  ghost predicate OnlyNode(net: Net, net': Net, n: NodeId) {
    && n in net.nodes && net'.nodes.Keys == net.nodes.Keys
    && forall k :: k in net.nodes && k != n ==> net'.nodes[k] == net.nodes[k]
  }

  /** Ranks fell or stayed, and who had joined still has. */
  ghost predicate RanksFell(net: Net, net': Net) {
    && net'.nodes.Keys == net.nodes.Keys
    && |JoinedSet(net)| <= |JoinedSet(net')|
    && forall k :: k in net.nodes ==> RankFell(net.nodes[k], net'.nodes[k])
  }

  predicate RankFell(s: NodeState, t: NodeState) {
    t.myRank <= s.myRank && t.bestRank <= s.bestRank && (Joined(s) ==> Joined(t))
  }

  lemma RankOkStays(net: Net, net': Net, root: NodeId, k: NodeId)
    requires RanksFell(net, net') && k in net.nodes && SameRank(net.nodes[k], net'.nodes[k])
    requires RankOk(net, root, k)
    requires forall j :: j in net.nodes && Joined(net.nodes[j]) ==> net'.nodes[j].myRank >= 1
    ensures RankOk(net', root, k)
  {
    var s := net.nodes[k];
    if k != root && Joined(s) {
      var p := s.bestParent.value.peer;
      assert RankFell(net.nodes[p], net'.nodes[p]);
      assert ParentOk(net', k, p);
    }
  }

  lemma DioOkStays(net: Net, net': Net, m: DioMsg)
    requires RanksFell(net, net') && DioOk(net, m)
    ensures DioOk(net', m)
  {
    assert RankFell(net.nodes[m.from], net'.nodes[m.from]);
  }

  /** Changing one node without touching its rank. */
  lemma KeepRanks(net: Net, net': Net, root: NodeId, n: NodeId)
    requires RankInv(net, root) && OnlyNode(net, net', n)
    requires SameRank(net.nodes[n], net'.nodes[n]) && net'.dios == net.dios
    ensures RankInv(net', root) && RanksFell(net, net') && JoinedSet(net') == JoinedSet(net)
  {
    hide RankOk, DioOk;
    assert JoinedSet(net') == JoinedSet(net);
    PositiveRanks(net, root);
    forall k | k in net.nodes
      ensures RankOk(net', root, k)
    {
      RankOkStays(net, net', root, k);
    }
    forall m | m in net.dios
      ensures DioOk(net', m)
    {
      DioOkStays(net, net', m);
    }
  }

  lemma PositiveRanks(net: Net, root: NodeId)
    requires RankInv(net, root)
    ensures forall j :: j in net.nodes && Joined(net.nodes[j]) ==> net.nodes[j].myRank >= 1
  {
    forall j | j in net.nodes && Joined(net.nodes[j])
      ensures net.nodes[j].myRank >= 1
    {
      assert RankOk(net, root, j);
    }
  }

  /** The facts about an adoption that the invariant needs. */
  lemma AdoptionFacts(net: Net, net': Net, root: NodeId, n: NodeId, m: DioMsg, iface: nat)
    requires RankInv(net, root) && Small(net) && m in net.dios && OnlyNode(net, net', n)
    requires Adopts(net.nodes[n], net'.nodes[n], Link(m.from, iface), m.dio.rank)
    ensures n != root && m.from != n && Joined(net'.nodes[n])
    ensures RankFell(net.nodes[n], net'.nodes[n])
    ensures 1 <= net.nodes[m.from].myRank <= m.dio.rank
    ensures Joined(net.nodes[n]) ==> m.dio.rank + 1 <= |JoinedSet(net)|
    ensures m.dio.rank <= |JoinedSet(net)|
  {
    assert DioOk(net, m);
    assert RankOk(net, root, n) && RankOk(net, root, m.from);
    JoinedAtMostAll(net);
  }

  lemma AdopterJoins(net: Net, net': Net, n: NodeId)
    requires OnlyNode(net, net', n) && Joined(net'.nodes[n])
    ensures JoinedSet(net') == JoinedSet(net) + {n}
    ensures |JoinedSet(net')| == |JoinedSet(net)| + (if Joined(net.nodes[n]) then 0 else 1)
  {
    assert JoinedSet(net') == JoinedSet(net) + {n};
    if Joined(net.nodes[n]) {
      assert JoinedSet(net') == JoinedSet(net);
    }
  }

  /** A node adopts a parent whose DIO is in the network. */
  lemma AdoptionKeepsRanks(net: Net, net': Net, root: NodeId, n: NodeId, m: DioMsg, iface: nat)
    requires RankInv(net, root) && Small(net) && m in net.dios && net'.dios == net.dios && OnlyNode(net, net', n)
    requires Adopts(net.nodes[n], net'.nodes[n], Link(m.from, iface), m.dio.rank)
    ensures RankInv(net', root) && RanksFell(net, net')
  {
    hide RankOk, DioOk, Small, JoinedSet;
    AdoptionFacts(net, net', root, n, m, iface);
    AdopterJoins(net, net', n);
    PositiveRanks(net, root);
    forall k | k in net.nodes
      ensures RankOk(net', root, k)
    {
      if k == n {
        AdopterOk(net, net', root, n, m, iface);
      } else {
        RankOkStays(net, net', root, k);
      }
    }
    forall m' | m' in net.dios
      ensures DioOk(net', m')
    {
      DioOkStays(net, net', m');
    }
  }

  lemma AdopterOk(net: Net, net': Net, root: NodeId, n: NodeId, m: DioMsg, iface: nat)
    requires RankInv(net, root) && Small(net) && m in net.dios && OnlyNode(net, net', n)
    requires Adopts(net.nodes[n], net'.nodes[n], Link(m.from, iface), m.dio.rank)
    ensures RankOk(net', root, n)
  {
    hide Small, JoinedSet;
    AdoptionFacts(net, net', root, n, m, iface);
    AdopterJoins(net, net', n);
    assert RankOk(net, root, n) && DioOk(net, m);
    assert ParentOk(net', n, m.from);
  }

  // ---------- every step keeps the rank invariant ----------

  lemma InitialRanks(net: Net, root: NodeId)
    requires Initial(net, root)
    ensures RankInv(net, root)
  {
    forall n | n in net.nodes
      ensures RankOk(net, root, n)
    {
      assert InitialNode(n, net.nodes[n], root);
    }
  }

  lemma StepKeepsRanks(net: Net, step: Step, root: NodeId)
    requires RankInv(net, root) && Small(net) && Enabled(net, step)
    ensures RankInv(Apply(net, step), root) && RanksFell(net, Apply(net, step))
  {
    hide RankInv, RanksFell, ReceiveDio, ReceiveDao, ReceiveDaoack, SameRank, Small, SentDio, DioOf;
    var net' := Apply(net, step);
    match step
    case SendDio(n) =>
      SendDioKeepsRanks(net, root, n);
    case GetDio(n, m, iface) =>
      DioRank(net.nodes[n], Link(m.from, iface), m.dio);
      if SameRank(net.nodes[n], net'.nodes[n]) {
        KeepRanks(net, net', root, n);
      } else {
        AdoptionKeepsRanks(net, net', root, n, m, iface);
      }
    case SendDao(n, targets) =>
      SentDaoKeepsRank(net.nodes[n]);
      KeepRanks(net, net', root, n);
    case GetDao(d) =>
      DaoKeepsRank(net.nodes[d.to], d.from, d.dao);
      KeepRanks(net, net', root, d.to);
    case GetAck(a) =>
      AckKeepsRank(net.nodes[a.answered.from], a.answered.to, a.answered.dao.daoseq);
      KeepRanks(net, net', root, a.answered.from);
  }

  lemma SentDaoKeepsRank(s: NodeState)
    ensures SameRank(s, SentDao(s))
  {
  }

  lemma SendDioKeepsRanks(net: Net, root: NodeId, n: NodeId)
    requires RankInv(net, root) && Small(net) && Enabled(net, SendDio(n))
    ensures RankInv(Apply(net, SendDio(n)), root) && RanksFell(net, Apply(net, SendDio(n)))
  {
    hide RankOk, DioOk, Small, JoinedSet;
    var net' := Apply(net, SendDio(n));
    var middle := Update(net, n, SentDio(net.nodes[n]));
    KeepRanks(net, middle, root, n);
    assert JoinedSet(net') == JoinedSet(middle) by {
      SameJoined(middle, net');
    }
    NotTruncated(net, root, n);
    var m := DioMsg(n, DioOf(net.nodes[n]));
    assert DioOk(net', m) by {
      SentDioOk(net, root, n);
    }
    forall k | k in net'.nodes
      ensures RankOk(net', root, k)
    {
      assert RankOk(middle, root, k);
      RankOkSameNodes(middle, net', root, k);
    }
    forall m' | m' in net'.dios
      ensures DioOk(net', m')
    {
      if m' != m {
        DioOkSameNodes(middle, net', m');
      }
    }
  }

  lemma SameJoined(a: Net, b: Net)
    requires a.nodes == b.nodes
    ensures JoinedSet(a) == JoinedSet(b)
  {
  }

  lemma RankOkSameNodes(a: Net, b: Net, root: NodeId, k: NodeId)
    requires a.nodes == b.nodes && k in a.nodes && RankOk(a, root, k)
    ensures RankOk(b, root, k)
  {
    SameJoined(a, b);
  }

  lemma DioOkSameNodes(a: Net, b: Net, m: DioMsg)
    requires a.nodes == b.nodes && DioOk(a, m)
    ensures DioOk(b, m)
  {
    SameJoined(a, b);
  }

  lemma DioRankIs(s: NodeState)
    ensures DioOf(s).rank == s.myRank % USHORT_SPAN
  {
  }

  /** The 16 bits of the rank field never truncate: ranks are bounded by the number of joined nodes. */
  lemma NotTruncated(net: Net, root: NodeId, n: NodeId)
    requires RankInv(net, root) && Small(net) && n in net.nodes && Joined(net.nodes[n])
    ensures net.nodes[n].myRank <= |JoinedSet(net)| < USHORT_SPAN
    ensures DioOf(net.nodes[n]).rank == net.nodes[n].myRank
  {
    hide DioOf;
    JoinedAtMostAll(net);
    assert RankOk(net, root, n);
    DioRankIs(net.nodes[n]);
    if n == root {
      assert root in JoinedSet(net);
      SubsetSize({root}, JoinedSet(net));
    }
  }

  lemma SentDioOk(net: Net, root: NodeId, n: NodeId)
    requires RankInv(net, root) && Small(net) && Enabled(net, SendDio(n))
    ensures DioOk(Apply(net, SendDio(n)), DioMsg(n, DioOf(net.nodes[n])))
  {
    NotTruncated(net, root, n);
    assert JoinedSet(Apply(net, SendDio(n))) == JoinedSet(net);
  }

  // ---------- what the invariant means for a run ----------

  lemma {:induction false} RunKeepsRanks(r: Run, root: NodeId, i: nat)
    requires IsRun(r, root) && Small(r.nets[0]) && i < |r.nets|
    ensures RankInv(r.nets[i], root) && Small(r.nets[i])
  {
    hide RankInv, Apply, Enabled;
    if i == 0 {
      InitialRanks(r.nets[0], root);
    } else {
      RunKeepsRanks(r, root, i - 1);
      StepKeepsRanks(r.nets[i - 1], r.steps[i - 1], root);
      SameSize(r.nets[i - 1], r.nets[i]);
    }
  }

  lemma SameSize(a: Net, b: Net)
    requires RanksFell(a, b) && Small(a)
    ensures Small(b)
  {
    assert |b.nodes| == |b.nodes.Keys| == |a.nodes.Keys| == |a.nodes|;
  }

  /** Ranks never rise, however long the run. */
  lemma {:induction false} RanksNeverRise(r: Run, root: NodeId, i: nat, j: nat, n: NodeId)
    requires IsRun(r, root) && Small(r.nets[0]) && i <= j < |r.nets| && n in r.nets[i].nodes
    ensures n in r.nets[j].nodes && r.nets[j].nodes[n].myRank <= r.nets[i].nodes[n].myRank
    decreases j - i
  {
    hide RankInv, Apply, Enabled, Small;
    if i < j {
      RunKeepsRanks(r, root, i);
      StepKeepsRanks(r.nets[i], r.steps[i], root);
      assert RankFell(r.nets[i].nodes[n], r.nets[i + 1].nodes[n]);
      RanksNeverRise(r, root, i + 1, j, n);
    }
  }

  /** A path of best parents. */
  ghost predicate BestPath(net: Net, path: seq<NodeId>) {
    && path != []
    && (forall i :: 0 <= i < |path| ==> path[i] in net.nodes)
    && forall i :: 0 <= i < |path| - 1 ==> PeerOf(net.nodes[path[i]].bestParent) == Some(path[i + 1])
  }

  /** Along best parents ranks fall strictly. */
  lemma {:induction false} RankFallsOnPath(net: Net, root: NodeId, path: seq<NodeId>)
    requires RankInv(net, root) && BestPath(net, path) && |path| > 1
    ensures net.nodes[path[|path| - 1]].myRank < net.nodes[path[0]].myRank
  {
    assert RankOk(net, root, path[0]);
    assert ParentOk(net, path[0], path[1]);
    if |path| > 2 {
      assert BestPath(net, path[1..]);
      RankFallsOnPath(net, root, path[1..]);
    }
  }

  /** In every state of every run the best-parent graph has no cycle. */
  lemma LoopFree(r: Run, root: NodeId, i: nat, path: seq<NodeId>)
    requires IsRun(r, root) && Small(r.nets[0]) && i < |r.nets|
    requires BestPath(r.nets[i], path) && |path| > 1
    ensures path[0] != path[|path| - 1]
  {
    hide RankInv, IsRun;
    RunKeepsRanks(r, root, i);
    RankFallsOnPath(r.nets[i], root, path);
  }

  /** From every node that has joined, the best parents lead to the root. */
  lemma {:induction false} PathToRoot(net: Net, root: NodeId, n: NodeId) returns (path: seq<NodeId>)
    requires RankInv(net, root) && n in net.nodes && Joined(net.nodes[n])
    ensures BestPath(net, path) && path[0] == n && path[|path| - 1] == root
    ensures |path| <= net.nodes[n].myRank
    decreases net.nodes[n].myRank
  {
    assert RankOk(net, root, n);
    if n == root {
      path := [n];
    } else {
      var p := net.nodes[n].bestParent.value.peer;
      assert ParentOk(net, n, p);
      path := PathToRoot(net, root, p);
      path := [n] + path;
    }
  }

  lemma EveryoneReachesTheRoot(r: Run, root: NodeId, i: nat, n: NodeId) returns (path: seq<NodeId>)
    requires IsRun(r, root) && Small(r.nets[0]) && i < |r.nets|
    requires n in r.nets[i].nodes && Joined(r.nets[i].nodes[n])
    ensures BestPath(r.nets[i], path) && path[0] == n && path[|path| - 1] == root
    ensures |path| <= r.nets[i].nodes[n].myRank <= |JoinedSet(r.nets[i])| < USHORT_SPAN
  {
    hide RankInv, IsRun, JoinedSet, BestPath;
    RunKeepsRanks(r, root, i);
    NotTruncated(r.nets[i], root, n);
    path := PathToRoot(r.nets[i], root, n);
  }
}
