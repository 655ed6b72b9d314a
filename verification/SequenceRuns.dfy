/**
  The DIO sequence filter over whole runs.  The sender counts without bound and
  transmits eight bits; compare section 3.2 of RFC 1982.
 */
module SequenceRuns {
  import opened Common
  import opened DagSpec
  import opened RplTypes

  /** Too old: more than half of the number circle ahead. */
  lemma TooOldIsHalfCircle(last: nat, seqno: Byte)
    ensures SeqTooOld(last, seqno) <==> (seqno - last) % 256 > 128
  {
  }

  /** The least number above `last` that is transmitted as `seqno`. */
  ghost predicate IsNext(last: nat, seqno: Byte, v: nat) {
    last < v && v % 256 == seqno && forall w {:trigger w % 256} :: last < w < v ==> w % 256 != seqno
  }

  function NextOf(last: nat, seqno: Byte): (v: nat) {
    last + 1 + (seqno - last - 1) % 256
  }

  lemma UpdateIsNext(last: nat, seqno: Byte)
    requires last < UINT_SPAN
    ensures IsNext(last, seqno, NextOf(last, seqno))
    ensures SeqUpdate(last, seqno) == NextOf(last, seqno) % UINT_SPAN
  {
    var v := NextOf(last, seqno);
    assert v <= last + 256;
    forall w | last < w < v
      ensures w % 256 != seqno
    {
      assert v - w < 256;
    }
  }

  lemma {:induction false} PrefixesKeepFilter(s: NodeState, ps: seq<Prefix>)
    ensures var t := AddPrefixes(s, ps);
      t.cfg == s.cfg && t.dioReceived == s.dioReceived && t.lastSeq == s.lastSeq
  {
    if ps != [] {
      PrefixesKeepFilter(s, ps[..|ps| - 1]);
    }
  }

  lemma RankKeepsFilter(s: NodeState, from: Link, dio: Dio)
    ensures var t := LowerRank(s, from, dio);
      t.cfg == s.cfg && t.dioReceived == s.dioReceived && t.lastSeq == s.lastSeq
  {
    hide AddPrefixes, RankOutcome, ScheduleAfterAdoption, TakeOver;
    var s1 := TakeOver(s, from, dio);
    TakeOverKeepsFilter(s, from, dio);
    PrefixesKeepFilter(s1, dio.prefixes);
    SchedulingKeepsFilter(AddPrefixes(s1, dio.prefixes));
  }

  lemma TakeOverKeepsFilter(s: NodeState, from: Link, dio: Dio)
    ensures var t := TakeOver(s, from, dio);
      t.cfg == s.cfg && t.dioReceived == s.dioReceived && t.lastSeq == s.lastSeq
  {
  }

  lemma SchedulingKeepsFilter(s: NodeState)
    ensures var t := ScheduleAfterAdoption(s);
      t.cfg == s.cfg && t.dioReceived == s.dioReceived && t.lastSeq == s.lastSeq
  {
    hide MaybeScheduleDio, MaybeSendDao;
    ScheduleKeepsFilter(s);
    SendDaoKeepsFilter(s);
    SendDaoKeepsFilter(MaybeScheduleDio(s));
  }

  lemma ScheduleKeepsFilter(s: NodeState)
    ensures var t := MaybeScheduleDio(s);
      t.cfg == s.cfg && t.dioReceived == s.dioReceived && t.lastSeq == s.lastSeq
  {
  }

  lemma SendDaoKeepsFilter(s: NodeState)
    ensures var t := MaybeSendDao(s);
      t.cfg == s.cfg && t.dioReceived == s.dioReceived && t.lastSeq == s.lastSeq
  {
  }

  /** What the filter of receive_dio drops, and what it records, whatever else the DIO does. */
  lemma FilterEffect(s: NodeState, from: Link, dio: Dio)
    ensures var t := ReceiveDio(s, from, dio);
      && t.cfg == s.cfg
      && t.dioReceived == (s.dioReceived + 1) % UINT_SPAN
      && t.lastSeq == if DioOutcomeOf(s, from.peer, dio) in {SeqOld, SelfPacket} then s.lastSeq
                      else SeqUpdate(s.lastSeq, dio.dtsn)
  {
    hide LowerRank, SeqUpdate, DioOutcomeOf;
    RankKeepsFilter(s.(dioReceived := (s.dioReceived + 1) % UINT_SPAN,
      lastSeq := SeqUpdate(s.lastSeq, dio.dtsn)), from, dio);
  }

  lemma DroppedExactly(s: NodeState, from: NodeId, dio: Dio)
    ensures DioOutcomeOf(s, from, dio) == SeqOld <==>
      (dio.dtsn - s.lastSeq) % 256 > 128 && dio.dtsn != 0 && (s.dioReceived + 1) % UINT_SPAN != 1
    ensures DioOutcomeOf(s, from, dio) == SelfPacket ==> from == s.cfg.me
  {
    hide SeqTooOld;
    TooOldIsHalfCircle(s.lastSeq, dio.dtsn);
  }

  // ---------- arithmetic on the number circle ----------

  lemma SameResidue(a: int, b: int, k: int)
    requires a == b + 256 * k
    ensures a % 256 == b % 256
  {
  }

  lemma ResidueOfWord(x: int)
    ensures x % UINT_SPAN % 256 == x % 256
  {
    SameResidue(x, x % UINT_SPAN, 0x100_0000 * (x / UINT_SPAN));
  }

  /** Differences of residues. */
  lemma ResidueDifference(a: int, b: int)
    ensures (a % 256 - b) % 256 == (a - b) % 256
    ensures (a - b % 256) % 256 == (a - b) % 256
  {
    SameResidue(a - b, a % 256 - b, a / 256);
    SameResidue(a - b % 256, a - b, b / 256);
  }

  lemma WordSum(x: int, e: nat)
    ensures (x % UINT_SPAN + e) % UINT_SPAN == (x + e) % UINT_SPAN
  {
    var q := x / UINT_SPAN;
    assert x + e == (x % UINT_SPAN + e) + UINT_SPAN * q;
  }

  // ---------- runs ----------

  /** A sender's counters at the DIOs that arrive, each 1 to 128 after the one before. */
  ghost predicate Paced(counters: seq<nat>) {
    forall i :: 0 < i < |counters| ==> counters[i - 1] < counters[i] <= counters[i - 1] + 128
  }

  ghost predicate Transmits(dios: seq<Dio>, counters: seq<nat>) {
    |dios| == |counters| && forall i :: 0 <= i < |dios| ==> dios[i].dtsn == counters[i] % 256
  }

  /** The node after the first `n` of the DIOs. */
  function After(s: NodeState, from: Link, dios: seq<Dio>, n: nat): NodeState
    requires n <= |dios|
  {
    if n == 0 then s else ReceiveDio(After(s, from, dios, n - 1), from, dios[n - 1])
  }

  /** What mLastSeq is ahead of the sender's counter, once the first DIO has come. */
  function Offset(counters: seq<nat>): int
    requires counters != []
  {
    NextOf(0, counters[0] % 256) - counters[0]
  }

  /**
    Every DIO of a paced sender is let through, and mLastSeq stays a constant
    ahead of the sender's counter, in 32 bits.
   */
  lemma {:induction false} TracksSender(s: NodeState, from: Link, dios: seq<Dio>, counters: seq<nat>, n: nat)
    requires s.lastSeq == 0 && s.dioReceived == 0 && from.peer != s.cfg.me
    requires Paced(counters) && Transmits(dios, counters) && 0 < n <= |dios|
    ensures DioOutcomeOf(After(s, from, dios, n - 1), from.peer, dios[n - 1]) != SeqOld
    ensures var t := After(s, from, dios, n);
      && t.cfg == s.cfg && t.dioReceived == n % UINT_SPAN
      && t.lastSeq == (counters[n - 1] + Offset(counters)) % UINT_SPAN
  {
    hide ReceiveDio, DioOutcomeOf, SeqUpdate, NextOf, After, Offset;
    var t, d := After(s, from, dios, n - 1), dios[n - 1];
    AfterSteps(s, from, dios, n);
    FilterEffect(t, from, d);
    DroppedExactly(t, from.peer, d);
    OffsetIsWhole(counters);
    if n == 1 {
      FirstStep(counters);
    } else {
      TracksSender(s, from, dios, counters, n - 1);
      PacedStep(t.lastSeq, counters[n - 2], counters[n - 1], Offset(counters));
    }
  }

  lemma AfterSteps(s: NodeState, from: Link, dios: seq<Dio>, n: nat)
    requires 0 < n <= |dios|
    ensures After(s, from, dios, n) == ReceiveDio(After(s, from, dios, n - 1), from, dios[n - 1])
    ensures n == 1 ==> After(s, from, dios, n - 1) == s
  {
    hide ReceiveDio;
  }

  lemma FirstStep(counters: seq<nat>)
    requires counters != []
    ensures SeqUpdate(0, counters[0] % 256) == (counters[0] + Offset(counters)) % UINT_SPAN
  {
    UpdateIsNext(0, counters[0] % 256);
  }

  /** One paced step: not too old, and the update is by the counter's own advance. */
  lemma PacedStep(last: nat, c: nat, d: nat, offset: int)
    requires offset % 256 == 0 && c < d <= c + 128 && last == (c + offset) % UINT_SPAN
    ensures (d % 256 - last) % 256 <= 128
    ensures SeqUpdate(last, d % 256) == (d + offset) % UINT_SPAN
  {
    hide SeqUpdate, NextOf;
    UpdateIsNext(last, d % 256);
    PacedNext(last, c, d, offset);
    WordSum(c + offset, d - c);
    assert c + offset + (d - c) == d + offset;
  }

  lemma PacedNext(last: nat, c: nat, d: nat, offset: int)
    requires offset % 256 == 0 && c < d <= c + 128 && last == (c + offset) % UINT_SPAN
    ensures (d % 256 - last) % 256 <= 128 && NextOf(last, d % 256) == last + (d - c)
  {
    CircleDistance(last, c, d, offset);
    assert (d - c) % 256 == d - c && (d - c - 1) % 256 == d - c - 1;
  }

  lemma CircleDistance(last: nat, c: nat, d: int, offset: int)
    requires offset % 256 == 0 && last == (c + offset) % UINT_SPAN
    ensures (d % 256 - last) % 256 == (d - c) % 256
    ensures (d % 256 - last - 1) % 256 == (d - c - 1) % 256
  {
    ResidueOfWord(c + offset);
    ResidueDifference(d, last);
    ResidueDifference(d, last + 1);
    var k := (c + offset) / UINT_SPAN;
    SameResidue(d - last, d - c, 0x100_0000 * k - offset / 256);
    SameResidue(d - last - 1, d - c - 1, 0x100_0000 * k - offset / 256);
  }

  lemma OffsetIsWhole(counters: seq<nat>)
    requires counters != []
    ensures Offset(counters) % 256 == 0
  {
  }

  /**
    A replay 1 to 127 behind the newest DIO is dropped, unless it carries the
    sequence number 0 or the count of DIOs has just wrapped; a duplicate, and a
    replay 128 behind, are let through.
   */
  lemma ReplayFilter(s: NodeState, from: Link, dios: seq<Dio>, counters: seq<nat>, n: nat, replay: Dio, behind: nat)
    requires s.lastSeq == 0 && s.dioReceived == 0 && from.peer != s.cfg.me
    requires Paced(counters) && Transmits(dios, counters) && 0 < n <= |dios|
    requires behind <= 128 && behind <= counters[n - 1] && replay.dtsn == (counters[n - 1] - behind) % 256
    ensures DioOutcomeOf(After(s, from, dios, n), from.peer, replay) == SeqOld <==>
      1 <= behind <= 127 && replay.dtsn != 0 && n % UINT_SPAN != 0
  {
    hide ReceiveDio, DioOutcomeOf, After, Offset, SeqTooOld, SeqUpdate;
    TracksSender(s, from, dios, counters, n);
    OffsetIsWhole(counters);
    var t := After(s, from, dios, n);
    DroppedExactly(t, from.peer, replay);
    var c := counters[n - 1];
    CircleDistance(t.lastSeq, c, c - behind, Offset(counters));
    HalfBehind(c, behind);
  }

  lemma HalfBehind(c: nat, behind: nat)
    requires behind <= 128
    ensures (c - behind - c) % 256 > 128 <==> 1 <= behind <= 127
  {
  }
}
