/**
  The queue of timed events and the part of the main loop that runs those that
  are due (event.h, event.cpp, iface.cpp).  The binomial heap is replaced by a
  sequence kept in its order; nothing is claimed about the order of ties.
 */
module EventQueue {
  import opened Common
  import opened EventTime

  const SEND_DIO: int := 1
  const SEND_DAO: int := 2
  const MAX_TIMEOUT: int := 60_000

  /** A time within 2^31 seconds, as the comparison of events needs. */
  predicate TimeOk(t: Timeval) {
    AlarmRange(t) && 0 <= t.sec < UINT_SPAN / 2
  }

  /**
    A wait, in milliseconds, for an event that is `ahead` microseconds ahead: at
    most the longest, never a millisecond past the event, and, for one less than
    2^31 ms ahead, not a millisecond before it or before the longest wait.
   */
  predicate WaitsFor(timeout: int, ahead: int) {
    && 0 <= timeout <= MAX_TIMEOUT
    && timeout * 1000 < ahead + 1000
    && (ahead < UINT_SPAN / 2 * 1000 - 1000 ==>
          timeout * 1000 > ahead - 1000 || timeout == MAX_TIMEOUT)
  }

  class RplEvent {
    var eventType: int
    const repeatSec: nat
    const repeatMsec: nat
    var alarm: Timeval
    var lastTime: Timeval
    var inQueue: bool
    var deleted: bool

    /** init_event, by a real clock. */
    constructor (relative: Timeval, sec: nat, msec: nat, eventType: int)
      ensures alarm == AlarmAt(relative, sec, msec) && lastTime == relative && !inQueue && !deleted
      ensures this.eventType == eventType && repeatSec == sec && repeatMsec == msec
    {
      this.eventType, repeatSec, repeatMsec := eventType, sec, msec;
      inQueue, deleted := false, false;
      var t := SetAlarmTime(relative, sec, msec);
      alarm, lastTime := t, relative;
    }

    method SetAlarm(relative: Timeval, sec: nat, msec: nat)
      modifies this`alarm, this`lastTime
      ensures alarm == AlarmAt(relative, sec, msec) && lastTime == relative
    {
      lastTime := relative;
      alarm := SetAlarmTime(relative, sec, msec);
    }

    /** The events that doit knows succeed; any other is dropped. */
    predicate Succeeds()
      reads this`eventType
    {
      eventType == SEND_DIO || eventType == SEND_DAO
    }

    /** doit: what it sends is not modelled, whether it succeeds is. */
    method DoIt() returns (ok: bool)
      ensures ok == (eventType == SEND_DIO || eventType == SEND_DAO)
    {
      match eventType {
        case 1 => ok := true;
        case 2 => ok := true;
        case _ => ok := false;
      }
    }

    /** The time for which it is queued again after it has run. */
    function Again(now: Timeval): (t: Timeval)
      ensures Total(t) == Total(now) + repeatSec * MILLION + Micros(repeatMsec)
    {
      AlarmTotal(now, repeatSec, repeatMsec);
      AlarmAt(now, repeatSec, repeatMsec)
    }

    /** If it succeeds it can be queued again, for a time that is not due. */
    predicate Renewable(now: Timeval)
      reads this`eventType
    {
      Succeeds() ==> Repeats() && TimeOk(Again(now))
    }

    /** Its interval, in the 32 bits of the code, is not empty. */
    predicate Repeats() {
      repeatSec > 0 || Micros(repeatMsec) > 0
    }
  }

  // ---------- sequences of events ----------

  /** No event is later than one behind it. */
  ghost predicate InOrder(q: seq<RplEvent>)
    reads q`alarm
  {
    forall i, j :: 0 <= i < j < |q| ==> !Earlier(q[j].alarm, q[i].alarm)
  }

  ghost predicate TimesOk(q: seq<RplEvent>)
    reads q`alarm
  {
    forall i :: 0 <= i < |q| ==> TimeOk(q[i].alarm)
  }

  lemma OnlyOnce<T>(q: seq<T>, m: nat)
    requires Distinct(q) && m < |q|
    ensures forall i :: 0 <= i < |q| && i != m ==> q[i] != q[m]
  {
  }

  function Inserted<T>(q: seq<T>, k: nat, e: T): (r: seq<T>)
    requires k <= |q|
    ensures |r| == |q| + 1 && r[k] == e
    ensures forall i :: 0 <= i < |r| && i != k ==> r[i] == q[if i < k then i else i - 1]
  {
    q[..k] + [e] + q[k..]
  }

  function Removed<T>(q: seq<T>, k: nat): (r: seq<T>)
    requires k < |q|
    ensures |r| == |q| - 1
    ensures forall i :: 0 <= i < |r| ==> r[i] == q[if i < k then i else i + 1]
  {
    q[..k] + q[k + 1..]
  }

  lemma InsertedDistinct<T>(q: seq<T>, k: nat, e: T)
    requires k <= |q| && Distinct(q) && e !in q
    ensures Distinct(Inserted(q, k, e))
    ensures forall x :: x in Inserted(q, k, e) <==> x in q || x == e
  {
    assert q == q[..k] + q[k..];
  }

  lemma RemovedDistinct<T>(q: seq<T>, k: nat)
    requires k < |q| && Distinct(q)
    ensures Distinct(Removed(q, k)) && q[k] !in Removed(q, k)
    ensures forall x :: x in q <==> x in Removed(q, k) || x == q[k]
  {
    assert q == q[..k] + [q[k]] + q[k + 1..];
  }

  lemma InsertedInOrder(q: seq<RplEvent>, k: nat, e: RplEvent)
    requires k <= |q| && InOrder(q)
    requires forall i :: 0 <= i < k ==> Earlier(q[i].alarm, e.alarm)
    requires forall i :: k <= i < |q| ==> !Earlier(q[i].alarm, e.alarm)
    ensures InOrder(Inserted(q, k, e))
  {
    var r := Inserted(q, k, e);
    forall i, j | 0 <= i < j < |r|
      ensures !Earlier(r[j].alarm, r[i].alarm)
    {
    }
  }

  /** All events but one are in order. */
  ghost predicate InOrderBut(q: seq<RplEvent>, e: RplEvent)
    reads q`alarm
  {
    forall i, j :: 0 <= i < j < |q| && q[i] != e && q[j] != e ==> !Earlier(q[j].alarm, q[i].alarm)
  }

  lemma RemovedInOrder(q: seq<RplEvent>, n: nat)
    requires n < |q| && Distinct(q) && InOrderBut(q, q[n])
    ensures InOrder(Removed(q, n))
  {
    var r := Removed(q, n);
    forall i, j | 0 <= i < j < |r|
      ensures !Earlier(r[j].alarm, r[i].alarm)
    {
      var i', j' := if i < n then i else i + 1, if j < n then j else j + 1;
      assert r[i] == q[i'] && r[j] == q[j'];
    }
  }

  /** The events of `q` that are due are those of `due`, in front. */
  ghost predicate DueFront(q: seq<RplEvent>, due: seq<RplEvent>, now: Timeval)
    reads q`alarm
  {
    && due <= q
    && (forall i :: 0 <= i < |due| ==> Passed(q[i].alarm, now))
    && (forall i :: |due| <= i < |q| ==> !Passed(q[i].alarm, now))
  }

  lemma DueFrontFacts(q: seq<RplEvent>, due: seq<RplEvent>, now: Timeval)
    requires DueFront(q, due, now)
    ensures due <= q && forall i :: 0 <= i < |q| ==> (Passed(q[i].alarm, now) <==> i < |due|)
  {
  }

  /** The due events of a queue in order are its front. */
  lemma DueAreFirst(q: seq<RplEvent>, now: Timeval) returns (k: nat)
    requires InOrder(q)
    ensures k <= |q| && DueFront(q, q[..k], now)
  {
    k := 0;
    while k < |q| && Passed(q[k].alarm, now)
      invariant k <= |q|
      invariant forall i :: 0 <= i < k ==> Passed(q[i].alarm, now)
    {
      k := k + 1;
    }
    forall i | k <= i < |q|
      ensures !Passed(q[i].alarm, now)
    {
      assert i > k ==> !Earlier(q[i].alarm, q[k].alarm);
    }
  }

  lemma DueTaken(q: seq<RplEvent>, due: seq<RplEvent>, now: Timeval)
    requires q != [] && DueFront(q, due, now) && Passed(q[0].alarm, now)
    ensures due != [] && due[0] == q[0] && DueFront(q[1..], due[1..], now)
  {
    assert due != [];
  }

  /** An event put back for a time that is not due goes behind all that are due. */
  lemma DueKept(others: seq<RplEvent>, due: seq<RplEvent>, now: Timeval, k: nat, e: RplEvent)
    requires k <= |others| && DueFront(others, due, now) && !Passed(e.alarm, now)
    requires forall i :: k <= i < |others| ==> !Earlier(others[i].alarm, e.alarm)
    ensures DueFront(Inserted(others, k, e), due, now)
  {
    assert forall i :: 0 <= i < |due| ==> Earlier(others[i].alarm, e.alarm);
    assert due <= Inserted(others, k, e);
  }

  /** An event is due again at once exactly when its interval comes to nothing in 32 bits. */
  lemma DueAgainExactly(now: Timeval, sec: nat, msec: nat)
    requires ClockRange(now)
    ensures Passed(AlarmAt(now, sec, msec), now) <==> sec == 0 && msec % 0x2000_0000 == 0
  {
    AlarmTotal(now, sec, msec);
    PassedIsExact(AlarmAt(now, sec, msec), now);
    MicrosVanish(msec);
  }

  lemma MicrosVanish(msec: nat)
    ensures Micros(msec) == 0 <==> msec % 0x2000_0000 == 0
  {
    if msec * 1000 % UINT_SPAN == 0 {
      InverseOf125(msec, msec * 1000 / UINT_SPAN);
    }
    if msec % 0x2000_0000 == 0 {
      assert msec * 1000 == msec / 0x2000_0000 * 125 * UINT_SPAN;
    }
  }

  lemma InverseOf125(msec: int, m: int)
    requires msec * 125 == m * 0x2000_0000
    ensures msec % 0x2000_0000 == 0
  {
    // 125 * 115964117 is one more than 27 * 2^29.
    var d := m * 115964117 - msec * 27;
    assert msec == d * 0x2000_0000;
  }

  class RplEventQueue {
    var queue: seq<RplEvent>
    /** Every event that was ever put into this queue. */
    ghost var known: set<RplEvent>

    ghost predicate Valid()
      reads this, known
    {
      Consistent() && InOrder(queue)
    }

    /** All but the order: a queued event whose time was changed may be out of place. */
    ghost predicate Consistent()
      reads this, known
    {
      && (forall i :: 0 <= i < |queue| ==> queue[i] in known)
      && Distinct(queue)
      && TimesOk(queue)
      && (forall e :: e in known ==> (e.inQueue <==> e in queue))
    }

    constructor ()
      ensures Valid() && queue == [] && known == {}
    {
      queue, known := [], {};
    }

    /** queue.top(): no queued event is earlier. */
    function PeekEvent(): (e: RplEvent)
      requires Valid() && queue != []
      reads this, known
      ensures e in queue && forall i :: 0 <= i < |queue| ==> !Earlier(queue[i].alarm, e.alarm)
    {
      queue[0]
    }

    /** The place of an event: behind all that are earlier, before all that are not. */
    static method Place(q: seq<RplEvent>, e: RplEvent) returns (k: nat)
      requires TimesOk(q) && TimeOk(e.alarm) && InOrder(q)
      ensures k <= |q|
      ensures forall i :: 0 <= i < k ==> Earlier(q[i].alarm, e.alarm)
      ensures forall i :: k <= i < |q| ==> !Earlier(q[i].alarm, e.alarm)
    {
      k := 0;
      while k < |q| && !Eventless(q[k].alarm, e.alarm)
        invariant 0 <= k <= |q|
        invariant forall i :: 0 <= i < k ==> Earlier(q[i].alarm, e.alarm)
      {
        EventlessIsNotEarlier(q[k].alarm, e.alarm);
        k := k + 1;
      }
      if k < |q| {
        EventlessIsNotEarlier(q[k].alarm, e.alarm);
        assert forall i :: k < i < |q| ==> !Earlier(q[i].alarm, q[k].alarm);
      }
    }

    method AddEvent(e: RplEvent) returns (ghost k: nat)
      requires Valid() && !e.inQueue && TimeOk(e.alarm)
      modifies this, e`inQueue
      ensures Valid() && known == old(known) + {e}
      ensures k <= |old(queue)| && queue == Inserted(old(queue), k, e)
      ensures forall i :: 0 <= i < k ==> Earlier(old(queue)[i].alarm, e.alarm)
      ensures forall i :: k <= i < |old(queue)| ==> !Earlier(old(queue)[i].alarm, e.alarm)
    {
      assert e !in queue;
      hide InOrder, Distinct;
      var place := Place(queue, e);
      k := place;
      InsertedDistinct(queue, place, e);
      InsertedInOrder(queue, place, e);
      queue := Inserted(queue, place, e);
      e.inQueue := true;
      known := known + {e};
    }

    /** What a handle stands for: where the event is. */
    static method IndexOf(q: seq<RplEvent>, e: RplEvent) returns (n: nat)
      requires e in q
      ensures n < |q| && q[n] == e
    {
      n := 0;
      while q[n] != e
        invariant n < |q| && e !in q[..n]
        decreases |q| - n
      {
        n := n + 1;
      }
    }

    /** The sequence with one event put into its place. */
    static method Moved(q: seq<RplEvent>, e: RplEvent) returns (r: seq<RplEvent>)
      requires Distinct(q) && TimesOk(q) && e in q && InOrderBut(q, e)
      ensures Distinct(r) && TimesOk(r) && InOrder(r)
      ensures forall x :: x in r <==> x in q
    {
      hide InOrder, Distinct, InOrderBut;
      var n := IndexOf(q, e);
      var others := Removed(q, n);
      RemovedDistinct(q, n);
      RemovedInOrder(q, n);
      var k := Place(others, e);
      InsertedDistinct(others, k, e);
      InsertedInOrder(others, k, e);
      r := Inserted(others, k, e);
    }

    /** queue.update(handle): puts an event whose time has changed into its place. */
    method Update(e: RplEvent)
      requires Consistent() && e in queue && InOrderBut(queue, e)
      modifies this`queue
      ensures Valid()
      ensures forall x :: x in queue <==> x in old(queue)
    {
      hide InOrder, Distinct, InOrderBut;
      queue := Moved(queue, e);
      assert forall i :: 0 <= i < |queue| ==> queue[i] in old(queue);
    }

    lemma OrderedOthers(e: RplEvent)
      requires InOrder(queue)
      ensures InOrderBut(queue, e)
    {
    }

    /** _requeue: updates an event that is queued, adds one that is not. */
    method Requeue(e: RplEvent)
      requires Consistent() && TimeOk(e.alarm) && InOrderBut(queue, e)
      requires e.inQueue <==> e in queue
      modifies this, e`inQueue
      ensures Valid() && e in queue && known == old(known) + {e}
      ensures forall x :: x in queue <==> x in old(queue) || x == e
    {
      if e.inQueue {
        Update(e);
        assert known == known + {e};
      } else {
        assert InOrder(queue);
        ghost var k := AddEvent(e);
        InsertedDistinct(old(queue), k, e);
      }
    }

    /** A new alarm for an event, queued or not: schedule_dio and schedule_dao. */
    method Reschedule(e: RplEvent, now: Timeval, sec: nat, msec: nat)
      requires Valid() && TimeOk(AlarmAt(now, sec, msec)) && (e.inQueue <==> e in queue)
      modifies this, e`inQueue, e`alarm, e`lastTime
      ensures Valid() && e in queue && known == old(known) + {e}
      ensures forall x :: x in queue <==> x in old(queue) || x == e
      ensures e.alarm == AlarmAt(now, sec, msec) && e.lastTime == now
    {
      OrderedOthers(e);
      e.SetAlarm(now, sec, msec);
      Requeue(e);
    }

    /** eat_event: the caller resets the flag. */
    method EatEvent()
      modifies this`queue
      ensures queue == if old(queue) == [] then [] else old(queue)[1..]
    {
      if |queue| > 0 {
        queue := queue[1..];
      }
    }

    lemma FrontRemoved(q: seq<RplEvent>)
      requires q != [] && Distinct(q) && InOrder(q)
      ensures Distinct(q[1..]) && InOrder(q[1..]) && q[0] !in q[1..]
      ensures forall x :: x in q <==> x in q[1..] || x == q[0]
    {
    }

    /** Takes the first event out of the queue and says so in its flag. */
    method TakeTop(re: RplEvent)
      requires Valid() && queue != [] && re == queue[0]
      modifies this`queue, re`inQueue
      ensures Valid() && queue == old(queue)[1..] && !re.inQueue && re in known && re !in queue
      ensures forall x :: x in old(queue) <==> x in queue || x == re
    {
      FrontRemoved(queue);
      hide InOrder, Distinct;
      EatEvent();
      re.inQueue := false;
    }

    method NextEvent() returns (e: RplEvent?)
      requires Valid()
      modifies this`queue, known`inQueue
      ensures Valid()
      ensures old(queue) == [] ==> e == null && queue == []
      ensures old(queue) != [] ==> e == old(queue)[0] && queue == old(queue)[1..] && !e.inQueue
      ensures forall x :: x in known && x != e ==> x.inQueue == old(x.inQueue)
    {
      if queue == [] {
        return null;
      }
      var n := PeekEvent();
      TakeTop(n);
      return n;
    }

    /** clear: no event is queued any more, and every flag says so. */
    method Clear()
      requires Valid()
      modifies this`queue, known`inQueue
      ensures Valid() && queue == [] && forall e :: e in known ==> !e.inQueue
    {
      var i := 0;
      while i < |queue|
        invariant 0 <= i <= |queue| && queue == old(queue)
        invariant forall e :: e in known ==> (e.inQueue <==> e in queue[i..])
      {
        assert queue[i..] == [queue[i]] + queue[i + 1..];
        assert queue[i] !in queue[i + 1..];
        assert queue[i] in known;
        queue[i].inQueue := false;
        i := i + 1;
      }
      queue := [];
    }

    /**
      Runs the event in front: it is queued again for its next time when it
      succeeds and the program is not stopping, and deleted otherwise.
     */
    method RunTop(re: RplEvent, now: Timeval, stopping: bool) returns (ghost k: nat)
      requires Valid() && queue != [] && re == queue[0]
      requires re.Succeeds() && !stopping ==> TimeOk(re.Again(now))
      modifies this, re`inQueue, re`alarm, re`lastTime, re`deleted
      ensures Valid() && known == old(known)
      ensures re.Succeeds() && !stopping ==> RanAgain(re, now, old(queue)[1..], k) && re.deleted == old(re.deleted)
      ensures !re.Succeeds() || stopping ==> queue == old(queue)[1..] && re.deleted
      ensures !re.Succeeds() || stopping ==> re.alarm == old(re.alarm) && re.lastTime == old(re.lastTime)
    {
      hide InOrder, Distinct;
      k := 0;
      TakeTop(re);
      var ok := re.DoIt();
      if ok && !stopping {
        re.SetAlarm(now, re.repeatSec, re.repeatMsec);
        k := AddEvent(re);
        assert known == old(known);
      } else {
        re.deleted := true;
      }
    }

    /** force_next_event: the first event runs, due or not. */
    method ForceNextEvent(now: Timeval, stopping: bool) returns (ran: bool)
      requires Valid() && (queue != [] && queue[0].Succeeds() && !stopping ==> TimeOk(queue[0].Again(now)))
      modifies this, known`inQueue, known`alarm, known`lastTime, known`deleted
      ensures Valid() && known == old(known) && ran == (old(queue) != [])
      ensures ran ==> forall e :: e in old(queue)[1..] ==> e in queue && unchanged(e)
      ensures ran && (stopping || !old(queue)[0].Succeeds()) ==> queue == old(queue)[1..] && old(queue)[0].deleted
      ensures ran && !stopping && old(queue)[0].Succeeds() ==>
        var e := old(queue)[0]; e in queue && |queue| == |old(queue)| && e.alarm == e.Again(now)
    {
      if queue == [] {
        return false;
      }
      var re := PeekEvent();
      FrontRemoved(queue);
      ghost var others := queue[1..];
      hide InOrder, Distinct;
      ghost var k := RunTop(re, now, stopping);
      if re.Succeeds() && !stopping {
        assert forall i :: 0 <= i < |others| ==> queue[if i < k then i else i + 1] == others[i];
      }
      return true;
    }

    /** `re` has been put back among `others` at place k, for its next time. */
    ghost predicate RanAgain(re: RplEvent, now: Timeval, others: seq<RplEvent>, k: nat)
      reads this`queue, others`alarm, re`alarm, re`lastTime
    {
      && k <= |others| && queue == Inserted(others, k, re)
      && re.alarm == re.Again(now) && re.lastTime == now
      && (forall i :: k <= i < |others| ==> !Earlier(others[i].alarm, re.alarm))
    }

    /** What a turn of the drain loop leaves of an event that was due. */
    ghost predicate RanOnce(e: RplEvent, now: Timeval)
      reads this`queue, e`eventType, e`alarm, e`lastTime, e`deleted
    {
      && (e in queue <==> e.Succeeds())
      && (e.Succeeds() ==> e.alarm == e.Again(now) && e.lastTime == now)
      && (!e.Succeeds() ==> e.deleted)
    }

    /** One turn of the drain loop: the first of the due events is due no more. */
    method RunDue(re: RplEvent, now: Timeval, ghost due: seq<RplEvent>)
      requires Valid() && queue != [] && re == queue[0] && ClockRange(now)
      requires re.Renewable(now)
      requires Passed(re.alarm, now) && DueFront(queue, due, now)
      modifies this, re`inQueue, re`alarm, re`lastTime, re`deleted
      ensures Valid() && known == old(known)
      ensures due != [] && due[0] == re && DueFront(queue, due[1..], now)
      ensures RanOnce(re, now)
      ensures forall e :: e in queue ==> e in old(queue)
      ensures forall e :: e in old(queue) && e != re ==> e in queue
    {
      DueTaken(queue, due, now);
      FrontRemoved(queue);
      hide InOrder, Distinct, DueFront;
      ghost var others := queue[1..];
      ghost var k := RunTop(re, now, false);
      assert DueFront(others, due[1..], now);
      if re.Succeeds() {
        NotDueAgain(re, now);
        DueKept(others, due[1..], now, k, re);
        InsertedDistinct(others, k, re);
      }
    }

    lemma NotDueAgain(re: RplEvent, now: Timeval)
      requires ClockRange(now) && re.Repeats() && re.alarm == re.Again(now)
      ensures !Passed(re.alarm, now)
    {
      DueAgainExactly(now, re.repeatSec, re.repeatMsec);
      MicrosVanish(re.repeatMsec);
    }

    lemma OrderFacts()
      requires Valid()
      ensures InOrder(queue) && Distinct(queue)
    {
    }

    /**
      The drain loop of the main loop.  It ends; the events that run are those
      that were due, each once and in their order; those that succeed are
      queued for their next time and the others are gone; no event left is
      due; and the timeout is less than a millisecond past the next one, and less
      than one before it or before the longest wait.
     */
    method Drain(now: Timeval) returns (fired: seq<RplEvent>, timeout: int)
      requires Valid() && ClockRange(now)
      requires forall i :: 0 <= i < |queue| && Passed(queue[i].alarm, now) ==> queue[i].Renewable(now)
      modifies this, queue`inQueue, queue`alarm, queue`lastTime, queue`deleted
      ensures Valid() && known == old(known)
      ensures fired <= old(queue)
      ensures forall i :: 0 <= i < |old(queue)| ==> (i < |fired| <==> Passed(old(queue[i].alarm), now))
      ensures forall e :: e in fired ==> RanOnce(e, now)
      ensures forall e :: e in old(queue) && e !in fired ==> e in queue && unchanged(e)
      ensures forall e :: e in queue ==> e in old(queue) && !Passed(e.alarm, now)
      ensures queue == [] ==> timeout == MAX_TIMEOUT
      ensures queue != [] ==> timeout == TimeoutFor(queue[0], now)
      ensures queue != [] ==> WaitsFor(timeout, Total(queue[0].alarm) - Total(now))
    {
      hide InOrder, Distinct, TimesOk, Passed, DueFront, MilisecondsUntil, Valid, Consistent;
      ghost var before := queue;
      OrderFacts();
      ghost var n := DueAreFirst(queue, now);
      DueFrontFacts(queue, queue[..n], now);
      fired, timeout := [], MAX_TIMEOUT;
      assert before[0..n] == before[..n];
      while |queue| > 0
        invariant Valid() && known == old(known)
        invariant |fired| <= n && fired == before[..|fired|]
        invariant DueFront(queue, before[|fired|..n], now)
        invariant forall e :: e in queue ==> e in before
        invariant forall e :: e in fired ==> RanOnce(e, now)
        invariant forall i :: |fired| <= i < |before| ==> before[i] in queue && unchanged(before[i])
        invariant forall i :: |fired| <= i < n ==> before[i].Renewable(now)
        invariant timeout == MAX_TIMEOUT
        decreases n - |fired|
      {
        var re := PeekEvent();
        DueFrontFacts(queue, before[|fired|..n], now);
        if Passed(re.alarm, now) {
          RunDue(re, now, before[|fired|..n]);
          assert before[|fired|..n][1..] == before[|fired| + 1..n];
          OnlyOnce(before, |fired|);
          fired := fired + [re];
        } else {
          var newtimeout := MilisecondsUntil(re.alarm, now);
          if 0 <= newtimeout < timeout {
            timeout := newtimeout;
          }
          FrontTime();
          TimeoutIsClose(re, now);
          break;
        }
      }
    }

    lemma FrontTime()
      requires Valid() && queue != []
      ensures TimeOk(queue[0].alarm)
    {
    }

    lemma TimeoutIsClose(e: RplEvent, now: Timeval)
      requires TimeOk(e.alarm) && ClockRange(now) && !Passed(e.alarm, now)
      ensures 0 < Total(e.alarm) - Total(now)
      ensures WaitsFor(TimeoutFor(e, now), Total(e.alarm) - Total(now))
    {
      hide Total, Passed, MilisecondsUntil;
      PassedIsExact(e.alarm, now);
      if Total(e.alarm) - Total(now) <= (UINT_SPAN / 2 - 1) * 1000 {
        MilisecondsAreClose(e.alarm, now);
      }
    }

    /**
      Without an interval the loop of Drain never ends: when an event that
      succeeds and is due has none, then after any number of turns the first
      event of the queue is still due.
     */
    method DrainTurns(now: Timeval, turns: nat, ghost z: RplEvent)
      requires Valid() && ClockRange(now)
      requires z in queue && Passed(z.alarm, now) && z.Succeeds() && !z.Repeats()
      requires forall i :: 0 <= i < |queue| && queue[i].Succeeds() ==> TimeOk(queue[i].Again(now))
      modifies this, queue`inQueue, queue`alarm, queue`lastTime, queue`deleted
      ensures Valid() && z in queue && Passed(z.alarm, now)
      ensures queue != [] && Passed(queue[0].alarm, now)
    {
      ghost var before := queue;
      var i := 0;
      while i < turns
        invariant Valid() && z in queue && Passed(z.alarm, now)
        invariant forall e :: e in queue ==> e in before
      {
        var re := PeekEvent();
        ghost var k := OneTurn(re, now);
        if re == z {
          DueAtOnce(z, now);
        }
        i := i + 1;
      }
      DueOnTop(z, now);
    }

    /** RunTop, by its effect on what is queued. */
    method OneTurn(re: RplEvent, now: Timeval) returns (ghost k: nat)
      requires Valid() && queue != [] && re == queue[0]
      requires re.Succeeds() ==> TimeOk(re.Again(now))
      modifies this, re`inQueue, re`alarm, re`lastTime, re`deleted
      ensures Valid()
      ensures forall e :: e in queue ==> e in old(queue)
      ensures forall e :: e in old(queue) && (e != re || re.Succeeds()) ==> e in queue
      ensures re.Succeeds() ==> re.alarm == re.Again(now)
    {
      FrontRemoved(queue);
      hide InOrder, Distinct;
      ghost var others := queue[1..];
      k := RunTop(re, now, false);
      if re.Succeeds() {
        InsertedDistinct(others, k, re);
      }
    }

    lemma DueAtOnce(e: RplEvent, now: Timeval)
      requires ClockRange(now) && !e.Repeats() && e.alarm == e.Again(now)
      ensures Passed(e.alarm, now)
    {
      DueAgainExactly(now, e.repeatSec, e.repeatMsec);
      MicrosVanish(e.repeatMsec);
    }

    lemma DueOnTop(e: RplEvent, now: Timeval)
      requires Valid() && e in queue && Passed(e.alarm, now)
      ensures queue != [] && Passed(queue[0].alarm, now)
    {
      var i :| 0 <= i < |queue| && queue[i] == e;
      assert i > 0 ==> !Earlier(queue[i].alarm, queue[0].alarm);
    }

    /** How long to wait, given the first event in the queue. */
    function TimeoutFor(e: RplEvent, now: Timeval): (t: int)
      reads e`alarm
      ensures 0 <= t <= MAX_TIMEOUT
    {
      var ms := MilisecondsUntil(e.alarm, now);
      if 0 <= ms < MAX_TIMEOUT then ms else MAX_TIMEOUT
    }
  }
}
