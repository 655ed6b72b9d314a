/**
  The time arithmetic of the event queue (event.h, event.cpp), with the widths
  of the C types: `unsigned int` and `int` have 32 bits, the fields of a
  timeval 64.
 */
module EventTime {
  import opened Common

  const MILLION: int := 1_000_000

  datatype Timeval = Timeval(sec: int, usec: int)

  function Total(t: Timeval): int {
    t.sec * MILLION + t.usec
  }

  /** What set_alarm leaves: one million microseconds are not carried. */
  predicate AlarmRange(t: Timeval) {
    0 <= t.usec <= MILLION
  }

  predicate ClockRange(t: Timeval) {
    0 <= t.usec < MILLION
  }

  // ---------- set_alarm ----------

  /** msec*1000 in unsigned int. */
  function Micros(msec: nat): (u: nat)
    ensures u < UINT_SPAN
  {
    msec * 1000 % UINT_SPAN
  }

  /** The alarm time that set_alarm computes. */
  function AlarmAt(rel: Timeval, sec: nat, msec: nat): (t: Timeval) {
    var u := rel.usec + Micros(msec);
    if u <= MILLION then Timeval(rel.sec + sec, u)
    else Timeval(rel.sec + sec + (u - 1) / MILLION, (u - 1) % MILLION + 1)
  }

  /** The loop of set_alarm, which carries while the microseconds exceed a million. */
  method SetAlarmTime(rel: Timeval, sec: nat, msec: nat) returns (alarm: Timeval)
    ensures alarm == AlarmAt(rel, sec, msec)
  {
    var usec := rel.usec + Micros(msec);
    var s := rel.sec + sec;
    while usec > MILLION
      invariant usec <= rel.usec + Micros(msec)
      invariant s * MILLION + usec == (rel.sec + sec) * MILLION + rel.usec + Micros(msec)
      invariant usec == rel.usec + Micros(msec) || usec >= 1
      decreases usec
    {
      usec, s := usec - MILLION, s + 1;
    }
    alarm := Timeval(s, usec);
    CarryIsDivision(rel.usec + Micros(msec), usec, s - rel.sec - sec);
  }

  lemma CarryIsDivision(u: int, r: int, q: int)
    requires u == q * MILLION + r && q >= 0 && r <= MILLION && (q > 0 ==> r >= 1)
    ensures u <= MILLION <==> q == 0
    ensures q > 0 ==> q == (u - 1) / MILLION && r == (u - 1) % MILLION + 1
  {
  }

  /** The alarm is in range, and late by the interval, taken in 32 bits. */
  lemma AlarmTotal(rel: Timeval, sec: nat, msec: nat)
    ensures Total(AlarmAt(rel, sec, msec)) == Total(rel) + sec * MILLION + Micros(msec)
    ensures rel.usec >= 0 ==> AlarmRange(AlarmAt(rel, sec, msec))
  {
  }

  /** The interval asked for is the interval set just when its microseconds fit an unsigned int. */
  lemma AlarmIsExact(rel: Timeval, sec: nat, msec: nat)
    ensures Total(AlarmAt(rel, sec, msec)) == Total(rel) + sec * MILLION + msec * 1000 <==> msec <= 4294967
  {
    AlarmTotal(rel, sec, msec);
  }

  /** The upper end of the range is reached. */
  lemma AlarmReachesMillion()
    ensures AlarmAt(Timeval(5, 999_000), 0, 1) == Timeval(5, MILLION)
  {
  }

  /** The alarm is a proper clock time unless its microseconds come to whole seconds, and at least one. */
  lemma AlarmIsClockTime(rel: Timeval, sec: nat, msec: nat)
    requires ClockRange(rel)
    ensures ClockRange(AlarmAt(rel, sec, msec)) <==>
      rel.usec + Micros(msec) == 0 || (rel.usec + Micros(msec)) % MILLION != 0
  {
  }

  // ---------- comparisons ----------

  function Passed(alarm: Timeval, now: Timeval): bool {
    alarm.sec < now.sec || (alarm.sec == now.sec && alarm.usec <= now.usec)
  }

  lemma PassedIsExact(alarm: Timeval, now: Timeval)
    requires AlarmRange(alarm) && ClockRange(now)
    ensures Passed(alarm, now) <==> Total(alarm) <= Total(now)
  {
  }

  /** Conversion of a difference to int. */
  function ToInt(x: int): int {
    (x + UINT_SPAN / 2) % UINT_SPAN - UINT_SPAN / 2
  }

  /** rpl_eventless: `a` comes after `b` in the queue, or they tie. */
  function Eventless(a: Timeval, b: Timeval): bool {
    var match1 := ToInt(b.sec - a.sec);
    if match1 > 0 then false
    else if match1 < 0 then true
    else !(ToInt(b.usec - a.usec) > 0)
  }

  /** Seconds close enough for their difference to be an int. */
  predicate Near(a: Timeval, b: Timeval) {
    -UINT_SPAN / 2 <= b.sec - a.sec < UINT_SPAN / 2
  }

  /** Strictly earlier, field by field. */
  predicate Earlier(a: Timeval, b: Timeval) {
    a.sec < b.sec || (a.sec == b.sec && a.usec < b.usec)
  }

  lemma EventlessIsNotEarlier(a: Timeval, b: Timeval)
    requires AlarmRange(a) && AlarmRange(b) && Near(a, b)
    ensures Eventless(a, b) <==> !Earlier(a, b)
  {
  }

  /** The order by fields agrees with the order by time, up to ties such as 5.1000000 and 6.000000. */
  lemma OrderAgreesWithTime(a: Timeval, b: Timeval)
    requires AlarmRange(a) && AlarmRange(b)
    ensures Total(a) < Total(b) ==> Earlier(a, b)
    ensures Earlier(a, b) ==> Total(a) <= Total(b)
    ensures Earlier(a, b) && Total(a) == Total(b) ==> a.sec + 1 == b.sec && a.usec == MILLION && b.usec == 0
  {
  }

  // ---------- how long until ----------

  function OccursIn(alarm: Timeval, now: Timeval): Timeval {
    var usec := alarm.usec - now.usec;
    var borrow := if usec < 0 then 1 else 0;
    Timeval(alarm.sec - now.sec - borrow, if usec < 0 then usec + MILLION else usec)
  }

  lemma OccursInIsExact(alarm: Timeval, now: Timeval)
    requires AlarmRange(alarm) && ClockRange(now)
    ensures Total(OccursIn(alarm, now)) == Total(alarm) - Total(now) && AlarmRange(OccursIn(alarm, now))
  {
  }

  /** Division of C: towards zero. */
  function Truncate(x: int, y: int): int
    requires y > 0
  {
    if x >= 0 then x / y else -(-x / y)
  }

  /** miliseconds_util: the seconds are unsigned, the result an int. */
  function MilisecondsUntil(alarm: Timeval, now: Timeval): int {
    var sec := (alarm.sec - now.sec) % UINT_SPAN;
    var usec := alarm.usec - now.usec;
    ToInt((sec * 1000 + Truncate(usec, 1000)) % UINT_SPAN)
  }

  /** For an event in the future, less than 2^31 ms away: non-negative and less than 1 ms off. */
  lemma MilisecondsAreClose(alarm: Timeval, now: Timeval)
    requires AlarmRange(alarm) && ClockRange(now)
    requires 0 <= Total(alarm) - Total(now) <= (UINT_SPAN / 2 - 1) * 1000
    ensures var ms := MilisecondsUntil(alarm, now);
      ms >= 0 && -1000 < ms * 1000 - (Total(alarm) - Total(now)) < 1000
  {
    var sec, usec := alarm.sec - now.sec, alarm.usec - now.usec;
    var t := Truncate(usec, 1000);
    TruncationError(usec);
    var ms := sec * 1000 + t;
    assert 0 <= ms < UINT_SPAN / 2;
    assert -1 <= sec < UINT_SPAN;
    UnsignedSeconds(sec, t);
  }

  /** It is the time left in whole milliseconds, rounded up where the microseconds were borrowed and down elsewhere. */
  lemma MilisecondsExactly(alarm: Timeval, now: Timeval)
    requires AlarmRange(alarm) && ClockRange(now)
    requires 0 <= Total(alarm) - Total(now) <= (UINT_SPAN / 2 - 1) * 1000
    ensures var left := Total(alarm) - Total(now);
      MilisecondsUntil(alarm, now) == if alarm.usec >= now.usec then left / 1000 else (left + 999) / 1000
  {
    var sec, usec := alarm.sec - now.sec, alarm.usec - now.usec;
    var t := Truncate(usec, 1000);
    TruncationError(usec);
    UnsignedSeconds(sec, t);
  }

  lemma TruncationError(usec: int)
    ensures -1000 < Truncate(usec, 1000) * 1000 - usec < 1000
  {
  }

  lemma UnsignedSeconds(sec: int, t: int)
    requires -1 <= sec < UINT_SPAN && 0 <= sec * 1000 + t < UINT_SPAN / 2
    ensures ToInt((sec % UINT_SPAN * 1000 + t) % UINT_SPAN) == sec * 1000 + t
  {
    if sec == -1 {
      assert sec % UINT_SPAN == UINT_SPAN - 1;
      assert (UINT_SPAN - 1) * 1000 + t == 1000 * UINT_SPAN + (sec * 1000 + t);
    }
  }
}
