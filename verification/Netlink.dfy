/**
  Netlink route attributes (libnetlink.c): appending them to a message, opening
  and closing nested groups, and collecting them by type.  An attribute is a
  length and a type of 16 bits each, a payload, and up to three bytes that are
  left as they were.
 */
module Netlink {
  import opened Common

  const RTA_HEADER: nat := 4

  /** NLMSG_ALIGN and RTA_ALIGN. */
  function Align(n: nat): (m: nat)
    ensures m % 4 == 0 && n <= m < n + 4
  {
    (n + 3) / 4 * 4
  }

  datatype Attr = Attr(ty: nat, payload: seq<Byte>)

  /** RTA_LENGTH */
  function Size(a: Attr): nat {
    RTA_HEADER + |a.payload|
  }

  /** A short as a little-endian machine stores it. */
  function Short(b: seq<Byte>, o: nat): nat
    requires o + 2 <= |b|
  {
    b[o] as int + 0x100 * b[o + 1] as int
  }

  /** A word of 32 bits as a little-endian machine stores it. */
  function Word(n: nat): (b: seq<Byte>)
    requires n < UINT_SPAN
    ensures |b| == 4
  {
    [n % 0x100, n / 0x100 % 0x100, n / 0x1_0000 % 0x100, n / 0x100_0000]
  }

  /** `b` starts with attribute `a`, padding included. */
  predicate StartsWith(b: seq<Byte>, a: Attr) {
    && Size(a) < USHORT_SPAN
    && Align(Size(a)) <= |b|
    && Short(b, 0) == Size(a)
    && Short(b, 2) == a.ty
    && b[RTA_HEADER..Size(a)] == a.payload
  }

  /** `b` is the attributes `attrs`, one behind the other. */
  predicate Encodes(b: seq<Byte>, attrs: seq<Attr>)
    decreases |attrs|
  {
    if attrs == [] then b == []
    else StartsWith(b, attrs[0]) && Encodes(b[Align(Size(attrs[0]))..], attrs[1..])
  }

  lemma {:induction false} EncodesAppended(b: seq<Byte>, attrs: seq<Attr>, c: seq<Byte>, a: Attr)
    requires Encodes(b, attrs) && StartsWith(c, a) && |c| == Align(Size(a))
    ensures Encodes(b + c, attrs + [a])
    decreases |attrs|
  {
    hide StartsWith, Align;
    if attrs == [] {
      assert b + c == c && c[Align(Size(a))..] == [];
    } else {
      var n := Align(Size(attrs[0]));
      StartsWithin(b, attrs[0]);
      EncodesAppended(b[n..], attrs[1..], c, a);
      assert (b + c)[n..] == b[n..] + c;
      assert (attrs + [a])[1..] == attrs[1..] + [a];
      StartsWithMore(b, c, attrs[0]);
    }
  }

  lemma StartsWithin(b: seq<Byte>, a: Attr)
    requires StartsWith(b, a)
    ensures Align(Size(a)) <= |b|
  {
  }

  lemma StartsWithMore(b: seq<Byte>, c: seq<Byte>, a: Attr)
    requires StartsWith(b, a)
    ensures StartsWith(b + c, a)
  {
    assert (b + c)[RTA_HEADER..Size(a)] == b[RTA_HEADER..Size(a)];
  }

  lemma StartsThere(b: seq<Byte>, o: nat, a: Attr)
    requires Size(a) < USHORT_SPAN && o + Align(Size(a)) <= |b|
    requires Short(b, o) == Size(a) && Short(b, o + 2) == a.ty && b[o + RTA_HEADER..o + Size(a)] == a.payload
    ensures StartsWith(b[o..o + Align(Size(a))], a)
  {
    var c := b[o..o + Align(Size(a))];
    assert c[0] == b[o] && c[1] == b[o + 1] && c[2] == b[o + 2] && c[3] == b[o + 3];
    assert c[RTA_HEADER..Size(a)] == b[o + RTA_HEADER..o + Size(a)];
  }

  // ---------- collecting ----------

  /** RTA_OK, for the rest of `b` from `o` on. */
  predicate RtaOk(b: seq<Byte>, o: nat) {
    |b| - o >= RTA_HEADER && RTA_HEADER <= Short(b, o) <= |b| - o
  }

  /** The attributes that parse_rtattr comes across from `o` on. */
  function Walk(b: seq<Byte>, o: nat): (offs: seq<nat>)
    ensures forall i :: 0 <= i < |offs| ==> RtaOk(b, offs[i])
    decreases |b| - o
  {
    if !RtaOk(b, o) then [] else [o] + Walk(b, o + Align(Short(b, o)))
  }

  /** Where it stops: past the end when the padding of the last attribute is missing. */
  function WalkEnd(b: seq<Byte>, o: nat): (e: nat)
    requires o < |b| + 4
    ensures o <= e < |b| + 4
    decreases |b| - o
  {
    if !RtaOk(b, o) then o else WalkEnd(b, o + Align(Short(b, o)))
  }

  function AttrAt(b: seq<Byte>, o: nat): Attr
    requires RtaOk(b, o)
  {
    Attr(Short(b, o + 2), b[o + RTA_HEADER..o + Short(b, o)])
  }

  function AttrsAt(b: seq<Byte>, offs: seq<nat>): (attrs: seq<Attr>)
    requires forall i :: 0 <= i < |offs| ==> RtaOk(b, offs[i])
    ensures |attrs| == |offs|
  {
    seq(|offs|, i requires 0 <= i < |offs| => AttrAt(b, offs[i]))
  }

  /** The place of the last attribute of type `t`. */
  function LastOf(attrs: seq<Attr>, t: nat): (r: Option<nat>)
    ensures r.None? ==> forall i :: 0 <= i < |attrs| ==> attrs[i].ty != t
    ensures r.Some? ==> r.value < |attrs| && attrs[r.value].ty == t
    ensures r.Some? ==> forall i :: r.value < i < |attrs| ==> attrs[i].ty != t
  {
    if attrs == [] then None
    else if attrs[|attrs| - 1].ty == t then Some(|attrs| - 1)
    else LastOf(attrs[..|attrs| - 1], t)
  }

  /** What is put into tb[t]. */
  function Entry(b: seq<Byte>, offs: seq<nat>, t: nat): Option<nat>
    requires forall i :: 0 <= i < |offs| ==> RtaOk(b, offs[i])
  {
    var r := LastOf(AttrsAt(b, offs), t);
    if r.None? then None else Some(offs[r.value])
  }

  lemma EntryStep(b: seq<Byte>, offs: seq<nat>, o: nat, t: nat)
    requires RtaOk(b, o) && forall i :: 0 <= i < |offs| ==> RtaOk(b, offs[i])
    ensures Entry(b, offs + [o], t) == if Short(b, o + 2) == t then Some(o) else Entry(b, offs, t)
  {
    assert AttrsAt(b, offs + [o])[..|offs|] == AttrsAt(b, offs);
  }

  lemma NoEntryYet(b: seq<Byte>)
    ensures forall t :: Entry(b, [], t) == None
  {
  }

  lemma WalkNext(b: seq<Byte>, o: nat)
    requires o < |b| + 4
    ensures RtaOk(b, o) ==> Walk(b, o) == [o] + Walk(b, o + Align(Short(b, o)))
    ensures RtaOk(b, o) ==> o + Align(Short(b, o)) < |b| + 4 && WalkEnd(b, o) == WalkEnd(b, o + Align(Short(b, o)))
    ensures !RtaOk(b, o) ==> Walk(b, o) == [] && WalkEnd(b, o) == o
  {
  }

  /** parse_rtattr; the deficit is what it complains about. */
  method ParseRtattr(tb: array<Option<nat>>, max: nat, b: seq<Byte>) returns (deficit: int)
    requires tb.Length == max + 1
    modifies tb
    ensures forall t :: 0 <= t <= max ==> tb[t] == Entry(b, Walk(b, 0), t)
    ensures deficit == |b| - WalkEnd(b, 0)
  {
    hide Entry, Walk, WalkEnd, Align;
    forall t | 0 <= t <= max {
      tb[t] := None;
    }
    var rta: nat, len := 0, |b| as int;
    ghost var done: seq<nat> := [];
    NoEntryYet(b);
    while len >= RTA_HEADER && RTA_HEADER <= Short(b, rta) <= len
      invariant rta + len == |b| && len > -4
      invariant Walk(b, 0) == done + Walk(b, rta) && WalkEnd(b, 0) == WalkEnd(b, rta)
      invariant forall i :: 0 <= i < |done| ==> RtaOk(b, done[i])
      invariant forall t :: 0 <= t <= max ==> tb[t] == Entry(b, done, t)
      decreases len
    {
      WalkNext(b, rta);
      var ty := Short(b, rta + 2);
      forall t | 0 <= t <= max
        ensures Entry(b, done + [rta], t) == if ty == t then Some(rta) else Entry(b, done, t)
      {
        EntryStep(b, done, rta, t);
      }
      if ty <= max {
        tb[ty] := Some(rta);
      }
      done := done + [rta];
      len, rta := len - Align(Short(b, rta)), rta + Align(Short(b, rta));
    }
    WalkNext(b, rta);
    assert Walk(b, 0) == done;
    deficit := len;
  }

  lemma WalkStep(b: seq<Byte>, o: nat, a: Attr)
    requires o <= |b| && StartsWith(b[o..], a)
    ensures var n := o + Align(Size(a));
      && RtaOk(b, o) && AttrAt(b, o) == a && n <= |b|
      && Walk(b, o) == [o] + Walk(b, n) && WalkEnd(b, o) == WalkEnd(b, n)
  {
    assert b[o..][RTA_HEADER..Size(a)] == b[o + RTA_HEADER..o + Size(a)];
  }

  lemma WalkOfNothing(b: seq<Byte>)
    ensures AttrsAt(b, Walk(b, |b|)) == [] && WalkEnd(b, |b|) == |b|
  {
  }

  lemma AttrsAtFront(b: seq<Byte>, o: nat, offs: seq<nat>)
    requires RtaOk(b, o) && forall i :: 0 <= i < |offs| ==> RtaOk(b, offs[i])
    ensures AttrsAt(b, [o] + offs) == [AttrAt(b, o)] + AttrsAt(b, offs)
  {
  }

  /** Every attribute that was written is come across, in order, and nothing is left. */
  lemma {:induction false} EncodedWalk(b: seq<Byte>, o: nat, attrs: seq<Attr>)
    requires o <= |b| && Encodes(b[o..], attrs)
    ensures AttrsAt(b, Walk(b, o)) == attrs && WalkEnd(b, o) == |b|
    decreases |attrs|
  {
    hide StartsWith, RtaOk, AttrAt, AttrsAt, Walk, WalkEnd, Align;
    if attrs == [] {
      assert o == |b|;
      WalkOfNothing(b);
    } else {
      var n := Align(Size(attrs[0]));
      WalkStep(b, o, attrs[0]);
      assert b[o..][n..] == b[o + n..];
      EncodedWalk(b, o + n, attrs[1..]);
      AttrsAtFront(b, o, Walk(b, o + n));
    }
  }

  /** The table has, for each type, the last attribute of that type that was written. */
  lemma CollectsLast(b: seq<Byte>, attrs: seq<Attr>, t: nat)
    requires Encodes(b, attrs)
    ensures WalkEnd(b, 0) == |b|
    ensures var e, r := Entry(b, Walk(b, 0), t), LastOf(attrs, t);
      (e.None? <==> r.None?) && (e.Some? ==> RtaOk(b, e.value) && AttrAt(b, e.value) == attrs[r.value])
  {
    assert b[0..] == b;
    EncodedWalk(b, 0, attrs);
    var offs, r := Walk(b, 0), LastOf(attrs, t);
    assert r.Some? ==> AttrsAt(b, offs)[r.value] == AttrAt(b, offs[r.value]);
  }

  // ---------- building ----------

  /** Attributes begun at `start`: those of the message, or those of a nest of type `ty`. */
  datatype Group = Group(start: nat, ty: nat, attrs: seq<Attr>) {
    function With(a: Attr): Group {
      Group(start, ty, attrs + [a])
    }
  }

  /** Where a group ends: at the nest that is open in it, or at the tail. */
  ghost function End(groups: seq<Group>, i: nat, tail: nat): int
    requires i < |groups|
  {
    if i + 1 < |groups| then groups[i + 1].start - RTA_HEADER else tail
  }

  /** The bytes of an open group are its attributes; a nest has its type in front of it. */
  ghost predicate GroupOk(b: seq<Byte>, groups: seq<Group>, i: nat, tail: nat)
    requires i < |groups|
  {
    var g, e := groups[i], End(groups, i, tail);
    && g.start <= e <= tail <= |b|
    && g.start % 4 == 0
    && Encodes(b[g.start..e], g.attrs)
    && (i > 0 ==> g.start >= RTA_HEADER && Short(b, g.start - 2) == g.ty < USHORT_SPAN)
  }

  ghost predicate SameUpTo(was: seq<Byte>, now: seq<Byte>, n: nat) {
    |was| == |now| && n <= |was| && was[..n] == now[..n]
  }

  /** A group that ends before a change keeps its attributes. */
  lemma GroupStays(was: seq<Byte>, now: seq<Byte>, before: seq<Group>, after: seq<Group>, i: nat, tail: nat, tail': nat)
    requires i < |before| && i < |after| && before[i] == after[i] && GroupOk(was, before, i, tail)
    requires End(before, i, tail) == End(after, i, tail') <= tail' <= |now| && |was| == |now|
    requires SameUpTo(was, now, End(before, i, tail))
    ensures GroupOk(now, after, i, tail')
  {
    var g, e := before[i], End(before, i, tail);
    assert was[g.start..e] == was[..e][g.start..] && now[g.start..e] == now[..e][g.start..];
    assert i > 0 ==> was[..e][g.start - 2..g.start] == now[..e][g.start - 2..g.start];
  }

  /** A change behind the tail is none to the groups. */
  lemma GroupsStay(was: seq<Byte>, now: seq<Byte>, groups: seq<Group>, tail: nat)
    requires AllOk(was, groups, tail) && SameUpTo(was, now, tail)
    ensures AllOk(now, groups, tail)
  {
    hide Encodes;
    forall i | 0 <= i < |groups|
      ensures GroupOk(now, groups, i, tail)
    {
      var e := End(groups, i, tail);
      assert GroupOk(was, groups, i, tail);
      assert was[..e] == was[..tail][..e] && now[..e] == now[..tail][..e];
      GroupStays(was, now, groups, groups, i, tail, tail);
    }
  }

  /** The groups after an attribute: one more in the innermost, or one more nest. */
  function Grown(before: seq<Group>, a: Attr, tail: nat, opens: bool): (after: seq<Group>)
    requires before != []
  {
    var n := |before| - 1;
    if opens then before + [Group(tail + RTA_HEADER, a.ty, [])] else before[..n] + [before[n].With(a)]
  }

  ghost predicate AllOk(b: seq<Byte>, groups: seq<Group>, tail: nat) {
    groups != [] && tail % 4 == 0 && tail <= |b| && forall i :: 0 <= i < |groups| ==> GroupOk(b, groups, i, tail)
  }

  lemma GroupsGrow(was: seq<Byte>, now: seq<Byte>, before: seq<Group>, tail: nat, a: Attr, opens: bool)
    requires AllOk(was, before, tail) && tail + Align(Size(a)) <= |now| && |was| == |now|
    requires SameUpTo(was, now, tail) && StartsWith(now[tail..tail + Align(Size(a))], a)
    requires a.ty < USHORT_SPAN && (opens ==> a.payload == [])
    ensures AllOk(now, Grown(before, a, tail, opens), tail + Align(Size(a)))
  {
    hide StartsWith, Encodes;
    var n, after, tail' := |before| - 1, Grown(before, a, tail, opens), tail + Align(Size(a));
    forall i | 0 <= i < |after|
      ensures GroupOk(now, after, i, tail')
    {
      if i < n || (i == n && opens) {
        GroupEndsBy(was, before, i, tail);
        GroupStays(was, now, before, after, i, tail, tail');
      } else if i == n {
        InnerGrows(was, now, before, tail, a);
      } else {
        NestBegins(now, tail, a);
      }
    }
  }

  lemma AllOkFacts(b: seq<Byte>, groups: seq<Group>, tail: nat)
    requires AllOk(b, groups, tail)
    ensures groups != [] && tail <= |b| && tail % 4 == 0
  {
  }

  lemma GroupEndsBy(b: seq<Byte>, groups: seq<Group>, i: nat, tail: nat)
    requires AllOk(b, groups, tail) && i < |groups|
    ensures groups[i].start <= End(groups, i, tail) <= tail
  {
    assert GroupOk(b, groups, i, tail);
  }

  lemma InnerGrows(was: seq<Byte>, now: seq<Byte>, before: seq<Group>, tail: nat, a: Attr)
    requires AllOk(was, before, tail) && tail + Align(Size(a)) <= |now| && |was| == |now|
    requires SameUpTo(was, now, tail) && StartsWith(now[tail..tail + Align(Size(a))], a)
    ensures GroupOk(now, Grown(before, a, tail, false), |before| - 1, tail + Align(Size(a)))
  {
    hide StartsWith, Encodes;
    var n, tail' := |before| - 1, tail + Align(Size(a));
    var g := before[n];
    assert GroupOk(was, before, n, tail);
    assert was[g.start..tail] == was[..tail][g.start..] && now[g.start..tail] == now[..tail][g.start..];
    EncodesAppended(now[g.start..tail], g.attrs, now[tail..tail'], a);
    assert now[g.start..tail'] == now[g.start..tail] + now[tail..tail'];
    assert n > 0 ==> was[..tail][g.start - 2..g.start] == now[..tail][g.start - 2..g.start];
  }

  lemma NestBegins(now: seq<Byte>, tail: nat, a: Attr)
    requires tail + RTA_HEADER <= |now| && a.payload == [] && StartsWith(now[tail..tail + RTA_HEADER], a)
    ensures Short(now, tail + 2) == a.ty && Encodes(now[tail + RTA_HEADER..tail + RTA_HEADER], [])
  {
  }

  /** The groups after the innermost one has been closed. */
  function Closed(before: seq<Group>, payload: seq<Byte>): seq<Group>
    requires |before| > 1
  {
    var n := |before| - 1;
    before[..n - 1] + [before[n - 1].With(Attr(before[n].ty, payload))]
  }

  /** `now` is `was` with the length of the innermost nest filled in. */
  ghost predicate LengthFilled(was: seq<Byte>, now: seq<Byte>, before: seq<Group>, tail: nat) {
    && |before| > 1 && |was| == |now|
    && var nest := before[|before| - 1].start - RTA_HEADER;
    && 0 <= nest && tail - nest < USHORT_SPAN && nest + RTA_HEADER <= tail <= |now|
    && Short(now, nest) == tail - nest
    && SameUpTo(was, now, nest) && was[nest + 2..] == now[nest + 2..]
  }

  lemma NestCloses(was: seq<Byte>, now: seq<Byte>, before: seq<Group>, tail: nat)
    requires AllOk(was, before, tail) && LengthFilled(was, now, before, tail)
    ensures var g := before[|before| - 1];
      && Encodes(now[g.start..tail], g.attrs)
      && AllOk(now, Closed(before, now[g.start..tail]), tail)
  {
    hide StartsWith, Encodes, GroupOk;
    var n := |before| - 1;
    var payload := now[before[n].start..tail];
    NestIsWhole(was, now, before, tail);
    ParentGrows(was, now, before, tail);
    var after := Closed(before, payload);
    forall i | 0 <= i < |after|
      ensures GroupOk(now, after, i, tail)
    {
      if i < n - 1 {
        OuterStays(was, now, before, payload, i, tail);
      }
    }
  }

  lemma OuterStays(was: seq<Byte>, now: seq<Byte>, before: seq<Group>, payload: seq<Byte>, i: nat, tail: nat)
    requires AllOk(was, before, tail) && LengthFilled(was, now, before, tail) && i < |before| - 2
    ensures GroupOk(now, Closed(before, payload), i, tail)
  {
    hide Encodes, GroupOk;
    var n := |before| - 1;
    StartsRise(was, before, i + 1, n - 1, tail);
    var e := End(before, i, tail);
    assert e >= 0 by {
      StartsRise(was, before, i, i, tail);
    }
    assert was[..e] == was[..before[n].start - RTA_HEADER][..e];
    assert now[..e] == now[..before[n].start - RTA_HEADER][..e];
    GroupStays(was, now, before, Closed(before, payload), i, tail, tail);
  }

  lemma NestIsWhole(was: seq<Byte>, now: seq<Byte>, before: seq<Group>, tail: nat)
    requires AllOk(was, before, tail) && LengthFilled(was, now, before, tail)
    ensures var g := before[|before| - 1];
      && Encodes(now[g.start..tail], g.attrs)
      && StartsWith(now[g.start - RTA_HEADER..tail], Attr(g.ty, now[g.start..tail]))
      && Align(RTA_HEADER + (tail - g.start)) == tail - g.start + RTA_HEADER
  {
    hide StartsWith, Encodes;
    var n := |before| - 1;
    var g := before[n];
    var nest, payload := g.start - RTA_HEADER, now[g.start..tail];
    assert GroupOk(was, before, n, tail);
    assert was[g.start..tail] == was[nest + 2..][2..tail - nest - 2];
    assert payload == now[nest + 2..][2..tail - nest - 2];
    assert was[nest + 2..][..2] == now[nest + 2..][..2];
    assert Short(now, nest + 2) == g.ty;
    NestIsAttr(now, nest, tail, Attr(g.ty, payload));
  }

  lemma NestIsAttr(b: seq<Byte>, nest: nat, tail: nat, a: Attr)
    requires nest + RTA_HEADER <= tail <= |b| && nest % 4 == 0 && tail % 4 == 0 && tail - nest < USHORT_SPAN
    requires Short(b, nest) == tail - nest && Short(b, nest + 2) == a.ty && a.payload == b[nest + RTA_HEADER..tail]
    ensures StartsWith(b[nest..tail], a) && Align(Size(a)) == tail - nest
  {
    hide Align, Short;
    assert b[nest..tail][RTA_HEADER..] == b[nest + RTA_HEADER..tail];
    WholeWord(tail - nest);
    ShortInSlice(b, nest, tail, 0);
    ShortInSlice(b, nest, tail, 2);
  }

  lemma WholeWord(n: nat)
    requires n % 4 == 0
    ensures Align(n) == n
  {
  }

  lemma ShortInSlice(b: seq<Byte>, lo: nat, hi: nat, o: nat)
    requires lo + o + 2 <= hi <= |b|
    ensures Short(b[lo..hi], o) == Short(b, lo + o)
  {
  }

  lemma ParentGrows(was: seq<Byte>, now: seq<Byte>, before: seq<Group>, tail: nat)
    requires AllOk(was, before, tail) && |before| > 1 && |was| == |now|
    requires var g := before[|before| - 1];
      && RTA_HEADER <= g.start <= tail && SameUpTo(was, now, g.start - RTA_HEADER)
      && StartsWith(now[g.start - RTA_HEADER..tail], Attr(g.ty, now[g.start..tail]))
      && Align(RTA_HEADER + (tail - g.start)) == tail - g.start + RTA_HEADER
    ensures GroupOk(now, Closed(before, now[before[|before| - 1].start..tail]), |before| - 2, tail)
  {
    hide StartsWith, Encodes;
    var n := |before| - 1;
    var g, p := before[n], before[n - 1];
    var nest, a := g.start - RTA_HEADER, Attr(g.ty, now[g.start..tail]);
    assert GroupOk(was, before, n - 1, tail);
    assert was[p.start..nest] == was[..nest][p.start..] && now[p.start..nest] == now[..nest][p.start..];
    EncodesAppended(now[p.start..nest], p.attrs, now[nest..tail], a);
    assert now[p.start..tail] == now[p.start..nest] + now[nest..tail];
    assert n > 1 ==> was[..nest][p.start - 2..p.start] == now[..nest][p.start - 2..p.start];
  }

  lemma {:induction false} StartsRise(b: seq<Byte>, groups: seq<Group>, i: nat, j: nat, tail: nat)
    requires AllOk(b, groups, tail) && i <= j < |groups|
    ensures groups[i].start <= groups[j].start
    ensures j + 1 < |groups| ==> groups[j].start <= groups[j + 1].start - RTA_HEADER
    decreases j - i
  {
    hide Encodes;
    assert GroupOk(b, groups, j, tail);
    if i < j {
      StartsRise(b, groups, i, j - 1, tail);
    }
  }

  class NlMessage {
    const buf: array<Byte>
    var nlmsgLen: nat
    /** The groups that are open, the innermost last. */
    ghost var groups: seq<Group>

    /** NLMSG_TAIL, as an offset. */
    function Tail(): (t: nat)
      reads this`nlmsgLen
      ensures t % 4 == 0 && nlmsgLen <= t < nlmsgLen + 4
    {
      Align(nlmsgLen)
    }

    ghost predicate Valid()
      reads this, buf
    {
      AllOk(buf[..], groups, Tail())
    }

    /** The innermost group, which new attributes go to. */
    ghost function Inner(): Group
      requires groups != []
      reads this`groups
    {
      groups[|groups| - 1]
    }

    /** A message whose attributes begin behind `len` bytes of headers. */
    constructor (capacity: nat, len: nat)
      requires Align(len) <= capacity
      ensures Valid() && groups == [Group(Align(len), 0, [])] && nlmsgLen == len
      ensures buf.Length == capacity && fresh(buf)
    {
      buf := new Byte[capacity](_ => 0);
      nlmsgLen := len;
      groups := [Group(Align(len), 0, [])];
      new;
      assert buf[Align(len)..Align(len)] == [];
    }

    /** addattr_l; `opens` says that the attribute is the head of a nest. */
    method AddattrL(maxlen: nat, ty: nat, data: seq<Byte>, ghost opens: bool) returns (r: int)
      requires Valid() && maxlen <= buf.Length && ty < USHORT_SPAN && RTA_HEADER + |data| < USHORT_SPAN
      requires opens ==> data == []
      modifies buf, this`nlmsgLen, this`groups
      ensures Valid() && r == if old(Tail()) + Align(RTA_HEADER + |data|) > maxlen then -1 else 0
      ensures r != 0 ==> buf[..] == old(buf[..]) && nlmsgLen == old(nlmsgLen) && groups == old(groups)
      ensures r == 0 ==> nlmsgLen == old(Tail()) + Align(RTA_HEADER + |data|)
      ensures r == 0 ==> SameOutside(buf, old(buf[..]), old(Tail()), old(Tail()) + RTA_HEADER + |data|)
      ensures r == 0 ==> groups == Grown(old(groups), Attr(ty, data), old(Tail()), opens)
    {
      hide AllOk, Grown, StartsWith;
      AllOkFacts(buf[..], groups, Tail());
      var len := RTA_HEADER + |data|;
      if Tail() + Align(len) > maxlen {
        return -1;
      }
      ghost var was, before, tail := buf[..], groups, Tail();
      var rta := Tail();
      WriteAttr(rta, ty, data);
      nlmsgLen := Tail() + Align(len);
      groups := Grown(groups, Attr(ty, data), rta, opens);
      GroupsGrow(was, buf[..], before, tail, Attr(ty, data), opens);
      return 0;
    }

    /** addattr32: as addattr_l with four bytes. */
    method Addattr32(maxlen: nat, ty: nat, data: nat) returns (r: int)
      requires Valid() && maxlen <= buf.Length && ty < USHORT_SPAN && data < UINT_SPAN
      modifies buf, this`nlmsgLen, this`groups
      ensures Valid() && r == if old(Tail()) + 8 > maxlen then -1 else 0
      ensures r != 0 ==> buf[..] == old(buf[..]) && nlmsgLen == old(nlmsgLen) && groups == old(groups)
      ensures r == 0 ==> nlmsgLen == old(Tail()) + 8
      ensures r == 0 ==> SameOutside(buf, old(buf[..]), old(Tail()), old(Tail()) + 8)
      ensures r == 0 ==> groups == Grown(old(groups), Attr(ty, Word(data)), old(Tail()), false)
    {
      hide AllOk, Grown, StartsWith;
      AllOkFacts(buf[..], groups, Tail());
      var len := RTA_HEADER + 4;
      if Tail() + len > maxlen {
        return -1;
      }
      ghost var was, before, tail := buf[..], groups, Tail();
      var rta := Tail();
      WriteAttr(rta, ty, Word(data));
      nlmsgLen := Tail() + len;
      groups := Grown(groups, Attr(ty, Word(data)), rta, false);
      GroupsGrow(was, buf[..], before, tail, Attr(ty, Word(data)), false);
      return 0;
    }

    method WriteAttr(rta: nat, ty: nat, data: seq<Byte>)
      requires ty < USHORT_SPAN && RTA_HEADER + |data| < USHORT_SPAN
      requires rta + Align(RTA_HEADER + |data|) <= buf.Length
      modifies buf
      ensures StartsWith(buf[rta..rta + Align(RTA_HEADER + |data|)], Attr(ty, data))
      ensures SameOutside(buf, old(buf[..]), rta, rta + RTA_HEADER + |data|)
    {
      var len := RTA_HEADER + |data|;
      StoreShort(rta + 2, ty);
      StoreShort(rta, len);
      forall i | 0 <= i < |data| {
        buf[rta + RTA_HEADER + i] := data[i];
      }
      assert buf[rta + RTA_HEADER..rta + len] == data;
      StartsThere(buf[..], rta, Attr(ty, data));
      assert buf[..][rta..rta + Align(len)] == buf[rta..rta + Align(len)];
    }

    method StoreShort(at: nat, n: nat)
      requires at + 2 <= buf.Length && n < USHORT_SPAN
      modifies buf
      ensures Short(buf[..], at) == n && SameOutside(buf, old(buf[..]), at, at + 2)
    {
      buf[at], buf[at + 1] := n % 0x100, n / 0x100;
    }

    /** addattr_nest: where the nest begins, whether or not there was room for it. */
    method AddattrNest(maxlen: nat, ty: nat) returns (nest: nat)
      requires Valid() && maxlen <= buf.Length && ty < USHORT_SPAN
      modifies buf, this`nlmsgLen, this`groups
      ensures Valid() && nest == old(Tail())
      ensures nest + RTA_HEADER > maxlen ==> groups == old(groups) && nlmsgLen == old(nlmsgLen)
      ensures nest + RTA_HEADER <= maxlen ==> groups == old(groups) + [Group(nest + RTA_HEADER, ty, [])]
      ensures nest + RTA_HEADER <= maxlen ==> nlmsgLen == nest + RTA_HEADER
    {
      nest := Tail();
      var r := AddattrL(maxlen, ty, [], true);
    }

    /** `nest` is where the innermost open nest begins. */
    ghost predicate Opened(nest: nat)
      reads this`groups
    {
      |groups| > 1 && nest + RTA_HEADER == Inner().start
    }

    /**
      addattr_nest_end: the nest becomes one attribute of the group around it.
      For a nest that had no room it writes a length of 0 behind the tail, and
      the message stays as it was.
     */
    method AddattrNestEnd(nest: nat) returns (len: nat)
      requires Valid() && Tail() - nest < USHORT_SPAN
      requires Opened(nest) || (nest == Tail() && nest + 2 <= buf.Length)
      modifies buf, this`groups
      ensures Valid() && len == nlmsgLen
      ensures SameOutside(buf, old(buf[..]), nest, nest + 2) && nest + 2 <= buf.Length
      ensures !old(Opened(nest)) ==> groups == old(groups) && Short(buf[..], nest) == 0
      ensures old(Opened(nest)) ==> nest + RTA_HEADER <= Tail() <= buf.Length
      ensures old(Opened(nest)) ==>
        var payload, n := buf[nest + RTA_HEADER..Tail()], |old(groups)| - 1;
        && Encodes(payload, old(Inner()).attrs)
        && groups == old(groups)[..n - 1] + [old(groups)[n - 1].With(Attr(old(Inner()).ty, payload))]
    {
      hide Encodes, Short, Align;
      ghost var was, before := buf[..], groups;
      assert GroupOk(buf[..], groups, |groups| - 1, Tail());
      StoreShort(nest, Tail() - nest);
      if nest == Tail() {
        GroupsStay(was, buf[..], before, Tail());
      } else {
        NestCloses(was, buf[..], before, Tail());
        groups := Closed(groups, buf[nest + RTA_HEADER..Tail()]);
      }
      return nlmsgLen;
    }
  }

  /** What was put into a message is what is found in it, for every type, once all nests are closed. */
  lemma MessageParses(m: NlMessage, t: nat)
    requires m.Valid() && |m.groups| == 1
    ensures m.Inner().start <= m.Tail() <= m.buf.Length
    ensures var b, r := m.buf[m.Inner().start..m.Tail()], LastOf(m.Inner().attrs, t);
      && WalkEnd(b, 0) == |b|
      && (Entry(b, Walk(b, 0), t).None? <==> r.None?)
      && (r.Some? ==> var e := Entry(b, Walk(b, 0), t).value; RtaOk(b, e) && AttrAt(b, e) == m.Inner().attrs[r.value])
  {
    assert GroupOk(m.buf[..], m.groups, 0, m.Tail());
    var b := m.buf[m.Inner().start..m.Tail()];
    assert b == m.buf[..][m.Inner().start..m.Tail()];
    CollectsLast(b, m.Inner().attrs, t);
  }
}
