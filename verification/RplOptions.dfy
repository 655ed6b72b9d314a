/**
  The options of an RPL message (section 6.7 of RFC 6550) and rpl_msg, which
  finds them by type with one cached cursor a type (rplmsg.cpp).  In a cursor 0
  stands both for "never set" and for "the start of the message".
 */
module RplOptions {
  import opened Common

  const PAD0: Byte := 0
  const GENOPTION: nat := 2       // sizeof(struct rpl_dio_genoption)
  const MAX_BYTES: nat := 2048    // sizeof(mBytes)

  // ---------- the plain linear scan ----------

  /** The scan looks at no option here: too few bytes are left, or the length is 0. */
  predicate Stops(b: seq<Byte>, o: nat)
    requires o <= |b|
  {
    |b| - o <= GENOPTION || (b[o] != PAD0 && b[o + 1] == 0)
  }

  function Size(b: seq<Byte>, o: nat): (n: nat)
    requires o <= |b| && !Stops(b, o)
    ensures n > 0
  {
    if b[o] == PAD0 then 1 else b[o + 1] as int + 2
  }

  /** From `o` on, every option that the scan looks at fits. */
  predicate WellFormed(b: seq<Byte>, o: nat)
    decreases |b| - o
  {
    o <= |b| && (Stops(b, o) || WellFormed(b, o + Size(b, o)))
  }

  /** The offsets of the options of type `t` from `o` on, in order. */
  function OfType(b: seq<Byte>, o: nat, t: Byte): (xs: seq<nat>)
    requires WellFormed(b, o)
    ensures forall i :: 0 <= i < |xs| ==> o <= xs[i] < |b|
    decreases |b| - o
  {
    if Stops(b, o) then []
    else (if b[o] == t then [o] else []) + OfType(b, o + Size(b, o), t)
  }

  /** `c` is where the scan from `o` finds an option or stops. */
  predicate OnPath(b: seq<Byte>, o: nat, c: nat)
    requires WellFormed(b, o)
    decreases |b| - o
  {
    o == c || (!Stops(b, o) && OnPath(b, o + Size(b, o), c))
  }

  lemma {:induction false} PathWellFormed(b: seq<Byte>, o: nat, c: nat)
    requires WellFormed(b, o) && OnPath(b, o, c)
    ensures o <= c && WellFormed(b, c)
    ensures !Stops(b, c) ==> OnPath(b, o, c + Size(b, c))
    decreases |b| - o
  {
    if o != c {
      PathWellFormed(b, o + Size(b, o), c);
    } else if !Stops(b, c) {
      assert OnPath(b, c + Size(b, c), c + Size(b, c));
    }
  }

  /** The options from a point of the path on are the last of all options. */
  lemma {:induction false} OfTypeSplits(b: seq<Byte>, o: nat, c: nat, t: Byte)
    requires WellFormed(b, o) && OnPath(b, o, c) && WellFormed(b, c)
    requires forall i :: 0 <= i < |OfType(b, o, t)| ==> OfType(b, o, t)[i] >= c
    ensures OfType(b, c, t) == OfType(b, o, t)
    decreases |b| - o
  {
    if o != c {
      var n := o + Size(b, o);
      PathWellFormed(b, n, c);
      assert b[o] == t ==> o in OfType(b, o, t);
      assert OfType(b, o, t) == OfType(b, n, t);
      OfTypeSplits(b, n, c, t);
    }
  }

  // ---------- the search with cursors ----------

  type Cursors = c: seq<int> | |c| == 256 witness seq(256, _ => 0)

  datatype Found = Found(cursors: Cursors, at: Option<nat>)

  /** The loop of search_subopt at offset `o`. */
  function Walk(b: seq<Byte>, cur: Cursors, t: Byte, o: nat): Found
    requires WellFormed(b, o)
    decreases |b| - o
  {
    if Stops(b, o) then Found(cur, None)
    else
      var ty := b[o];
      var cur' := if cur[ty] == 0 then cur[ty := o] else cur;
      if ty == t then Found(cur'[t := o + Size(b, o)], Some(o))
      else Walk(b, cur', t, o + Size(b, o))
  }

  /** search_subopt for a type. */
  function Search(b: seq<Byte>, cur: Cursors, t: Byte): Found
    requires cur[t] == -1 || (cur[t] >= 0 && WellFormed(b, cur[t]))
  {
    if cur[t] == -1 then Found(cur, None) else Walk(b, cur, t, cur[t])
  }

  // ---------- what the cursors know ----------

  /**
    Every cursor is on the path and not past `far`, and a type whose cursor is
    still 0 has no option strictly between the start and `far`.
   */
  ghost predicate Known(b: seq<Byte>, cur: Cursors, far: nat) {
    && WellFormed(b, 0)
    && OnPath(b, 0, far)
    && (forall u: Byte :: 0 <= cur[u] <= far && OnPath(b, 0, cur[u]))
    && (forall u: Byte :: cur[u] == 0 ==> Untouched(b, u, far))
  }

  ghost predicate Untouched(b: seq<Byte>, u: Byte, far: nat)
    requires WellFormed(b, 0)
  {
    var xs := OfType(b, 0, u);
    forall i :: 0 <= i < |xs| ==> xs[i] == 0 || xs[i] >= far
  }

  /** The options of type `t` that later searches for `t` will visit. */
  ghost function Remaining(b: seq<Byte>, cur: Cursors, t: Byte): seq<nat> {
    if cur[t] >= 0 && WellFormed(b, cur[t]) then OfType(b, cur[t], t) else []
  }

  /** Not both at the very start of the message and somewhere else. */
  predicate Unambiguous(b: seq<Byte>, t: Byte)
    requires WellFormed(b, 0)
  {
    var xs := OfType(b, 0, t);
    |xs| <= 1 || xs[0] > 0
  }

  lemma InitiallyKnown(b: seq<Byte>, cur: Cursors)
    requires WellFormed(b, 0) && forall u: Byte :: cur[u] == 0
    ensures Known(b, cur, 0)
    ensures forall t: Byte :: Remaining(b, cur, t) == OfType(b, 0, t)
  {
  }

  /** The path is linear: past `c` it goes on at the next option. */
  lemma {:induction false} PathOrder(b: seq<Byte>, o: nat, c: nat, d: nat)
    requires WellFormed(b, o) && OnPath(b, o, c) && OnPath(b, o, d) && c < d
    ensures WellFormed(b, c) && !Stops(b, c) && c + Size(b, c) <= d
    decreases |b| - o
  {
    if o == c {
      PathWellFormed(b, c + Size(b, c), d);
    } else if o == d {
      PathWellFormed(b, o, c);
    } else {
      PathOrder(b, o + Size(b, o), c, d);
    }
  }

  lemma {:induction false} ListedOnPath(b: seq<Byte>, o: nat, t: Byte, i: nat)
    requires WellFormed(b, o) && i < |OfType(b, o, t)|
    ensures var x := OfType(b, o, t)[i]; OnPath(b, o, x) && WellFormed(b, x) && !Stops(b, x) && b[x] == t
    decreases |b| - o
  {
    var here := if b[o] == t then 1 else 0;
    if i >= here {
      ListedOnPath(b, o + Size(b, o), t, i - here);
    }
  }

  lemma {:induction false} OnPathListed(b: seq<Byte>, o: nat, x: nat)
    requires WellFormed(b, o) && OnPath(b, o, x) && WellFormed(b, x) && !Stops(b, x)
    ensures x in OfType(b, o, b[x])
    decreases |b| - o
  {
    if o != x {
      OnPathListed(b, o + Size(b, o), x);
    }
  }

  // ---------- one step of the walk ----------

  function Touch(cur: Cursors, u: Byte, o: nat): Cursors {
    if cur[u] == 0 then cur[u := o] else cur
  }

  lemma StillUntouched(b: seq<Byte>, u: Byte, o: nat)
    requires WellFormed(b, 0) && OnPath(b, 0, o) && WellFormed(b, o) && !Stops(b, o)
    requires Untouched(b, u, o) && (b[o] != u || o == 0)
    ensures Untouched(b, u, o + Size(b, o))
  {
    hide OnPath, OfType;
    var xs := OfType(b, 0, u);
    forall i | 0 <= i < |xs|
      ensures xs[i] == 0 || xs[i] >= o + Size(b, o)
    {
      ListedOnPath(b, 0, u, i);
      if xs[i] > o {
        PathOrder(b, 0, o, xs[i]);
      }
    }
  }

  /** Looking at the option at `o`, on the known part of the path or at its end. */
  lemma StepKnown(b: seq<Byte>, cur: Cursors, o: nat, far: nat) returns (far': nat)
    requires Known(b, cur, far) && OnPath(b, 0, o) && o <= far && WellFormed(b, o) && !Stops(b, o)
    ensures o + Size(b, o) <= far' && far <= far' && OnPath(b, 0, o + Size(b, o)) && WellFormed(b, o + Size(b, o))
    ensures Known(b, Touch(cur, b[o], o), far')
  {
    hide OnPath, OfType, Untouched, WellFormed;
    PathWellFormed(b, 0, o);
    var n := o + Size(b, o);
    PathWellFormed(b, 0, n);
    var cur' := Touch(cur, b[o], o);
    if o < far {
      PathOrder(b, 0, o, far);
      far' := far;
    } else {
      far' := n;
      forall u: Byte | cur'[u] == 0
        ensures Untouched(b, u, far')
      {
        StillUntouched(b, u, o);
      }
    }
  }

  /** A cursor that is set in passing points to the first option of its type. */
  lemma TouchRemaining(b: seq<Byte>, cur: Cursors, o: nat, far: nat, u: Byte)
    requires Known(b, cur, far) && OnPath(b, 0, o) && o <= far && WellFormed(b, o) && !Stops(b, o)
    requires cur[u] > 0 || Unambiguous(b, u)
    ensures Remaining(b, Touch(cur, b[o], o), u) == Remaining(b, cur, u)
    ensures cur[u] > 0 ==> Touch(cur, b[o], o)[u] > 0
  {
    hide OnPath, OfType, WellFormed;
    if u == b[o] && cur[u] == 0 && o > 0 {
      var xs := OfType(b, 0, u);
      OnPathListed(b, 0, o);
      assert o in xs;
      assert xs[0] > 0;
      forall i | 0 <= i < |xs|
        ensures xs[i] >= o
      {
        assert xs[i] == 0 || xs[i] >= far;
        Increasing(b, 0, u, i);
      }
      OfTypeSplits(b, 0, o, u);
    }
  }

  lemma {:induction false} Increasing(b: seq<Byte>, o: nat, t: Byte, i: nat)
    requires WellFormed(b, o) && i < |OfType(b, o, t)|
    ensures OfType(b, o, t)[0] <= OfType(b, o, t)[i]
    decreases |b| - o
  {
    if b[o] != t {
      Increasing(b, o + Size(b, o), t, i);
    }
  }

  /** The first `t` option from `o` on, and the cursor behind it; or the end of the path. */
  ghost predicate WalkOutcome(b: seq<Byte>, cur: Cursors, t: Byte, o: nat, far: nat, f: Found)
    requires WellFormed(b, o)
  {
    match f.at
    case None => far <= |b| && Stops(b, far) && OfType(b, o, t) == [] && f.cursors[t] == cur[t]
    case Some(x) =>
      && x >= o && f.cursors[t] > 0 && WellFormed(b, f.cursors[t])
      && OfType(b, o, t) == [x] + OfType(b, f.cursors[t], t)
  }

  /** The walk for `t` from `o`: what it finds, and what it leaves of every type. */
  lemma {:induction false} WalkKeeps(b: seq<Byte>, cur: Cursors, t: Byte, o: nat, far: nat) returns (far': nat)
    requires WellFormed(b, 0) && Known(b, cur, far) && OnPath(b, 0, o) && o <= far && WellFormed(b, o)
    ensures Known(b, Walk(b, cur, t, o).cursors, far')
    ensures WalkOutcome(b, cur, t, o, far', Walk(b, cur, t, o))
    ensures forall u: Byte :: u != t && (cur[u] > 0 || Unambiguous(b, u)) ==>
      Remaining(b, Walk(b, cur, t, o).cursors, u) == Remaining(b, cur, u)
    ensures forall u: Byte :: cur[u] > 0 ==> Walk(b, cur, t, o).cursors[u] > 0
    decreases |b| - o
  {
    hide OnPath, Known, Unambiguous, Remaining;
    if Stops(b, o) {
      far' := far;
      EndOfPath(b, cur, o, far);
    } else {
      var n := o + Size(b, o);
      var cur' := Touch(cur, b[o], o);
      far' := StepKnown(b, cur, o, far);
      forall u: Byte | cur[u] > 0 || Unambiguous(b, u)
        ensures Remaining(b, cur', u) == Remaining(b, cur, u) && (cur[u] > 0 ==> cur'[u] > 0)
      {
        TouchRemaining(b, cur, o, far, u);
      }
      if b[o] == t {
        FoundKnown(b, cur', t, n, far');
      } else {
        far' := WalkKeeps(b, cur', t, n, far');
      }
    }
  }

  lemma EndOfPath(b: seq<Byte>, cur: Cursors, o: nat, far: nat)
    requires Known(b, cur, far) && OnPath(b, 0, o) && o <= far && WellFormed(b, o) && Stops(b, o)
    ensures o == far
  {
    hide OnPath, OfType;
    if o < far {
      PathOrder(b, 0, o, far);
    }
  }

  lemma FoundKnown(b: seq<Byte>, cur: Cursors, t: Byte, n: nat, far: nat)
    requires Known(b, cur, far) && OnPath(b, 0, n) && 0 < n <= far
    ensures Known(b, cur[t := n], far)
    ensures forall u: Byte :: u != t ==> Remaining(b, cur[t := n], u) == Remaining(b, cur, u)
  {
    hide OnPath, OfType, Untouched, WellFormed;
  }

  // ---------- one search, and runs of searches ----------

  ghost predicate Consistent(b: seq<Byte>, cur: Cursors) {
    exists far :: Known(b, cur, far)
  }

  /** A search for `t` that starts from consistent cursors. */
  lemma SearchKeeps(b: seq<Byte>, cur: Cursors, t: Byte) returns (far: nat)
    requires Consistent(b, cur)
    ensures WellFormed(b, 0) && cur[t] >= 0 && WellFormed(b, cur[t])
    ensures Known(b, Search(b, cur, t).cursors, far)
    ensures WalkOutcome(b, cur, t, cur[t], far, Search(b, cur, t))
    ensures forall u: Byte :: u != t && (cur[u] > 0 || Unambiguous(b, u)) ==>
      Remaining(b, Search(b, cur, t).cursors, u) == Remaining(b, cur, u)
    ensures forall u: Byte :: cur[u] > 0 ==> Search(b, cur, t).cursors[u] > 0
  {
    hide Walk, OnPath, WalkOutcome, Untouched, Remaining, Unambiguous;
    var far0 :| Known(b, cur, far0);
    PathWellFormed(b, 0, cur[t]);
    far := WalkKeeps(b, cur, t, cur[t], far0);
  }

  /** The contract of one search in terms of a plain linear scan. */
  lemma SearchIsLinear(b: seq<Byte>, cur: Cursors, t: Byte)
    requires Consistent(b, cur)
    ensures cur[t] >= 0 && WellFormed(b, cur[t])
    ensures var f, rest := Search(b, cur, t), Remaining(b, cur, t);
      && Consistent(b, f.cursors)
      && (if rest == [] then f.at == None && Remaining(b, f.cursors, t) == []
          else f.at == Some(rest[0]) && Remaining(b, f.cursors, t) == rest[1..])
  {
    hide Search, Known, OfType;
    var far := SearchKeeps(b, cur, t);
  }

  /** The answers to a run of searches, from the given cursors. */
  ghost function Run(b: seq<Byte>, cur: Cursors, ts: seq<Byte>): (rs: seq<Option<nat>>)
    requires Consistent(b, cur)
    ensures |rs| == |ts|
    decreases |ts|
  {
    if ts == [] then []
    else
      SearchIsLinear(b, cur, ts[0]);
      var f := Search(b, cur, ts[0]);
      [f.at] + Run(b, f.cursors, ts[1..])
  }

  /** The answers for `t` are the offsets `xs` in order, once each, and then NULL for ever. */
  ghost predicate Exact(ts: seq<Byte>, rs: seq<Option<nat>>, t: Byte, xs: seq<nat>)
    requires |rs| == |ts|
  {
    if ts == [] then true
    else if ts[0] != t then Exact(ts[1..], rs[1..], t, xs)
    else if xs == [] then rs[0] == None && Exact(ts[1..], rs[1..], t, xs)
    else rs[0] == Some(xs[0]) && Exact(ts[1..], rs[1..], t, xs[1..])
  }

  lemma {:induction false} RunIsExact(b: seq<Byte>, cur: Cursors, ts: seq<Byte>, t: Byte)
    requires Consistent(b, cur) && WellFormed(b, 0)
    requires cur[t] > 0 || Unambiguous(b, t) || forall i :: 0 <= i < |ts| ==> ts[i] == t
    ensures Exact(ts, Run(b, cur, ts), t, Remaining(b, cur, t))
    decreases |ts|
  {
    hide Search, Known, OfType, Consistent, Remaining, Unambiguous, WalkOutcome;
    if ts != [] {
      SearchIsLinear(b, cur, ts[0]);
      var far := SearchKeeps(b, cur, ts[0]);
      RunIsExact(b, Search(b, cur, ts[0]).cursors, ts[1..], t);
    }
  }

  const FRESH: Cursors := seq(256, _ => 0)

  lemma FreshIsConsistent(b: seq<Byte>)
    requires WellFormed(b, 0)
    ensures Consistent(b, FRESH)
    ensures forall t: Byte :: Remaining(b, FRESH, t) == OfType(b, 0, t)
  {
    InitiallyKnown(b, FRESH);
  }

  /** After a search that found nothing, an option past the start has set its cursor. */
  lemma ExhaustedSets(b: seq<Byte>, cur: Cursors, t: Byte, u: Byte)
    requires Consistent(b, cur) && WellFormed(b, 0) && t != u && !Unambiguous(b, t)
    requires Remaining(b, cur, u) == []
    ensures cur[u] >= 0 && WellFormed(b, cur[u])
    ensures Search(b, cur, u).at == None && Search(b, cur, u).cursors[t] > 0
  {
    hide Search, OnPath;
    SearchIsLinear(b, cur, u);
    var far := SearchKeeps(b, cur, u);
    var f := Search(b, cur, u);
    var xs := OfType(b, 0, t);
    SecondPositive(b, t);
    ListedOnPath(b, 0, t, 1);
    if far < xs[1] {
      PathOrder(b, 0, far, xs[1]);
    }
  }

  lemma SecondPositive(b: seq<Byte>, t: Byte)
    requires WellFormed(b, 0) && !Unambiguous(b, t)
    ensures var xs := OfType(b, 0, t); |xs| >= 2 && xs[0] == 0 && xs[1] > 0
  {
    assert b[0] == t;
  }

  /** A run of searches for `u`, and then one for `t` that misses the option at the start. */
  lemma WrongRun(b: seq<Byte>, cur: Cursors, t: Byte, u: Byte) returns (ts: seq<Byte>)
    requires Consistent(b, cur) && WellFormed(b, 0) && t != u && !Unambiguous(b, t)
    ensures !Exact(ts, Run(b, cur, ts), t, OfType(b, 0, t))
    decreases |Remaining(b, cur, u)|
  {
    hide Search, OfType, Consistent, Remaining, Unambiguous, Known;
    SearchIsLinear(b, cur, u);
    var f := Search(b, cur, u);
    var xs := OfType(b, 0, t);
    SecondPositive(b, t);
    if Remaining(b, cur, u) != [] {
      var more := WrongRun(b, f.cursors, t, u);
      ts := [u] + more;
      assert ts[1..] == more;
      assert Run(b, cur, ts)[1..] == Run(b, f.cursors, more);
    } else {
      ExhaustedSets(b, cur, t, u);
      LaterAnswer(b, f.cursors, t);
      ts := [u, t];
      assert ts[1..] == [t];
      assert Run(b, cur, ts)[1..] == Run(b, f.cursors, [t]);
    }
  }

  /** A message of two options of type 5, of one byte each. */
  predicate TwoOptions(b: seq<Byte>) {
    |b| == 6 && b[0] == 5 && b[1] == 1 && b[3] == 5 && b[4] == 1
  }

  lemma TwoOptionsListed(b: seq<Byte>)
    requires TwoOptions(b)
    ensures WellFormed(b, 0) && WellFormed(b, 3) && WellFormed(b, 6)
    ensures Stops(b, 6) && !Stops(b, 3) && !Stops(b, 0) && Size(b, 3) == 3 && Size(b, 0) == 3
    ensures OfType(b, 3, 5) == [3] && OfType(b, 0, 5) == [0, 3]
  {
    assert Stops(b, 6) && WellFormed(b, 6) && OfType(b, 6, 5) == [];
    assert WellFormed(b, 3) && OfType(b, 3, 5) == [3];
  }

  lemma TwoOptionsSearched(b: seq<Byte>, unset: Cursors)
    requires TwoOptions(b) && forall u: Byte :: unset[u] == 0
    ensures WellFormed(b, 0) && WellFormed(b, 3)
    ensures Search(b, unset, 6) == Found(unset[5 := 3], None)
    ensures Search(b, unset[5 := 3], 5).at == Some(3)
  {
    TwoOptionsListed(b);
    hide WellFormed, OfType;
    var cur := unset[5 := 3];
    assert Walk(b, cur, 6, 6) == Found(cur, None);
    assert unset[5 := 0] == unset;
    assert Walk(b, unset, 6, 3) == Found(cur, None);
  }

  /**
    A message that fails: two options of type 5, and a search for type 6 first.
    The search for type 5 then starts at the second one.
   */
  lemma FirstOptionSkipped(b: seq<Byte>)
    requires b == [5, 1, 9, 5, 1, 9]
    ensures WellFormed(b, 0) && OfType(b, 0, 5) == [0, 3] && Consistent(b, FRESH)
    ensures Run(b, FRESH, [6, 5]) == [None, Some(3)]
  {
    hide Search, OfType, WellFormed, Consistent;
    TwoOptionsListed(b);
    FreshIsConsistent(b);
    TwoOptionsSearched(b, FRESH);
    SearchIsLinear(b, FRESH, 6);
    TwoSearches(b, FRESH, 6, 5);
  }

  lemma TwoSearches(b: seq<Byte>, cur: Cursors, t: Byte, u: Byte)
    requires Consistent(b, cur)
    ensures cur[t] >= 0 && WellFormed(b, cur[t])
    ensures var f := Search(b, cur, t);
      && Consistent(b, f.cursors) && f.cursors[u] >= 0 && WellFormed(b, f.cursors[u])
      && Run(b, cur, [t, u]) == [f.at, Search(b, f.cursors, u).at]
  {
    hide Search, OfType, WellFormed, Consistent;
    SearchIsLinear(b, cur, t);
    var f := Search(b, cur, t);
    SearchIsLinear(b, f.cursors, u);
    assert [t, u][1..] == [u];
    assert Run(b, f.cursors, [u]) == [Search(b, f.cursors, u).at];
  }

  lemma LaterAnswer(b: seq<Byte>, cur: Cursors, t: Byte)
    requires Consistent(b, cur) && cur[t] > 0
    ensures Run(b, cur, [t])[0] != Some(0)
  {
    hide Search, OnPath, Known;
    SearchIsLinear(b, cur, t);
  }

  /**
    The cached cursors are a linear scan for type `t`, whatever else is searched
    for in between, just when `t` does not occur both at the start of the message
    and again after it.
   */
  lemma CursorsAreLinear(b: seq<Byte>, t: Byte)
    requires WellFormed(b, 0)
    ensures Consistent(b, FRESH)
    ensures (forall ts :: Exact(ts, Run(b, FRESH, ts), t, OfType(b, 0, t))) <==> Unambiguous(b, t)
  {
    hide Consistent, OfType, Run, Unambiguous, Exact, Remaining;
    FreshIsConsistent(b);
    if Unambiguous(b, t) {
      forall ts
        ensures Exact(ts, Run(b, FRESH, ts), t, OfType(b, 0, t))
      {
        RunIsExact(b, FRESH, ts, t);
      }
    } else {
      var ts := WrongRun(b, FRESH, t, if t == 1 then 2 else 1);
    }
  }

  /** A message searched for one type only is always read exactly. */
  lemma OneTypeIsExact(b: seq<Byte>, ts: seq<Byte>, t: Byte)
    requires WellFormed(b, 0) && forall i :: 0 <= i < |ts| ==> ts[i] == t
    ensures Consistent(b, FRESH) && Exact(ts, Run(b, FRESH, ts), t, OfType(b, 0, t))
  {
    hide Consistent, OfType, Run, Exact, Remaining;
    FreshIsConsistent(b);
    RunIsExact(b, FRESH, ts, t);
  }

  /** A search from consistent cursors. */
  ghost function Outcome(b: seq<Byte>, cur: Cursors, t: Byte): Found
    requires Consistent(b, cur)
  {
    SearchIsLinear(b, cur, t);
    Search(b, cur, t)
  }

  // ---------- rpl_msg ----------

  class RplMsg {
    var mBytes: array<Byte>
    var mLen: nat
    var mOptions: array<int>

    ghost predicate Valid()
      reads this, mBytes, mOptions
    {
      mLen <= mBytes.Length == MAX_BYTES && mOptions.Length == 256 && Consistent(Message(), Cursor())
    }

    ghost function Message(): seq<Byte>
      requires mLen <= mBytes.Length
      reads this, mBytes
    {
      mBytes[..mLen]
    }

    ghost function Cursor(): Cursors
      requires mOptions.Length == 256
      reads this, mOptions
    {
      mOptions[..]
    }

    /** The options of type `t` that later searches for `t` will return. */
    ghost function Left(t: Byte): seq<nat>
      requires mLen <= mBytes.Length && mOptions.Length == 256
      reads this, mBytes, mOptions
    {
      Remaining(Message(), Cursor(), t)
    }

    /** Copies the options, at most what the buffer holds, and clears the cursors. */
    constructor (subopts: seq<Byte>)
      requires WellFormed(subopts[..Min(|subopts|, MAX_BYTES)], 0)
      ensures Valid() && fresh(mBytes) && fresh(mOptions)
      ensures Message() == subopts[..Min(|subopts|, MAX_BYTES)]
      ensures forall t: Byte :: Cursor()[t] == 0 && Left(t) == OfType(Message(), 0, t)
    {
      var len := Min(|subopts|, MAX_BYTES);
      mBytes := new Byte[MAX_BYTES](i => if 0 <= i < |subopts| then subopts[i] else 0);
      mLen := len;
      mOptions := new int[256](_ => 0);
      new;
      assert mBytes[..mLen] == subopts[..len];
      InitiallyKnown(mBytes[..mLen], mOptions[..]);
    }

    /**
      search_subopt: the offset of the option and its size, or -1 for NULL.  It
      returns the options of its type in order; another type loses nothing as
      long as its own search has begun or it is unambiguous.
     */
    method SearchSubopt(optnum: Byte) returns (at: int, optLen: nat)
      requires Valid()
      modifies mOptions
      ensures Valid()
      ensures old(Left(optnum)) == [] ==> at == -1 && optLen == 0 && Left(optnum) == []
      ensures old(Left(optnum)) != [] ==> at == old(Left(optnum))[0] && Left(optnum) == old(Left(optnum))[1..]
      ensures at >= 0 ==> at + optLen <= mLen && Message()[at] == optnum
      ensures at >= 0 ==> !Stops(Message(), at) && optLen == Size(Message(), at)
      ensures forall u: Byte :: u != optnum && (old(Cursor()[u]) > 0 || Unambiguous(Message(), u)) ==>
        Left(u) == old(Left(u))
      ensures forall u: Byte :: old(Cursor()[u]) > 0 ==> Cursor()[u] > 0
      ensures Message() == old(Message())
      ensures Cursor() == Outcome(old(Message()), old(Cursor()), optnum).cursors
      ensures at == match Outcome(old(Message()), old(Cursor()), optnum).at case None => -1 case Some(x) => x
    {
      hide OfType, OnPath, Known, Remaining, Unambiguous, Consistent;
      ghost var b, cur0 := Message(), Cursor();
      SearchIsLinear(b, cur0, optnum);
      ghost var far := SearchKeeps(b, cur0, optnum);
      optLen := 0;
      at := -1;
      if mOptions[optnum] == -1 {
        return;
      }
      var offset := mOptions[optnum];
      var left := mLen - offset;
      while left > GENOPTION
        invariant 0 <= offset && left == mLen - offset >= 0
        invariant WellFormed(b, offset)
        invariant Search(b, cur0, optnum) == Walk(b, mOptions[..], optnum, offset)
        decreases left
      {
        var ty, len := mBytes[offset], mBytes[offset + 1];
        assert b[offset] == ty && b[offset + 1] == len;
        var skip;
        if ty == PAD0 {
          skip := 1;
        } else {
          skip := len as int + 2;
          if len == 0 {
            break;
          }
        }
        if mOptions[ty] == 0 {
          mOptions[ty] := offset;
        }
        if ty == optnum {
          mOptions[ty] := offset + skip;
          return offset, skip;
        }
        left, offset := left - skip, offset + skip;
      }
    }
  }
}
