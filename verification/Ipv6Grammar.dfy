/**
  The text form of IPv6 addresses (section 2.2 of RFC 4291) as this library
  reads it: what a written address is, and the scan of `colon` in ttoaddr.c as
  a function of the text.  The scan accepts exactly the written addresses.
 */
module Ipv6Grammar {
  import opened Common
  import opened NumberText

  const NPIECES: nat := 8
  const NDIG: nat := 4

  type Piece = x: int | 0 <= x < 0x1_0000

  // ---------- written addresses ----------

  /** Either all eight groups, or the groups on the two sides of a `::`. */
  datatype Written = Full(groups: seq<string>) | Gapped(before: seq<string>, after: seq<string>)

  predicate IsGroup(g: string) {
    1 <= |g| <= NDIG && AllDigits(g, 16)
  }

  predicate AllGroups(gs: seq<string>) {
    forall i :: 0 <= i < |gs| ==> IsGroup(gs[i])
  }

  /** A gap stands for two groups or more. */
  predicate WellFormed(w: Written) {
    match w
    case Full(gs) => AllGroups(gs) && |gs| == NPIECES
    case Gapped(a, b) => AllGroups(a) && AllGroups(b) && |a| + |b| <= NPIECES - 2
  }

  /** Every group followed by a colon. */
  function Terminated(gs: seq<string>): string {
    if gs == [] then "" else gs[0] + ":" + Terminated(gs[1..])
  }

  /** The groups separated by colons. */
  function Join(gs: seq<string>): string {
    if gs == [] then "" else Terminated(gs[..|gs| - 1]) + gs[|gs| - 1]
  }

  function Render(w: Written): string {
    match w
    case Full(gs) => Join(gs)
    case Gapped(a, b) => Join(a) + "::" + Join(b)
  }

  function GroupValue(g: string): Piece
    requires IsGroup(g)
  {
    GroupBound(g);
    Value(g, 16)
  }

  lemma GroupBound(g: string)
    requires IsGroup(g)
    ensures Value(g, 16) < 0x1_0000
  {
    HexIsValue(g);
    assert Pow(16, 1) == 16 && Pow(16, 2) == 256 && Pow(16, 3) == 4096 && Pow(16, 4) == 0x1_0000;
  }

  function Values(gs: seq<string>): (ps: seq<Piece>)
    requires AllGroups(gs)
    ensures |ps| == |gs| && forall i :: 0 <= i < |gs| ==> ps[i] == GroupValue(gs[i])
  {
    if gs == [] then [] else [GroupValue(gs[0])] + Values(gs[1..])
  }

  /** The eight pieces that a written address denotes. */
  function Meaning(w: Written): (ps: seq<Piece>)
    requires WellFormed(w)
    ensures |ps| == NPIECES
  {
    match w
    case Full(gs) => Values(gs)
    case Gapped(a, b) => Values(a) + Repeat<Piece>(0, NPIECES - |a| - |b|) + Values(b)
  }

  ghost predicate Denotes(s: string, ps: seq<Piece>) {
    exists w :: WellFormed(w) && Render(w) == s && Meaning(w) == ps
  }

  // ---------- text lemmas ----------

  lemma {:induction false} TerminatedAppend(a: seq<string>, b: seq<string>)
    ensures Terminated(a + b) == Terminated(a) + Terminated(b)
  {
    if a == [] {
      assert a + b == b;
    } else {
      TerminatedAppend(a[1..], b);
      assert (a + b)[1..] == a[1..] + b;
    }
  }

  lemma JoinTerminated(gs: seq<string>)
    requires gs != []
    ensures Terminated(gs) == Join(gs) + ":"
  {
    hide Terminated;
    var n := |gs| - 1;
    TerminatedAppend(gs[..n], [gs[n]]);
    assert gs == gs[..n] + [gs[n]];
    TerminatedOne(gs[n]);
    Assoc(Terminated(gs[..n]), gs[n], ":");
  }

  lemma TerminatedOne(g: string)
    ensures Terminated([g]) == g + ":"
  {
    assert Terminated([]) == "" && g + ":" + "" == g + ":";
  }

  /** A non-empty list of groups neither starts nor ends with a colon. */
  lemma JoinEnds(gs: seq<string>)
    requires AllGroups(gs) && gs != []
    ensures var s := Join(gs);
      s != "" && IsDigit(s[0], 16) && IsDigit(s[|s| - 1], 16) && s[0] != ':' && s[|s| - 1] != ':'
  {
    var n := |gs| - 1;
    if n > 0 {
      assert Terminated(gs[..n])[0] == gs[0][0];
    }
  }

  // ---------- the scan ----------

  datatype AddrError =
    | BadLeadingColon | BadTrailingColon | TwoGaps | NonHexField | LongField
    | EndsPrematurely | SyntaxError | ExtraGarbage | Incomplete | NonAbbreviating

  datatype PieceResult = EmptyField | BadField(error: AddrError) | Field(value: Piece, len: nat)

  /** getpiece: the field at the start of `s`. */
  function PieceAt(s: string): (r: PieceResult)
    ensures r.Field? ==> 0 < r.len <= |s|
  {
    if s == "" || s[0] == ':' then EmptyField else
      var d := Min(NDIG, DigitPrefix(s, 16));
      if d == 0 then BadField(NonHexField)
      else if d == NDIG && |s| > NDIG && IsDigit(s[NDIG], 16) then BadField(LongField)
      else
        assert s[..d] == s[..DigitPrefix(s, 16)][..d];
        assert IsGroup(s[..d]);
        Field(GroupValue(s[..d]), d)
  }

  datatype Scanned = Scanned(pieces: seq<Piece>, gap: int)

  /**
    The main loop of colon: `s` is what is left, `acc` the pieces stored so far
    (0 for the empty field), `gap` the index of the empty field or -1.
   */
  function Scan(s: string, acc: seq<Piece>, gap: int): Result<Scanned, AddrError>
    requires |acc| <= NPIECES
    decreases NPIECES - |acc|, 0
  {
    if |acc| == NPIECES || s == "" then
      if s != "" then Err(ExtraGarbage)
      else if gap < 0 && |acc| < NPIECES then Err(Incomplete)
      else if gap >= 0 && |acc| == NPIECES then Err(NonAbbreviating)
      else Ok(Scanned(acc, gap))
    else
      match PieceAt(s)
      case EmptyField => if gap >= 0 then Err(TwoGaps) else AfterField(s, acc + [0], |acc|)
      case BadField(e) => Err(e)
      case Field(v, d) => AfterField(s[d..], acc + [v], gap)
  }

  function AfterField(s: string, acc: seq<Piece>, gap: int): Result<Scanned, AddrError>
    requires 0 < |acc| <= NPIECES
    decreases NPIECES - |acc|, 1
  {
    if |acc| == NPIECES then Scan(s, acc, gap)
    else if s == "" then if gap < 0 then Err(EndsPrematurely) else Scan(s, acc, gap)
    else if s[0] != ':' then Err(SyntaxError)
    else Scan(s[1..], acc, gap)
  }

  /** The gap takes the place of the empty field and of all missing pieces. */
  function Expand(r: Scanned): seq<Piece>
    requires r.gap < 0 || r.gap < |r.pieces| < NPIECES
  {
    if r.gap < 0 then r.pieces
    else r.pieces[..r.gap] + Repeat<Piece>(0, NPIECES + 1 - |r.pieces|) + r.pieces[r.gap + 1..]
  }

  lemma {:induction false} ScanShape(s: string, acc: seq<Piece>, gap: int)
    requires |acc| <= NPIECES && gap < |acc|
    ensures Scan(s, acc, gap).Ok? ==>
      var r := Scan(s, acc, gap).value;
      if r.gap < 0 then |r.pieces| == NPIECES else r.gap < |r.pieces| < NPIECES
    decreases NPIECES - |acc|
  {
    if |acc| < NPIECES && s != "" {
      match PieceAt(s)
      case EmptyField =>
        if gap < 0 {
          ScanShape(s[1..], acc + [0], |acc|);
          ScanShape(s, acc + [0], |acc|);
        }
      case BadField(_) =>
      case Field(v, d) =>
        ScanShape(s[d..], acc + [v], gap);
        if s[d..] != "" {
          ScanShape(s[d..][1..], acc + [v], gap);
        }
    }
  }

  /** colon, for a non-empty text. */
  function ColonResult(s: string): Result<seq<Piece>, AddrError>
    requires s != ""
  {
    if s[0] == ':' && (|s| == 1 || s[1] != ':') then Err(BadLeadingColon)
    else if s == "::" then Ok(Repeat<Piece>(0, NPIECES))
    else if s[|s| - 1] == ':' && (|s| == 1 || s[|s| - 2] != ':') then Err(BadTrailingColon)
    else
      var t := if s[0] == ':' then s[1..] else s;
      ScanShape(t, [], -1);
      match Scan(t, [], -1)
      case Err(e) => Err(e)
      case Ok(r) => Ok(Expand(r))
  }

  // ---------- every written address is accepted ----------

  lemma FieldOf(g: string, rest: string)
    requires IsGroup(g) && (rest == "" || rest[0] == ':')
    ensures PieceAt(g + rest) == Field(GroupValue(g), |g|)
  {
    var s := g + rest;
    assert IsDigit(s[0], 16);
    assert s[..|g|] == g && (rest != "" ==> s[|g|] == rest[0]);
    DigitPrefixIs(s, |g|, 16);
  }

  lemma StepField(g: string, rest: string, acc: seq<Piece>, gap: int)
    requires IsGroup(g) && (rest == "" || rest[0] == ':') && |acc| < NPIECES
    ensures Scan(g + rest, acc, gap) == AfterField(rest, acc + [GroupValue(g)], gap)
  {
    FieldOf(g, rest);
    assert (g + rest)[|g|..] == rest;
  }

  lemma StepColon(rest: string, acc: seq<Piece>, gap: int)
    requires 0 < |acc| < NPIECES
    ensures AfterField(":" + rest, acc, gap) == Scan(rest, acc, gap)
  {
    assert (":" + rest)[1..] == rest;
  }

  lemma StepGap(rest: string, acc: seq<Piece>)
    requires |acc| < NPIECES - 1
    ensures Scan(":" + rest, acc, -1) == Scan(rest, acc + [0], |acc|)
  {
    assert (":" + rest)[1..] == rest;
  }

  lemma StepEnd(acc: seq<Piece>, gap: int)
    requires 0 < |acc| <= NPIECES && (gap < 0 <==> |acc| == NPIECES)
    ensures AfterField("", acc, gap) == Ok(Scanned(acc, gap))
    ensures Scan("", acc, gap) == Ok(Scanned(acc, gap))
  {
  }

  lemma {:induction false} ScanGroups(gs: seq<string>, rest: string, acc: seq<Piece>, gap: int)
    requires AllGroups(gs) && |acc| + |gs| < NPIECES
    ensures Scan(Terminated(gs) + rest, acc, gap) == Scan(rest, acc + Values(gs), gap)
    decreases |gs|
  {
    hide Scan, AfterField, PieceAt, GroupValue, IsGroup;
    if gs == [] {
      assert Terminated(gs) + rest == rest && acc + Values(gs) == acc;
    } else {
      var tail := Terminated(gs[1..]) + rest;
      var acc' := acc + [GroupValue(gs[0])];
      calc {
        Scan(Terminated(gs) + rest, acc, gap);
        { assert Terminated(gs) + rest == gs[0] + (":" + tail); }
        Scan(gs[0] + (":" + tail), acc, gap);
        { StepField(gs[0], ":" + tail, acc, gap); }
        AfterField(":" + tail, acc', gap);
        { StepColon(tail, acc', gap); }
        Scan(tail, acc', gap);
        { ScanGroups(gs[1..], rest, acc', gap); }
        Scan(rest, acc' + Values(gs[1..]), gap);
        { assert acc' + Values(gs[1..]) == acc + Values(gs); }
        Scan(rest, acc + Values(gs), gap);
      }
    }
  }

  /** The last group, or nothing at all after a gap. */
  lemma ScanJoin(gs: seq<string>, acc: seq<Piece>, gap: int)
    requires AllGroups(gs)
    requires if gap < 0 then |acc| + |gs| == NPIECES && gs != [] else 0 < |acc| && |acc| + |gs| < NPIECES
    ensures Scan(Join(gs), acc, gap) == Ok(Scanned(acc + Values(gs), gap))
  {
    hide Scan, AfterField, PieceAt, GroupValue, IsGroup;
    if gs == [] {
      assert acc + Values(gs) == acc;
      StepEnd(acc, gap);
    } else {
      var n := |gs| - 1;
      var acc' := acc + Values(gs[..n]);
      ScanGroups(gs[..n], gs[n], acc, gap);
      StepField(gs[n], "", acc', gap);
      assert gs[n] + "" == gs[n];
      assert acc' + [GroupValue(gs[n])] == acc + Values(gs);
      StepEnd(acc + Values(gs), gap);
    }
  }

  /** The part of a gapped address that the loop of colon walks over. */
  lemma ScanGapped(a: seq<string>, b: seq<string>)
    requires AllGroups(a) && AllGroups(b) && |a| + |b| <= NPIECES - 2
    ensures Scan(Terminated(a) + (":" + Join(b)), [], -1) == Ok(Scanned(Values(a) + [0] + Values(b), |a|))
  {
    hide Scan, AfterField, PieceAt, GroupValue, IsGroup, Terminated, Join;
    ScanGroups(a, ":" + Join(b), [], -1);
    assert [] + Values(a) == Values(a);
    StepGap(Join(b), Values(a));
    ScanJoin(b, Values(a) + [0], |a|);
  }

  /** How the text of a gapped address looks at its two ends, and past the first colon. */
  lemma GappedText(a: seq<string>, b: seq<string>)
    requires AllGroups(a) && AllGroups(b)
    ensures var s := Join(a) + "::" + Join(b);
      && (s[0] == ':' <==> a == [])
      && (s == "::" <==> a == [] && b == [])
      && (a == [] ==> s[1] == ':')
      && (s[|s| - 1] == ':' ==> s[|s| - 2] == ':')
      && (if a == [] then s[1..] else s) == Terminated(a) + (":" + Join(b))
  {
    hide Terminated, Join, IsGroup;
    GappedFront(a, Join(b));
    GappedBack(Join(a), b);
    EndsOf(b);
    EndsOf(a);
  }

  lemma EndsOf(gs: seq<string>)
    requires AllGroups(gs)
    ensures gs == [] ==> Join(gs) == "" && Terminated(gs) == ""
    ensures gs != [] ==> Terminated(gs) == Join(gs) + ":" && Join(gs) != ""
    ensures gs != [] ==> Join(gs)[0] != ':' && Join(gs)[|Join(gs)| - 1] != ':'
  {
    if gs != [] {
      JoinEnds(gs);
      JoinTerminated(gs);
    }
  }

  lemma GappedFront(a: seq<string>, r: string)
    requires AllGroups(a)
    ensures var s := Join(a) + "::" + r;
      && (s[0] == ':' <==> a == [])
      && (a == [] ==> s[1] == ':')
      && (if a == [] then s[1..] else s) == Terminated(a) + (":" + r)
  {
    hide Terminated, Join, IsGroup;
    EndsOf(a);
    if a == [] {
      assert "" + (":" + r) == ":" + r;
    } else {
      JoinTerminated(a);
      assert Join(a) + "::" + r == Join(a) + ":" + (":" + r);
    }
  }

  lemma GappedBack(l: string, b: seq<string>)
    requires AllGroups(b)
    ensures var s := l + "::" + Join(b);
      (s[|s| - 1] == ':' <==> b == []) && (b == [] ==> s[|s| - 2] == ':')
  {
    hide Join, IsGroup;
    EndsOf(b);
    var s := l + "::" + Join(b);
    if b != [] {
      assert s[|s| - 1] == Join(b)[|Join(b)| - 1];
    }
  }

  lemma EmptyText()
    ensures Join([]) == "" && Terminated([]) == ""
  {
  }

  lemma AcceptsWritten(w: Written)
    requires WellFormed(w)
    ensures Render(w) != "" && ColonResult(Render(w)) == Ok(Meaning(w))
  {
    match w
    case Full(gs) => AcceptsFull(gs);
    case Gapped(a, b) => AcceptsGapped(a, b);
  }

  lemma AcceptsFull(gs: seq<string>)
    requires WellFormed(Full(gs))
    ensures Join(gs) != "" && ColonResult(Join(gs)) == Ok(Values(gs))
  {
    hide Scan, AfterField, PieceAt, GroupValue, IsGroup, Terminated, Join;
    JoinEnds(gs);
    ScanJoin(gs, [], -1);
    assert [] + Values(gs) == Values(gs);
  }

  lemma AcceptsGapped(a: seq<string>, b: seq<string>)
    requires WellFormed(Gapped(a, b))
    ensures var s := Render(Gapped(a, b)); s != "" && ColonResult(s) == Ok(Meaning(Gapped(a, b)))
  {
    hide Scan, GroupValue, IsGroup, Terminated, Join, Values, ColonResult, Expand, Repeat;
    GappedText(a, b);
    if a == [] && b == [] {
      BareGap();
    } else {
      var s := Join(a) + "::" + Join(b);
      ScanGapped(a, b);
      ScannedColon(s, if a == [] then s[1..] else s);
      ExpandGapped(Values(a), Values(b));
    }
  }

  lemma ScannedColon(s: string, t: string)
    requires s != "" && s != "::" && t == (if s[0] == ':' then s[1..] else s)
    requires (s[0] == ':' ==> |s| > 1 && s[1] == ':') && (s[|s| - 1] == ':' ==> |s| > 1 && s[|s| - 2] == ':')
    requires Scan(t, [], -1).Ok?
    ensures var r := Scan(t, [], -1).value;
      (r.gap < 0 || r.gap < |r.pieces| < NPIECES) && ColonResult(s) == Ok(Expand(r))
  {
    hide Scan, Expand;
    ScanShape(t, [], -1);
  }

  lemma ExpandGapped(a: seq<Piece>, b: seq<Piece>)
    requires |a| + |b| <= NPIECES - 2
    ensures Expand(Scanned(a + [0] + b, |a|)) == a + Repeat<Piece>(0, NPIECES - |a| - |b|) + b
  {
    var r := a + [0] + b;
    assert r[..|a|] == a && r[|a| + 1..] == b;
  }

  // ---------- nothing else is accepted ----------

  /** What one turn of the loop consumed, when the scan goes on to succeed. */
  datatype Turn =
    | GapTurn(rest: string)                  // an empty field and its colon
    | LastTurn(group: string)                // a group that ends the text
    | GroupTurn(group: string, rest: string) // a group and its colon

  ghost predicate IsTurn(t: Turn, s: string, acc: seq<Piece>, gap: int)
    requires |acc| < NPIECES
  {
    match t
    case GapTurn(rest) =>
      |acc| < NPIECES - 1 && gap < 0 && s == ":" + rest && Scan(s, acc, gap) == Scan(rest, acc + [0], |acc|)
    case LastTurn(g) =>
      IsGroup(g) && s == g && (gap < 0 <==> |acc| == NPIECES - 1)
      && Scan(s, acc, gap) == Ok(Scanned(acc + [GroupValue(g)], gap))
    case GroupTurn(g, rest) =>
      |acc| < NPIECES - 1 && IsGroup(g) && s == g + (":" + rest) && (gap < 0 ==> rest != "")
      && Scan(s, acc, gap) == Scan(rest, acc + [GroupValue(g)], gap)
  }

  lemma ScanTurn(s: string, acc: seq<Piece>, gap: int) returns (t: Turn)
    requires |acc| < NPIECES && s != "" && Scan(s, acc, gap).Ok?
    ensures IsTurn(t, s, acc, gap)
  {
    match PieceAt(s)
    case EmptyField =>
      t := GapTurn(s[1..]);
      EightPieces(s, acc + [0], |acc|);
    case Field(v, d) =>
      var g, rest := s[..d], s[d..];
      assert g == s[..DigitPrefix(s, 16)][..d];
      EightPieces(rest, acc + [v], gap);
      if rest == "" {
        t := LastTurn(g);
      } else {
        t := GroupTurn(g, rest[1..]);
        if gap < 0 {
          EmptyScan(acc + [v], gap);
        }
      }
  }

  /** The loop stops at eight pieces or at the end of the text. */
  lemma EightPieces(s: string, acc: seq<Piece>, gap: int)
    requires 0 < |acc| <= NPIECES && AfterField(s, acc, gap).Ok?
    ensures |acc| == NPIECES ==> s == "" && gap < 0
    ensures s == "" ==> (gap < 0 <==> |acc| == NPIECES) && AfterField(s, acc, gap) == Ok(Scanned(acc, gap))
  {
    if |acc| == NPIECES {
      assert AfterField(s, acc, gap) == Scan(s, acc, gap);
    }
  }

  lemma EmptyScan(acc: seq<Piece>, gap: int)
    requires |acc| < NPIECES && gap < 0
    ensures Scan("", acc, gap).Err?
  {
  }

  lemma ValuesCons(acc: seq<Piece>, g: string, more: seq<string>)
    requires IsGroup(g) && AllGroups(more)
    ensures AllGroups([g] + more) && acc + Values([g] + more) == acc + [GroupValue(g)] + Values(more)
  {
    assert ([g] + more)[1..] == more;
  }

  lemma ValuesOne(acc: seq<Piece>, g: string)
    requires IsGroup(g)
    ensures AllGroups([g]) && acc + Values([g]) == acc + [GroupValue(g)]
  {
  }

  lemma JoinOne(g: string)
    ensures Join([g]) == g
  {
    assert [g][..0] == [];
  }

  lemma TerminatedCons(g: string, more: seq<string>)
    ensures Terminated([g] + more) == g + ":" + Terminated(more)
  {
    assert ([g] + more)[1..] == more;
  }

  lemma JoinCons(g: string, more: seq<string>)
    requires more != []
    ensures Join([g] + more) == g + ":" + Join(more)
  {
    hide Terminated;
    var n := |more| - 1;
    TerminatedCons(g, more[..n]);
    assert ([g] + more)[..n + 1] == [g] + more[..n];
    assert Join([g] + more) == g + ":" + Terminated(more[..n]) + more[n];
  }

  /** `s` is `t`, or `t` and one more colon when `t` is a non-empty list of groups. */
  ghost predicate MayTrail(s: string, t: string, gs: seq<string>) {
    s == t || (gs != [] && s == t + ":")
  }

  lemma TrailAfterGroup(g: string, tail: string, more: seq<string>)
    requires MayTrail(tail, Join(more), more)
    ensures MayTrail(g + (":" + tail), Join([g] + more), [g] + more)
  {
    hide Join;
    if more == [] {
      JoinOne(g);
      EmptyText();
      assert [g] + more == [g] && tail == "";
    } else {
      JoinCons(g, more);
      assert g + (":" + (Join(more) + ":")) == g + ":" + Join(more) + ":";
    }
  }

  /** After a gap: groups, with at most one stray colon at the very end. */
  lemma {:induction false} AfterGapIsGroups(s: string, acc: seq<Piece>, gap: int) returns (gs: seq<string>)
    requires 0 <= gap < |acc| < NPIECES && Scan(s, acc, gap).Ok?
    ensures AllGroups(gs) && |acc| + |gs| < NPIECES
    ensures MayTrail(s, Join(gs), gs)
    ensures Scan(s, acc, gap).value == Scanned(acc + Values(gs), gap)
    decreases NPIECES - |acc|
  {
    hide Scan, AfterField, PieceAt, GroupValue, IsGroup, Join, Terminated, MayTrail, Values;
    if s == "" {
      gs := [];
      assert acc + Values(gs) == acc;
      StepEnd(acc, gap);
      NoTrail("", gs);
    } else {
      var t := ScanTurn(s, acc, gap);
      match t
      case LastTurn(g) =>
        gs := [g];
        ValuesOne(acc, g);
        NoTrail(g, gs);
      case GroupTurn(g, rest) =>
        var acc' := acc + [GroupValue(g)];
        var more := AfterGapIsGroups(rest, acc', gap);
        gs := [g] + more;
        TrailAfterGroup(g, rest, more);
        ValuesCons(acc, g, more);
    }
  }

  lemma NoTrail(s: string, gs: seq<string>)
    requires (s == "" && gs == []) || gs == [s]
    ensures MayTrail(s, Join(gs), gs)
  {
    if gs != [] {
      JoinOne(s);
    }
  }

  /** What a successful scan that has met no gap yet tells of the text. */
  ghost predicate ScannedText(s: string, acc: seq<Piece>, r: Scanned, a: seq<string>, b: seq<string>) {
    && AllGroups(a) && AllGroups(b)
    && if r.gap < 0 then
         a != [] && s == Join(a) && |acc| + |a| == NPIECES && r.pieces == acc + Values(a)
       else
         && |acc| + |a| + 1 + |b| < NPIECES
         && MayTrail(s, Terminated(a) + (":" + Join(b)), b)
         && r == Scanned(acc + Values(a) + [0] + Values(b), |acc| + |a|)
  }

  lemma {:induction false} ScanIsWritten(s: string, acc: seq<Piece>) returns (a: seq<string>, b: seq<string>)
    requires |acc| < NPIECES && s != "" && Scan(s, acc, -1).Ok?
    ensures ScannedText(s, acc, Scan(s, acc, -1).value, a, b)
    decreases NPIECES - |acc|
  {
    hide Scan, AfterField, PieceAt, GroupValue, IsGroup, Join, Terminated, MayTrail, Values;
    var t := ScanTurn(s, acc, -1);
    match t
    case GapTurn(rest) =>
      a := [];
      b := AfterGapIsGroups(rest, acc + [0], |acc|);
      assert acc + Values(a) + [0] == acc + [0];
      TrailAtGap(rest, b);
    case LastTurn(g) =>
      a, b := [g], [];
      ValuesOne(acc, g);
      JoinOne(g);
    case GroupTurn(g, rest) =>
      var acc' := acc + [GroupValue(g)];
      var more;
      more, b := ScanIsWritten(rest, acc');
      a := [g] + more;
      ValuesCons(acc, g, more);
      if Scan(s, acc, -1).value.gap < 0 {
        JoinCons(g, more);
        assert s == g + ":" + rest;
      } else {
        TrailBeforeGap(g, rest, more, b);
      }
  }

  lemma TrailAtGap(rest: string, b: seq<string>)
    requires MayTrail(rest, Join(b), b)
    ensures MayTrail(":" + rest, Terminated([]) + (":" + Join(b)), b)
  {
    hide Join;
    EmptyText();
    assert ":" + (Join(b) + ":") == ":" + Join(b) + ":";
    assert "" + (":" + Join(b)) == ":" + Join(b);
  }

  lemma TrailBeforeGap(g: string, rest: string, more: seq<string>, b: seq<string>)
    requires MayTrail(rest, Terminated(more) + (":" + Join(b)), b)
    ensures MayTrail(g + (":" + rest), Terminated([g] + more) + (":" + Join(b)), b)
  {
    hide Join, Terminated;
    TerminatedCons(g, more);
    var t := Terminated(more) + (":" + Join(b));
    assert g + (":" + t) == g + ":" + Terminated(more) + (":" + Join(b));
    assert g + (":" + (t + ":")) == g + (":" + t) + ":";
  }

  /** The test on the last two characters of the text excludes the stray colon. */
  lemma NoStrayColon(s: string, t: string, a: seq<string>, b: seq<string>)
    requires AllGroups(b) && |s| >= |t| >= 2 && s[|s| - |t|..] == t
    requires s[|s| - 1] == ':' ==> s[|s| - 2] == ':'
    requires MayTrail(t, Terminated(a) + (":" + Join(b)), b)
    ensures t == Terminated(a) + (":" + Join(b))
  {
    hide Join, Terminated, IsGroup;
    var u := Terminated(a) + (":" + Join(b));
    if t != u {
      JoinEnds(b);
    }
  }

  lemma AcceptedIsWritten(s: string) returns (w: Written)
    requires s != "" && ColonResult(s).Ok?
    ensures WellFormed(w) && Render(w) == s && Meaning(w) == ColonResult(s).value
  {
    hide Scan, IsGroup, Join, Terminated, MayTrail, Values, ColonResult, Expand, Render;
    if s == "::" {
      w := Gapped([], []);
      BareGap();
    } else {
      var t, r := AcceptedScan(s);
      var a, b := ScanIsWritten(t, []);
      assert [] + Values(a) == Values(a);
      if r.gap < 0 {
        w := Full(a);
        FullAccepted(s, t, a, r);
      } else {
        w := Gapped(a, b);
        GappedAccepted(s, t, a, b);
        ExpandGapped(Values(a), Values(b));
      }
    }
  }

  lemma GappedAccepted(s: string, t: string, a: seq<string>, b: seq<string>)
    requires AllGroups(a) && AllGroups(b) && s != "" && s != "::" && t == (if s[0] == ':' then s[1..] else s)
    requires s[0] == ':' ==> |s| > 1 && s[1] == ':'
    requires s[|s| - 1] == ':' ==> |s| > 1 && s[|s| - 2] == ':'
    requires MayTrail(t, Terminated(a) + (":" + Join(b)), b)
    ensures Render(Gapped(a, b)) == s
  {
    hide IsGroup, Join, Terminated, MayTrail, Render;
    LongEnough(s, t, a, b);
    NoStrayColon(s, t, a, b);
    SameText(s, t, a, b);
  }

  lemma BareGap()
    ensures Render(Gapped([], [])) == "::" && ColonResult("::") == Ok(Meaning(Gapped([], [])))
  {
    EmptyText();
    assert Meaning(Gapped([], [])) == Repeat<Piece>(0, NPIECES);
  }

  lemma FullAccepted(s: string, t: string, a: seq<string>, r: Scanned)
    requires AllGroups(a) && a != [] && t == Join(a) && r.gap < 0
    requires s != "" && (s[0] == ':' ==> |s| > 1 && s[1] == ':') && t == if s[0] == ':' then s[1..] else s
    ensures s == Render(Full(a)) && Expand(r) == r.pieces
  {
    hide Join;
    JoinEnds(a);
  }

  /** What colon has made sure of by the time it scans. */
  lemma AcceptedScan(s: string) returns (t: string, r: Scanned)
    requires s != "" && s != "::" && ColonResult(s).Ok?
    ensures t == (if s[0] == ':' then s[1..] else s) && t != ""
    ensures s[0] == ':' ==> |s| > 1 && s[1] == ':'
    ensures s[|s| - 1] == ':' ==> |s| > 1 && s[|s| - 2] == ':'
    ensures Scan(t, [], -1) == Ok(r)
    ensures if r.gap < 0 then |r.pieces| == NPIECES else r.gap < |r.pieces| < NPIECES
    ensures ColonResult(s) == Ok(Expand(r))
  {
    hide Scan, Expand;
    t := if s[0] == ':' then s[1..] else s;
    r := Scan(t, [], -1).value;
    ScanShape(t, [], -1);
  }

  lemma LongEnough(s: string, t: string, a: seq<string>, b: seq<string>)
    requires AllGroups(a) && s != "" && s != "::" && t == (if s[0] == ':' then s[1..] else s)
    requires s[0] == ':' ==> |s| > 1 && s[1] == ':'
    requires MayTrail(t, Terminated(a) + (":" + Join(b)), b)
    ensures |t| >= 2 && |s| >= |t| && s[|s| - |t|..] == t && (s[0] == ':' <==> a == [])
  {
    hide Join;
    if a != [] {
      assert t[0] == a[0][0];
      assert IsDigit(a[0][0], 16);
    }
  }

  lemma SameText(s: string, t: string, a: seq<string>, b: seq<string>)
    requires t == (if s != "" && s[0] == ':' then s[1..] else s) && s != ""
    requires t == Terminated(a) + (":" + Join(b)) && (s[0] == ':' <==> a == [])
    requires AllGroups(a) && AllGroups(b)
    ensures s == Render(Gapped(a, b))
  {
    hide Join, Terminated, IsGroup;
    GappedText(a, b);
    var u := Join(a) + "::" + Join(b);
    if a == [] {
      assert s == ":" + t && u == ":" + u[1..];
    }
  }

  /** The parser is exact: a text parses to `ps` just when it is a written form of `ps`. */
  lemma ParsesExactly(s: string, ps: seq<Piece>)
    requires s != ""
    ensures ColonResult(s) == Ok(ps) <==> Denotes(s, ps)
  {
    if ColonResult(s) == Ok(ps) {
      var w := AcceptedIsWritten(s);
    }
    if Denotes(s, ps) {
      var w :| WellFormed(w) && Render(w) == s && Meaning(w) == ps;
      AcceptsWritten(w);
    }
  }

  /**
    Section 2.2 of RFC 4291 lets `::` stand for one group of zeros; this code
    refuses such a text, whatever the seven groups are.
   */
  lemma SingleGroupGapIsRejected(a: seq<string>, b: seq<string>)
    requires AllGroups(a) && AllGroups(b) && |a| + |b| == NPIECES - 1
    ensures var s := Join(a) + "::" + Join(b); ColonResult(s).Err?
  {
    hide Scan, AfterField, PieceAt, GroupValue, IsGroup, Terminated, Join;
    GappedText(a, b);
    ScanGroups(a, ":" + Join(b), [], -1);
    assert [] + Values(a) == Values(a);
    if b == [] {
      assert Join(b) == "" by {
        EmptyText();
      }
      LateGap(Values(a));
    } else {
      StepGap(Join(b), Values(a));
      FullAfterGap(b, Values(a) + [0], |a|);
    }
  }

  lemma LateGap(acc: seq<Piece>)
    requires |acc| == NPIECES - 1
    ensures Scan(":" + "", acc, -1) == Err(ExtraGarbage)
  {
    var acc' := acc + [0];
    assert PieceAt(":" + "").EmptyField?;
    assert AfterField(":" + "", acc', |acc|) == Scan(":" + "", acc', |acc|);
  }

  lemma FullAfterGap(b: seq<string>, acc: seq<Piece>, gap: int)
    requires AllGroups(b) && b != [] && 0 <= gap < |acc| && |acc| + |b| == NPIECES
    ensures Scan(Join(b), acc, gap) == Err(NonAbbreviating)
  {
    hide Scan, PieceAt, GroupValue, IsGroup;
    var n := |b| - 1;
    ScanGroups(b[..n], b[n], acc, gap);
    StepField(b[n], "", acc + Values(b[..n]), gap);
    assert b[n] + "" == b[n];
    FullScan(acc + Values(b[..n]) + [GroupValue(b[n])], gap);
  }

  lemma FullScan(acc: seq<Piece>, gap: int)
    requires |acc| == NPIECES && gap >= 0
    ensures Scan("", acc, gap) == Err(NonAbbreviating)
  {
  }
}
