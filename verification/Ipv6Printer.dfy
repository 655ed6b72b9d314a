/**
  normal6 of addrtot.c: the text of an address, written and squished in place.
  The library squishes the first run of two or more zero groups, where section
  4.2.3 of RFC 5952 asks for the longest.
 */
module Ipv6Printer {
  import opened Common
  import opened NumberText
  import opened Ipv6Grammar
  import opened Ipv6Parser

  const BUF6: nat := 42    // ":" and eight times "abcd:", and the NUL

  // ---------- which written form is printed ----------

  function HexGroups(ps: seq<Piece>): (gs: seq<string>)
    ensures |gs| == |ps| && forall i :: 0 <= i < |ps| ==> gs[i] == Digits(ps[i], 16)
  {
    seq(|ps|, i requires 0 <= i < |ps| => Digits(ps[i], 16))
  }

  predicate ZeroPair(ps: seq<Piece>, k: nat) {
    k + 1 < |ps| && ps[k] == 0 && ps[k + 1] == 0
  }

  /** The index of the first two adjacent zero pieces, or |ps|. */
  function FirstPair(ps: seq<Piece>): (i: nat)
    ensures i == |ps| || ZeroPair(ps, i)
    ensures forall k :: 0 <= k < i ==> !ZeroPair(ps, k)
  {
    if |ps| < 2 then |ps|
    else if ps[0] == 0 && ps[1] == 0 then 0
    else
      var i := FirstPair(ps[1..]);
      assert forall k :: 0 < k < i + 1 ==> ZeroPair(ps, k) == ZeroPair(ps[1..], k - 1);
      i + 1
  }

  /** The end of the run of zero pieces that starts at `i`. */
  function RunEnd(ps: seq<Piece>, i: nat): (e: nat)
    requires i <= |ps|
    ensures i <= e <= |ps| && (forall k :: i <= k < e ==> ps[k] == 0) && (e < |ps| ==> ps[e] != 0)
    decreases |ps| - i
  {
    if i < |ps| && ps[i] == 0 then RunEnd(ps, i + 1) else i
  }

  /** The written form that normal6 chooses. */
  function Chosen(ps: seq<Piece>, squish: bool): Written {
    var i := FirstPair(ps);
    if squish && i < |ps| then Gapped(HexGroups(ps[..i]), HexGroups(ps[RunEnd(ps, i)..]))
    else Full(HexGroups(ps))
  }

  lemma PieceText(p: Piece)
    ensures IsGroup(Digits(p, 16)) && GroupValue(Digits(p, 16)) == p
    ensures Digits(p, 16) == "0" <==> p == 0
  {
    assert Pow(16, 4) == 0x1_0000;
    DigitsLength(p, 16, 4);
    ValueOfDigits(p, 16);
    ValueOfDigits(0, 16);
  }

  lemma HexGroupsValues(ps: seq<Piece>)
    ensures AllGroups(HexGroups(ps)) && Values(HexGroups(ps)) == ps
  {
    hide Digits, IsGroup, GroupValue;
    forall i | 0 <= i < |ps|
      ensures IsGroup(HexGroups(ps)[i]) && GroupValue(HexGroups(ps)[i]) == ps[i]
    {
      PieceText(ps[i]);
    }
  }

  lemma ChosenMeans(ps: seq<Piece>, squish: bool)
    requires |ps| == NPIECES
    ensures WellFormed(Chosen(ps, squish)) && Meaning(Chosen(ps, squish)) == ps
  {
    hide Values, HexGroups, RunEnd, FirstPair, IsGroup, Digits;
    HexGroupsValues(ps);
    var i := FirstPair(ps);
    if squish && i < |ps| {
      var e := RunEnd(ps, i);
      HexGroupsValues(ps[..i]);
      HexGroupsValues(ps[e..]);
      AroundRun(ps, i, e);
    }
  }

  /** The pieces around a run of zeros that starts with a pair. */
  lemma AroundRun(ps: seq<Piece>, i: nat, e: nat)
    requires ZeroPair(ps, i) && e == RunEnd(ps, i)
    ensures i + 2 <= e <= |ps| && |ps[..i]| == i && |ps[e..]| == |ps| - e
    ensures ps == ps[..i] + Repeat<Piece>(0, e - i) + ps[e..]
  {
  }

  /** Parsing what is printed gives the address back, squished or not. */
  lemma Ipv6RoundTrip(bs: seq<Byte>, squish: bool)
    requires |bs| == IP6BYTES
    ensures var s := Render(Chosen(PiecesOf(bs), squish)); s != "" && ColonBytes(s) == Ok(bs)
  {
    var ps := PiecesOf(bs);
    ChosenMeans(ps, squish);
    AcceptsWritten(Chosen(ps, squish));
    BytesOfPieces(bs);
  }

  // ---------- compared with RFC 5952 ----------

  function RunLength(ps: seq<Piece>, k: nat): nat
    requires k <= |ps|
  {
    RunEnd(ps, k) - k
  }

  /** No run of zero pieces is longer than the one at `k`, and none before it is as long. */
  ghost predicate FirstLongestRun(ps: seq<Piece>, k: nat) {
    k <= |ps| && forall j :: 0 <= j <= |ps| ==>
      RunLength(ps, j) <= RunLength(ps, k) && (j < k ==> RunLength(ps, j) < RunLength(ps, k))
  }

  /** The written form with its gap for the run at `k`. */
  function GapAt(ps: seq<Piece>, k: nat): Written
    requires k <= |ps|
  {
    Gapped(HexGroups(ps[..k]), HexGroups(ps[RunEnd(ps, k)..]))
  }

  /** The form that section 4.2 of RFC 5952 asks for: a gap for the first longest run of two zero pieces or more. */
  ghost predicate Recommended(w: Written, ps: seq<Piece>) {
    if exists j :: 0 <= j <= |ps| && RunLength(ps, j) >= 2 then
      exists k: nat :: FirstLongestRun(ps, k) && w == GapAt(ps, k)
    else w == Full(HexGroups(ps))
  }

  /** The run of the first pair is at least as long as any behind it. */
  ghost predicate FirstPairLongest(ps: seq<Piece>) {
    forall j :: FirstPair(ps) < j <= |ps| ==> RunLength(ps, j) <= RunLength(ps, FirstPair(ps))
  }

  lemma RunOfPair(ps: seq<Piece>, j: nat)
    requires j <= |ps|
    ensures RunLength(ps, j) >= 2 <==> ZeroPair(ps, j)
  {
  }

  /** normal6 prints what the RFC asks for just when no run behind the first of two or more is longer. */
  lemma RecommendedExactly(ps: seq<Piece>)
    ensures Recommended(Chosen(ps, true), ps) <==> FirstPairLongest(ps)
  {
    hide *;
    var i := FirstPair(ps);
    PairsAreLong(ps);
    if i < |ps| {
      assert RunLength(ps, i) >= 2;
      LongestIsFirstPair(ps);
      ChosenGap(ps);
      forall k: nat | k <= |ps| && GapAt(ps, k) == GapAt(ps, i)
        ensures k == i
      {
        GapTellsPlace(ps, k, i);
      }
      RecommendedGap(ps, i);
    } else {
      NoPair(ps);
    }
  }

  lemma PairsAreLong(ps: seq<Piece>)
    ensures var i := FirstPair(ps);
      && i <= |ps| && (i < |ps| ==> RunLength(ps, i) >= 2)
      && forall j :: 0 <= j < i ==> RunLength(ps, j) < 2
  {
    hide RunLength;
    var i := FirstPair(ps);
    forall j | 0 <= j <= i
      ensures RunLength(ps, j) >= 2 <==> ZeroPair(ps, j)
    {
      RunOfPair(ps, j);
    }
  }

  lemma LongestIsFirstPair(ps: seq<Piece>)
    requires FirstPair(ps) < |ps|
    ensures FirstLongestRun(ps, FirstPair(ps)) <==> FirstPairLongest(ps)
  {
    hide RunLength, FirstPair;
    PairsAreLong(ps);
  }

  lemma ChosenGap(ps: seq<Piece>)
    requires FirstPair(ps) < |ps|
    ensures Chosen(ps, true) == GapAt(ps, FirstPair(ps))
  {
  }

  lemma GapTellsPlace(ps: seq<Piece>, k: nat, i: nat)
    requires k <= |ps| && i <= |ps| && GapAt(ps, k) == GapAt(ps, i)
    ensures k == i
  {
    hide HexGroups, RunEnd;
    assert |HexGroups(ps[..k])| == k && |HexGroups(ps[..i])| == i;
  }

  lemma RecommendedGap(ps: seq<Piece>, i: nat)
    requires i <= |ps| && RunLength(ps, i) >= 2
    requires forall k: nat :: k <= |ps| && GapAt(ps, k) == GapAt(ps, i) ==> k == i
    ensures Recommended(GapAt(ps, i), ps) <==> FirstLongestRun(ps, i)
  {
    hide GapAt, RunLength;
  }

  lemma NoPair(ps: seq<Piece>)
    requires FirstPair(ps) == |ps|
    ensures Recommended(Chosen(ps, true), ps) && FirstPairLongest(ps)
  {
    hide *;
    PairsAreLong(ps);
    NoRunAtEnd(ps);
    ChosenFull(ps);
    NothingToGap(ps);
    NothingLonger(ps);
  }

  lemma NothingToGap(ps: seq<Piece>)
    requires forall j :: 0 <= j <= |ps| ==> RunLength(ps, j) < 2
    ensures Recommended(Full(HexGroups(ps)), ps)
  {
    hide RunLength, HexGroups, GapAt, FirstLongestRun, Digits;
  }

  lemma NothingLonger(ps: seq<Piece>)
    requires FirstPair(ps) == |ps|
    ensures FirstPairLongest(ps)
  {
    hide RunLength, FirstPair;
  }

  lemma ChosenFull(ps: seq<Piece>)
    requires FirstPair(ps) == |ps|
    ensures Chosen(ps, true) == Full(HexGroups(ps))
  {
  }

  lemma NoRunAtEnd(ps: seq<Piece>)
    ensures RunLength(ps, |ps|) == 0
  {
  }

  /** 1:0:0:1:0:0:0:1 is printed as 1::1:0:0:0:1, and the RFC asks for 1:0:0:1::1. */
  lemma LaterRunIsLonger()
    ensures var ps: seq<Piece> := [1, 0, 0, 1, 0, 0, 0, 1];
      && FirstPair(ps) == 1 && RunLength(ps, 1) == 2 && RunLength(ps, 4) == 3
      && !Recommended(Chosen(ps, true), ps)
  {
    var ps: seq<Piece> := [1, 0, 0, 1, 0, 0, 0, 1];
    assert ZeroPair(ps, 1) && !ZeroPair(ps, 0);
    assert RunEnd(ps, 3) == 3 && RunEnd(ps, 2) == 3 && RunEnd(ps, 1) == 3;
    assert RunEnd(ps, 7) == 7 && RunEnd(ps, 6) == 7 && RunEnd(ps, 5) == 7 && RunEnd(ps, 4) == 7;
    assert FirstPair(ps) == 1;
    RecommendedExactly(ps);
  }

  // ---------- where strstr finds ":0:0:" ----------

  predicate OccursAt(s: string, needle: string, k: nat) {
    k + |needle| <= |s| && s[k..k + |needle|] == needle
  }

  const ZEROS: string := ":0:0:"

  /** The text that normal6 searches: a colon before and after every group. */
  function Fenced(gs: seq<string>): string {
    ":" + Terminated(gs)
  }

  lemma {:induction false} GroupsHaveNoColon(gs: seq<string>)
    requires AllGroups(gs)
    ensures forall i :: 0 <= i < |gs| ==> forall k :: 0 <= k < |gs[i]| ==> gs[i][k] != ':' && gs[i][k] != '\0'
  {
    forall i, k | 0 <= i < |gs| && 0 <= k < |gs[i]|
      ensures gs[i][k] != ':' && gs[i][k] != '\0'
    {
      assert IsDigit(gs[i][k], 16);
    }
  }

  /** An occurrence starts at the fence of a group "0" that another follows. */
  lemma OccurrenceInFenced(gs: seq<string>, k: nat)
    requires AllGroups(gs) && gs != []
    ensures OccursAt(Fenced(gs), ZEROS, k) <==>
      if k == 0 then |gs| >= 2 && gs[0] == "0" && gs[1] == "0"
      else k > |gs[0]| && OccursAt(Fenced(gs[1..]), ZEROS, k - 1 - |gs[0]|)
  {
    hide IsGroup;
    GroupsHaveNoColon(gs);
    var s, g, rest := Fenced(gs), gs[0], Fenced(gs[1..]);
    assert s == ":" + g + rest;
    if k > |g| {
      assert s[1 + |g|..] == rest;
      if k + 5 <= |s| {
        assert s[k..k + 5] == rest[k - 1 - |g|..k + 4 - |g|];
      }
    } else if k > 0 {
      assert s[k] == g[k - 1];
    } else {
      FirstOccurrence(gs);
    }
  }

  lemma FirstOccurrence(gs: seq<string>)
    requires AllGroups(gs) && gs != []
    ensures OccursAt(Fenced(gs), ZEROS, 0) <==> |gs| >= 2 && gs[0] == "0" && gs[1] == "0"
  {
    GroupsHaveNoColon(gs);
    var s, g := Fenced(gs), gs[0];
    assert s == ":" + g + ":" + Terminated(gs[1..]);
    if OccursAt(s, ZEROS, 0) {
      assert s[1] == '0' && s[2] == ':' && s[3] == '0' && s[4] == ':' by {
        assert s[0..5][1] == '0' && s[0..5][2] == ':' && s[0..5][3] == '0' && s[0..5][4] == ':';
      }
      assert forall k :: 0 <= k < |g| ==> s[1 + k] == g[k];
      assert |g| == 1;
      var t := Terminated(gs[1..]);
      assert t[0] == s[3] && t[1] == s[4];
      var h := gs[1];
      assert t == h + ":" + Terminated(gs[1..][1..]);
      assert forall k :: 0 <= k < |h| ==> t[k] == h[k];
      assert |h| == 1;
      assert g == "0" && h == "0";
    }
    if |gs| >= 2 && g == "0" && gs[1] == "0" {
      assert s == ":0:" + (gs[1] + ":" + Terminated(gs[1..][1..]));
    }
  }

  /** The position of the fence before group `i`. */
  function Fence(gs: seq<string>, i: nat): nat
    requires i <= |gs|
  {
    |Terminated(gs[..i])|
  }

  lemma FenceStep(gs: seq<string>, i: nat)
    requires 0 < i <= |gs|
    ensures Fence(gs, i) == |gs[0]| + 1 + Fence(gs[1..], i - 1)
  {
    assert gs[..i][1..] == gs[1..][..i - 1];
  }

  lemma {:induction false} FenceGrows(gs: seq<string>, i: nat, j: nat)
    requires i <= j <= |gs|
    ensures Fence(gs, i) <= Fence(gs, j)
  {
    if i > 0 {
      FenceStep(gs, i);
      FenceStep(gs, j);
      FenceGrows(gs[1..], i - 1, j - 1);
    } else {
      assert gs[..0] == [];
    }
  }

  lemma {:induction false} PairOccurs(gs: seq<string>, i: nat)
    requires AllGroups(gs) && i + 1 < |gs| && gs[i] == "0" && gs[i + 1] == "0"
    ensures OccursAt(Fenced(gs), ZEROS, Fence(gs, i))
  {
    hide IsGroup, OccursAt, Terminated, Fence;
    if i == 0 {
      OccurrenceInFenced(gs, 0);
      FenceZero(gs);
    } else {
      PairOccurs(gs[1..], i - 1);
      FenceStep(gs, i);
      OccurrenceInFenced(gs, Fence(gs, i));
    }
  }

  lemma FenceZero(gs: seq<string>)
    ensures Fence(gs, 0) == 0
  {
    assert gs[..0] == [];
  }

  lemma {:induction false} OccurrenceIsPair(gs: seq<string>, k: nat) returns (i: nat)
    requires AllGroups(gs) && OccursAt(Fenced(gs), ZEROS, k)
    ensures i + 1 < |gs| && gs[i] == "0" && gs[i + 1] == "0" && k == Fence(gs, i)
    decreases |gs|
  {
    assert gs != [];
    hide IsGroup, OccursAt, Terminated, Fence;
    OccurrenceInFenced(gs, k);
    if k == 0 {
      i := 0;
      FenceZero(gs);
    } else {
      i := OccurrenceIsPair(gs[1..], k - 1 - |gs[0]|);
      i := i + 1;
      FenceStep(gs, i);
    }
  }

  /** strstr finds the fence before the first pair of zero groups, and nothing when there is none. */
  lemma FirstPairIsFirstOccurrence(ps: seq<Piece>, k: nat)
    ensures var gs, i := HexGroups(ps), FirstPair(ps);
      OccursAt(Fenced(gs), ZEROS, k) ==> i < |ps| && k >= Fence(gs, i)
    ensures var gs, i := HexGroups(ps), FirstPair(ps);
      i < |ps| ==> OccursAt(Fenced(gs), ZEROS, Fence(gs, i))
  {
    hide FirstPair, OccursAt, Fence, Fenced, HexGroups;
    var i := FirstPair(ps);
    if OccursAt(Fenced(HexGroups(ps)), ZEROS, k) {
      OccurrenceIsLate(ps, k);
    }
    if i < |ps| {
      PairOfZeros(ps, i);
    }
  }

  lemma GroupsOf(ps: seq<Piece>)
    ensures AllGroups(HexGroups(ps))
  {
    HexGroupsValues(ps);
  }

  lemma ZeroGroup(ps: seq<Piece>, i: nat)
    requires i < |ps|
    ensures AllGroups(HexGroups(ps)) && |HexGroups(ps)| == |ps| && (HexGroups(ps)[i] == "0" <==> ps[i] == 0)
  {
    hide Digits, Values;
    HexGroupsValues(ps);
    PieceText(ps[i]);
  }

  lemma OccurrenceIsLate(ps: seq<Piece>, k: nat)
    requires OccursAt(Fenced(HexGroups(ps)), ZEROS, k)
    ensures var i := FirstPair(ps); i < |ps| && k >= Fence(HexGroups(ps), i)
  {
    hide *;
    var gs, i := HexGroups(ps), FirstPair(ps);
    GroupsOf(ps);
    var j := OccurrenceIsPair(gs, k);
    assert ps[j] == 0 by {
      ZeroGroup(ps, j);
    }
    assert ps[j + 1] == 0 by {
      ZeroGroup(ps, j + 1);
    }
    assert i <= j by {
      NotBefore(ps, i, j);
    }
    FenceGrows(gs, i, j);
  }

  lemma NotBefore(ps: seq<Piece>, i: nat, j: nat)
    requires (forall k :: 0 <= k < i ==> !ZeroPair(ps, k)) && j + 1 < |ps| && ps[j] == 0 && ps[j + 1] == 0
    ensures i <= j
  {
    assert ZeroPair(ps, j);
  }

  lemma PairOfZeros(ps: seq<Piece>, i: nat)
    requires i < |ps| && i == FirstPair(ps)
    ensures OccursAt(Fenced(HexGroups(ps)), ZEROS, Fence(HexGroups(ps), i))
  {
    hide OccursAt, Fence, Fenced, HexGroups, IsGroup, Digits;
    ZeroGroup(ps, i);
    ZeroGroup(ps, i + 1);
    PairOccurs(HexGroups(ps), i);
  }

  // ---------- normal6 ----------

  lemma Mismatch(s: string, needle: string, k: nat, j: nat)
    requires j < |needle| && (k + j < |s| ==> s[k + j] != needle[j])
    ensures !OccursAt(s, needle, k)
  {
    if k + |needle| <= |s| {
      assert s[k..k + |needle|][j] != needle[j];
    }
  }

  /** strstr on a C string that starts at the beginning of the buffer. */
  method Strstr(buf: array<char>, needle: string, ghost s: string) returns (q: int)
    requires HoldsCString(buf, 0, s) && NulFree(s) && NulFree(needle) && needle != ""
    ensures q < 0 ==> forall k: nat :: !OccursAt(s, needle, k)
    ensures q >= 0 ==> OccursAt(s, needle, q) && forall k: nat :: k < q ==> !OccursAt(s, needle, k)
  {
    assert forall k :: 0 <= k < |s| ==> buf[k] == s[k];
    q := 0;
    while buf[q] != '\0'
      invariant 0 <= q <= |s|
      invariant forall k: nat :: k < q ==> !OccursAt(s, needle, k)
      decreases |s| - q
    {
      var j := 0;
      while j < |needle| && buf[q + j] == needle[j]
        invariant 0 <= j <= |needle| && q + j <= |s|
        invariant forall m :: 0 <= m < j ==> s[q + m] == needle[m]
      {
        j := j + 1;
      }
      if j == |needle| {
        assert s[q..q + j] == needle;
        return;
      }
      Mismatch(s, needle, q, j);
      q := q + 1;
    }
    q := -1;
  }

  lemma GroupLengths(gs: seq<string>)
    requires AllGroups(gs)
    ensures |Terminated(gs)| <= 5 * |gs|
  {
    if gs != [] {
      GroupLengths(gs[1..]);
    }
  }

  lemma TerminatedNext(gs: seq<string>, i: nat)
    requires i < |gs|
    ensures Terminated(gs[..i + 1]) == Terminated(gs[..i]) + gs[i] + ":"
  {
    assert gs[..i + 1] == gs[..i] + [gs[i]];
    TerminatedAppend(gs[..i], [gs[i]]);
    assert Terminated([gs[i]]) == gs[i] + ":" + Terminated([]);
  }

  /** One conversion; its NUL is overwritten by a colon. */
  method WritePiece(piece: Piece, buf: array<char>, p0: nat) returns (p: nat)
    requires p0 + 5 <= buf.Length
    modifies buf
    ensures p0 < p <= p0 + 5
    ensures buf[..p] == old(buf[..p0]) + Digits(piece, 16) + ":"
  {
    hide Digits;
    PieceTextFits(piece);
    var len := Ultot(piece, 16, buf, p0, 5);
    ghost var text := Digits(piece, 16);
    assert NumText(piece, 16)[..Min(len, 5) - 1] == text;
    p := p0 + len;
    buf[p - 1] := ':';
    assert buf[..p0] == old(buf[..p0]) && buf[p0..p - 1] == text;
    assert buf[..p] == buf[..p0] + buf[p0..p - 1] + ":";
  }

  /** The loop over the pieces. */
  method WritePieces(srcp: seq<Byte>, buf: array<char>) returns (p: nat)
    requires |srcp| == IP6BYTES && buf.Length >= BUF6
    modifies buf
    ensures var s := Fenced(HexGroups(PiecesOf(srcp))); p == |s| && HoldsCString(buf, 0, s)
  {
    hide IsGroup, Terminated, Digits, Values, GroupValue;
    ghost var gs := HexGroups(PiecesOf(srcp));
    buf[0] := ':';
    p := 1;
    assert Terminated(gs[..0]) == "" by {
      EmptyText();
      assert gs[..0] == [];
    }
    var i := 0;
    while i < IP6BYTES / 2
      invariant 0 <= i <= NPIECES && 1 <= p <= 1 + 5 * i
      invariant buf[..p] == ":" + Terminated(gs[..i])
    {
      p := WritePiece(Pair(srcp[2 * i], srcp[2 * i + 1]), buf, p);
      TerminatedNext(gs, i);
      i := i + 1;
    }
    assert gs[..NPIECES] == gs;
    buf[p] := '\0';
  }

  lemma PieceTextFits(p: Piece)
    ensures 1 <= |Digits(p, 16)| <= 4
  {
    PieceText(p);
  }

  /** Past a fence stands "0:" just when the next group is "0". */
  lemma ZeroAtFence(gs: seq<string>, j: nat)
    requires AllGroups(gs) && j <= |gs|
    ensures var t := Terminated(gs[j..]);
      && (|t| > 1 && t[0] == '0' && t[1] == ':' <==> j < |gs| && gs[j] == "0")
      && (t == "" <==> j == |gs|)
      && Terminated(gs) == Terminated(gs[..j]) + t
  {
    TerminatedAppend(gs[..j], gs[j..]);
    assert gs == gs[..j] + gs[j..];
    if j < |gs| {
      GroupsHaveNoColon(gs);
      var t, g := Terminated(gs[j..]), gs[j];
      assert t == g + ":" + Terminated(gs[j..][1..]);
      assert forall k :: 0 <= k < |g| ==> t[k] == g[k];
      assert t[|g|] == ':';
    }
  }

  /** The loop `while (*p == '0' && *(p+1) == ':') p += 2`. */
  method SkipZeros(buf: array<char>, p0: nat, ghost gs: seq<string>, ghost i: nat) returns (p: nat, ghost e: nat)
    requires AllGroups(gs) && i <= |gs| && p0 == 1 + Fence(gs, i) && HoldsCString(buf, 0, Fenced(gs))
    ensures i <= e <= |gs| && p == 1 + Fence(gs, e) && p - p0 == 2 * (e - i)
    ensures (forall k :: i <= k < e ==> gs[k] == "0") && (e < |gs| ==> gs[e] != "0")
  {
    hide IsGroup, Terminated;
    ghost var s := Fenced(gs);
    assert forall k :: 0 <= k < |s| ==> buf[k] == s[k];
    p, e := p0, i;
    ZeroAtFence(gs, e);
    while buf[p] == '0' && buf[p + 1] == ':'
      invariant i <= e <= |gs| && p == 1 + Fence(gs, e) && p - p0 == 2 * (e - i)
      invariant forall k :: i <= k < e ==> gs[k] == "0"
      invariant var t := Terminated(gs[e..]);
        && (|t| > 1 && t[0] == '0' && t[1] == ':' <==> e < |gs| && gs[e] == "0")
        && Terminated(gs) == Terminated(gs[..e]) + t
      decreases |gs| - e
    {
      TerminatedNext(gs, e);
      p, e := p + 2, e + 1;
      ZeroAtFence(gs, e);
    }
  }

  /** The copy loop of the squish: moves the C string `t` down from `p0` to `q0`. */
  method MoveDown(buf: array<char>, q0: nat, p0: nat, ghost t: string) returns (q: nat)
    requires q0 < p0 && HoldsCString(buf, p0, t) && NulFree(t)
    modifies buf
    ensures q == q0 + |t| && HoldsCString(buf, q0, t) && q < buf.Length
    ensures forall k :: 0 <= k < q0 ==> buf[k] == old(buf[k])
  {
    assert forall k :: 0 <= k < |t| ==> buf[p0..p0 + |t|][k] == t[k];
    var i := 0;
    while buf[p0 + i] != '\0'
      invariant 0 <= i <= |t|
      invariant forall k :: 0 <= k < i ==> buf[q0 + k] == t[k]
      invariant forall k :: i <= k < |t| ==> buf[p0 + k] == t[k]
      invariant buf[p0 + |t|] == '\0'
      invariant forall k :: 0 <= k < q0 ==> buf[k] == old(buf[k])
      decreases |t| - i
    {
      buf[q0 + i] := buf[p0 + i];
      i := i + 1;
    }
    assert i == |t|;
    buf[q0 + i] := '\0';
    q := q0 + i;
    SliceIs(buf, q0, t);
  }

  /** What the squished buffer holds, before its ends are trimmed. */
  function Squished(a: seq<string>, b: seq<string>): string {
    Fenced(a) + ":" + Terminated(b)
  }

  /** How the ends of the squished buffer tell what to trim. */
  lemma TrimmedIsRendered(a: seq<string>, b: seq<string>)
    requires AllGroups(a) && AllGroups(b)
    ensures var w := Squished(a, b);
      && |w| >= 2
      && (w[0] == ':' && w[1] == ':' <==> a == [])
      && (w[|w| - 1] == ':' && w[|w| - 2] == ':' <==> b == [])
      && (b != [] ==> |w| >= 4)
      && w[(if a == [] then 0 else 1)..(if b == [] then |w| else |w| - 1)] == Render(Gapped(a, b))
  {
    hide Terminated, Join, IsGroup;
    EndsOf(a);
    EndsOf(b);
    TrimText(Join(a), Join(b));
    assert Fenced(a) == if a == [] then ":" else ":" + (Join(a) + ":");
  }

  /** The same on the joined texts, which are empty or begin and end with a digit. */
  lemma TrimText(j: string, k: string)
    requires j != "" ==> j[0] != ':'
    requires k != "" ==> k[|k| - 1] != ':'
    ensures var w := (if j == "" then ":" else ":" + (j + ":")) + ":" + (if k == "" then "" else k + ":");
      && |w| >= 2
      && (w[0] == ':' && w[1] == ':' <==> j == "")
      && (w[|w| - 1] == ':' && w[|w| - 2] == ':' <==> k == "")
      && (k != "" ==> |w| >= 4)
      && w[(if j == "" then 0 else 1)..(if k == "" then |w| else |w| - 1)] == j + "::" + k
  {
    var w := (if j == "" then ":" else ":" + (j + ":")) + ":" + (if k == "" then "" else k + ":");
    var core := j + "::" + k;
    assert w == (if j == "" then "" else ":") + core + (if k == "" then "" else ":");
    assert j != "" ==> w[1] == j[0];
    assert k != "" ==> w[|w| - 2] == k[|k| - 1];
  }

  lemma FencedNulFree(gs: seq<string>)
    requires AllGroups(gs)
    ensures NulFree(Terminated(gs)) && NulFree(Fenced(gs))
  {
    if gs != [] {
      FencedNulFree(gs[1..]);
      GroupsHaveNoColon(gs);
    }
  }

  /** Strips the final and the initial colon, unless they belong to `::`. */
  method TrimEnds(buf: array<char>, end: nat, ghost a: seq<string>, ghost b: seq<string>) returns (n: nat, start: nat)
    requires AllGroups(a) && AllGroups(b)
    requires end == |Squished(a, b)| && HoldsCString(buf, 0, Squished(a, b))
    modifies buf
    ensures var t := Render(Gapped(a, b)); start <= 1 && HoldsCString(buf, start, t) && n == |t| + 1
  {
    hide IsGroup, Squished, Render;
    ghost var w := Squished(a, b);
    var q := end;
    TrimmedIsRendered(a, b);
    assert forall k :: 0 <= k < |w| ==> buf[k] == w[k];
    if !(buf[q - 1] == ':' && buf[q - 2] == ':') {
      q := q - 1;
      buf[q] := '\0';
    }
    start := 0;
    if !(buf[0] == ':' && buf[1] == ':') {
      start := 1;
    }
    assert buf[start..q] == w[start..q];
    n := q - start + 1;
  }

  /** The squishing branch of normal6, from the pair of zero groups at `i` on. */
  method Squish(buf: array<char>, q0: nat, ghost gs: seq<string>, ghost i: nat)
      returns (n: nat, start: nat, ghost e: nat)
    requires AllGroups(gs) && i + 1 < |gs| && gs[i] == "0" && gs[i + 1] == "0"
    requires q0 == Fence(gs, i) && HoldsCString(buf, 0, Fenced(gs))
    modifies buf
    ensures i <= e <= |gs| && (forall k :: i <= k < e ==> gs[k] == "0") && (e < |gs| ==> gs[e] != "0")
    ensures var t := Render(Gapped(gs[..i], gs[e..]));
      start <= 1 && HoldsCString(buf, start, t) && n == |t| + 1
  {
    hide IsGroup, Terminated, Render, Fence, Fenced;
    var p;
    p, e := SkipZeros(buf, q0 + 1, gs, i);
    assert e >= i + 2;
    ghost var a, b := gs[..i], gs[e..];
    FencedParts(gs, i, e);
    FencedNulFree(b);
    ghost var s := Fenced(gs);
    assert buf[p..p + |Terminated(b)|] == s[p..];
    assert buf[..q0 + 1] == s[..q0 + 1];
    var q := Compact(buf, q0, p, a, b);
    n, start := TrimEnds(buf, q, a, b);
  }

  /** Overwrites the first zero by a colon and moves the rest of the text down behind it. */
  method Compact(buf: array<char>, q0: nat, p: nat, ghost a: seq<string>, ghost b: seq<string>) returns (q: nat)
    requires q0 + 2 < p && HoldsCString(buf, p, Terminated(b)) && NulFree(Terminated(b))
    requires buf[..q0 + 1] == Fenced(a)
    modifies buf
    ensures q == |Squished(a, b)| && HoldsCString(buf, 0, Squished(a, b))
  {
    hide Terminated, Fenced;
    ghost var t := Terminated(b);
    q := q0 + 1;
    buf[q] := ':';
    q := q + 1;
    assert buf[p..p + |t|] == t;
    q := MoveDown(buf, q, p, t);
    assert buf[..q0 + 1] == Fenced(a);
    assert buf[..q] == buf[..q0 + 1] + [buf[q0 + 1]] + buf[q0 + 2..q];
  }

  lemma FencedParts(gs: seq<string>, i: nat, e: nat)
    requires AllGroups(gs) && i <= e <= |gs|
    ensures var s := Fenced(gs);
      && Fence(gs, i) <= Fence(gs, e) < |s|
      && s[..Fence(gs, i) + 1] == Fenced(gs[..i])
      && s[1 + Fence(gs, e)..] == Terminated(gs[e..])
  {
    hide IsGroup, Terminated;
    FenceGrows(gs, i, e);
    ZeroAtFence(gs, i);
    ZeroAtFence(gs, e);
  }

  /** The squishing branch, in terms of the pieces of the address. */
  method SquishPieces(buf: array<char>, q: nat, ghost ps: seq<Piece>) returns (n: nat, start: nat)
    requires FirstPair(ps) < |ps| && q == Fence(HexGroups(ps), FirstPair(ps))
    requires HoldsCString(buf, 0, Fenced(HexGroups(ps)))
    modifies buf
    ensures var t := Render(Chosen(ps, true)); start <= 1 && HoldsCString(buf, start, t) && n == |t| + 1
  {
    hide IsGroup, Render, Fence, Fenced, Digits, FirstPair, Values;
    ghost var gs, i := HexGroups(ps), FirstPair(ps);
    HexGroupsValues(ps);
    PieceText(ps[i]);
    PieceText(ps[i + 1]);
    ghost var e;
    n, start, e := Squish(buf, q, gs, i);
    RunEndIs(ps, i, e);
    assert gs[..i] == HexGroups(ps[..i]) && gs[e..] == HexGroups(ps[e..]);
  }

  /**
    normal6: the text starts at `start` in `buf` and takes `n` characters with its NUL.
   */
  method Normal6(srcp: seq<Byte>, buf: array<char>, squish: bool) returns (n: nat, start: nat)
    requires buf.Length >= BUF6
    modifies buf
    ensures |srcp| != IP6BYTES ==> n == 0 && buf[..] == old(buf[..])
    ensures |srcp| == IP6BYTES ==>
      var t := Render(Chosen(PiecesOf(srcp), squish));
      start <= 1 && HoldsCString(buf, start, t) && n == |t| + 1 <= BUF6 - 1
  {
    hide IsGroup, Render, Fence, Digits, FirstPair, RunEnd, Values, Fenced;
    start := 0;
    if |srcp| != IP6BYTES {
      return 0, 0;
    }
    ghost var ps := PiecesOf(srcp);
    ghost var gs := HexGroups(ps);
    HexGroupsValues(ps);
    var p := WritePieces(srcp, buf);
    FencedNulFree(gs);
    var q := Strstr(buf, ZEROS, Fenced(gs));
    FenceFound(ps, gs, q);
    if squish && q >= 0 {
      n, start := SquishPieces(buf, q, ps);
    } else {
      n, start := DropFences(buf, p, gs);
    }
    ChosenMeans(ps, squish);
    RenderedLength(Chosen(ps, squish));
  }

  /** The other branch: drops the first and the last colon. */
  method DropFences(buf: array<char>, p: nat, ghost gs: seq<string>) returns (n: nat, start: nat)
    requires AllGroups(gs) && gs != [] && p == |Fenced(gs)| && HoldsCString(buf, 0, Fenced(gs))
    modifies buf
    ensures var t := Render(Full(gs)); start == 1 && HoldsCString(buf, start, t) && n == |t| + 1
  {
    hide Render, IsGroup, Fenced;
    FullText(gs);
    var q := p - 1;
    buf[q] := '\0';
    start := 1;
    n := q - start + 1;
    assert buf[1..q] == Fenced(gs)[1..q];
  }

  /** The result of strstr is the fence before the first pair, or -1 when there is none. */
  lemma FenceFound(ps: seq<Piece>, gs: seq<string>, q: int)
    requires gs == HexGroups(ps)
    requires q < 0 ==> forall k: nat :: !OccursAt(Fenced(gs), ZEROS, k)
    requires q >= 0 ==> OccursAt(Fenced(gs), ZEROS, q) && forall k: nat :: k < q ==> !OccursAt(Fenced(gs), ZEROS, k)
    ensures q >= 0 <==> FirstPair(ps) < |ps|
    ensures q >= 0 ==> q == Fence(gs, FirstPair(ps))
  {
    hide OccursAt, Fenced, Fence, FirstPair, HexGroups;
    var i := FirstPair(ps);
    FirstPairIsFirstOccurrence(ps, if q < 0 then 0 else q);
    if i < |ps| {
      var f := Fence(gs, i);
      assert OccursAt(Fenced(gs), ZEROS, f);
    }
  }

  lemma FullText(gs: seq<string>)
    requires AllGroups(gs) && gs != []
    ensures Fenced(gs) == ":" + Render(Full(gs)) + ":"
  {
    JoinTerminated(gs);
  }

  lemma RunEndIs(ps: seq<Piece>, i: nat, e: nat)
    requires i <= e <= |ps|
    requires forall k :: i <= k < e ==> HexGroups(ps)[k] == "0"
    requires e < |ps| ==> HexGroups(ps)[e] != "0"
    ensures RunEnd(ps, i) == e
    decreases e - i
  {
    if i < |ps| {
      PieceText(ps[i]);
    }
    if i < e {
      assert HexGroups(ps)[i] == "0";
      RunEndIs(ps, i + 1, e);
    }
  }

  /** The buffer size that the callers provide is enough. */
  lemma RenderedLength(w: Written)
    requires WellFormed(w)
    ensures |Render(w)| <= 39
  {
    match w
    case Full(gs) =>
      EndsOf(gs);
      GroupLengths(gs);
    case Gapped(a, b) =>
      EndsOf(a);
      EndsOf(b);
      GroupLengths(a);
      GroupLengths(b);
  }
}
