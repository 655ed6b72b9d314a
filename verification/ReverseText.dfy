/**
  The reverse-lookup names of addresses (reverse4 and reverse6 of addrtot.c):
  the bytes, or the halves of the bytes, from the last one on.
 */
module ReverseText {
  import opened Common
  import opened NumberText
  import Ipv4 = Ipv4Text

  const IP6BYTES: nat := 16
  const ARPA4: string := "IN-ADDR.ARPA."
  const ARPA6: string := "IP6.ARPA."

  // ---------- IPv4 ----------

  /** The labels of the bytes, last byte first. */
  function Labels4(bs: seq<Byte>): (s: string) {
    if bs == [] then "" else Digits(bs[|bs| - 1], 10) + "." + Labels4(bs[..|bs| - 1])
  }

  function Reverse4Text(bs: seq<Byte>): string {
    Labels4(bs) + ARPA4
  }

  function Backwards(bs: seq<Byte>): (r: seq<Byte>)
    ensures |r| == |bs| && forall i :: 0 <= i < |bs| ==> r[i] == bs[|bs| - 1 - i]
  {
    seq(|bs|, i requires 0 <= i < |bs| => bs[|bs| - 1 - i])
  }

  /** The name is the dotted form of the address backwards, in the domain for reverse lookup. */
  lemma {:induction false} LabelsAreDotted(bs: seq<Byte>)
    requires bs != []
    ensures Labels4(bs) == Ipv4.Text4(Backwards(bs)) + "."
  {
    hide Digits;
    var n := |bs| - 1;
    var last, front := Digits(bs[n], 10), bs[..n];
    assert Backwards(bs) == [bs[n]] + Backwards(front);
    var fs := Ipv4.ByteTexts(Backwards(bs));
    assert fs[0] == last && fs[1..] == Ipv4.ByteTexts(Backwards(front));
    if n > 0 {
      LabelsAreDotted(front);
      var more := Ipv4.Text4(Backwards(front));
      assert last + "." + (more + ".") == last + "." + more + ".";
    } else {
      assert Labels4(front) == "";
    }
  }

  /** So the name tells the address: its labels, read by the parser, are the bytes backwards. */
  lemma Reverse4Tells(bs: seq<Byte>)
    requires |bs| == Ipv4.IP4BYTES
    ensures var s := Reverse4Text(bs);
      && |s| > |ARPA4| && s[|s| - |ARPA4| - 1..] == "." + ARPA4
      && Ipv4.Fields(s[..|s| - |ARPA4| - 1], []) == Ok(Backwards(bs))
  {
    hide Labels4, Ipv4.Text4, Ipv4.Fields;
    LabelsAreDotted(bs);
    Ipv4.Ipv4RoundTrip(Backwards(bs));
    var t, s := Ipv4.Text4(Backwards(bs)), Reverse4Text(bs);
    assert s == t + ("." + ARPA4);
    assert s[..|t|] == t;
  }

  /** strcpy of a literal. */
  method Append(buf: array<char>, p: nat, t: string)
    requires p + |t| < buf.Length && NulFree(t)
    modifies buf
    ensures HoldsCString(buf, 0, old(buf[..p]) + t)
  {
    forall i | 0 <= i < |t| {
      buf[p + i] := t[i];
    }
    buf[p + |t|] := '\0';
    assert buf[..p] == old(buf[..p]);
    SliceIs(buf, p, t);
    assert buf[..p + |t|] == buf[..p] + buf[p..p + |t|];
    assert buf[0..0 + (p + |t|)] == buf[..p + |t|];
  }

  method Reverse4(srcp: seq<Byte>, buf: array<char>) returns (n: nat)
    requires buf.Length >= 40
    modifies buf
    ensures |srcp| != Ipv4.IP4BYTES ==> n == 0 && buf[..] == old(buf[..])
    ensures |srcp| == Ipv4.IP4BYTES ==>
      HoldsCString(buf, 0, Reverse4Text(srcp)) && n == |Reverse4Text(srcp)| + 1
  {
    hide Digits;
    if |srcp| != Ipv4.IP4BYTES {
      return 0;
    }
    var p, i: int := 0, 3;
    ghost var done := "";
    assert srcp[..4] == srcp;
    while i >= 0
      invariant -1 <= i <= 3 && 0 <= p <= 4 * (3 - i)
      invariant buf[..p] == done && done + Labels4(srcp[..i + 1]) == Labels4(srcp)
      decreases i
    {
      var q := Ipv4.WriteByte(srcp[i], buf, p);
      buf[q - 1] := '.';
      ghost var digits := Digits(srcp[i], 10);
      assert buf[..q] == done + digits + ".";
      LabelsStep(done, srcp[..i + 1]);
      assert srcp[..i + 1][..i] == srcp[..i];
      done := done + digits + ".";
      p, i := q, i - 1;
    }
    assert Labels4(srcp[..0]) == "";
    assert done + "" == done;
    Append(buf, p, ARPA4);
    n := Strlen(buf[..]) + 1;
    LengthOfText(buf, srcp);
  }

  lemma LabelsStep(done: string, bs: seq<Byte>)
    requires bs != []
    ensures done + Labels4(bs) == done + Digits(bs[|bs| - 1], 10) + "." + Labels4(bs[..|bs| - 1])
  {
    hide *;
    var last, more := Digits(bs[|bs| - 1], 10), Labels4(bs[..|bs| - 1]);
    LabelsCons(bs);
    Regroup(done, last, more);
  }

  lemma LabelsCons(bs: seq<Byte>)
    requires bs != []
    ensures Labels4(bs) == Digits(bs[|bs| - 1], 10) + "." + Labels4(bs[..|bs| - 1])
  {
  }

  lemma Regroup(done: string, last: string, more: string)
    ensures done + (last + "." + more) == done + last + "." + more
  {
  }

  lemma {:induction false} LabelsNulFree(bs: seq<Byte>)
    ensures NulFree(Labels4(bs))
  {
    if bs != [] {
      LabelsNulFree(bs[..|bs| - 1]);
    }
  }

  lemma LengthOfText(buf: array<char>, bs: seq<Byte>)
    requires HoldsCString(buf, 0, Reverse4Text(bs))
    ensures Strlen(buf[..]) == |Reverse4Text(bs)|
  {
    hide Labels4, Strlen;
    LabelsNulFree(bs);
    StrlenHeld(buf, Reverse4Text(bs));
  }

  lemma StrlenHeld(buf: array<char>, t: string)
    requires HoldsCString(buf, 0, t) && NulFree(t)
    ensures Strlen(buf[..]) == |t|
  {
    hide Strlen;
    assert forall i :: 0 <= i < |t| ==> buf[..][i] == buf[0..0 + |t|][i];
    assert buf[..][|t|] == '\0';
  }

  // ---------- IPv6 ----------

  /** Two labels for a byte: its low and its high half. */
  function Halves(b: Byte): (s: string)
    ensures |s| == 4 && NulFree(s)
    ensures CharValue(s[0]) + 16 * CharValue(s[2]) == b
  {
    [DigitChar(b % 16), '.', DigitChar(b / 16), '.']
  }

  function Labels6(bs: seq<Byte>): (s: string)
    ensures |s| == 4 * |bs| && NulFree(s)
  {
    if bs == [] then "" else Halves(bs[|bs| - 1]) + Labels6(bs[..|bs| - 1])
  }

  function Reverse6Text(bs: seq<Byte>): (s: string)
    ensures NulFree(s)
  {
    Labels6(bs) + ARPA6
  }

  lemma {:induction false} LabelsAt(bs: seq<Byte>, i: nat)
    requires i < |bs|
    ensures Labels6(bs)[4 * i..4 * i + 4] == Halves(bs[|bs| - 1 - i])
  {
    hide Halves;
    var n := |bs| - 1;
    if i > 0 {
      LabelsAt(bs[..n], i - 1);
      assert Labels6(bs)[4..] == Labels6(bs[..n]);
      assert Labels6(bs)[4 * i..4 * i + 4] == Labels6(bs)[4..][4 * (i - 1)..4 * (i - 1) + 4];
    }
  }

  /** The name tells the address: byte by byte, from its last label on. */
  lemma Reverse6Tells(bs: seq<Byte>, i: nat)
    requires |bs| == IP6BYTES && i < IP6BYTES
    ensures var s := Reverse6Text(bs);
      |s| == 73 && CharValue(s[60 - 4 * i]) + 16 * CharValue(s[62 - 4 * i]) == bs[i]
  {
    hide Halves, Labels6;
    var s, j := Reverse6Text(bs), 15 - i;
    LabelsAt(bs, j);
    var h := Labels6(bs)[4 * j..4 * j + 4];
    assert s[4 * j] == h[0] && s[4 * j + 2] == h[2];
  }

  lemma HalfDigits(v: nat)
    requires v < 16
    ensures NumText(v, 16) == [DigitChar(v)]
  {
  }

  /** One label: a digit, and a dot over its NUL. */
  method WriteHalf(v: nat, buf: array<char>, p: nat)
    requires v < 16 && p + 2 <= buf.Length
    modifies buf
    ensures buf[..p + 2] == old(buf[..p]) + [DigitChar(v), '.']
  {
    hide NumText;
    HalfDigits(v);
    var len := Ultot(v, 16, buf, p, 2);
    assert buf[p..p + 1] == [DigitChar(v)];
    buf[p + len - 1] := '.';
    assert buf[..p] == old(buf[..p]);
    assert buf[p..p + 1][0] == buf[p];
    assert buf[..p + 2] == buf[..p] + [buf[p], buf[p + 1]];
  }

  method Reverse6(srcp: seq<Byte>, buf: array<char>) returns (n: nat)
    requires buf.Length >= 74
    modifies buf
    ensures |srcp| != IP6BYTES ==> n == 0 && buf[..] == old(buf[..])
    ensures |srcp| == IP6BYTES ==> HoldsCString(buf, 0, Reverse6Text(srcp)) && n == |Reverse6Text(srcp)| + 1
  {
    hide DigitChar, Labels6;
    if |srcp| != IP6BYTES {
      return 0;
    }
    var p: nat, i: int := 0, 15;
    ghost var done := "";
    assert srcp[..16] == srcp;
    while i >= 0
      invariant -1 <= i <= 15 && p == 4 * (15 - i)
      invariant buf[..p] == done && done + Labels6(srcp[..i + 1]) == Labels6(srcp)
      decreases i
    {
      var piece := srcp[i];
      WriteHalf(piece % 16, buf, p);
      WriteHalf(piece / 16, buf, p + 2);
      Labels6Step(done, srcp, i);
      assert buf[..p + 4] == done + Halves(srcp[i]);
      done := done + Halves(srcp[i]);
      p, i := p + 4, i - 1;
    }
    Labels6End(done, srcp);
    Append(buf, p, ARPA6);
    n := Strlen(buf[..]) + 1;
    StrlenHeld(buf, Reverse6Text(srcp));
  }

  lemma Labels6Step(done: string, bs: seq<Byte>, i: nat)
    requires i < |bs|
    ensures done + Labels6(bs[..i + 1]) == done + Halves(bs[i]) + Labels6(bs[..i])
  {
    hide Halves;
    assert bs[..i + 1][..i] == bs[..i];
    assert done + (Halves(bs[i]) + Labels6(bs[..i])) == done + Halves(bs[i]) + Labels6(bs[..i]);
  }

  lemma Labels6End(done: string, bs: seq<Byte>)
    ensures done + Labels6(bs[..0]) == done
  {
  }
}
