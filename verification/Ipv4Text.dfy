/**
  Dotted decimal: normal4 of addrtot.c, and trydotted and getbyte of ttoaddr.c.
  The parser takes one to four fields, fills the missing ones with zeros, allows
  leading zeros, and allows a final dot when fields are missing.
 */
module Ipv4Text {
  import opened Common
  import opened NumberText

  const IP4BYTES: nat := 4
  const PERBYTE: nat := 4

  // ---------- written addresses ----------

  predicate IsField(f: string) {
    f != "" && AllDigits(f, 10) && Value(f, 10) <= 255
  }

  datatype Dotted = Dotted(fields: seq<string>, finalDot: bool)

  predicate WellFormed(d: Dotted) {
    && |d.fields| <= IP4BYTES
    && (forall i :: 0 <= i < |d.fields| ==> IsField(d.fields[i]))
    && (d.finalDot ==> 0 < |d.fields| < IP4BYTES)
  }

  function Render(d: Dotted): string
    decreases |d.fields|
  {
    if d.fields == [] then ""
    else if |d.fields| == 1 then d.fields[0] + (if d.finalDot then "." else "")
    else d.fields[0] + "." + Render(Dotted(d.fields[1..], d.finalDot))
  }

  function FieldBytes(fs: seq<string>): (bs: seq<Byte>)
    requires forall i :: 0 <= i < |fs| ==> IsField(fs[i])
    ensures |bs| == |fs|
  {
    if fs == [] then [] else [FieldByte(fs[0])] + FieldBytes(fs[1..])
  }

  function FieldByte(f: string): Byte
    requires IsField(f)
  {
    Value(f, 10)
  }

  function Meaning(d: Dotted): (bs: seq<Byte>)
    requires WellFormed(d)
    ensures |bs| == IP4BYTES
  {
    FieldBytes(d.fields) + Repeat<Byte>(0, IP4BYTES - |d.fields|)
  }

  ghost predicate Denotes(s: string, bs: seq<Byte>) {
    exists d :: WellFormed(d) && Render(d) == s && Meaning(d) == bs
  }

  // ---------- trydotted ----------

  datatype DottedReason = EmptyNumber | NonNumeric | ByteOverflow | SyntaxError | ExtraGarbage

  /** `maybeName`: the message starts with '?', the text did not look numeric at all. */
  datatype DottedError = DottedError(reason: DottedReason, maybeName: bool)

  datatype ByteResult = BadByte(reason: DottedReason) | GoodByte(value: Byte, len: nat)

  /** getbyte; the loop of trydotted never calls it on an empty text. */
  function ByteAt(s: string): (r: ByteResult)
    ensures r.GoodByte? ==> 0 < r.len <= |s| && IsField(s[..r.len]) && r.value == Value(s[..r.len], 10)
  {
    var d := DigitPrefix(s, 10);
    if s == "" then BadByte(EmptyNumber)
    else if d == 0 then BadByte(NonNumeric)
    else if Value(s[..d], 10) > 255 then BadByte(ByteOverflow)
    else GoodByte(Value(s[..d], 10), d)
  }

  /** The loop of trydotted: `s` is what is left, `acc` the bytes stored so far. */
  function Fields(s: string, acc: seq<Byte>): Result<seq<Byte>, DottedError>
    requires |acc| <= IP4BYTES
    decreases IP4BYTES - |acc|
  {
    if |acc| == IP4BYTES || s == "" then
      if s != "" then Err(DottedError(ExtraGarbage, false)) else Ok(acc + Repeat<Byte>(0, IP4BYTES - |acc|))
    else
      match ByteAt(s)
      case BadByte(e) => Err(DottedError(e, e == NonNumeric && |acc| <= 1))
      case GoodByte(v, len) =>
        var rest := s[len..];
        if |acc| < 3 && rest != "" then
          if rest[0] != '.' then Err(DottedError(SyntaxError, |acc| == 0)) else Fields(rest[1..], acc + [v])
        else Fields(rest, acc + [v])
  }

  lemma NextDigit(s: string, i: nat)
    requires i < |s| && AllDigits(s[..i], 10) && '0' <= s[i] <= '9'
    ensures AllDigits(s[..i + 1], 10)
    ensures Value(s[..i + 1], 10) == Value(s[..i], 10) * 10 + (s[i] as int - '0' as int)
  {
    ValueStep(s, i + 1, 10);
  }

  /** Where the loop of getbyte may have stopped. */
  lemma DigitsStop(s: string, i: nat, early: bool)
    requires i <= |s| && AllDigits(s[..i], 10) && (i < |s| && !early ==> !('0' <= s[i] <= '9'))
    ensures i <= DigitPrefix(s, 10) && (!early ==> i == DigitPrefix(s, 10))
  {
    assert forall k :: 0 <= k < i ==> s[k] == s[..i][k];
    DigitPrefixAtLeast(s, i, 10);
    if !early {
      DigitPrefixIs(s, i, 10);
    }
  }

  method Getbyte(src: string, at: nat, stop: nat) returns (r: ByteResult)
    requires at <= stop <= |src|
    ensures r == ByteAt(src[at..stop])
  {
    hide DigitPrefix, Value, Scale;
    ghost var s := src[at..stop];
    if at >= stop {
      return BadByte(EmptyNumber);
    }
    var no := 0;
    var p := at;
    assert s[..0] == "" && Value("", 10) == 0 by {
      EmptyValue(10);
    }
    while p < stop && no <= 255 && '0' <= src[p] <= '9'
      invariant at <= p <= stop
      invariant AllDigits(s[..p - at], 10) && no == Value(s[..p - at], 10)
    {
      NextDigit(s, p - at);
      no := no * 10 + (src[p] as int - '0' as int);
      p := p + 1;
    }
    ghost var d := DigitPrefix(s, 10);
    DigitsStop(s, p - at, no > 255);
    if p == at {
      return BadByte(NonNumeric);
    }
    if no > 255 {
      assert s[..d][..p - at] == s[..p - at];
      ValueGrows(s[..d], p - at, 10);
      return BadByte(ByteOverflow);
    }
    return GoodByte(no, p - at);
  }

  /** The buffer holds `acc` and, after it, the zeros of the memset. */
  ghost predicate Holds(buf: array<Byte>, acc: seq<Byte>)
    reads buf
  {
    buf.Length == IP4BYTES && |acc| <= IP4BYTES
    && (forall k :: 0 <= k < |acc| ==> buf[k] == acc[k])
    && (forall k :: |acc| <= k < IP4BYTES ==> buf[k] == 0)
  }

  method Trydotted(src: string, srclen: nat) returns (r: Result<seq<Byte>, DottedError>)
    requires srclen <= |src|
    ensures r == Fields(src[..srclen], [])
  {
    hide ByteAt, Value, IsField;
    var stop := srclen;
    var at := 0;
    var buf := new Byte[IP4BYTES](_ => 0);
    var i := 0;
    ghost var acc := [];
    ghost var s := src[..srclen];
    assert s == src[at..stop];
    while i < IP4BYTES && at < stop
      invariant at <= stop && i == |acc| <= IP4BYTES
      invariant s == src[at..stop]
      invariant Holds(buf, acc)
      invariant Fields(src[..srclen], []) == Fields(s, acc)
    {
      var byte := Getbyte(src, at, stop);
      if byte.BadByte? {
        return Err(DottedError(byte.reason, byte.reason == NonNumeric && i <= 1));
      }
      ghost var acc0 := acc;
      buf[i] := byte.value;
      at := at + byte.len;
      ghost var rest := src[at..stop];
      assert rest == s[byte.len..];
      acc := acc + [byte.value];
      if i < 3 && at < stop {
        if src[at] != '.' {
          return Err(DottedError(SyntaxError, i == 0));
        }
        at := at + 1;
        assert src[at..stop] == rest[1..];
      }
      s := src[at..stop];
      i := i + 1;
    }
    if at != stop {
      return Err(DottedError(ExtraGarbage, false));
    }
    assert buf[..] == acc + Repeat<Byte>(0, IP4BYTES - i);
    return Ok(buf[..]);
  }

  // ---------- the parser is exact ----------

  lemma FieldAt(f: string, rest: string)
    requires IsField(f) && (rest == "" || rest[0] == '.')
    ensures ByteAt(f + rest) == GoodByte(Value(f, 10), |f|)
  {
    var s := f + rest;
    assert s[..|f|] == f && (rest != "" ==> s[|f|] == rest[0]);
    DigitPrefixIs(s, |f|, 10);
  }

  lemma {:induction false} AcceptsDotted(d: Dotted, acc: seq<Byte>)
    requires |acc| + |d.fields| <= IP4BYTES
    requires forall i :: 0 <= i < |d.fields| ==> IsField(d.fields[i])
    requires d.finalDot ==> 0 < |d.fields| && |acc| + |d.fields| < IP4BYTES
    ensures Fields(Render(d), acc)
      == Ok(acc + FieldBytes(d.fields) + Repeat<Byte>(0, IP4BYTES - |acc| - |d.fields|))
    decreases |d.fields|
  {
    hide ByteAt, IsField, Value, Fields, Render, FieldBytes;
    var fs := d.fields;
    if fs == [] {
      NothingLeft(acc);
      assert d == Dotted([], false);
    } else {
      var more := Dotted(fs[1..], d.finalDot && |fs| > 1);
      var acc' := acc + [FieldByte(fs[0])];
      var sep := if |fs| > 1 || d.finalDot then "." else "";
      RenderFirst(d, sep, more);
      AcceptsDotted(more, acc');
      FieldStep(fs[0], sep, Render(more), acc);
      FirstByte(fs, acc);
    }
  }

  lemma RenderFirst(d: Dotted, sep: string, more: Dotted)
    requires d.fields != [] && sep == (if |d.fields| > 1 || d.finalDot then "." else "")
    requires more == Dotted(d.fields[1..], d.finalDot && |d.fields| > 1)
    ensures Render(d) == d.fields[0] + (sep + Render(more))
    ensures sep == "" ==> Render(more) == ""
  {
    if |d.fields| == 1 {
      assert Render(more) == "" && sep + "" == sep;
    } else {
      assert d.fields[0] + "." + Render(more) == d.fields[0] + ("." + Render(more));
    }
  }

  lemma FirstByte(fs: seq<string>, acc: seq<Byte>)
    requires fs != [] && forall i :: 0 <= i < |fs| ==> IsField(fs[i])
    ensures acc + [FieldByte(fs[0])] + FieldBytes(fs[1..]) == acc + FieldBytes(fs)
  {
    hide IsField, Value, FieldByte;
    Assoc(acc, [FieldByte(fs[0])], FieldBytes(fs[1..]));
  }

  lemma FieldStep(f: string, sep: string, tail: string, acc: seq<Byte>)
    requires IsField(f) && |acc| < IP4BYTES && (sep == "." || (sep == "" && tail == "")) && (sep == "." ==> |acc| < 3)
    ensures Fields(f + (sep + tail), acc) == Fields(tail, acc + [FieldByte(f)])
  {
    var s := f + (sep + tail);
    FieldAt(f, sep + tail);
    assert s[|f|..] == sep + tail;
    if sep == "." {
      assert (sep + tail)[1..] == tail;
    }
  }

  lemma {:induction false} AcceptedIsDotted(s: string, acc: seq<Byte>) returns (d: Dotted)
    requires |acc| <= IP4BYTES && Fields(s, acc).Ok?
    ensures |acc| + |d.fields| <= IP4BYTES && s == Render(d)
    ensures forall i :: 0 <= i < |d.fields| ==> IsField(d.fields[i])
    ensures d.finalDot ==> 0 < |d.fields| && |acc| + |d.fields| < IP4BYTES
    ensures s == "" <==> d.fields == []
    ensures Fields(s, acc).value == acc + FieldBytes(d.fields) + Repeat<Byte>(0, IP4BYTES - |acc| - |d.fields|)
    decreases IP4BYTES - |acc|
  {
    hide Value, IsField, Render, FieldBytes, Fields, ByteAt;
    if s == "" {
      d := Dotted([], false);
      NothingLeft(acc);
    } else {
      var f, rest, tail := FieldTaken(s, acc);
      var acc' := acc + [FieldByte(f)];
      var d' := AcceptedIsDotted(tail, acc');
      d := Dotted([f] + d'.fields, if tail == "" then rest != "" else d'.finalDot);
      BytesCons(f, d'.fields, acc);
      RenderCons(f, rest, tail, d', d);
    }
  }

  lemma NothingLeft(acc: seq<Byte>)
    requires |acc| <= IP4BYTES
    ensures Render(Dotted([], false)) == ""
    ensures Fields("", acc) == Ok(acc + FieldBytes([]) + Repeat<Byte>(0, IP4BYTES - |acc|))
  {
    assert acc + FieldBytes([]) == acc;
  }

  /** One turn of the loop, when it goes on to succeed. */
  lemma FieldTaken(s: string, acc: seq<Byte>) returns (f: string, rest: string, tail: string)
    requires |acc| <= IP4BYTES && s != "" && Fields(s, acc).Ok?
    ensures |acc| < IP4BYTES && IsField(f) && s == f + rest
    ensures rest == (if |acc| < 3 && rest != "" then "." + tail else tail)
    ensures |acc| == 3 ==> tail == ""
    ensures Fields(s, acc) == Fields(tail, acc + [FieldByte(f)])
  {
    hide Value, IsField;
    var len := ByteAt(s).len;
    f, rest := s[..len], s[len..];
    tail := if |acc| < 3 && rest != "" then rest[1..] else rest;
    if |acc| == 3 {
      assert Fields(rest, acc + [FieldByte(f)]).Ok?;
    }
  }

  lemma BytesCons(f: string, fs: seq<string>, acc: seq<Byte>)
    requires IsField(f) && forall i :: 0 <= i < |fs| ==> IsField(fs[i])
    ensures forall i :: 0 <= i < |[f] + fs| ==> IsField(([f] + fs)[i])
    ensures acc + FieldBytes([f] + fs) == acc + [FieldByte(f)] + FieldBytes(fs)
  {
    hide IsField;
    assert ([f] + fs)[1..] == fs;
  }

  lemma RenderCons(f: string, rest: string, tail: string, more: Dotted, d: Dotted)
    requires tail == Render(more) && (tail != "" ==> more.fields != []) && (tail == "" ==> more.fields == [])
    requires rest == "" || rest == "." + tail
    requires rest == "" ==> tail == ""
    requires d == Dotted([f] + more.fields, if tail == "" then rest != "" else more.finalDot)
    ensures f + rest == Render(d)
  {
    if tail == "" {
      assert d.fields == [f];
    } else {
      assert d.fields[1..] == more.fields;
      assert f + "." + tail == f + ("." + tail);
    }
  }

  /** trydotted accepts a text as `bs` just when it is a dotted form of `bs`. */
  lemma ParsesExactly(s: string, bs: seq<Byte>)
    ensures Fields(s, []) == Ok(bs) <==> Denotes(s, bs)
  {
    hide Fields, Render, FieldBytes, IsField;
    if Fields(s, []) == Ok(bs) {
      var d := AcceptedIsDotted(s, []);
      assert [] + FieldBytes(d.fields) == FieldBytes(d.fields);
      assert WellFormed(d) && Render(d) == s && Meaning(d) == bs;
    }
    if Denotes(s, bs) {
      var d :| WellFormed(d) && Render(d) == s && Meaning(d) == bs;
      AcceptsDotted(d, []);
      assert [] + FieldBytes(d.fields) == FieldBytes(d.fields);
    }
  }

  // ---------- normal4 ----------

  function ByteTexts(bs: seq<Byte>): (fs: seq<string>)
    ensures |fs| == |bs| && forall i :: 0 <= i < |bs| ==> fs[i] == Digits(bs[i], 10)
  {
    seq(|bs| , i requires 0 <= i < |bs| => Digits(bs[i], 10))
  }

  /** The text that normal4 prints. */
  function Text4(bs: seq<Byte>): string {
    Render(Dotted(ByteTexts(bs), false))
  }

  lemma ByteTextIsField(b: Byte)
    ensures IsField(Digits(b, 10)) && Value(Digits(b, 10), 10) == b && |Digits(b, 10)| <= 3
  {
    assert Pow(10, 3) == 1000;
    DigitsLength(b, 10, 3);
    ValueOfDigits(b, 10);
  }

  lemma {:induction false} BytesOfTexts(bs: seq<Byte>)
    ensures forall i :: 0 <= i < |bs| ==> IsField(ByteTexts(bs)[i])
    ensures FieldBytes(ByteTexts(bs)) == bs
  {
    hide Digits, IsField;
    forall i | 0 <= i < |bs|
      ensures IsField(ByteTexts(bs)[i]) && Value(ByteTexts(bs)[i], 10) == bs[i]
    {
      ByteTextIsField(bs[i]);
    }
    if bs != [] {
      BytesOfTexts(bs[1..]);
      assert ByteTexts(bs)[1..] == ByteTexts(bs[1..]);
    }
  }

  lemma Ipv4RoundTrip(bs: seq<Byte>)
    requires |bs| == IP4BYTES
    ensures Fields(Text4(bs), []) == Ok(bs)
  {
    BytesOfTexts(bs);
    AcceptsDotted(Dotted(ByteTexts(bs), false), []);
    assert [] + bs + Repeat<Byte>(0, 0) == bs;
  }

  lemma {:induction false} RenderNext(fs: seq<string>, f: string)
    ensures Render(Dotted(fs + [f], false)) ==
      (if fs == [] then "" else Render(Dotted(fs, false)) + ".") + f
    decreases |fs|
  {
    if fs != [] {
      RenderNext(fs[1..], f);
      assert (fs + [f])[1..] == fs[1..] + [f];
      var t := Render(Dotted(fs[1..], false));
      if |fs| > 1 {
        assert fs[0] + "." + (t + "." + f) == fs[0] + "." + t + "." + f;
      } else {
        assert fs[1..] == [];
      }
    }
  }

  /** One conversion of normal4, after the text `before` of the earlier ones. */
  method WriteByte(b: Byte, buf: array<char>, p0: nat) returns (p: nat)
    requires p0 + PERBYTE <= buf.Length
    modifies buf
    ensures p0 < p <= p0 + PERBYTE && buf[p - 1] == '\0'
    ensures buf[..p - 1] == old(buf[..p0]) + Digits(b, 10)
  {
    hide Digits;
    ByteTextIsField(b);
    var len := Ultot(b, 10, buf, p0, PERBYTE);
    p := p0 + len;
    assert NumText(b, 10)[..Min(len, PERBYTE) - 1] == Digits(b, 10);
    assert buf[..p0] == old(buf[..p0]) && buf[p0..p - 1] == Digits(b, 10);
    assert buf[..p - 1] == buf[..p0] + buf[p0..p - 1];
  }

  method Normal4(srcp: seq<Byte>, buf: array<char>) returns (n: nat)
    requires buf.Length >= IP4BYTES * PERBYTE
    modifies buf
    ensures |srcp| != IP4BYTES ==> n == 0 && buf[..] == old(buf[..])
    ensures |srcp| == IP4BYTES ==> HoldsCString(buf, 0, Text4(srcp)) && n == |Text4(srcp)| + 1 <= 16
  {
    hide Render, Digits;
    if |srcp| != IP4BYTES {
      return 0;
    }
    ghost var fs := ByteTexts(srcp);
    ghost var text := "";
    var p := 0;
    var i := 0;
    while i < IP4BYTES
      invariant 0 <= i <= IP4BYTES && i <= p <= PERBYTE * i
      invariant i > 0 ==> text == Render(Dotted(fs[..i], false))
      invariant i < IP4BYTES ==> buf[..p] == if i == 0 then "" else text + "."
      invariant i == IP4BYTES ==> p == |text| + 1 && HoldsCString(buf, 0, text)
    {
      RenderNext(fs[..i], fs[i]);
      assert fs[..i + 1] == fs[..i] + [fs[i]];
      p := WriteByte(srcp[i], buf, p);
      text := buf[..p - 1];
      if i != IP4BYTES - 1 {
        buf[p - 1] := '.';
        assert buf[..p] == text + ".";
      }
      i := i + 1;
    }
    assert fs[..IP4BYTES] == fs;
    n := p;
  }
}
