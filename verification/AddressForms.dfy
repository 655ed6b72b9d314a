/**
  The other forms in which addresses and subnets are written and read: a mask as
  an address, a port, the default subnet, hexadecimal addresses, names; and which
  form each print format has.
 */
module AddressForms {
  import opened Address
  import opened Common
  import Grammar6 = Ipv6Grammar
  import Ipv4 = Ipv4Text
  import opened NumberText
  import Parser6 = Ipv6Parser
  import Printer6 = Ipv6Printer
  import opened Subnet
  import opened SubnetText

  // ---------- masks ----------

  lemma DottedIsNoNumber(bs: seq<Byte>)
    requires |bs| == Ipv4.IP4BYTES
    ensures var s := Ipv4.Text4(bs); TtoulResult(s, 10).Err? && s != "" && NulFree(s)
    ensures var s := Ipv4.Text4(bs); AddressChars(s) && forall i :: 0 <= i < |s| ==> s[i] != ':'
  {
    hide TtoulResult, AddressChar, Ipv4.Text4;
    var s := Ipv4.Text4(bs);
    AddrTextChars(IpAddress(AF_INET, bs, 0), true);
    AddrTextNulFree(IpAddress(AF_INET, bs, 0), true);
    DecimalAcceptsExactly(s, 10);
    HasDot(bs);
  }

  lemma HasDot(bs: seq<Byte>)
    requires |bs| == Ipv4.IP4BYTES
    ensures exists i :: 0 <= i < |Ipv4.Text4(bs)| && Ipv4.Text4(bs)[i] == '.'
  {
    var fs := Ipv4.ByteTexts(bs);
    var rest := Ipv4.Render(Ipv4.Dotted(fs[1..], false));
    assert Ipv4.Text4(bs) == fs[0] + "." + rest;
    assert Ipv4.Text4(bs)[|fs[0]|] == '.';
  }

  /** A dotted mask is read by its bits: its count if they are a mask, and refused otherwise. */
  lemma DottedMask(bs: seq<Byte>, k: nat)
    requires |bs| == Ipv4.IP4BYTES
    ensures var r := MaskResult(Ipv4.Text4(bs), AF_INET);
      && (r == Ok(k) <==> k <= 32 && bs == MaskBytes(4, k))
      && ((forall j :: j <= 32 ==> bs != MaskBytes(4, j)) ==> r == Err(BadMask))
    ensures MaskResult(Ipv4.Text4(bs), AF_INET6) == Err(MaskNotPermitted)
  {
    hide TtoulResult, Ipv4.Text4, Ipv4.Fields, AddressChar, BitAt, MaskBytes;
    var s := Ipv4.Text4(bs);
    DottedIsNoNumber(bs);
    NotHex(s);
    Ipv4.Ipv4RoundTrip(bs);
    assert BaseResult(s, AF_INET) == Ok(IpAddress(AF_INET, bs, 0));
    CountTellsMask(bs, k);
  }

  lemma CountTellsMask(bs: seq<Byte>, k: nat)
    requires |bs| == Ipv4.IP4BYTES
    ensures CountResult(bs) == k <==> k <= 32 && bs == MaskBytes(4, k)
    ensures (forall j :: j <= 32 ==> bs != MaskBytes(4, j)) ==> CountResult(bs) < 0
  {
    hide BitAt, MaskBytes, IsMask;
    var c := CountResult(bs);
    if c >= 0 {
      CountIsMask(bs);
      MaskIsMaskBytes(bs, c);
    }
    if k <= 32 && bs == MaskBytes(4, k) {
      CountUndoesMask(4, k);
    }
  }

  lemma CountIsMask(bs: seq<Byte>)
    requires CountResult(bs) >= 0
    ensures IsMask(bs, CountResult(bs)) && CountResult(bs) <= 8 * |bs|
  {
  }

  /** A count is read as itself, up to the bits of the family. */
  lemma CountMask(k: nat, af: int)
    requires k <= ULONG_MAX && KnownFamily(af)
    ensures MaskResult(NumText(k, 10), af) ==
      if k <= 8 * LenOf(af) then Ok(k) else Err(CountTooLarge)
  {
    hide TtoulResult, NumText;
    NumberRoundTrip(k);
  }

  // ---------- subnets ----------

  /** The printed address, a slash and `rest`. */
  function Slashed(a: Address, rest: string): string
    requires KnownFamily(a.family)
  {
    AddrText(a, true) + "/" + rest
  }

  lemma SlashedReads(a: Address, rest: string, lookup: Lookup)
    requires KnownFamily(a.family) && NulFree(rest)
    ensures var s := Slashed(a, rest);
      TtosubnetResult(s, |s|, a.family, lookup)
        == MaskAndPort(IpAddress(a.family, a.bytes, 0), rest, |rest|, a.family)
  {
    hide AddrText, TtosubnetResult, SubnetResult, MaskAndPort, AddrResult, AddressChar, IndexOf;
    var text, s := AddrText(a, true), Slashed(a, rest);
    AddrTextChars(a, true);
    AddrTextNulFree(a, true);
    NotHex(text);
    assert AddressChar(text[0]);
    NotPercent(text[0]);
    assert s == text + ['/'] + rest;
    IndexFound(text, '/', rest);
    AddressRoundTrip(a, true, lookup);
    SplitAtSlash(s, text, rest, a.family, lookup, IpAddress(a.family, a.bytes, 0));
    WholeOrCounted(s, a.family, lookup, false);
  }

  /** A mask without a port. */
  lemma MaskAlone(addr: Address, mask: string, af: int)
    requires mask != "" && addr.port == 0 && forall i :: 0 <= i < |mask| ==> mask[i] != ':'
    ensures MaskAndPort(addr, mask, |mask|, af) == Assembled(addr, mask, af)
  {
    hide Assembled;
    assert mask[..|mask|] == mask;
    assert addr.(port := 0) == addr;
  }

  /** A subnet with its mask as an address is the subnet with its mask as a count; what is no mask is refused. */
  lemma MaskFormsAgree(a: Address, k: nat, lookup: Lookup)
    requires a.family == AF_INET && k <= 32
    ensures var s, t := Slashed(a, Ipv4.Text4(MaskBytes(4, k))), Slashed(a, NumText(k, 10));
      && TtosubnetResult(s, |s|, AF_INET, lookup) == TtosubnetResult(t, |t|, AF_INET, lookup)
      && TtosubnetResult(s, |s|, AF_INET, lookup) == Ok(IpSubnet(IpAddress(AF_INET, Masked(a.bytes, k), 0), k))
  {
    hide TtosubnetResult, MaskAndPort, MaskResult, Ipv4.Text4, NumText, Masked, Slashed, MaskBytes;
    var addr, dotted, digits := IpAddress(AF_INET, a.bytes, 0), Ipv4.Text4(MaskBytes(4, k)), NumText(k, 10);
    DottedIsNoNumber(MaskBytes(4, k));
    DottedMask(MaskBytes(4, k), k);
    CountMask(k, AF_INET);
    CountHasNoColon(k);
    SlashedReads(a, dotted, lookup);
    SlashedReads(a, digits, lookup);
    MaskAlone(addr, dotted, AF_INET);
    MaskAlone(addr, digits, AF_INET);
  }

  lemma CountHasNoColon(k: nat)
    ensures forall i :: 0 <= i < |NumText(k, 10)| ==> NumText(k, 10)[i] != ':'
  {
    var d := NumText(k, 10);
    forall i | 0 <= i < |d|
      ensures d[i] != ':'
    {
      assert IsDigit(d[i], 10);
    }
  }

  lemma NoMaskIsRefused(a: Address, bs: seq<Byte>, lookup: Lookup)
    requires a.family == AF_INET && |bs| == 4 && forall j :: j <= 32 ==> bs != MaskBytes(4, j)
    ensures var s := Slashed(a, Ipv4.Text4(bs)); TtosubnetResult(s, |s|, AF_INET, lookup) == Err(BadMask)
  {
    hide TtosubnetResult, MaskAndPort, MaskResult, Ipv4.Text4, Slashed, MaskBytes;
    DottedIsNoNumber(bs);
    DottedMask(bs, 0);
    SlashedReads(a, Ipv4.Text4(bs), lookup);
    MaskAlone(IpAddress(AF_INET, a.bytes, 0), Ipv4.Text4(bs), AF_INET);
  }

  /** A count that is too large is refused, and any other gives the network of that length. */
  lemma CountsAreExact(a: Address, k: nat, lookup: Lookup)
    requires KnownFamily(a.family) && k <= ULONG_MAX
    ensures var s, network := Slashed(a, NumText(k, 10)), IpAddress(a.family, Masked(a.bytes, k), 0);
      TtosubnetResult(s, |s|, a.family, lookup)
        == if k <= 8 * |a.bytes| then Ok(IpSubnet(network, k)) else Err(CountTooLarge)
  {
    hide TtosubnetResult, MaskAndPort, MaskResult, NumText, Masked, Slashed;
    CountMask(k, a.family);
    CountHasNoColon(k);
    SlashedReads(a, NumText(k, 10), lookup);
    MaskAlone(IpAddress(a.family, a.bytes, 0), NumText(k, 10), a.family);
  }

  /** A port behind the mask is kept, in its sixteen bits. */
  lemma PortIsKept(a: Address, k: nat, port: nat, lookup: Lookup)
    requires KnownFamily(a.family) && k <= 8 * |a.bytes| && port <= ULONG_MAX
    ensures var s := Slashed(a, NumText(k, 10) + ":" + NumText(port, 10));
      TtosubnetResult(s, |s|, a.family, lookup)
        == Ok(IpSubnet(IpAddress(a.family, Masked(a.bytes, k), port % USHORT_SPAN), k))
  {
    hide TtosubnetResult, MaskAndPort, NumText, Masked, Slashed;
    var digits, number := NumText(k, 10), NumText(port, 10);
    SlashedReads(a, digits + ":" + number, lookup);
    CountHasNoColon(k);
    MaskThenPort(IpAddress(a.family, a.bytes, 0), digits, number, port);
    CountMask(k, a.family);
    hide MaskResult;
    assert Assembled(IpAddress(a.family, a.bytes, port % USHORT_SPAN), digits, a.family)
      == Ok(IpSubnet(IpAddress(a.family, Masked(a.bytes, k), port % USHORT_SPAN), k));
  }

  lemma MaskThenPort(addr: Address, mask: string, number: string, port: nat)
    requires mask != "" && forall i :: 0 <= i < |mask| ==> mask[i] != ':'
    requires port <= ULONG_MAX && number == NumText(port, 10)
    ensures var rest := mask + ":" + number;
      MaskAndPort(addr, rest, |rest|, addr.family) == Assembled(addr.(port := port % USHORT_SPAN), mask, addr.family)
  {
    hide Assembled, NumText, TtoulResult, IndexOf;
    var rest := mask + ":" + number;
    assert rest == mask + [':'] + number && rest[..|rest|] == rest;
    IndexFound(mask, ':', number);
    assert rest[..|mask|] == mask && rest[|mask| + 1..] == number && number[..|number|] == number;
    GuessedBaseRoundTrip(port);
  }

  /** The default subnet is everything. */
  lemma DefaultIsEverything(af: int, lookup: Lookup)
    requires KnownFamily(af)
    ensures TtosubnetResult(DEFAULT_SUBNET, |DEFAULT_SUBNET|, af, lookup)
      == Ok(IpSubnet(IpAddress(af, Repeat<Byte>(0, LenOf(af)), 0), 0))
  {
    hide SubnetResult, MaskAndPort, AddrResult, Masked, IndexOf;
    var text := if af == AF_INET then "0" else "::";
    var zero := IpAddress(af, Repeat<Byte>(0, LenOf(af)), 0);
    ZeroReads(af, lookup);
    DefaultSplits(text, af, lookup, zero);
    SmallestMask(af);
    MaskAlone(zero, "0", af);
    NothingLeft(zero);
  }

  lemma DefaultSplits(text: string, af: int, lookup: Lookup, zero: Address)
    requires text == (if af == AF_INET then "0" else "::") && KnownFamily(af)
    requires AddrResult(text, af, lookup) == Ok(zero)
    ensures TtosubnetResult(DEFAULT_SUBNET, |DEFAULT_SUBNET|, af, lookup) == MaskAndPort(zero, "0", 1, af)
  {
    hide SubnetResult, MaskAndPort, AddrResult, IndexOf;
    var s := if af == AF_INET then "0/0" else "::/0";
    assert DEFAULT_SUBNET[..|DEFAULT_SUBNET|] == DEFAULT_SUBNET;
    assert s == text + ['/'] + "0";
    IndexFound(text, '/', "0");
    SplitAtSlash(s, text, "0", af, lookup, zero);
  }

  lemma SmallestMask(af: int)
    requires KnownFamily(af)
    ensures MaskResult("0", af) == Ok(0)
  {
    hide TtoulResult;
    assert Digits(0, 10) == "0";
    CountMask(0, af);
  }

  lemma NothingLeft(a: Address)
    requires KnownFamily(a.family)
    ensures Masked(a.bytes, 0) == Repeat<Byte>(0, |a.bytes|)
  {
    hide BitAt;
    var m, z := Masked(a.bytes, 0), Repeat<Byte>(0, |a.bytes|);
    forall k | 0 <= k < 8 * |m|
      ensures BitAt(m, k) == BitAt(z, k)
    {
      ZeroBits(z, k);
    }
    assert Bits(m) == Bits(z);
    SameBits(m, z);
  }

  lemma ZeroBits(z: seq<Byte>, k: nat)
    requires k < 8 * |z| && forall i :: 0 <= i < |z| ==> z[i] == 0
    ensures !BitAt(z, k)
  {
    ZeroByte(z[k / 8]);
  }

  lemma ZeroReads(af: int, lookup: Lookup)
    requires KnownFamily(af)
    ensures AddrResult(if af == AF_INET then "0" else "::", af, lookup)
      == Ok(IpAddress(af, Repeat<Byte>(0, LenOf(af)), 0))
  {
    if af == AF_INET {
      hide Ipv4.Fields;
      var d := Ipv4.Dotted(["0"], false);
      Ipv4.AcceptsDotted(d, []);
      assert Ipv4.FieldBytes(d.fields) == [0];
      assert [] + [0] + Repeat<Byte>(0, 3) == Repeat<Byte>(0, 4);
    } else {
      hide Grammar6.ColonResult;
      Grammar6.AcceptsWritten(Grammar6.Gapped([], []));
      assert Grammar6.Render(Grammar6.Gapped([], [])) == "::";
      var ps := Repeat<Grammar6.Piece>(0, 8);
      assert Grammar6.Meaning(Grammar6.Gapped([], [])) == ps;
      assert Parser6.BytesOf(ps) == Repeat<Byte>(0, 16);
    }
  }

  /** A text without a slash is no subnet. */
  lemma NoSlashIsRefused(s: string, af: int, lookup: Lookup)
    requires s != "" && s != DEFAULT_SUBNET && KnownFamily(af) && forall i :: 0 <= i < |s| ==> s[i] != '/'
    ensures TtosubnetResult(s, |s|, af, lookup) == Err(NoSlash)
  {
    hide AddrResult, MaskAndPort;
    assert s[..|s|] == s;
  }

  // ---------- hexadecimal addresses ----------

  /** Eight hexadecimal digits behind 0x are the address in network order, and behind 0h in that of the machine. */
  lemma HexForms(bs: seq<Byte>, lookup: Lookup)
    requires |bs| == 4
    ensures var digits := NumText(WordValue(bs), 17);
      && |digits| == 8
      && AddrResult("0x" + digits, AF_INET, lookup) == Ok(IpAddress(AF_INET, bs, 0))
      && AddrResult("0h" + digits, AF_INET, lookup) == Ok(IpAddress(AF_INET, [bs[3], bs[2], bs[1], bs[0]], 0))
  {
    hide TtoulResult, NumText, WordValue;
    var v := WordValue(bs);
    WordFits(bs);
    EightDigits(v);
    NumberRoundTrip(v);
    var digits := NumText(v, 17);
    assert ("0x" + digits)[2..] == digits && ("0h" + digits)[2..] == digits;
  }

  lemma WordFits(bs: seq<Byte>)
    requires |bs| == 4
    ensures WordValue(bs) < UINT_SPAN && NetworkWord(WordValue(bs)) == bs
  {
    hide NetworkWord;
    WordRoundTrip(WordValue(bs));
    var w := NetworkWord(WordValue(bs));
    assert WordValue(w) == WordValue(bs);
    assert w[0] == bs[0] && w[1] == bs[1] && w[2] == bs[2] && w[3] == bs[3];
  }

  lemma EightDigits(v: nat)
    requires v < UINT_SPAN
    ensures |NumText(v, 17)| == HEX_WIDTH
  {
    assert Pow(16, 4) == 0x1_0000;
    assert Pow(16, 8) == UINT_SPAN;
    DigitsLength(v, 16, 8);
  }

  // ---------- names ----------

  /** A text that is taken for a name, if nothing else: no number, or one field and no proper second one. */
  predicate LooksLikeName(s: string) {
    var d := DigitPrefix(s, 10);
    d == 0 || (Value(s[..d], 10) <= 255 && d < |s| && (s[d] != '.' || (d + 1 < |s| && !IsDigit(s[d + 1], 10))))
  }

  lemma DottedName(s: string)
    requires s != ""
    ensures (Ipv4.Fields(s, []).Err? && Ipv4.Fields(s, []).error.maybeName) <==> LooksLikeName(s)
  {
    hide Value, Ipv4.Fields, Ipv4.IsField, Ipv4.ByteAt;
    FieldsStep(s, []);
    FieldIs(s);
    if Ipv4.ByteAt(s).GoodByte? {
      var b := Ipv4.ByteAt(s);
      assert [] + [b.value] == [b.value];
      if b.len == |s| {
        FieldsStep("", [b.value]);
      } else if s[b.len] == '.' {
        assert s[b.len..][1..] == s[b.len + 1..];
        SecondField(s[b.len + 1..], b.value);
      }
    }
  }

  lemma FieldIs(s: string)
    requires s != ""
    ensures var b, d := Ipv4.ByteAt(s), DigitPrefix(s, 10);
      && (b.GoodByte? <==> d > 0 && Value(s[..d], 10) <= 255)
      && (b.GoodByte? ==> b.len == d)
      && (b.BadByte? ==> (b.reason == Ipv4.NonNumeric <==> d == 0))
      && (d == 0 <==> !IsDigit(s[0], 10))
  {
    hide Value, Ipv4.IsField;
  }

  /** One turn of the loop over the fields of a dotted address. */
  lemma FieldsStep(s: string, acc: seq<Byte>)
    requires |acc| < 3
    ensures s == "" ==> Ipv4.Fields(s, acc) == Ok(acc + Repeat<Byte>(0, 4 - |acc|))
    ensures s != "" && Ipv4.ByteAt(s).BadByte? ==>
      var e := Ipv4.ByteAt(s).reason;
      Ipv4.Fields(s, acc) == Err(Ipv4.DottedError(e, e == Ipv4.NonNumeric && |acc| <= 1))
    ensures s != "" && Ipv4.ByteAt(s).GoodByte? ==>
      var b := Ipv4.ByteAt(s);
      var rest := s[b.len..];
      if rest == "" then Ipv4.Fields(s, acc) == Ipv4.Fields("", acc + [b.value])
      else if rest[0] == '.' then Ipv4.Fields(s, acc) == Ipv4.Fields(rest[1..], acc + [b.value])
      else Ipv4.Fields(s, acc) == Err(Ipv4.DottedError(Ipv4.SyntaxError, |acc| == 0))
  {
    hide Ipv4.ByteAt;
  }

  lemma SecondField(s: string, v: Byte)
    ensures var r := Ipv4.Fields(s, [v]);
      (r.Err? && r.error.maybeName) <==> s != "" && !IsDigit(s[0], 10)
  {
    hide Value, Ipv4.Fields, Ipv4.IsField, Ipv4.ByteAt;
    FieldsStep(s, [v]);
    if s != "" {
      FieldIs(s);
      if Ipv4.ByteAt(s).GoodByte? {
        var b := Ipv4.ByteAt(s);
        NoNameLater("", [v] + [b.value]);
        if b.len < |s| {
          NoNameLater(s[b.len..][1..], [v] + [b.value]);
        }
      }
    }
  }

  /** From the third field on, what goes wrong is final. */
  lemma {:induction false} NoNameLater(s: string, acc: seq<Byte>)
    requires 2 <= |acc| <= 4
    ensures var r := Ipv4.Fields(s, acc); r.Err? ==> !r.error.maybeName
    decreases 4 - |acc|
  {
    hide Ipv4.ByteAt;
    if |acc| < 4 && s != "" && Ipv4.ByteAt(s).GoodByte? {
      var b := Ipv4.ByteAt(s);
      NoNameLater(s[b.len..], acc + [b.value]);
      if s[b.len..] != "" {
        NoNameLater(s[b.len..][1..], acc + [b.value]);
      }
    }
  }

  /** No form that is hexadecimal in the family. */
  predicate HexShaped(s: string) {
    |s| == 10 && s[0] == '0' && (s[1] == 'x' || s[1] == 'X' || s[1] == 'h' || s[1] == 'H')
  }

  predicate HasColon(s: string) {
    exists i :: 0 <= i < |s| && s[i] == ':'
  }

  /** Exactly which texts are given to the name service. */
  predicate IsLookedUp(s: string, af: int) {
    && s != "" && (af == 0 || KnownFamily(af)) && !HasColon(s) && !(af == AF_INET && HexShaped(s))
    && (af == AF_INET6 || LooksLikeName(s))
  }

  /**
    A text that is looked up gets the answer of the name service for its family,
    or for no family the IPv6 address if there is one; no other text depends on it.
   */
  lemma LookedUpExactly(s: string, af: int, lookup: Lookup, other: Lookup)
    ensures IsLookedUp(s, af) && af != 0 ==> AddrResult(s, af, lookup) == lookup(s, af)
    ensures IsLookedUp(s, af) && af == 0 ==>
      AddrResult(s, af, lookup) == if lookup(s, AF_INET6).Ok? then lookup(s, AF_INET6) else lookup(s, AF_INET)
    ensures !IsLookedUp(s, af) ==> AddrResult(s, af, lookup) == AddrResult(s, af, other)
  {
    hide LooksLikeName, Ipv4.Fields, TtoulResult, Grammar6.ColonResult;
    if s != "" {
      DottedName(s);
      assert IndexOf(s, ':') < |s| <==> HasColon(s);
    }
  }

  /** A numeric text gives an address of the family asked for, or, for none, of the one that its colons tell. */
  lemma FamilyIsKept(s: string, af: int)
    requires s != ""
    ensures BaseResult(s, af).Ok? ==>
      BaseResult(s, af).value.family == if af != 0 then af else if HasColon(s) then AF_INET6 else AF_INET
    ensures af != 0 && !KnownFamily(af) ==> BaseResult(s, af) == Err(BadFamily)
    ensures BaseResult(s, af).Ok? ==> BaseResult(s, af).value.port == 0
  {
    hide Ipv4.Fields, TtoulResult, Grammar6.ColonResult;
    assert IndexOf(s, ':') < |s| <==> HasColon(s);
  }

  // ---------- print formats ----------

  /** Format 'Q' prints all eight groups; the default format is shorter just when two zero groups stand in a row. */
  lemma FormatsDiffer(a: Address)
    requires a.family == AF_INET6
    ensures var ps := Parser6.PiecesOf(a.bytes);
      && Printed(a, 'Q') == Some(Grammar6.Join(Printer6.HexGroups(ps)))
      && Printed(a, '\0') != None && |Printed(a, '\0').value| <= |Printed(a, 'Q').value|
      && (|Printed(a, '\0').value| < |Printed(a, 'Q').value| <==> exists k :: Printer6.ZeroPair(ps, k))
  {
    hide Grammar6.Join, Printer6.HexGroups, Parser6.PiecesOf, Printer6.ZeroPair, Ipv4.Text4;
    ChosenLength(Parser6.PiecesOf(a.bytes));
  }

  lemma ChosenLength(ps: seq<Grammar6.Piece>)
    ensures Printer6.Chosen(ps, false) == Grammar6.Full(Printer6.HexGroups(ps))
    ensures var short, long := |Grammar6.Render(Printer6.Chosen(ps, true))|, |Grammar6.Join(Printer6.HexGroups(ps))|;
      short <= long && (short < long <==> exists k :: Printer6.ZeroPair(ps, k))
  {
    hide Grammar6.Join, Printer6.HexGroups, Printer6.ZeroPair;
    var i := Printer6.FirstPair(ps);
    if i < |ps| {
      GapIsShorter(ps, i);
    } else {
      NoPairThere(ps);
    }
  }

  lemma NoPairThere(ps: seq<Grammar6.Piece>)
    requires Printer6.FirstPair(ps) >= |ps|
    ensures !exists k :: Printer6.ZeroPair(ps, k)
  {
  }

  lemma GapIsShorter(ps: seq<Grammar6.Piece>, i: nat)
    requires Printer6.ZeroPair(ps, i)
    ensures var e := Printer6.RunEnd(ps, i);
      |Grammar6.Join(Printer6.HexGroups(ps[..i]))| + 2 + |Grammar6.Join(Printer6.HexGroups(ps[e..]))|
        < |Grammar6.Join(Printer6.HexGroups(ps))|
  {
    hide Grammar6.Terminated, Grammar6.Join, Digits;
    var e := Printer6.RunEnd(ps, i);
    assert e >= i + 2 by {
      Printer6.RunOfPair(ps, i);
    }
    var a, z, b := Printer6.HexGroups(ps[..i]), Printer6.HexGroups(ps[i..e]), Printer6.HexGroups(ps[e..]);
    assert Printer6.HexGroups(ps) == a + z + b;
    Grammar6.TerminatedAppend(a, z);
    Grammar6.TerminatedAppend(a + z, b);
    TwoGroups(z);
    JoinedLength(a);
    JoinedLength(b);
    JoinedLength(Printer6.HexGroups(ps));
  }

  lemma JoinedLength(gs: seq<string>)
    ensures |Grammar6.Join(gs)| == if gs == [] then 0 else |Grammar6.Terminated(gs)| - 1
    ensures gs == [] ==> Grammar6.Terminated(gs) == ""
  {
    if gs != [] {
      Grammar6.JoinTerminated(gs);
    }
  }

  lemma TwoGroups(gs: seq<string>)
    requires |gs| >= 2 && forall i :: 0 <= i < |gs| ==> gs[i] != ""
    ensures |Grammar6.Terminated(gs)| >= 4
  {
    var front := gs[1..];
    assert Grammar6.Terminated(gs) == gs[0] + ":" + Grammar6.Terminated(front);
    assert Grammar6.Terminated(front) == front[0] + ":" + Grammar6.Terminated(front[1..]);
  }
}
