/**
  Addresses and subnets as text: addrtot, ttoaddr, subnettot and ttosubnet.
  Name lookup is a parameter; the hexadecimal IPv4 forms are included.
 */
module SubnetText {
  import opened Common
  import opened NumberText
  import opened Address
  import opened Subnet
  import Grammar6 = Ipv6Grammar
  import Parser6 = Ipv6Parser
  import Printer6 = Ipv6Printer
  import Ipv4 = Ipv4Text
  import Reverse = ReverseText

  const ADDRTOT_BUF: nat := 73

  // ---------- addrtot and subnettot ----------

  /** The text of an address, in the default format or in format 'Q' (no squishing). */
  function AddrText(a: Address, squish: bool): string
    requires KnownFamily(a.family)
  {
    if a.family == AF_INET then Ipv4.Text4(a.bytes)
    else Grammar6.Render(Printer6.Chosen(Parser6.PiecesOf(a.bytes), squish))
  }

  /** As much of `s` as fits in `dstlen` cells with its NUL. */
  function Cut(s: string, dstlen: nat): (c: string)
    requires dstlen > 0
    ensures c <= s && |c| < dstlen && (c == s || |c| == dstlen - 1)
  {
    s[..Min(|s|, dstlen - 1)]
  }

  const INVALID: string := "<invalid>"

  /** What addrtot prints in a format, if it knows the family and the format. */
  function Printed(a: Address, format: char): Option<string> {
    if !KnownFamily(a.family) then None
    else if format == '\0' then Some(AddrText(a, true))
    else if format == 'Q' then Some(AddrText(a, false))
    else if format == 'r' then
      Some(if a.family == AF_INET then Reverse.Reverse4Text(a.bytes) else Reverse.Reverse6Text(a.bytes))
    else None
  }

  /** The switch of addrtot: the text is put at `p` of `buf`. */
  method FormatInto(src: Address, format: char, buf: array<char>) returns (known: bool, n: nat, p: nat)
    requires buf.Length == 1 + ADDRTOT_BUF + 1
    modifies buf
    ensures known == (Printed(src, format) != None)
    ensures known ==> HoldsCString(buf, p, Printed(src, format).value) && n == |Printed(src, format).value| + 1
  {
    hide Ipv4.Text4, Grammar6.Render, Printer6.Chosen, Parser6.PiecesOf, Reverse.Reverse4Text, Reverse.Reverse6Text;
    hide HoldsCString;
    known, n, p := true, 0, 0;
    if src.family == AF_INET && (format == '\0' || format == 'Q') {
      n := Ipv4.Normal4(src.bytes, buf);
    } else if src.family == AF_INET6 && (format == '\0' || format == 'Q') {
      n, p := Printer6.Normal6(src.bytes, buf, format == '\0');
    } else if src.family == AF_INET && format == 'r' {
      n := Reverse.Reverse4(src.bytes, buf);
    } else if src.family == AF_INET6 && format == 'r' {
      n := Reverse.Reverse6(src.bytes, buf);
    } else {
      known := false;
    }
  }

  /**
    addrtot: the room needed for the whole text, and as much of it as fits.  For
    an address or a format that it does not know it prints `<invalid>`, cut to
    `dstlen` characters and not counting the NUL behind them.
   */
  method Addrtot(src: Address, format: char, dst: array<char>, dstlen: nat) returns (n: nat)
    requires dstlen <= dst.Length && (Printed(src, format) == None ==> Min(|INVALID|, dstlen) < dst.Length)
    modifies dst
    ensures Printed(src, format) == None ==>
      && n == |INVALID| + 1 && HoldsCString(dst, 0, INVALID[..Min(|INVALID|, dstlen)])
      && SameOutside(dst, old(dst[..]), 0, Min(|INVALID|, dstlen) + 1)
    ensures Printed(src, format) != None ==>
      var text := Printed(src, format).value;
      && n == |text| + 1
      && (dstlen > 0 ==> HoldsCString(dst, 0, Cut(text, dstlen)))
      && SameOutside(dst, old(dst[..]), 0, Min(n, dstlen))
  {
    hide Printed, NulFree, Cut;
    var buf := new char[1 + ADDRTOT_BUF + 1];
    var known, p;
    known, n, p := FormatInto(src, format, buf);
    if !known {
      n := PutInvalid(dst, dstlen);
    } else {
      PrintedNulFree(src, format);
      CopyCut(buf, p, n, Printed(src, format).value, dst, dstlen);
    }
  }

  /** dst[0] = NUL, and strncat of at most `dstlen` characters. */
  method PutInvalid(dst: array<char>, dstlen: nat) returns (n: nat)
    requires Min(|INVALID|, dstlen) < dst.Length
    modifies dst
    ensures n == |INVALID| + 1 && HoldsCString(dst, 0, INVALID[..Min(|INVALID|, dstlen)])
    ensures SameOutside(dst, old(dst[..]), 0, Min(|INVALID|, dstlen) + 1)
  {
    var m := Min(|INVALID|, dstlen);
    forall i | 0 <= i < m {
      dst[i] := INVALID[i];
    }
    dst[m] := '\0';
    SliceIs(dst, 0, INVALID[..m]);
    n := |INVALID| + 1;
  }

  /** The end of addrtot: cuts the text in the buffer and copies it. */
  method CopyCut(buf: array<char>, p: nat, n: nat, ghost text: string, dst: array<char>, dstlen: nat)
    requires HoldsCString(buf, p, text) && NulFree(text) && n == |text| + 1 && dstlen <= dst.Length && buf != dst
    modifies buf, dst
    ensures dstlen > 0 ==> HoldsCString(dst, 0, Cut(text, dstlen))
    ensures SameOutside(dst, old(dst[..]), 0, Min(n, dstlen))
  {
    if dstlen > 0 {
      ghost var cut := Cut(text, dstlen);
      TextCut(buf, p, text, |cut|);
      if dstlen < n {
        ghost var before := buf[..];
        buf[p + dstlen - 1] := '\0';
        assert buf[p..p + |cut|] == before[p..p + |cut|];
      }
      StrCpy(buf, p, cut, dst, 0);
    }
  }

  /** The characters of an address: digits, colons and dots; no NUL and no slash. */
  predicate AddressChar(c: char) {
    IsDigit(c, 16) || c == ':' || c == '.'
  }

  predicate AddressChars(s: string) {
    forall i :: 0 <= i < |s| ==> AddressChar(s[i])
  }

  lemma {:induction false} TerminatedChars(gs: seq<string>)
    requires Grammar6.AllGroups(gs)
    ensures AddressChars(Grammar6.Terminated(gs))
  {
    if gs != [] {
      TerminatedChars(gs[1..]);
      assert Grammar6.IsGroup(gs[0]);
    }
  }

  lemma JoinChars(gs: seq<string>)
    requires Grammar6.AllGroups(gs)
    ensures AddressChars(Grammar6.Join(gs))
  {
    if gs != [] {
      TerminatedChars(gs[..|gs| - 1]);
      assert Grammar6.IsGroup(gs[|gs| - 1]);
    }
  }

  lemma Text6Chars(w: Grammar6.Written)
    requires Grammar6.WellFormed(w)
    ensures AddressChars(Grammar6.Render(w))
    ensures exists i :: 0 <= i < |Grammar6.Render(w)| && Grammar6.Render(w)[i] == ':'
  {
    assert AddressChar(':');
    hide AddressChar, Grammar6.Join, Grammar6.IsGroup;
    var s := Grammar6.Render(w);
    match w
    case Full(gs) =>
      JoinChars(gs);
      FullHasColon(gs);
    case Gapped(a, b) =>
      JoinChars(a);
      JoinChars(b);
      assert s[|Grammar6.Join(a)|] == ':';
  }

  lemma FullHasColon(gs: seq<string>)
    requires Grammar6.AllGroups(gs) && |gs| > 1
    ensures exists i :: 0 <= i < |Grammar6.Join(gs)| && Grammar6.Join(gs)[i] == ':'
  {
    var t := gs[..|gs| - 1];
    assert Grammar6.Terminated(t) == t[0] + ":" + Grammar6.Terminated(t[1..]);
    assert Grammar6.Join(gs)[|t[0]|] == ':';
  }

  lemma {:induction false} Text4Chars(fs: seq<string>)
    requires forall i :: 0 <= i < |fs| ==> Ipv4.IsField(fs[i])
    ensures var s := Ipv4.Render(Ipv4.Dotted(fs, false));
      AddressChars(s) && forall i :: 0 <= i < |s| ==> s[i] != ':'
  {
    if fs != [] {
      Text4Chars(fs[1..]);
      assert Ipv4.IsField(fs[0]);
      assert forall i :: 0 <= i < |fs[0]| ==> IsDigit(fs[0][i], 10);
    }
  }

  lemma AddrTextChars(a: Address, squish: bool)
    requires KnownFamily(a.family)
    ensures var s := AddrText(a, squish);
      && s != "" && AddressChars(s)
      && (a.family == AF_INET6 <==> exists i :: 0 <= i < |s| && s[i] == ':')
  {
    hide AddressChar, Grammar6.Render, Ipv4.Render, Printer6.Chosen, Parser6.PiecesOf;
    if a.family == AF_INET {
      Ipv4.BytesOfTexts(a.bytes);
      Text4Chars(Ipv4.ByteTexts(a.bytes));
      Text4NotEmpty(a.bytes);
    } else {
      var ps := Parser6.PiecesOf(a.bytes);
      Printer6.ChosenMeans(ps, squish);
      Text6Chars(Printer6.Chosen(ps, squish));
    }
  }

  lemma Text4NotEmpty(bs: seq<Byte>)
    requires |bs| == Ipv4.IP4BYTES
    ensures Ipv4.Text4(bs) != ""
  {
  }

  lemma AddrTextNulFree(a: Address, squish: bool)
    requires KnownFamily(a.family)
    ensures NulFree(AddrText(a, squish))
  {
    AddrTextChars(a, squish);
  }

  /** (unsigned long) of an int. */
  function Unsigned(x: int): nat
    requires -0x8000_0000 <= x < 0x8000_0000
    ensures Unsigned(x) <= ULONG_MAX
  {
    if x < 0 then ULONG_MAX + 1 + x else x
  }

  lemma PrintedNulFree(a: Address, format: char)
    ensures Printed(a, format) != None ==> NulFree(Printed(a, format).value)
  {
    hide AddrText, Reverse.Labels4, Reverse.Labels6;
    if KnownFamily(a.family) {
      if format == '\0' || format == 'Q' {
        AddrTextNulFree(a, format == '\0');
      } else if a.family == AF_INET {
        Reverse.LabelsNulFree(a.bytes);
      }
    }
  }

  function SubnetTextOf(s: IpSubnet): string
    requires -0x8000_0000 <= s.maskbits < 0x8000_0000
  {
    (if KnownFamily(s.addr.family) then AddrText(s.addr, true) else INVALID) + "/" + NumText(Unsigned(s.maskbits), 10)
  }

  /** What subnettot leaves in a buffer that it is told has `dstlen` cells. */
  function Shown(s: IpSubnet, dstlen: nat): string
    requires -0x8000_0000 <= s.maskbits < 0x8000_0000
    requires dstlen > 0 || !KnownFamily(s.addr.family)
  {
    if !KnownFamily(s.addr.family) && dstlen <= |INVALID| + 1 then INVALID[..Min(|INVALID|, dstlen)]
    else Cut(SubnetTextOf(s), dstlen)
  }

  /** subnettot: the room needed for the whole text, and as much of it as fits; an unknown address as addrtot has it. */
  method Subnettot(sub: IpSubnet, format: char, dst: array<char>, dstlen: nat) returns (len: nat)
    requires -0x8000_0000 <= sub.maskbits < 0x8000_0000 && dstlen <= dst.Length
    requires format == '\0' && !KnownFamily(sub.addr.family) ==> Min(|INVALID|, dstlen) < dst.Length
    modifies dst
    ensures format != '\0' ==> len == 0 && dst[..] == old(dst[..])
    ensures format == '\0' ==> len == |SubnetTextOf(sub)| + 1
    ensures format == '\0' && (dstlen > 0 || !KnownFamily(sub.addr.family)) ==>
      var t := Shown(sub, dstlen);
      HoldsCString(dst, 0, t) && SameOutside(dst, old(dst[..]), 0, if dstlen <= |t| then |t| + 1 else dstlen)
    ensures format == '\0' && dstlen == 0 && KnownFamily(sub.addr.family) ==> dst[..] == old(dst[..])
  {
    hide AddrText, NumText, Cut, HoldsCString;
    if format != '\0' {
      return 0;
    }
    ghost var known := KnownFamily(sub.addr.family);
    ghost var text := if known then AddrText(sub.addr, true) else INVALID;
    ghost var digits := NumText(Unsigned(sub.maskbits), 10);
    len := Addrtot(sub.addr, format, dst, dstlen);
    var more;
    if len < dstlen {
      WholeText(text, dstlen);
      assert INVALID[..|INVALID|] == INVALID;
      more := PrintNumber(dst, dstlen, len, Unsigned(sub.maskbits), text);
    } else {
      CutShort(text, digits, dstlen);
      more := NumberRoom(Unsigned(sub.maskbits));
    }
    len := len + more;
  }

  /** ultot into no room at all. */
  method NumberRoom(n: nat) returns (more: nat)
    requires n <= ULONG_MAX
    ensures more == |NumText(n, 10)| + 1
  {
    hide NumText;
    var none := new char[0];
    more := Ultot(n, 10, none, 0, 0);
  }

  /** The NUL behind the text becomes a slash, and the number follows. */
  method PrintNumber(dst: array<char>, dstlen: nat, len: nat, n: nat, ghost text: string) returns (more: nat)
    requires n <= ULONG_MAX && len == |text| + 1 < dstlen <= dst.Length && HoldsCString(dst, 0, text)
    modifies dst
    ensures more == |NumText(n, 10)| + 1
    ensures HoldsCString(dst, 0, Cut(text + "/" + NumText(n, 10), dstlen))
    ensures SameOutside(dst, old(dst[..]), 0, dstlen)
  {
    hide NumText, Cut;
    dst[len - 1] := '/';
    assert dst[..len - 1] == text;
    assert dst[..len] == text + "/";
    ghost var before := dst[..];
    more := Ultot(n, 10, dst, len, dstlen - len);
    CutLong(text, NumText(n, 10), dstlen);
    Joined(dst, before, len, text + "/", NumText(n, 10)[..Min(more, dstlen - len) - 1]);
  }

  lemma CutShort(text: string, digits: string, dstlen: nat)
    requires 0 < dstlen ==> |text| + 1 >= dstlen
    ensures dstlen > 0 ==> Cut(text, dstlen) == Cut(text + "/" + digits, dstlen)
  {
  }

  lemma WholeText(text: string, dstlen: nat)
    requires |text| + 1 <= dstlen
    ensures Cut(text, dstlen) == text
  {
  }

  lemma CutLong(text: string, digits: string, dstlen: nat)
    requires |text| + 1 < dstlen
    ensures Cut(text + "/" + digits, dstlen) == text + "/" + digits[..Min(|digits| + 1, dstlen - |text| - 1) - 1]
  {
  }

  lemma Joined(dst: array<char>, before: seq<char>, p: nat, front: string, tail: string)
    requires p <= dst.Length && SameOutside(dst, before, p, dst.Length)
    requires before[..p] == front && HoldsCString(dst, p, tail)
    ensures HoldsCString(dst, 0, front + tail)
  {
    assert dst[..p] == before[..p];
    assert dst[..p + |tail|] == dst[..p] + dst[p..p + |tail|];
  }

  // ---------- ttoaddr ----------

  datatype TextError =
    | EmptyText | BadFamily | ColonOutsideIpv6 | NotNumeric
    | Ipv6Error(e6: Grammar6.AddrError) | Ipv4Error(e4: Ipv4.DottedReason) | NumberError(en: NumError)
    | NoSlash | CountTooLarge | BadMask | MaskNotPermitted | SubnetError(es: InitError) | LookupFailed

  /** The index of the first `c` in `s`, or |s|: memchr. */
  function IndexOf(s: string, c: char): (i: nat)
    ensures i <= |s| && (i < |s| ==> s[i] == c)
    ensures forall k :: 0 <= k < i ==> s[k] != c
  {
    if s == "" || s[0] == c then 0 else
      var i := IndexOf(s[1..], c);
      assert forall k :: 0 < k < i + 1 ==> s[k] == s[1..][k - 1];
      i + 1
  }

  /** tryhex: eight digits in network order ('x') or in the host's, little-endian, order ('h'). */
  function HexAddress(s: string, flavor: char): Result<Address, TextError> {
    match TtoulResult(s, 16)
    case Err(e) => Err(NumberError(e))
    case Ok(v) =>
      var w := NetworkWord(v);
      Ok(IpAddress(AF_INET, if flavor == 'h' then [w[3], w[2], w[1], w[0]] else w, 0))
  }

  /** ttoaddr_base; NotNumeric is the outcome that also sets *allnumericfailed. */
  function BaseResult(s: string, af: int): Result<Address, TextError>
    requires s != ""
  {
    if af != AF_INET && af != AF_INET6 && af != 0 then Err(BadFamily)
    else if af == AF_INET && |s| == 10 && s[0] == '0' && (s[1] == 'x' || s[1] == 'X') then HexAddress(s[2..], 'x')
    else if af == AF_INET && |s| == 10 && s[0] == '0' && (s[1] == 'h' || s[1] == 'H') then HexAddress(s[2..], 'h')
    else if IndexOf(s, ':') < |s| then
      if af == AF_INET then Err(ColonOutsideIpv6)
      else match Parser6.ColonBytes(s)
        case Ok(bs) => ColonLength(s); Ok(IpAddress(AF_INET6, bs, 0))
        case Err(e) => Err(Ipv6Error(e))
    else if af == AF_INET6 then Err(NotNumeric)
    else match Ipv4.Fields(s, [])
      case Ok(bs) => DottedLength(s); Ok(IpAddress(AF_INET, bs, 0))
      case Err(e) => if e.maybeName then Err(NotNumeric) else Err(Ipv4Error(e.reason))
  }

  lemma ColonLength(s: string)
    requires s != ""
    ensures Parser6.ColonBytes(s).Ok? ==> |Parser6.ColonBytes(s).value| == 16
  {
    if Grammar6.ColonResult(s).Ok? {
      var w := Grammar6.AcceptedIsWritten(s);
    }
  }

  lemma DottedLength(s: string)
    ensures Ipv4.Fields(s, []).Ok? ==> |Ipv4.Fields(s, []).value| == 4
  {
    if Ipv4.Fields(s, []).Ok? {
      var d := Ipv4.AcceptedIsDotted(s, []);
    }
  }

  method TtoaddrBase(src: string, srclen: nat, af: int) returns (r: Result<Address, TextError>)
    requires 0 < srclen <= |src|
    ensures r == BaseResult(src[..srclen], af)
  {
    hide Grammar6.ColonResult, Ipv4.Fields, TtoulResult;
    ghost var s := src[..srclen];
    if af != AF_INET && af != AF_INET6 && af != 0 {
      return Err(BadFamily);
    }
    if af == AF_INET && srclen == 10 && src[0] == '0' {
      assert src[2..][..8] == s[2..];
      if src[1] == 'x' || src[1] == 'X' {
        r := Tryhex(src[2..], 'x');
        return;
      }
      if src[1] == 'h' || src[1] == 'H' {
        r := Tryhex(src[2..], 'h');
        return;
      }
    }
    if IndexOf(src[..srclen], ':') < srclen {
      var family := if af == 0 then AF_INET6 else af;
      if family != AF_INET6 {
        return Err(ColonOutsideIpv6);
      }
      var bytes := Parser6.Colon(src, srclen);
      ColonLength(s);
      match bytes {
        case Ok(bs) => return Ok(IpAddress(AF_INET6, bs, 0));
        case Err(e) => return Err(Ipv6Error(e));
      }
    }
    if af == 0 || af == AF_INET {
      var bytes := Ipv4.Trydotted(src, srclen);
      DottedLength(s);
      match bytes {
        case Ok(bs) => return Ok(IpAddress(AF_INET, bs, 0));
        case Err(e) =>
          if !e.maybeName {
            return Err(Ipv4Error(e.reason));
          }
      }
    }
    return Err(NotNumeric);
  }

  method Tryhex(src: string, flavor: char) returns (r: Result<Address, TextError>)
    requires |src| >= 8
    ensures r == HexAddress(src[..8], flavor)
  {
    hide TtoulResult;
    var ul := Ttoul(src, 8, 16);
    match ul {
      case Err(e) => return Err(NumberError(e));
      case Ok(v) =>
        var w := NetworkWord(v);
        return Ok(IpAddress(AF_INET, if flavor == 'h' then [w[3], w[2], w[1], w[0]] else w, 0));
    }
  }

  /** What a name stands for in a family: the answer of the name service. */
  type Lookup = (string, int) -> Result<Address, TextError>

  /** ttoaddr: a text that is not numeric is looked up, an IPv6 address being preferred. */
  function AddrResult(s: string, af: int, lookup: Lookup): Result<Address, TextError> {
    if s == "" then Err(EmptyText)
    else
      var r := BaseResult(s, af);
      if r != Err(NotNumeric) then r
      else if af == 0 && lookup(s, AF_INET6).Ok? then lookup(s, AF_INET6)
      else lookup(s, if af == 0 then AF_INET else af)
  }

  method Ttoaddr(src: string, srclen0: nat, af: int, lookup: Lookup) returns (r: Result<Address, TextError>)
    requires srclen0 <= |src|
    ensures r == AddrResult(Text(src, srclen0), af, lookup)
  {
    hide BaseResult;
    var srclen := srclen0;
    if srclen == 0 {
      srclen := Strlen(src);
      if srclen == 0 {
        return Err(EmptyText);
      }
    }
    r := TtoaddrBase(src, srclen, af);
    if r == Err(NotNumeric) {
      if af == 0 {
        r := lookup(src[..srclen], AF_INET6);
        if r.Err? {
          r := lookup(src[..srclen], AF_INET);
        }
      } else {
        r := lookup(src[..srclen], af);
      }
    }
  }

  // ---------- ttosubnet ----------

  /** The bit count that a mask text stands for; only an IPv4 mask may be written as an address. */
  ghost function MaskResult(s: string, af: int): Result<nat, TextError> {
    match TtoulResult(s, 10)
    case Ok(bc) => if bc > (if af == AF_INET then 32 else 128) then Err(CountTooLarge) else Ok(bc)
    case Err(_) =>
      if af != AF_INET then Err(MaskNotPermitted)
      else if s == "" then Err(EmptyText)
      else match BaseResult(s, AF_INET)
        case Err(e) => Err(e)
        case Ok(m) => if CountResult(m.bytes) < 0 then Err(BadMask) else Ok(CountResult(m.bytes))
  }

  ghost function Assembled(addr: Address, mask: string, af: int): Result<IpSubnet, TextError> {
    match MaskResult(mask, af)
    case Err(e) => Err(e)
    case Ok(bc) => Cleared(addr, bc)
  }

  function Cleared(addr: Address, bc: nat): Result<IpSubnet, TextError> {
    match InitResult(addr, bc, '0')
    case Err(e) => Err(SubnetError(e))
    case Ok(sub) => Ok(sub)
  }

  /**
    What follows the slash: a mask and, after a colon, a port.  Where either is
    empty its length is 0, which ttoul takes for "up to the NUL".
   */
  ghost function MaskAndPort(addr: Address, mask: string, mlen: nat, af: int): Result<IpSubnet, TextError>
    requires mlen <= |mask|
  {
    var colon := IndexOf(mask[..mlen], ':');
    if colon == mlen then Assembled(addr.(port := 0), Text(mask, mlen), af)
    else match TtoulResult(Text(mask[colon + 1..], mlen - colon - 1), 0)
      case Err(e) => Err(NumberError(e))
      case Ok(port) => Assembled(addr.(port := port % USHORT_SPAN), Text(mask, colon), af)
  }

  ghost function SubnetResult(src: string, srclen: nat, af: int, lookup: Lookup): Result<IpSubnet, TextError>
    requires srclen <= |src|
  {
    var slash := IndexOf(src[..srclen], '/');
    if slash == srclen then Err(NoSlash)
    else match AddrResult(Text(src, slash), af, lookup)
      case Err(e) => Err(e)
      case Ok(addr) => MaskAndPort(addr, src[slash + 1..], srclen - slash - 1, af)
  }

  const DEFAULT_SUBNET: string := "%default"

  /** ttosubnet on a text: the default subnet stands for everything. */
  ghost function TtosubnetResult(src: string, srclen0: nat, af: int, lookup: Lookup): Result<IpSubnet, TextError>
    requires srclen0 <= |src|
  {
    var text := Text(src, srclen0);
    if text == "" then Err(EmptyText)
    else if af != AF_INET && af != AF_INET6 then Err(BadFamily)
    else if text == DEFAULT_SUBNET then
      if af == AF_INET then SubnetResult("0/0", 3, af, lookup) else SubnetResult("::/0", 4, af, lookup)
    else SubnetResult(src, |text|, af, lookup)
  }

  method ParseMask(mask: string, mlen: nat, af: int) returns (r: Result<nat, TextError>)
    requires mlen <= |mask| && (af == AF_INET || af == AF_INET6)
    ensures r == MaskResult(Text(mask, mlen), af)
  {
    hide BaseResult, TtoulResult, CountResult;
    var nbits := if af == AF_INET then 32 else 128;
    var bc := Ttoul(mask, mlen, 10);
    if bc.Ok? {
      if bc.value > nbits {
        return Err(CountTooLarge);
      }
      return Ok(bc.value);
    }
    if af != AF_INET {
      return Err(MaskNotPermitted);
    }
    var len := if mlen == 0 then Strlen(mask) else mlen;
    if len == 0 {
      return Err(EmptyText);
    }
    var masktmp := TtoaddrBase(mask, len, af);
    if masktmp.Err? {
      return Err(masktmp.error);
    }
    var i := Masktocount(masktmp.value);
    if i < 0 {
      return Err(BadMask);
    }
    return Ok(i);
  }

  method Ttosubnet(src0: string, srclen0: nat, af: int, lookup: Lookup) returns (r: Result<IpSubnet, TextError>)
    requires srclen0 <= |src0|
    ensures r == TtosubnetResult(src0, srclen0, af, lookup)
  {
    hide SubnetResult;
    var src, srclen := src0, srclen0;
    if srclen == 0 {
      srclen := Strlen(src);
    }
    if srclen == 0 {
      return Err(EmptyText);
    }
    if af != AF_INET && af != AF_INET6 {
      return Err(BadFamily);
    }
    if src[..srclen] == DEFAULT_SUBNET {
      src := if af == AF_INET then "0/0" else "::/0";
      srclen := |src|;
      assert src[..srclen] == src;
    }
    r := FromSlash(src, srclen, af, lookup);
  }

  /** ttosubnet from the search for the slash on. */
  method FromSlash(src: string, srclen: nat, af: int, lookup: Lookup) returns (r: Result<IpSubnet, TextError>)
    requires srclen <= |src| && (af == AF_INET || af == AF_INET6)
    ensures r == SubnetResult(src, srclen, af, lookup)
  {
    hide AddrResult, MaskAndPort, IndexOf;
    var slash := IndexOf(src[..srclen], '/');
    if slash == srclen {
      return Err(NoSlash);
    }
    var addrtmp := Ttoaddr(src, slash, af, lookup);
    match addrtmp {
      case Err(e) => r := Err(e);
      case Ok(addr) => r := FinishSubnet(addr, src[slash + 1..], srclen - slash - 1, af);
    }
  }

  /** The part of ttosubnet after the address: the port, then the mask. */
  method FinishSubnet(addr: Address, mask: string, mlen0: nat, af: int) returns (r: Result<IpSubnet, TextError>)
    requires mlen0 <= |mask| && (af == AF_INET || af == AF_INET6)
    ensures r == MaskAndPort(addr, mask, mlen0, af)
  {
    hide TtoulResult, MaskResult, InitResult;
    var addrtmp, mlen := addr, mlen0;
    var colon := IndexOf(mask[..mlen], ':');
    if colon == mlen {
      addrtmp := addrtmp.(port := 0);
    } else {
      var port := Ttoul(mask[colon + 1..], mlen - colon - 1, 0);
      if port.Err? {
        return Err(NumberError(port.error));
      }
      addrtmp := addrtmp.(port := port.value % USHORT_SPAN);
      mlen := colon;
    }
    var bc := ParseMask(mask, mlen, af);
    if bc.Err? {
      return Err(bc.error);
    }
    var made := Initsubnet(addrtmp, bc.value, '0');
    match made {
      case Ok(sub) => r := Ok(sub);
      case Err(e) => r := Err(SubnetError(e));
    }
  }

  // ---------- round trips ----------

  lemma IndexFound(a: string, c: char, b: string)
    requires forall k :: 0 <= k < |a| ==> a[k] != c
    ensures IndexOf(a + [c] + b, c) == |a|
  {
    var s := a + [c] + b;
    assert s[|a|] == c && forall k :: 0 <= k < |a| ==> s[k] == a[k];
  }

  lemma StrlenOfNulFree(s: string)
    requires NulFree(s)
    ensures Text(s, 0) == s
  {
  }

  /** Parsing a printed address gives it back, without its port. */
  lemma AddressRoundTrip(a: Address, squish: bool, lookup: Lookup)
    requires KnownFamily(a.family)
    ensures AddrResult(AddrText(a, squish), a.family, lookup) == Ok(IpAddress(a.family, a.bytes, 0))
    ensures AddrResult(AddrText(a, squish), 0, lookup) == Ok(IpAddress(a.family, a.bytes, 0))
  {
    hide Grammar6.Render, Ipv4.Text4, Printer6.Chosen, Parser6.PiecesOf, Ipv4.Fields, Grammar6.ColonResult, AddressChar;
    var s := AddrText(a, squish);
    AddrTextChars(a, squish);
    if a.family == AF_INET {
      Ipv4.Ipv4RoundTrip(a.bytes);
      NotHex(s);
    } else {
      Printer6.Ipv6RoundTrip(a.bytes, squish);
    }
  }

  /** No address text looks like a hexadecimal one. */
  lemma NotHex(s: string)
    requires AddressChars(s)
    ensures forall i :: 0 <= i < |s| ==> s[i] != 'x' && s[i] != 'X' && s[i] != 'h' && s[i] != 'H' && s[i] != '/'
  {
    forall i | 0 <= i < |s|
      ensures s[i] != 'x' && s[i] != 'X' && s[i] != 'h' && s[i] != 'H' && s[i] != '/'
    {
      assert AddressChar(s[i]);
    }
  }

  lemma MaskText(m: nat)
    requires m <= 128
    ensures var d := NumText(m, 10); AllDigits(d, 10) && NulFree(d) && TtoulResult(d, 10) == Ok(m)
    ensures IndexOf(NumText(m, 10), ':') == |NumText(m, 10)|
  {
    hide Digits, TtoulResult;
    NumberRoundTrip(m);
    var d := NumText(m, 10);
    forall k | 0 <= k < |d|
      ensures d[k] != ':'
    {
      assert IsDigit(d[k], 10);
    }
  }

  /**
    Printing a subnet and parsing the text clears its host bits and keeps its
    mask, for both ways of giving the length.
   */
  lemma SubnetRoundTrip(a: Address, m: nat, lookup: Lookup, whole: bool)
    requires KnownFamily(a.family) && m <= 8 * |a.bytes|
    ensures var s := SubnetTextOf(IpSubnet(a, m));
      TtosubnetResult(s, if whole then 0 else |s|, a.family, lookup)
        == Ok(IpSubnet(IpAddress(a.family, Masked(a.bytes, m), 0), m))
  {
    hide AddrText, NumText, SubnetTextOf, Masked, NulFree, IndexOf, AddrResult;
    hide TtosubnetResult, SubnetResult, MaskAndPort, Unsigned;
    var text, digits := AddrText(a, true), NumText(m, 10);
    var s, addr := SubnetTextOf(IpSubnet(a, m)), IpAddress(a.family, a.bytes, 0);
    SubnetTextShape(a, m);
    AddressRoundTrip(a, true, lookup);
    SplitAtSlash(s, text, digits, a.family, lookup, addr);
    MaskPart(addr, m);
    WholeOrCounted(s, a.family, lookup, whole);
  }

  /** A text that is not the default subnet, with its length given or left to strlen. */
  lemma WholeOrCounted(s: string, af: int, lookup: Lookup, whole: bool)
    requires NulFree(s) && s != "" && s[0] != '%' && (af == AF_INET || af == AF_INET6)
    ensures TtosubnetResult(s, if whole then 0 else |s|, af, lookup) == SubnetResult(s, |s|, af, lookup)
  {
    hide SubnetResult, NulFree;
    StrlenOfNulFree(s);
    assert s[..|s|] == s;
  }

  lemma SplitAtSlash(s: string, text: string, digits: string, af: int, lookup: Lookup, addr: Address)
    requires s == text + "/" + digits && text != "" && IndexOf(s, '/') == |text|
    requires AddrResult(text, af, lookup) == Ok(addr)
    ensures SubnetResult(s, |s|, af, lookup) == MaskAndPort(addr, digits, |digits|, af)
  {
    hide AddrResult, MaskAndPort, IndexOf;
    assert s[..|s|] == s;
    assert s[..|text|] == text && s[|text| + 1..] == digits;
  }

  lemma MaskPart(addr: Address, m: nat)
    requires KnownFamily(addr.family) && m <= 8 * |addr.bytes| && addr.port == 0
    ensures MaskAndPort(addr, NumText(m, 10), |NumText(m, 10)|, addr.family)
      == Ok(IpSubnet(IpAddress(addr.family, Masked(addr.bytes, m), 0), m))
  {
    hide NumText, TtoulResult, Masked, IndexOf, NulFree;
    MaskText(m);
    var digits := NumText(m, 10);
    assert digits[..|digits|] == digits;
  }

  lemma SubnetTextShape(a: Address, m: nat)
    requires KnownFamily(a.family) && m <= 8 * |a.bytes|
    ensures var s, text := SubnetTextOf(IpSubnet(a, m)), AddrText(a, true);
      && s == text + "/" + NumText(m, 10) && text != ""
      && NulFree(s) && s[0] != '%' && IndexOf(s, '/') == |text|
  {
    hide AddrText, NumText, AddressChar;
    var text, digits := AddrText(a, true), NumText(m, 10);
    var s := SubnetTextOf(IpSubnet(a, m));
    assert s == text + "/" + digits;
    AddrTextChars(a, true);
    AddrTextNulFree(a, true);
    assert NulFree(s);
    NotHex(text);
    assert s[0] != '%' by {
      assert AddressChar(text[0]);
      NotPercent(text[0]);
    }
    IndexFound(text, '/', digits);
  }

  lemma NotPercent(c: char)
    requires AddressChar(c)
    ensures c != '%'
  {
  }

  /** A network is printed and parsed back unchanged, and so is whatever a text was parsed to. */
  lemma NetworkRoundTrip(n: IpSubnet, lookup: Lookup)
    requires KnownFamily(n.addr.family) && 0 <= n.maskbits <= 8 * |n.addr.bytes|
    requires n.addr.port == 0 && !HostBitsOn(n.addr.bytes, n.maskbits)
    ensures var s := SubnetTextOf(n); TtosubnetResult(s, |s|, n.addr.family, lookup) == Ok(n)
  {
    hide TtosubnetResult, SubnetTextOf, Masked, BitAt;
    SubnetRoundTrip(n.addr, n.maskbits, lookup, false);
    StrictInitSubnet(n.addr, n.maskbits);
  }

  lemma PrintingParsedIsIdempotent(a: Address, m: nat, lookup: Lookup)
    requires KnownFamily(a.family) && m <= 8 * |a.bytes|
    ensures var n := IpSubnet(IpAddress(a.family, Masked(a.bytes, m), 0), m);
      var s := SubnetTextOf(n); TtosubnetResult(s, |s|, a.family, lookup) == Ok(n)
  {
    hide TtosubnetResult, SubnetTextOf, BitAt;
    NetworkRoundTrip(IpSubnet(IpAddress(a.family, Masked(a.bytes, m), 0), m), lookup);
  }
}
