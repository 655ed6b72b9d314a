/**
  Numbers as text (ultot.c, ttoul.c).  `unsigned long` has 64 bits.
 */
module NumberText {
  import opened Common

  const ULONG_MAX: nat := 0xFFFF_FFFF_FFFF_FFFF
  const HEX_WIDTH: nat := 8        // HEX32
  const BUFFER_SIZE: nat := 25     // 3*sizeof(unsigned long) + 1
  const LETTER_D: int := 100       // 'd', 'x' and 'o' as values of an int parameter
  const LETTER_X: int := 120
  const LETTER_O: int := 111

  // ---------- positional notation ----------

  /** The number bases that the two functions compute in. */
  type Base = b: int | b == 8 || b == 10 || b == 16 witness 10

  function Quot(n: nat, b: Base): (q: nat)
    ensures n < b <==> q == 0
    ensures q > 0 ==> q < n
  {
    if b == 8 then n / 8 else if b == 10 then n / 10 else n / 16
  }

  function Rem(n: nat, b: Base): (r: nat)
    ensures r < b && Scale(Quot(n, b), b) + r == n
    ensures n < b ==> r == n
  {
    if b == 8 then n % 8 else if b == 10 then n % 10 else n % 16
  }

  function Scale(n: nat, b: Base): (r: nat)
    ensures r >= n && (n > 0 ==> r >= b)
  {
    if b == 8 then n * 8 else if b == 10 then n * 10 else n * 16
  }

  function Pow(b: Base, e: nat): (p: nat)
    ensures p > 0
  {
    if e == 0 then 1 else Scale(Pow(b, e - 1), b)
  }

  function DigitChar(d: nat): (c: char)
    requires d < 16
    ensures CharValue(c) == d && c != '\0' && (c == '0' ==> d == 0)
  {
    if d < 10 then '0' + d as char else 'a' + (d - 10) as char
  }

  /** The value of a digit in either case, or -1. */
  function CharValue(c: char): int {
    if '0' <= c <= '9' then c as int - '0' as int
    else if 'a' <= c <= 'f' then c as int - 'a' as int + 10
    else if 'A' <= c <= 'F' then c as int - 'A' as int + 10
    else -1
  }

  predicate IsDigit(c: char, b: Base) {
    0 <= CharValue(c) < b
  }

  predicate AllDigits(s: string, b: Base) {
    forall i :: 0 <= i < |s| ==> IsDigit(s[i], b)
  }

  /** `n` in base `b`, most significant digit first, without leading zeros. */
  function Digits(n: nat, b: Base): (s: string)
    ensures s != "" && AllDigits(s, b) && NulFree(s)
    ensures s[0] == '0' ==> s == "0" && n == 0
  {
    var last := [DigitChar(Rem(n, b))];
    if Quot(n, b) == 0 then last else Digits(Quot(n, b), b) + last
  }

  const DIGITS: string := "0123456789abcdef"

  /** The digits printed are those of the table, so the letters are small. */
  lemma {:induction false} DigitsAreSmall(n: nat, b: Base)
    ensures forall i :: 0 <= i < |Digits(n, b)| ==> Digits(n, b)[i] == DIGITS[CharValue(Digits(n, b)[i])]
  {
    var s, last := Digits(n, b), DigitChar(Rem(n, b));
    assert last == DIGITS[CharValue(last)];
    if Quot(n, b) > 0 {
      DigitsAreSmall(Quot(n, b), b);
      assert s == Digits(Quot(n, b), b) + [last];
    }
  }

  /** The number that a digit string denotes. */
  function Value(s: string, b: Base): nat
    requires AllDigits(s, b)
  {
    if s == "" then 0 else Scale(Value(s[..|s| - 1], b), b) + CharValue(s[|s| - 1])
  }

  lemma {:induction false} DigitsLength(n: nat, b: Base, k: nat)
    requires n < Pow(b, k) && k > 0
    ensures |Digits(n, b)| <= k
  {
    if k > 1 && n >= b {
      DigitsLength(Quot(n, b), b, k - 1);
    } else if k == 1 {
      assert Pow(b, k) == Scale(Pow(b, 0), b);
    }
  }

  lemma {:induction false} ValueOfDigits(n: nat, b: Base)
    ensures Value(Digits(n, b), b) == n
  {
    var s := Digits(n, b);
    if Quot(n, b) == 0 {
      assert s[..|s| - 1] == "";
    } else {
      ValueOfDigits(Quot(n, b), b);
      assert s[..|s| - 1] == Digits(Quot(n, b), b);
    }
  }

  /** Leading zeros do not change the value. */
  lemma {:induction false} ValueOfPadded(zeros: string, s: string, b: Base)
    requires (forall i :: 0 <= i < |zeros| ==> zeros[i] == '0') && AllDigits(s, b)
    ensures AllDigits(zeros + s, b) && Value(zeros + s, b) == Value(s, b)
  {
    var t := zeros + s;
    if s != "" {
      ValueOfPadded(zeros, s[..|s| - 1], b);
      assert t[..|t| - 1] == zeros + s[..|s| - 1];
    } else if zeros != "" {
      ValueOfPadded(zeros[..|zeros| - 1], "", b);
      assert t[..|t| - 1] == zeros[..|zeros| - 1] + "";
    }
  }

  /** A prefix never denotes a larger number. */
  lemma {:induction false} ValueGrows(s: string, i: nat, b: Base)
    requires i <= |s| && AllDigits(s, b)
    ensures Value(s[..i], b) <= Value(s, b)
    decreases |s|
  {
    if i < |s| {
      ValueGrows(s[..|s| - 1], i, b);
      assert s[..|s| - 1][..i] == s[..i];
    } else {
      assert s[..i] == s;
    }
  }

  // ---------- ultot ----------

  predicate Supported(base: int) {
    base in {8, 10, 16, 17, LETTER_D, LETTER_X, LETTER_O}
  }

  /** What `ultot` prints for each supported base. */
  function NumText(n: nat, base: int): (s: string)
    requires Supported(base)
    ensures s != "" && NulFree(s)
  {
    if base == 10 || base == LETTER_D then Digits(n, 10)
    else if base == 16 then Digits(n, 16)
    else if base == 17 then Repeat('0', HEX_WIDTH - Min(HEX_WIDTH, |Digits(n, 16)|)) + Digits(n, 16)
    else if base == LETTER_X then "0x" + Digits(n, 16)
    else if base == 8 then Digits(n, 8)
    else "0" + Digits(n, 8)
  }

  lemma Powers()
    ensures Pow(10, 20) == 100_000_000_000_000_000_000
    ensures Pow(16, 16) == ULONG_MAX + 1
  {
    assert Pow(10, 10) == 10_000_000_000;
    assert Pow(16, 8) == 0x1_0000_0000;
  }

  lemma PowersOfEight()
    ensures Pow(8, 22) == 0x4_0000_0000_0000_0000
  {
    assert Pow(8, 11) == 0x2_0000_0000;
  }

  lemma DigitsFit(n: nat)
    requires n <= ULONG_MAX
    ensures |Digits(n, 10)| <= 20 && |Digits(n, 16)| <= 16 && |Digits(n, 8)| <= 22
  {
    hide Digits, Pow;
    Powers();
    PowersOfEight();
    DigitsLength(n, 10, 20);
    DigitsLength(n, 16, 16);
    DigitsLength(n, 8, 22);
  }

  lemma LastDigit(n: nat, b: Base)
    ensures Digits(n, b) == (if Quot(n, b) == 0 then "" else Digits(Quot(n, b), b)) + [DigitChar(Rem(n, b))]
  {
  }

  /** The do-while loop of each case: the digits of `n0` end up just before `buf[p0]`. */
  method EmitDigits(n0: nat, b: Base, buf: array<char>, p0: nat) returns (p: nat)
    requires |Digits(n0, b)| <= p0 <= buf.Length
    modifies buf
    ensures p + |Digits(n0, b)| == p0 && buf[p..p0] == Digits(n0, b)
    ensures SameOutside(buf, old(buf[..]), p, p0)
  {
    hide Digits, Quot, Rem;
    var n := n0;
    p := p0;
    while true
      invariant p <= p0 <= buf.Length
      invariant |Digits(n, b)| <= p
      invariant Digits(n0, b) == Digits(n, b) + buf[p..p0]
      invariant SameOutside(buf, old(buf[..]), p, p0)
      decreases n
    {
      ghost var done := buf[p..p0];
      LastDigit(n, b);
      p := p - 1;
      buf[p] := DigitChar(Rem(n, b));
      assert buf[p..p0] == [DigitChar(Rem(n, b))] + done;
      if Quot(n, b) == 0 {
        break;
      }
      n := Quot(n, b);
    }
  }

  method Prepend(buf: array<char>, p0: nat, c: char, ghost t: string) returns (p: nat)
    requires 0 < p0 && HoldsCString(buf, p0, t)
    modifies buf
    ensures p == p0 - 1 && HoldsCString(buf, p, [c] + t)
  {
    p := p0 - 1;
    buf[p] := c;
    assert buf[p..p0 + |t|] == [c] + buf[p0..p0 + |t|];
  }

  /** The switch of ultot: the text ends up just before the NUL in the last cell of `buf`. */
  method Convert(n: nat, base: int, buf: array<char>) returns (p: nat)
    requires n <= ULONG_MAX && Supported(base) && buf.Length == BUFFER_SIZE
    modifies buf
    ensures p + |NumText(n, base)| == BUFFER_SIZE - 1
    ensures HoldsCString(buf, p, NumText(n, base))
  {
    hide Digits;
    var bufend := BUFFER_SIZE;
    DigitsFit(n);
    p := bufend - 1;
    buf[p] := '\0';
    if base == 10 || base == LETTER_D {
      p := EmitDigits(n, 10, buf, p);
    } else if base == 16 || base == 17 || base == LETTER_X {
      p := EmitDigits(n, 16, buf, p);
      if base == 17 {
        p := PadToWidth(buf, p, Digits(n, 16));
      }
      if base == LETTER_X {
        p := Prepend(buf, p, 'x', Digits(n, 16));
        p := Prepend(buf, p, '0', "x" + Digits(n, 16));
        assert "0x" + Digits(n, 16) == "0" + ("x" + Digits(n, 16));
      }
    } else {
      p := EmitDigits(n, 8, buf, p);
      if base == LETTER_O {
        p := Prepend(buf, p, '0', Digits(n, 8));
      }
    }
  }

  /** The padding loop of base 17. */
  method PadToWidth(buf: array<char>, p0: nat, ghost digits: string) returns (p: nat)
    requires buf.Length == BUFFER_SIZE && p0 + |digits| == BUFFER_SIZE - 1
    requires HoldsCString(buf, p0, digits)
    modifies buf
    ensures p <= p0 && p0 - p == HEX_WIDTH - Min(HEX_WIDTH, |digits|)
    ensures HoldsCString(buf, p, Repeat('0', p0 - p) + digits)
  {
    hide HoldsCString, Repeat;
    p := p0;
    NoZeros(digits);
    while BUFFER_SIZE - p < HEX_WIDTH + 1
      invariant p <= p0 && p0 - p <= HEX_WIDTH - Min(HEX_WIDTH, |digits|)
      invariant HoldsCString(buf, p, Repeat('0', p0 - p) + digits)
    {
      ZerosGrow(p0 - p, digits);
      p := Prepend(buf, p, '0', Repeat('0', p0 - p) + digits);
    }
  }

  lemma NoZeros(t: string)
    ensures Repeat('0', 0) + t == t
  {
  }

  lemma ZerosGrow(k: nat, t: string)
    ensures "0" + (Repeat('0', k) + t) == Repeat('0', k + 1) + t
  {
  }

  lemma TextCut(a: array<char>, p: nat, t: string, m: nat)
    requires HoldsCString(a, p, t) && m <= |t|
    ensures a[p..p + m] == t[..m]
  {
    assert a[p..p + |t|][..m] == a[p..p + m];
  }

  /**
    ultot: the return value is the room the whole conversion needs; the text is
    cut to `dstlen`, and `dst` is not touched when `dstlen` is 0 or the base unknown.
   */
  method Ultot(n: nat, base: int, dst: array<char>, at: nat, dstlen: nat) returns (len: nat)
    requires n <= ULONG_MAX
    requires dstlen > 0 ==> at + dstlen <= dst.Length
    modifies dst
    ensures len == if Supported(base) then |NumText(n, base)| + 1 else 0
    ensures Supported(base) && dstlen > 0 ==>
      HoldsCString(dst, at, NumText(n, base)[..Min(len, dstlen) - 1])
    ensures SameOutside(dst, old(dst[..]), at, at + Min(len, dstlen))
  {
    hide NumText;
    if !Supported(base) {
      return 0;
    }
    var buf := new char[BUFFER_SIZE];
    var p := Convert(n, base, buf);
    len := BUFFER_SIZE - p;
    if dstlen > 0 {
      ghost var cut := NumText(n, base)[..Min(len, dstlen) - 1];
      TextCut(buf, p, NumText(n, base), |cut|);
      if len > dstlen {
        buf[p + dstlen - 1] := '\0';
      }
      StrCpy(buf, p, cut, dst, at);
    }
  }

  // ---------- ttoul ----------

  datatype NumError = EmptyString | UnsupportedBase | NonHexDigit | HexTooLong | NonDigit | Overflow

  /** The length of the longest prefix made of base-`b` digits. */
  function DigitPrefix(s: string, b: Base): (k: nat)
    ensures k <= |s| && AllDigits(s[..k], b)
    ensures k < |s| ==> !IsDigit(s[k], b)
  {
    if s == "" || !IsDigit(s[0], b) then 0 else
      var k := DigitPrefix(s[1..], b);
      assert forall i :: 0 < i < k + 1 ==> s[i] == s[1..][..k][i - 1];
      k + 1
  }

  lemma {:induction false} DigitPrefixAtLeast(s: string, k: nat, b: Base)
    requires k <= |s| && forall i :: 0 <= i < k ==> IsDigit(s[i], b)
    ensures DigitPrefix(s, b) >= k
  {
    if k > 0 {
      DigitPrefixAtLeast(s[1..], k - 1, b);
    }
  }

  lemma {:induction false} DigitPrefixIs(s: string, k: nat, b: Base)
    requires k <= |s| && (forall i :: 0 <= i < k ==> IsDigit(s[i], b)) && (k < |s| ==> !IsDigit(s[k], b))
    ensures DigitPrefix(s, b) == k
  {
    if k > 0 {
      DigitPrefixIs(s[1..], k - 1, b);
    }
  }

  /** Bases 8 and 10: an overflow is seen only while the digits last. */
  function DecimalResult(s: string, b: Base): Result<nat, NumError> {
    var k := DigitPrefix(s, b);
    if Value(s[..k], b) > ULONG_MAX then Err(Overflow)
    else if k < |s| then Err(NonDigit)
    else Ok(Value(s[..k], b))
  }

  /**
    The digit that strchr finds.  The search runs over the terminating NUL of
    the digit table too, so a NUL in the text counts as digit 16.
   */
  function HexIndex(c: char): int {
    if c == '\0' then 16 else CharValue(c)
  }

  /** (r << 4) | d, in 64 bits. */
  function ShiftIn(r: nat, d: nat): nat
    requires d <= 16
  {
    var shifted := r * 16 % (ULONG_MAX + 1);
    if d < 16 then shifted + d
    else if shifted / 16 % 2 == 1 then shifted else shifted + 16
  }

  function HexAccumulate(s: string): nat
    requires forall i :: 0 <= i < |s| ==> HexIndex(s[i]) >= 0
  {
    if s == "" then 0 else ShiftIn(HexAccumulate(s[..|s| - 1]), HexIndex(s[|s| - 1]))
  }

  function HexResult(s: string): Result<nat, NumError> {
    if exists i :: 0 <= i < |s| && HexIndex(s[i]) < 0 then Err(NonHexDigit)
    else if |s| > 16 then Err(HexTooLong)
    else Ok(HexAccumulate(s))
  }

  function TtoulResult(s: string, base: int): Result<nat, NumError>
    decreases base == 0
  {
    if s == "" then Err(EmptyString)
    else if base == 0 then
      if |s| > 2 && s[0] == '0' && (s[1] == 'x' || s[1] == 'X') then TtoulResult(s[2..], 16)
      else if |s| > 1 && s[0] == '0' then TtoulResult(s[1..], 8)
      else TtoulResult(s, 10)
    else if base != 8 && base != 10 && base != 16 then Err(UnsupportedBase)
    else if base == 16 then HexResult(s)
    else DecimalResult(s, base)
  }

  method Ttoul(src: string, srclen0: nat, base: int) returns (r: Result<nat, NumError>)
    requires srclen0 <= |src|
    ensures r == TtoulResult(Text(src, srclen0), base)
    decreases base == 0
  {
    var srclen := srclen0;
    if srclen == 0 {
      srclen := Strlen(src);
    }
    if srclen == 0 {
      return Err(EmptyString);
    }
    var s := src[..srclen];
    if base == 0 {
      if srclen > 2 && src[0] == '0' && (src[1] == 'x' || src[1] == 'X') {
        assert src[2..][..srclen - 2] == s[2..];
        r := Ttoul(src[2..], srclen - 2, 16);
        return;
      }
      if srclen > 1 && src[0] == '0' {
        assert src[1..][..srclen - 1] == s[1..];
        r := Ttoul(src[1..], srclen - 1, 8);
        return;
      }
      r := Ttoul(src, srclen, 10);
      return;
    }
    if base != 8 && base != 10 && base != 16 {
      return Err(UnsupportedBase);
    }
    if base == 16 {
      r := ScanHex(s);
    } else {
      r := ScanDecimal(s, base);
    }
  }

  /** The loop of base 16; the length is checked last, to report bad digits first. */
  method ScanHex(s: string) returns (r: Result<nat, NumError>)
    ensures r == HexResult(s)
  {
    var acc := 0;
    var i := 0;
    while i < |s|
      invariant 0 <= i <= |s|
      invariant forall k :: 0 <= k < i ==> HexIndex(s[k]) >= 0
      invariant acc == HexAccumulate(s[..i])
    {
      var c := s[i];
      i := i + 1;
      var d := HexIndex(c);
      if d < 0 {
        return Err(NonHexDigit);
      }
      assert s[..i][..i - 1] == s[..i - 1];
      acc := ShiftIn(acc, d);
    }
    assert s[..i] == s;
    if |s| > 16 {
      return Err(HexTooLong);
    }
    return Ok(acc);
  }

  lemma EmptyValue(b: Base)
    ensures Value("", b) == 0
  {
  }

  lemma ValueStep(s: string, i: nat, b: Base)
    requires 0 < i <= |s| && AllDigits(s[..i - 1], b) && IsDigit(s[i - 1], b)
    ensures AllDigits(s[..i], b) && Value(s[..i], b) == Scale(Value(s[..i - 1], b), b) + CharValue(s[i - 1])
  {
    assert s[..i][..i - 1] == s[..i - 1];
  }

  /** The loop of bases 8 and 10, with its overflow guard. */
  method ScanDecimal(s: string, base: Base) returns (r: Result<nat, NumError>)
    requires base != 16
    ensures r == DecimalResult(s, base)
  {
    hide DigitPrefix, Value, Scale, Quot;
    var acc := 0;
    var i := 0;
    assert s[..i] == "" && Value("", base) == 0 by {
      EmptyValue(base);
    }
    var rlimit := Quot(ULONG_MAX, base);
    var dlimit := ULONG_MAX - Scale(rlimit, base);
    ghost var k := DigitPrefix(s, base);
    while i < |s|
      invariant 0 <= i <= k <= |s|
      invariant AllDigits(s[..i], base) && acc == Value(s[..i], base) <= ULONG_MAX
    {
      var c := s[i];
      var d := c as int - '0' as int;
      if d < 0 || d >= base {
        assert i == k;
        return Err(NonDigit);
      }
      assert IsDigit(c, base) && i < k;
      i := i + 1;
      ValueStep(s, i, base);
      OverflowGuard(acc, d, base);
      if acc > rlimit || (acc == rlimit && d > dlimit) {
        assert s[..k][..i] == s[..i];
        ValueGrows(s[..k], i, base);
        return Err(Overflow);
      }
      acc := Scale(acc, base) + d;
    }
    assert s[..i] == s;
    return Ok(acc);
  }

  /** The division test is exact: it fires just when `r*b + d` leaves 64 bits. */
  lemma OverflowGuard(r: nat, d: nat, b: Base)
    requires d < b
    ensures var rlimit := Quot(ULONG_MAX, b);
      (r > rlimit || (r == rlimit && d > ULONG_MAX - Scale(rlimit, b))) <==> Scale(r, b) + d > ULONG_MAX
  {
  }

  // ---------- what the pair promises ----------

  /** Bases 8 and 10 accept exactly the digit strings whose value fits. */
  lemma DecimalAcceptsExactly(s: string, b: Base)
    requires b == 8 || b == 10
    ensures TtoulResult(s, b).Ok? <==> s != "" && AllDigits(s, b) && Value(s, b) <= ULONG_MAX
    ensures TtoulResult(s, b).Ok? ==> TtoulResult(s, b).value == Value(s, b)
  {
    var k := DigitPrefix(s, b);
    if AllDigits(s, b) {
      assert k == |s|;
    }
    if k == |s| {
      assert s[..k] == s;
    }
  }

  /**
    Base 16 accepts one to sixteen characters, each a hexadecimal digit in either
    case or a NUL.  An accepted text is a number just when it has no NUL, and the
    result is then its value.
   */
  lemma {:induction false} HexAcceptsExactly(s: string)
    ensures TtoulResult(s, 16).Ok? <==> 1 <= |s| <= 16 && forall i :: 0 <= i < |s| ==> s[i] == '\0' || IsDigit(s[i], 16)
    ensures TtoulResult(s, 16).Ok? ==> (AllDigits(s, 16) <==> NulFree(s))
    ensures TtoulResult(s, 16).Ok? && NulFree(s) ==> TtoulResult(s, 16).value == Value(s, 16)
  {
    assert forall i :: 0 <= i < |s| ==> (HexIndex(s[i]) >= 0 <==> s[i] == '\0' || IsDigit(s[i], 16));
    if |s| <= 16 && AllDigits(s, 16) {
      HexIsValue(s);
    }
  }

  /** A text that is no number: a single NUL is read as 16. */
  lemma NulIsADigit()
    ensures TtoulResult("\0", 16) == Ok(16)
  {
    var s := "\0";
    assert s[..0] == "" && HexAccumulate("") == 0;
    assert HexIndex(s[0]) == 16 && ShiftIn(0, 16) == 16;
    assert HexAccumulate(s) == ShiftIn(HexAccumulate(s[..|s| - 1]), HexIndex(s[|s| - 1]));
  }

  lemma {:induction false} HexIsValue(s: string)
    requires |s| <= 16 && AllDigits(s, 16)
    ensures HexAccumulate(s) == Value(s, 16) < Pow(16, |s|)
  {
    if s != "" {
      HexIsValue(s[..|s| - 1]);
      PowAtMost(|s| - 1);
    }
  }

  lemma {:induction false} PowAtMost(i: nat)
    requires i <= 15
    ensures Pow(16, i) <= 0x1000_0000_0000_0000
    decreases 15 - i
  {
    if i < 15 {
      PowAtMost(i + 1);
      assert Pow(16, i + 1) == Scale(Pow(16, i), 16);
    } else {
      assert Pow(16, 7) == 0x1000_0000;
      assert Pow(16, 15) == 0x1000_0000_0000_0000;
    }
  }

  /** Reading back what was printed, in the base it was printed in. */
  lemma NumberRoundTrip(n: nat)
    requires n <= ULONG_MAX
    ensures TtoulResult(NumText(n, 10), 10) == Ok(n)
    ensures TtoulResult(NumText(n, 8), 8) == Ok(n)
    ensures TtoulResult(NumText(n, 16), 16) == Ok(n)
    ensures TtoulResult(NumText(n, 17), 16) == Ok(n)
  {
    DigitsFit(n);
    ValueOfDigits(n, 10);
    ValueOfDigits(n, 8);
    ValueOfDigits(n, 16);
    DecimalAcceptsExactly(NumText(n, 10), 10);
    DecimalAcceptsExactly(NumText(n, 8), 8);
    HexAcceptsExactly(NumText(n, 16));
    ValueOfPadded(Repeat('0', HEX_WIDTH - Min(HEX_WIDTH, |Digits(n, 16)|)), Digits(n, 16), 16);
    HexAcceptsExactly(NumText(n, 17));
  }

  /** Base 0 recovers the formats 10, 'x' and 'o'. */
  lemma GuessedBaseRoundTrip(n: nat)
    requires n <= ULONG_MAX
    ensures TtoulResult(NumText(n, 10), 0) == Ok(n)
    ensures TtoulResult(NumText(n, LETTER_X), 0) == Ok(n)
    ensures TtoulResult(NumText(n, LETTER_O), 0) == Ok(n)
  {
    NumberRoundTrip(n);
    assert NumText(n, LETTER_X)[2..] == NumText(n, 16);
    assert NumText(n, LETTER_O)[1..] == NumText(n, 8);
    assert IsDigit(NumText(n, LETTER_O)[1], 8);
  }

  /** The letters print what the bases do, with the mark of C in front. */
  lemma MarkedForms(n: nat)
    ensures NumText(n, LETTER_D) == NumText(n, 10)
    ensures NumText(n, LETTER_X) == "0x" + NumText(n, 16) && NumText(n, LETTER_O) == "0" + NumText(n, 8)
    ensures NumText(n, 17)[HEX_WIDTH - Min(HEX_WIDTH, |NumText(n, 16)|)..] == NumText(n, 16)
  {
  }
}
