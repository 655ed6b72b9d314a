/**
  Definitions shared by every component: bytes, the outcome of a fallible C
  function, and the reading of a C string.
 */
module Common {
  /** The ranges of `unsigned short` and `unsigned int`. */
  const USHORT_SPAN: int := 0x1_0000
  const UINT_SPAN: int := 0x1_0000_0000

  type Byte = x: int | 0 <= x < 256

  /** A C function that returns an error string or NULL, with its out-parameter. */
  datatype Result<+T, +E> = Ok(value: T) | Err(error: E)

  datatype Option<+T> = None | Some(value: T) {
    function UnwrapOr(default: T): T {
      if Some? then value else default
    }
  }

  /** The index of the first NUL of `s`, or its length: what strlen sees. */
  function Strlen(s: string): (n: nat)
    ensures n <= |s|
    ensures n < |s| ==> s[n] == '\0'
    ensures forall i :: 0 <= i < n ==> s[i] != '\0'
  {
    if s == "" || s[0] == '\0' then 0 else
      var n := Strlen(s[1..]);
      assert forall i :: 0 < i < n + 1 ==> s[i] == s[1..][i - 1];
      n + 1
  }

  /** The text that a (pointer, length) pair denotes, length 0 meaning "apply strlen". */
  function Text(s: string, len: nat): string
    requires len <= |s|
  {
    if len == 0 then s[..Strlen(s)] else s[..len]
  }

  predicate NulFree(s: string) {
    forall i :: 0 <= i < |s| ==> s[i] != '\0'
  }

  function Min(a: nat, b: nat): nat {
    if a < b then a else b
  }

  /** 32 bits in network order. */
  function NetworkWord(v: nat): (bs: seq<Byte>)
    ensures |bs| == 4
  {
    [v / 0x100_0000 % 256, v / 0x1_0000 % 256, v / 256 % 256, v % 256]
  }

  /** What 32 bits in network order stand for. */
  function WordValue(b: seq<Byte>): nat
    requires |b| == 4
  {
    0x100_0000 * (b[0] as nat) + 0x1_0000 * (b[1] as nat) + 0x100 * (b[2] as nat) + b[3]
  }

  lemma WordRoundTrip(v: nat)
    ensures WordValue(NetworkWord(v)) == v % UINT_SPAN
  {
    NextByte(v, 0x100);
    NextByte(v, 0x1_0000);
    NextByte(v, 0x100_0000);
  }

  lemma NextByte(v: nat, unit: nat)
    requires unit == 0x100 || unit == 0x1_0000 || unit == 0x100_0000
    ensures v / unit == 0x100 * (v / (0x100 * unit)) + v / unit % 0x100
  {
  }

  function Repeat<T>(x: T, k: nat): (s: seq<T>)
    ensures |s| == k && forall i :: 0 <= i < k ==> s[i] == x
  {
    seq(k, _ => x)
  }

  ghost predicate Distinct<T>(s: seq<T>) {
    forall i, j :: 0 <= i < j < |s| ==> s[i] != s[j]
  }

  lemma Assoc<T>(a: seq<T>, b: seq<T>, c: seq<T>)
    ensures a + b + c == a + (b + c)
  {
  }

  lemma SliceIs<T>(a: array<T>, at: nat, t: seq<T>)
    requires at + |t| <= a.Length && forall k :: 0 <= k < |t| ==> a[at + k] == t[k]
    ensures a[at..at + |t|] == t
  {
  }

  /** memset(a, 0, n) */
  method Clear(a: array<Byte>, n: nat)
    requires n <= a.Length
    modifies a
    ensures (forall i :: 0 <= i < n ==> a[i] == 0) && a[n..] == old(a[n..])
  {
    forall i | 0 <= i < n {
      a[i] := 0;
    }
  }

  /** `a[at..]` holds the C string `s` and its terminator. */
  ghost predicate HoldsCString(a: array<char>, at: nat, s: string)
    reads a
  {
    at + |s| < a.Length && a[at..at + |s|] == s && a[at + |s|] == '\0'
  }

  /** The cells outside `a[lo..hi]` are those of `was`. */
  ghost predicate SameOutside<T>(a: array<T>, was: seq<T>, lo: nat, hi: nat)
    reads a
  {
    a.Length == |was| && forall i :: 0 <= i < a.Length && !(lo <= i < hi) ==> a[i] == was[i]
  }

  /** strcpy(dst + at, src + p) for a NUL-free string `s` at `src + p`. */
  method StrCpy(src: array<char>, p: nat, ghost s: string, dst: array<char>, at: nat)
    requires src != dst
    requires HoldsCString(src, p, s) && NulFree(s)
    requires at + |s| < dst.Length
    modifies dst
    ensures HoldsCString(dst, at, s)
    ensures SameOutside(dst, old(dst[..]), at, at + |s| + 1)
  {
    var i := 0;
    while src[p + i] != '\0'
      invariant 0 <= i <= |s|
      invariant forall k :: 0 <= k < |s| ==> src[p + k] == s[k]
      invariant src[p + |s|] == '\0'
      invariant forall k :: 0 <= k < i ==> dst[at + k] == s[k]
      invariant SameOutside(dst, old(dst[..]), at, at + i)
      decreases |s| - i
    {
      dst[at + i] := src[p + i];
      i := i + 1;
    }
    dst[at + i] := '\0';
    assert dst[at..at + |s|] == s;
  }
}
