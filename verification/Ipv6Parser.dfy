/**
  colon and getpiece of ttoaddr.c over their byte buffer, proved against the
  grammar, with the in-place shift that makes room for the gap.
 */
module Ipv6Parser {
  import opened Common
  import opened NumberText
  import opened Ipv6Grammar

  const IP6BYTES: nat := 16

  // ---------- pieces in a byte buffer ----------

  /** Network byte order. */
  function BytesOf(ps: seq<Piece>): (bs: seq<Byte>)
    ensures |bs| == 2 * |ps|
  {
    seq(2 * |ps|, k requires 0 <= k < 2 * |ps| => if k % 2 == 0 then ps[k / 2] / 256 else ps[k / 2] % 256)
  }

  function Pair(hi: Byte, lo: Byte): (p: Piece)
    ensures p / 256 == hi && p % 256 == lo
  {
    (hi as int) * 256 + (lo as int)
  }

  function PiecesOf(bs: seq<Byte>): (ps: seq<Piece>)
    ensures |ps| == |bs| / 2
  {
    seq(|bs| / 2, i requires 0 <= i < |bs| / 2 => Pair(bs[2 * i], bs[2 * i + 1]))
  }

  lemma BytesOfPieces(bs: seq<Byte>)
    requires |bs| % 2 == 0
    ensures BytesOf(PiecesOf(bs)) == bs
  {
    var ps := PiecesOf(bs);
    forall k | 0 <= k < |bs|
      ensures BytesOf(ps)[k] == bs[k]
    {
      assert ps[k / 2] == Pair(bs[2 * (k / 2)], bs[2 * (k / 2) + 1]);
    }
  }

  /** The piece in cells `2k` and `2k + 1` of the buffer. */
  ghost function PieceIn(buf: array<Byte>, k: nat): Piece
    requires 2 * k + 1 < buf.Length
    reads buf
  {
    Pair(buf[2 * k], buf[2 * k + 1])
  }

  /** The first pieces of the buffer are `ps`. */
  ghost predicate Stored(buf: array<Byte>, ps: seq<Piece>)
    reads buf
  {
    2 * |ps| <= buf.Length && forall k :: 0 <= k < |ps| ==> PieceIn(buf, k) == ps[k]
  }

  method StorePiece(buf: array<Byte>, i: nat, piece: Piece)
    requires 2 * i + 1 < buf.Length
    modifies buf
    ensures PieceIn(buf, i) == piece
    ensures forall k :: 0 <= k != i && 2 * k + 1 < buf.Length ==> PieceIn(buf, k) == old(PieceIn(buf, k))
  {
    buf[2 * i] := piece / 256;
    buf[2 * i + 1] := piece % 256;
  }

  // ---------- getpiece ----------

  method Getpiece(src: string, at: nat, stop: nat) returns (r: PieceResult)
    requires at <= stop <= |src|
    ensures r == PieceAt(src[at..stop])
  {
    ghost var s := src[at..stop];
    if at >= stop || src[at] == ':' {
      return EmptyField;
    }
    var p := at;
    var d := 0;
    while p < stop && d < NDIG && IsDigit(src[p], 16)
      invariant p == at + d <= stop && d <= NDIG
      invariant forall i :: 0 <= i < d ==> IsDigit(s[i], 16)
    {
      p := p + 1;
      d := d + 1;
    }
    PrefixFound(s, d);
    if d == 0 {
      return BadField(NonHexField);
    }
    if p < stop && d == NDIG && IsDigit(src[p], 16) {
      return BadField(LongField);
    }
    var value := Ttoul(src[at..], d, 16);
    assert src[at..][..d] == s[..d];
    HexAcceptsExactly(s[..d]);
    GroupBound(s[..d]);
    r := Field(value.value, d);
  }

  lemma PrefixFound(s: string, d: nat)
    requires d <= |s| && d <= NDIG && forall i :: 0 <= i < d ==> IsDigit(s[i], 16)
    requires d == |s| || d == NDIG || !IsDigit(s[d], 16)
    ensures Min(NDIG, DigitPrefix(s, 16)) == d
  {
    if d < NDIG || d == |s| {
      DigitPrefixIs(s, d, 16);
    } else {
      DigitPrefixAtLeast(s, d, 16);
    }
  }

  // ---------- colon ----------

  /** The outcome of colon on a text: the bytes of the address it denotes. */
  function ColonBytes(s: string): Result<seq<Byte>, AddrError>
    requires s != ""
  {
    match ColonResult(s)
    case Err(e) => Err(e)
    case Ok(ps) => Ok(BytesOf(ps))
  }

  method CopyPiece(buf: array<Byte>, from: nat, to: nat)
    requires 2 * from + 1 < buf.Length && 2 * to + 1 < buf.Length
    modifies buf
    ensures PieceIn(buf, to) == old(PieceIn(buf, from))
    ensures forall k :: 0 <= k != to && 2 * k + 1 < buf.Length ==> PieceIn(buf, k) == old(PieceIn(buf, k))
  {
    buf[2 * to] := buf[2 * from];
    buf[2 * to + 1] := buf[2 * from + 1];
  }

  function ExpandedAt(r: Scanned, k: nat): Piece
    requires 0 <= r.gap < |r.pieces| < NPIECES && k < NPIECES
  {
    if k < r.gap then r.pieces[k]
    else if k <= r.gap + NPIECES - |r.pieces| then 0
    else r.pieces[k - NPIECES + |r.pieces|]
  }

  lemma ExpandedPieces(r: Scanned)
    requires 0 <= r.gap < |r.pieces| < NPIECES
    ensures |Expand(r)| == NPIECES
    ensures forall k :: 0 <= k < NPIECES ==> Expand(r)[k] == ExpandedAt(r, k)
  {
  }

  /** The two loops that move the pieces after the gap to the end and zero the gap. */
  method FillGap(buf: array<Byte>, n: nat, gapat: nat, ghost acc: seq<Piece>)
    requires buf.Length == IP6BYTES && gapat < n == |acc| < NPIECES && Stored(buf, acc)
    modifies buf
    ensures Stored(buf, Expand(Scanned(acc, gapat)))
  {
    hide PieceIn, Expand;
    ghost var all := Expand(Scanned(acc, gapat));
    ExpandedPieces(Scanned(acc, gapat));
    var naftergap := n - (gapat + 1);
    var i, j := n - 1, NPIECES - 1;
    while naftergap > 0
      invariant 0 <= naftergap <= n - gapat - 1 && i == gapat + naftergap && j == i + NPIECES - n
      invariant forall k :: 0 <= k <= i ==> PieceIn(buf, k) == acc[k]
      invariant forall k :: j < k < NPIECES ==> PieceIn(buf, k) == all[k]
    {
      CopyPiece(buf, i, j);
      i, j, naftergap := i - 1, j - 1, naftergap - 1;
    }
    while j >= gapat
      invariant gapat - 1 <= j <= gapat + NPIECES - n
      invariant forall k :: 0 <= k < gapat ==> PieceIn(buf, k) == acc[k]
      invariant forall k :: j < k < NPIECES ==> PieceIn(buf, k) == all[k]
    {
      StorePiece(buf, j, 0);
      j := j - 1;
    }
  }

  lemma StoredAll(buf: array<Byte>, ps: seq<Piece>)
    requires buf.Length == IP6BYTES && |ps| == NPIECES && Stored(buf, ps)
    ensures buf[..] == BytesOf(ps)
  {
    assert forall k :: 0 <= k < NPIECES ==> PiecesOf(buf[..])[k] == PieceIn(buf, k);
    assert PiecesOf(buf[..]) == ps;
    BytesOfPieces(buf[..]);
  }

  /** colon: `src[..srclen]` is the text; a trailing `::` loses no character here either. */
  method Colon(src: string, srclen: nat) returns (r: Result<seq<Byte>, AddrError>)
    requires 0 < srclen <= |src|
    ensures r == ColonBytes(src[..srclen])
  {
    hide Scan, AfterField, PieceAt;
    ghost var s := src[..srclen];
    var stop := srclen;
    var at := 0;
    var buf := new Byte[IP6BYTES];
    if src[0] == ':' {
      if srclen == 1 || src[1] != ':' {
        return Err(BadLeadingColon);
      }
      if srclen == 2 {
        assert s == "::";
        return Ok(BytesOf(Repeat<Piece>(0, NPIECES)));
      }
      at := 1;
    }
    if src[stop - 1] == ':' {
      if stop - at == 1 || src[stop - 2] != ':' {
        return Err(BadTrailingColon);
      }
    }
    ghost var t := if s[0] == ':' then s[1..] else s;
    assert src[at..stop] == t;
    var i, gapat;
    ghost var acc;
    r, i, gapat, acc := ScanPieces(src, at, stop, buf);
    if r.Err? {
      return;
    }
    ScanShape(t, [], -1);
    if gapat >= 0 {
      FillGap(buf, i, gapat, acc);
    }
    StoredAll(buf, Expand(Scanned(acc, gapat)));
    r := Ok(buf[..]);
  }

  /** The main loop of colon and the tests after it. */
  method ScanPieces(src: string, start: nat, stop: nat, buf: array<Byte>)
      returns (r: Result<seq<Byte>, AddrError>, i: nat, gapat: int, ghost acc: seq<Piece>)
    requires start <= stop <= |src| && buf.Length == IP6BYTES
    modifies buf
    ensures var scan := Scan(src[start..stop], [], -1);
      if scan.Err? then r == Err(scan.error)
      else r.Ok? && scan.value == Scanned(acc, gapat) && i == |acc| && Stored(buf, acc)
  {
    hide PieceAt, PieceIn;
    var at := start;
    gapat, i, acc := -1, 0, [];
    r := Ok([]);
    while i < NPIECES && at < stop
      invariant start <= at <= stop && -1 <= gapat < i == |acc| <= NPIECES
      invariant Stored(buf, acc)
      invariant Scan(src[start..stop], [], -1) == Scan(src[at..stop], acc, gapat)
      decreases NPIECES - i
    {
      ghost var rest := src[at..stop];
      ghost var acc0, gap0 := acc, gapat;
      var field := Getpiece(src, at, stop);
      var piece := 0;
      match field {
        case EmptyField =>
          if gapat >= 0 {
            return Err(TwoGaps), i, gapat, acc;
          }
          gapat := i;
        case BadField(e) =>
          return Err(e), i, gapat, acc;
        case Field(v, len) =>
          piece := v;
          at := at + len;
          assert rest[len..] == src[at..stop];
      }
      StorePiece(buf, i, piece);
      acc := acc + [piece];
      i := i + 1;
      assert Scan(rest, acc0, gap0) == AfterField(src[at..stop], acc, gapat);
      if i < NPIECES {
        if at == stop && gapat < 0 {
          return Err(EndsPrematurely), i, gapat, acc;
        }
        if at != stop {
          if src[at] != ':' {
            return Err(SyntaxError), i, gapat, acc;
          }
          at := at + 1;
          assert src[at - 1..stop][1..] == src[at..stop];
        }
      }
    }
    if at != stop {
      return Err(ExtraGarbage), i, gapat, acc;
    }
    if gapat < 0 && i < NPIECES {
      return Err(Incomplete), i, gapat, acc;
    }
    if gapat >= 0 && i == NPIECES {
      return Err(NonAbbreviating), i, gapat, acc;
    }
  }
}
