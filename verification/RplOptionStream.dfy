/**
  The plain scan of RplOptions against the way in which section 6.7.1 of RFC 6550
  writes options: it finds what was written.
 */
module RplOptionStream {
  import opened Common
  import opened RplOptions

  /** Options as RFC 6550 writes them: single bytes of padding, and type, length and data. */
  datatype Opt = Pad1 | Tlv(ty: Byte, data: seq<Byte>)

  predicate Proper(o: Opt) {
    o.Tlv? ==> o.ty != PAD0 && 0 < |o.data| < 256
  }

  predicate Writable(os: seq<Opt>) {
    forall i :: 0 <= i < |os| ==> Proper(os[i])
  }

  function Written(o: Opt): (b: seq<Byte>)
    requires Proper(o)
    ensures b != []
  {
    match o case Pad1 => [PAD0] case Tlv(ty, data) => [ty, |data|] + data
  }

  function AllWritten(os: seq<Opt>): (b: seq<Byte>)
    requires Writable(os)
    ensures |b| >= |os|
  {
    if os == [] then [] else Written(os[0]) + AllWritten(os[1..])
  }

  /** Where the options of type `t` stand when the first stands at `at`. */
  function Places(os: seq<Opt>, at: nat, t: Byte): seq<nat>
    requires Writable(os)
  {
    if os == [] then []
    else (if os[0].Tlv? && os[0].ty == t then [at] else []) + Places(os[1..], at + |Written(os[0])|, t)
  }

  /** What the scan sees where an option was written. */
  lemma SeenThere(front: seq<Byte>, o: Opt, rest: seq<Byte>)
    requires Proper(o)
    ensures var b, at := front + Written(o) + rest, |front|;
      if o.Tlv? then !Stops(b, at) && Size(b, at) == |Written(o)| && b[at] == o.ty
      else (Stops(b, at) <==> |rest| <= 1) && b[at] == PAD0 && (!Stops(b, at) ==> Size(b, at) == |Written(o)|)
  {
    var b, at := front + Written(o) + rest, |front|;
    assert b[at] == Written(o)[0];
    if o.Tlv? {
      assert b[at + 1] == Written(o)[1];
    }
  }

  /** The scan finds just the options that were written, each in its place. */
  lemma {:induction false} ScanFindsWritten(front: seq<Byte>, os: seq<Opt>, t: Byte)
    requires Writable(os) && t != PAD0
    ensures var b := front + AllWritten(os); WellFormed(b, |front|) && OfType(b, |front|, t) == Places(os, |front|, t)
    decreases |os|
  {
    hide Stops, Size, Written, Proper;
    var b := front + AllWritten(os);
    if os == [] {
      StopsAtEnd(b);
    } else {
      var o, more := Written(os[0]), AllWritten(os[1..]);
      Assoc(front, o, more);
      ScanFindsWritten(front + o, os[1..], t);
      SeenThere(front, os[0], more);
      if os[0] == Pad1 && |more| <= 1 {
        PaddingLast(os[1..], t, |front| + |o|);
      }
    }
  }

  lemma StopsAtEnd(b: seq<Byte>)
    ensures Stops(b, |b|)
  {
  }

  lemma PaddingLast(os: seq<Opt>, t: Byte, at: nat)
    requires Writable(os) && |AllWritten(os)| <= 1
    ensures Places(os, at, t) == []
  {
    if os != [] {
      assert |Written(os[0])| <= 1;
    }
  }
}
