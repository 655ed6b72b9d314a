/**
  The table of the simulated switch, from Ethernet addresses to ports: 128
  doubly linked chains, relinked in place (hash.c, port.c of uml_netjig).
 */
module MacTable {
  import Address
  import opened Common

  const HASH_SIZE: nat := 128
  const HASH_MOD: nat := 11
  const GC_EXPIRE: nat := 100

  type Mac = m: seq<Byte> | |m| == 6 witness [0, 0, 0, 0, 0, 0]

  /** The group bit of an address. */
  predicate IsBroadcast(a: Mac) {
    a[0] % 2 == 1
  }

  /** It is the lowest bit of the first byte. */
  lemma GroupBit(a: Mac)
    ensures IsBroadcast(a) <==> Address.BitAt(a, 7)
  {
  }

  /** A port of the switch, known by its descriptor. */
  datatype Port = Port(control: int)

  function Xor(x: Byte, y: Byte): Byte {
    ((x as bv8) ^ (y as bv8)) as int
  }

  /** calc_hash, on a little-endian machine. */
  function CalcHash(src: Mac): (k: nat)
    ensures k < HASH_SIZE
  {
    var word := src[0] as int + 0x100 * src[1] as int + 0x1_0000 * src[2] as int + 0x100_0000 * src[3] as int;
    Xor(Xor(word % HASH_MOD, src[4]), src[5]) % HASH_SIZE
  }

  class HashEntry {
    var next: HashEntry?
    var prev: HashEntry?
    var lastSeen: int
    const port: Port
    const dst: Mac

    constructor (dst: Mac, port: Port, next: HashEntry?)
      ensures this.dst == dst && this.port == port && this.next == next && prev == null && lastSeen == 0
    {
      this.dst, this.port, this.next, prev, lastSeen := dst, port, next, null, 0;
    }

    /** What gc tests. */
    predicate Expired(t: int)
      reads this`lastSeen
    {
      lastSeen + GC_EXPIRE < t
    }
  }

  ghost function At(c: seq<HashEntry>, i: int): HashEntry? {
    if 0 <= i < |c| then c[i] else null
  }

  /** `c` is linked both ways from `head`. */
  ghost predicate Linked(head: HashEntry?, c: seq<HashEntry>)
    reads c`next, c`prev
  {
    && head == At(c, 0)
    && (forall i {:trigger c[i].next} :: 0 <= i < |c| ==> c[i].next == At(c, i + 1))
    && (forall i {:trigger c[i].prev} :: 0 <= i < |c| ==> c[i].prev == At(c, i - 1))
  }

  /** Each entry of `c` is the one the table has for its address, and hashes to k. */
  ghost predicate Sound(entries: map<Mac, HashEntry>, k: nat, c: seq<HashEntry>) {
    forall i :: 0 <= i < |c| ==>
      CalcHash(c[i].dst) == k && c[i].dst in entries && entries[c[i].dst] == c[i]
  }

  /** Every address that hashes to k has its entry in `c`. */
  ghost predicate Complete(entries: map<Mac, HashEntry>, k: nat, c: seq<HashEntry>) {
    forall m :: m in entries && CalcHash(m) == k ==> entries[m] in c
  }

  /** `c` holds, once each, the entries of a table whose addresses hash to k. */
  ghost predicate Bucket(entries: map<Mac, HashEntry>, k: nat, c: seq<HashEntry>) {
    Distinct(c) && Sound(entries, k, c) && Complete(entries, k, c)
  }

  ghost function Without(c: seq<HashEntry>, i: nat): (r: seq<HashEntry>)
    requires i < |c|
    ensures |r| == |c| - 1
    ensures forall j :: 0 <= j < |r| ==> r[j] == c[if j < i then j else j + 1]
  {
    c[..i] + c[i + 1..]
  }

  lemma WithoutAt(c: seq<HashEntry>, i: nat)
    requires i < |c|
    ensures forall j :: At(Without(c, i), j) == At(c, if j < i then j else j + 1)
  {
  }

  /** The links of `c` pass over its i-th entry. */
  ghost predicate Skips(c: seq<HashEntry>, i: nat)
    reads c`next, c`prev
  {
    && (forall a {:trigger c[a].next} :: 0 <= a < |c| ==> c[a].next == At(c, if a == i - 1 then i + 1 else a + 1))
    && (forall a {:trigger c[a].prev} :: 0 <= a < |c| ==> c[a].prev == At(c, if a == i + 1 then i - 1 else a - 1))
  }

  lemma SkipsIsWithout(head: HashEntry?, c: seq<HashEntry>, i: nat)
    requires i < |c| && head == At(c, if i == 0 then 1 else 0) && Skips(c, i)
    ensures Linked(head, Without(c, i))
  {
    WithoutAt(c, i);
    hide At;
    var d := Without(c, i);
    forall j | 0 <= j < |d|
      ensures d[j].next == At(d, j + 1) && d[j].prev == At(d, j - 1)
    {
      assert d[j] == c[if j < i then j else j + 1];
    }
  }

  lemma WithoutMembers(c: seq<HashEntry>, i: nat)
    requires i < |c| && Distinct(c)
    ensures Distinct(Without(c, i)) && c[i] !in Without(c, i)
    ensures forall x :: x in c && x != c[i] ==> x in Without(c, i)
  {
    var r := Without(c, i);
    forall j | 0 <= j < |c| && j != i
      ensures c[j] in r
    {
      assert c[j] == r[if j < i then j else j - 1];
    }
  }

  lemma BucketGrows(entries: map<Mac, HashEntry>, k: nat, c: seq<HashEntry>, e: HashEntry)
    requires Bucket(entries, k, c) && e.dst !in entries
    ensures Bucket(entries[e.dst := e], k, if CalcHash(e.dst) == k then [e] + c else c)
  {
    hide CalcHash;
    var after, d := entries[e.dst := e], if CalcHash(e.dst) == k then [e] + c else c;
    assert Sound(after, k, d);
    assert Complete(after, k, d) by {
      assert forall x :: x in c ==> x in d;
    }
  }

  lemma BucketShrinks(entries: map<Mac, HashEntry>, k: nat, c: seq<HashEntry>, i: nat)
    requires Bucket(entries, k, c) && i < |c|
    requires forall m :: m in entries ==> entries[m].dst == m
    ensures Bucket(entries - {c[i].dst}, k, Without(c, i))
  {
    hide CalcHash;
    var r, after := Without(c, i), entries - {c[i].dst};
    WithoutMembers(c, i);
    forall j | 0 <= j < |r|
      ensures CalcHash(r[j].dst) == k && r[j].dst in after && after[r[j].dst] == r[j]
    {
      assert r[j] != c[i] && r[j] in c;
    }
  }

  lemma OtherBucketStays(entries: map<Mac, HashEntry>, k: nat, c: seq<HashEntry>, dst: Mac)
    requires Bucket(entries, k, c) && CalcHash(dst) != k
    ensures Bucket(entries - {dst}, k, c)
  {
    hide CalcHash;
  }

  /** The chains hold what the table knows, each entry once and in its bucket. */
  ghost predicate Shape(entries: map<Mac, HashEntry>, chains: seq<seq<HashEntry>>, repr: set<HashEntry>) {
    && |chains| == HASH_SIZE
    && (forall m :: m in entries ==> entries[m].dst == m && entries[m] in repr)
    && (forall k, i :: 0 <= k < HASH_SIZE && 0 <= i < |chains[k]| ==> chains[k][i] in repr)
    && (forall k :: 0 <= k < HASH_SIZE ==> Bucket(entries, k, chains[k]))
  }

  lemma ShapeGrows(entries: map<Mac, HashEntry>, chains: seq<seq<HashEntry>>, repr: set<HashEntry>, e: HashEntry)
    requires Shape(entries, chains, repr) && e.dst !in entries
    ensures var k := CalcHash(e.dst); Shape(entries[e.dst := e], chains[k := [e] + chains[k]], repr + {e})
  {
    forall j | 0 <= j < HASH_SIZE
    {
      BucketGrows(entries, j, chains[j], e);
    }
    hide Bucket, CalcHash;
  }

  lemma ShapeShrinks(entries: map<Mac, HashEntry>, chains: seq<seq<HashEntry>>, repr: set<HashEntry>, k: nat, i: nat)
    requires Shape(entries, chains, repr) && k < HASH_SIZE && i < |chains[k]|
    ensures Shape(entries - {chains[k][i].dst}, chains[k := Without(chains[k], i)], repr)
  {
    var dst := chains[k][i].dst;
    assert CalcHash(dst) == k;
    BucketShrinks(entries, k, chains[k], i);
    forall j | 0 <= j < HASH_SIZE && j != k
      ensures Bucket(entries - {dst}, j, chains[j])
    {
      OtherBucketStays(entries, j, chains[j], dst);
    }
    hide Bucket, CalcHash;
  }

  /** Every entry is in the chain that its address hashes to. */
  ghost predicate Placed(chains: seq<seq<HashEntry>>) {
    forall k, i :: 0 <= k < |chains| && 0 <= i < |chains[k]| ==> CalcHash(chains[k][i].dst) == k
  }

  lemma ShapeIsPlaced(entries: map<Mac, HashEntry>, chains: seq<seq<HashEntry>>, repr: set<HashEntry>)
    requires Shape(entries, chains, repr)
    ensures |chains| == HASH_SIZE && Placed(chains)
    ensures forall k :: 0 <= k < HASH_SIZE ==> Distinct(chains[k])
    ensures forall k, i :: 0 <= k < HASH_SIZE && 0 <= i < |chains[k]| ==> chains[k][i] in repr
  {
    hide CalcHash;
    forall k | 0 <= k < HASH_SIZE
      ensures Sound(entries, k, chains[k]) && Distinct(chains[k])
    {
      assert Bucket(entries, k, chains[k]);
    }
  }

  class HashTable {
    const h: array<HashEntry?>
    ghost var chains: seq<seq<HashEntry>>
    /** The entry that each known address has. */
    ghost var entries: map<Mac, HashEntry>

    /** Every entry that was ever in the table. */
    ghost var Repr: set<HashEntry>

    ghost predicate Valid()
      reads this, h, Repr
    {
      && h.Length == HASH_SIZE
      && Shape(entries, chains, Repr)
      && (forall k :: 0 <= k < HASH_SIZE ==> Linked(h[k], chains[k]))
    }

    /** The table as a map. */
    ghost function Ports(): map<Mac, Port>
      reads this
    {
      map m | m in entries :: entries[m].port
    }

    constructor ()
      ensures Valid() && entries == map[] && fresh(h)
    {
      h := new HashEntry?[HASH_SIZE](_ => null);
      chains := seq(HASH_SIZE, _ => []);
      entries := map[];
      Repr := {};
    }

    lemma PlaceInChain(k: nat, i: nat)
      requires Valid() && k < HASH_SIZE && |chains| == HASH_SIZE && i < |chains[k]|
      ensures CalcHash(chains[k][i].dst) == k && chains[k][i].next == At(chains[k], i + 1)
      ensures chains[k][i].dst in entries && entries[chains[k][i].dst] == chains[k][i]
    {
      assert Bucket(entries, k, chains[k]) && Linked(h[k], chains[k]);
    }

    lemma ChainHoldsBucket(k: nat)
      requires Valid() && k < HASH_SIZE
      ensures |chains| == HASH_SIZE && h[k] == At(chains[k], 0)
      ensures forall m :: m in entries && CalcHash(m) == k ==> entries[m] in chains[k]
    {
      assert Bucket(entries, k, chains[k]) && Linked(h[k], chains[k]);
    }

    lemma EntryHasPlace(dst: Mac) returns (i: nat)
      requires Valid() && dst in entries
      ensures |chains| == HASH_SIZE && i < |chains[CalcHash(dst)]| && chains[CalcHash(dst)][i] == entries[dst]
      ensures entries[dst].dst == dst
    {
      var k := CalcHash(dst);
      assert Bucket(entries, k, chains[k]);
      i :| 0 <= i < |chains[k]| && chains[k][i] == entries[dst];
    }

    method FindEntry(dst: Mac) returns (e: HashEntry?)
      requires Valid()
      ensures e == if dst in entries then entries[dst] else null
    {
      hide Shape, CalcHash, Linked;
      var k := CalcHash(dst);
      ChainHoldsBucket(k);
      e := h[k];
      ghost var i := 0;
      while e != null && e.dst != dst
        invariant 0 <= i <= |chains[k]| && e == At(chains[k], i)
        invariant forall j :: 0 <= j < i ==> chains[k][j].dst != dst
        decreases |chains[k]| - i
      {
        PlaceInChain(k, i);
        e, i := e.next, i + 1;
      }
      if e != null {
        PlaceInChain(k, i);
      } else if dst in entries {
        ghost var j := EntryHasPlace(dst);
      }
    }

    method FindInHash(dst: Mac) returns (port: Option<Port>)
      requires Valid()
      ensures port == if dst in Ports() then Some(Ports()[dst]) else None
    {
      var e := FindEntry(dst);
      port := if e == null then None else Some(e.port);
    }

    /** Puts a new entry at the head of chain k. */
    method Link(k: nat, e: HashEntry, ghost cs: seq<seq<HashEntry>>)
      requires k < h.Length == |cs| && Distinct(cs[k]) && Placed(cs)
      requires forall j :: 0 <= j < |cs| ==> Linked(h[j], cs[j])
      requires CalcHash(e.dst) == k && e !in cs[k] && e.prev == null && e.next == h[k]
      modifies h, cs[k]`prev
      ensures var after := cs[k := [e] + cs[k]]; forall j :: 0 <= j < |after| ==> Linked(h[j], after[j])
    {
      hide CalcHash;
      ghost var c := cs[k];
      if h[k] != null {
        h[k].prev := e;
      }
      h[k] := e;
      ghost var d := [e] + c;
      forall i | 0 <= i < |d|
        ensures d[i].next == At(d, i + 1) && d[i].prev == At(d, i - 1)
      {
        assert i > 0 ==> d[i] == c[i - 1] && old(c[i - 1].next) == At(c, i) && old(c[i - 1].prev) == At(c, i - 2);
      }
      forall j | 0 <= j < |cs| && j != k
        ensures Linked(h[j], cs[j])
      {
        assert old(Linked(h[j], cs[j]));
      }
    }

    /** Makes the neighbours of the i-th entry of chain `c` neighbours of each other. */
    method Bypass(k: nat, e: HashEntry, ghost c: seq<HashEntry>, ghost i: nat)
      requires k < h.Length && Linked(h[k], c) && Distinct(c) && i < |c| && e == c[i]
      modifies h, c`next, c`prev
      ensures h[k] == At(c, if i == 0 then 1 else 0) && Skips(c, i)
      ensures forall j :: 0 <= j < h.Length && j != k ==> h[j] == old(h[j])
    {
      assert e.prev == At(c, i - 1) && e.next == At(c, i + 1);
      assert i > 0 ==> c[0] != e;
      if e.prev != null {
        e.prev.next := e.next;
      }
      if e.next != null {
        e.next.prev := e.prev;
      }
      if h[k] == e {
        h[k] := e.next;
      }
      forall a | 0 <= a < |c|
        ensures c[a].next == At(c, if a == i - 1 then i + 1 else a + 1)
        ensures c[a].prev == At(c, if a == i + 1 then i - 1 else a - 1)
      {
        assert old(c[a].next) == At(c, a + 1) && old(c[a].prev) == At(c, a - 1);
        assert a < i - 1 || a > i - 1 ==> c[a] != At(c, i - 1);
        assert a < i + 1 || a > i + 1 ==> c[a] != At(c, i + 1);
      }
    }

    /** Takes the i-th entry out of chain k; the other chains stay. */
    method Unlink(k: nat, e: HashEntry, ghost cs: seq<seq<HashEntry>>, ghost i: nat)
      requires k < h.Length == |cs| && Distinct(cs[k]) && Placed(cs) && i < |cs[k]| && e == cs[k][i]
      requires forall j :: 0 <= j < |cs| ==> Linked(h[j], cs[j])
      modifies h, cs[k]`next, cs[k]`prev
      ensures var after := cs[k := Without(cs[k], i)]; forall j :: 0 <= j < |after| ==> Linked(h[j], after[j])
      ensures e.next == old(e.next)
    {
      hide CalcHash, Distinct, Skips;
      Bypass(k, e, cs[k], i);
      SkipsIsWithout(h[k], cs[k], i);
      forall j | 0 <= j < |cs| && j != k
        ensures Linked(h[j], cs[j])
      {
        assert old(Linked(h[j], cs[j]));
      }
    }

    method Push(k: nat, e: HashEntry)
      requires Valid() && k == CalcHash(e.dst) && e.dst !in entries && e !in Repr && e.prev == null && e.next == h[k]
      modifies this`chains, this`entries, this`Repr, h, Repr`prev
      ensures Valid() && Repr == old(Repr) + {e} && entries == old(entries)[e.dst := e]
    {
      hide Shape, CalcHash, Linked, Placed, Distinct;
      ShapeGrows(entries, chains, Repr, e);
      ShapeIsPlaced(entries, chains, Repr);
      Link(k, e, chains);
      chains := chains[k := [e] + chains[k]];
      entries := entries[e.dst := e];
      Repr := Repr + {e};
    }

    method InsertNew(src: Mac, port: Port)
      requires Valid() && src !in entries
      modifies this`chains, this`entries, this`Repr, h, Repr`prev
      ensures Valid() && src in entries && fresh(entries[src]) && Repr == old(Repr) + {entries[src]}
      ensures entries == old(entries)[src := entries[src]]
      ensures entries[src].port == port && entries[src].lastSeen == 0
    {
      hide Shape, CalcHash, Linked;
      var k := CalcHash(src);
      var e := new HashEntry(src, port, h[k]);
      Push(k, e);
    }

    /** Adds an address that is not there; one that is keeps its port. */
    method InsertIntoHash(src: Mac, port: Port)
      requires Valid()
      modifies this`chains, this`entries, this`Repr, h, Repr`prev
      ensures Valid()
      ensures src in old(entries) ==> entries == old(entries)
      ensures src !in old(entries) ==> src in entries && fresh(entries[src])
      ensures fresh(Repr - old(Repr))
      ensures src !in old(entries) ==> entries == old(entries)[src := entries[src]]
      ensures src !in old(entries) ==> entries[src].port == port && entries[src].lastSeen == 0
    {
      hide Shape, CalcHash, Linked;
      var found := FindInHash(src);
      if found == None {
        InsertNew(src, port);
      }
    }

    method UpdateEntryTime(src: Mac, now: int)
      requires Valid()
      modifies Repr`lastSeen
      ensures Valid()
      ensures forall m :: m in entries ==> entries[m].lastSeen == if m == src then now else old(entries[m].lastSeen)
    {
      var e := FindEntry(src);
      if e != null {
        e.lastSeen := now;
      }
    }

    /** delete_hash_entry, for an entry that is at place i of its chain. */
    method DeleteAt(e: HashEntry, ghost i: nat)
      requires Valid() && i < |chains[CalcHash(e.dst)]| && e == chains[CalcHash(e.dst)][i]
      modifies this`chains, this`entries, h, Repr`next, Repr`prev
      ensures Valid() && entries == old(entries) - {e.dst} && e.next == old(e.next)
      ensures var k := CalcHash(e.dst); chains == old(chains)[k := Without(old(chains[k]), i)]
    {
      hide Shape, CalcHash, Linked, Placed, Distinct;
      var k := CalcHash(e.dst);
      ShapeIsPlaced(entries, chains, Repr);
      ShapeShrinks(entries, chains, Repr, k, i);
      Unlink(k, e, chains, i);
      chains := chains[k := Without(chains[k], i)];
      entries := entries - {e.dst};
    }

    method DeleteHash(dst: Mac)
      requires Valid()
      modifies this`chains, this`entries, h, Repr`next, Repr`prev
      ensures Valid() && entries == old(entries) - {dst}
    {
      hide Shape, CalcHash, Linked;
      var e := FindEntry(dst);
      if e != null {
        ghost var i := EntryHasPlace(dst);
        DeleteAt(e, i);
      }
    }

    /**
      update_src: the port on which a frame with this source address came in.
      A known address moves to the port, a new one is learnt.
     */
    method UpdateSrc(port: Port, src: Mac, now: int)
      requires Valid()
      modifies this`chains, this`entries, this`Repr, h, Repr
      ensures Valid() && Ports() == if IsBroadcast(src) then old(Ports()) else old(Ports())[src := port]
      ensures !IsBroadcast(src) ==> src in entries && entries[src].lastSeen == now
      ensures forall m :: m in old(entries) && m != src ==> m in entries && entries[m] == old(entries[m])
      ensures forall m :: m in old(entries) && m != src ==> entries[m].lastSeen == old(entries[m].lastSeen)
    {
      hide Shape, CalcHash, Linked;
      if IsBroadcast(src) {
        return;
      }
      var last := FindInHash(src);
      if last != Some(port) {
        if last != None {
          DeleteHash(src);
        }
        InsertIntoHash(src, port);
      }
      UpdateEntryTime(src, now);
    }

    /** The entries that stay when the expired ones of the buckets in lo..hi go. */
    ghost predicate Swept(was: map<Mac, HashEntry>, lo: nat, hi: nat, t: int)
      reads this`entries, was.Values`lastSeen
    {
      forall m ::
        (m in entries <==> m in was && !(lo <= CalcHash(m) < hi && was[m].Expired(t))) &&
        (m in entries ==> entries[m] == was[m])
    }

    /** for_all_hash with gc, on one bucket: the successor is read before its entry may go. */
    method SweepBucket(k: nat, t: int)
      requires Valid() && k < HASH_SIZE
      modifies this`chains, this`entries, h, Repr`next, Repr`prev
      ensures Valid() && Swept(old(entries), k, k + 1, t)
    {
      hide Shape, CalcHash, Linked;
      ChainHoldsBucket(k);
      var e := h[k];
      ghost var p := 0;
      while e != null
        invariant Valid() && |chains| == HASH_SIZE && p <= |chains[k]| && e == At(chains[k], p)
        invariant forall m :: m in entries ==> m in old(entries) && entries[m] == old(entries)[m]
        invariant forall m :: m in old(entries) && m !in entries ==> CalcHash(m) == k && old(entries)[m].Expired(t)
        invariant forall j :: 0 <= j < p ==> !chains[k][j].Expired(t)
        decreases |chains[k]| - p
      {
        PlaceInChain(k, p);
        var next := e.next;
        if e.lastSeen + GC_EXPIRE < t {
          DeleteAt(e, p);
        } else {
          p := p + 1;
        }
        e := next;
      }
      ChainHoldsBucket(k);
    }

    /** hash_periodic: the entries not seen for more than 100 seconds go, and no other. */
    method HashPeriodic(t: int)
      requires Valid()
      modifies this`chains, this`entries, h, Repr`next, Repr`prev
      ensures Valid()
      ensures entries == map m | m in old(entries) && !(old(entries[m].lastSeen) + GC_EXPIRE < t) :: old(entries)[m]
    {
      hide Shape, CalcHash, Linked;
      var i := 0;
      while i < HASH_SIZE
        invariant Valid() && 0 <= i <= HASH_SIZE && Swept(old(entries), 0, i, t)
      {
        SweepBucket(i, t);
        i := i + 1;
      }
    }
  }
}
