/**
 The bucket table of routing/dht.c for one address family: a list of buckets sorted by
 first id, each holding an unordered list of at most eight nodes.  `NewNode`, `SplitBucket`
 and `ExpireBuckets` keep the list a partition of the id space into aligned ranges.
 Sending pings is left out; what remains of a ping is the counter it changes.
 */
module RoutingTable {
  import opened Options
  import opened Numbers
  import opened NodeIds

  datatype Family = Inet | Inet6
  datatype Address = Address(family: Family, ip: seq<Byte>, port: nat)

  datatype Node = Node(id: Id, addr: Address, time: int, replyTime: int, pingedTime: int, pinged: int)

  datatype Bucket = Bucket(first: Id, count: int, time: int, nodes: seq<Node>, cached: Option<Address>)

  const BUCKET_SIZE := 8

  // ----- ranges

  function Lo(bs: seq<Bucket>, i: nat): nat
    requires i < |bs|
  {
    Value(bs[i].first)
  }

  /** A bucket ranges up to the first id of the next one, the last to the end of the id space. */
  function Hi(bs: seq<Bucket>, i: nat): nat
    requires i < |bs|
  {
    if i + 1 < |bs| then Value(bs[i + 1].first) else Width(0)
  }

  ghost predicate Aligned(lo: nat, hi: nat) { exists d :: AlignedAt(lo, hi, d) }

  /** The buckets cut the id space into consecutive aligned power-of-two ranges. */
  ghost predicate Partition(bs: seq<Bucket>) {
    && |bs| > 0
    && Lo(bs, 0) == 0
    && forall i :: 0 <= i < |bs| ==> Aligned(Lo(bs, i), Hi(bs, i))
  }

  predicate Covers(bs: seq<Bucket>, i: int, v: nat) {
    0 <= i < |bs| && Lo(bs, i) <= v < Hi(bs, i)
  }

  lemma {:induction false} RangesAscend(bs: seq<Bucket>, i: nat, j: nat)
    requires Partition(bs) && i < j < |bs|
    ensures Hi(bs, i) <= Lo(bs, j)
    decreases j - i
  {
    if i + 1 < j {
      RangesAscend(bs, i + 1, j);
      assert Aligned(Lo(bs, i + 1), Hi(bs, i + 1));
    }
  }

  lemma CoverUnique(bs: seq<Bucket>, i: int, j: int, v: nat)
    requires Partition(bs) && Covers(bs, i, v) && Covers(bs, j, v)
    ensures i == j
  {
    if i < j { RangesAscend(bs, i, j); }
    if j < i { RangesAscend(bs, j, i); }
  }

  /** The bucket that covers id value `v`. */
  ghost function Cover(bs: seq<Bucket>, v: nat): (i: nat)
    requires Partition(bs) && v < Width(0)
    ensures Covers(bs, i, v)
  {
    CoverFrom(bs, v, 0)
  }

  ghost function CoverFrom(bs: seq<Bucket>, v: nat, i: nat): (k: nat)
    requires i < |bs| && Lo(bs, i) <= v < Width(0)
    ensures Covers(bs, k, v)
    decreases |bs| - i
  {
    if i + 1 < |bs| && Lo(bs, i + 1) <= v then CoverFrom(bs, v, i + 1) else i
  }

  // ----- the table invariant

  predicate Distinct(nodes: seq<Node>) {
    forall i, j :: 0 <= i < j < |nodes| ==> nodes[i].id != nodes[j].id
  }

  ghost predicate BucketOk(b: Bucket, lo: nat, hi: nat, me: Id) {
    && b.count == |b.nodes| <= BUCKET_SIZE
    && Distinct(b.nodes)
    && forall n :: n in b.nodes ==> lo <= Value(n.id) < hi && n.id != me
  }

  ghost predicate WellFormed(bs: seq<Bucket>, me: Id) {
    && Partition(bs)
    && forall i :: 0 <= i < |bs| ==> BucketOk(bs[i], Lo(bs, i), Hi(bs, i), me)
  }

  ghost predicate Contains(bs: seq<Bucket>, n: Node) {
    exists i :: 0 <= i < |bs| && n in bs[i].nodes
  }

  ghost predicate HasIn(nodes: seq<Node>, id: Id) {
    exists n :: n in nodes && n.id == id
  }

  /** Some bucket, whichever it is, holds a node with this id: what scanning the whole table finds. */
  ghost predicate Has(bs: seq<Bucket>, id: Id) {
    exists n :: Contains(bs, n) && n.id == id
  }

  /** Looking only in the bucket that covers an id finds what scanning the whole table finds. */
  lemma OneBucketLookupAgrees(bs: seq<Bucket>, me: Id, i: int, id: Id)
    requires WellFormed(bs, me) && Covers(bs, i, Value(id))
    ensures HasIn(bs[i].nodes, id) <==> Has(bs, id)
  {
    if HasIn(bs[i].nodes, id) {
      var n :| n in bs[i].nodes && n.id == id;
      assert Contains(bs, n);
    }
    if Has(bs, id) {
      var n :| Contains(bs, n) && n.id == id;
      var j :| 0 <= j < |bs| && n in bs[j].nodes;
      CoverUnique(bs, i, j, Value(id));
    }
  }

  /** Two entries of the table with one id are the same entry. */
  lemma IdsAreUnique(bs: seq<Bucket>, me: Id, i: nat, k: nat, j: nat, l: nat)
    requires WellFormed(bs, me)
    requires i < |bs| && k < |bs[i].nodes| && j < |bs| && l < |bs[j].nodes|
    requires bs[i].nodes[k].id == bs[j].nodes[l].id
    ensures i == j && k == l && bs[i].nodes[k].id != me
  {
    assert bs[i].nodes[k] in bs[i].nodes && bs[j].nodes[l] in bs[j].nodes;
    CoverUnique(bs, i, j, Value(bs[i].nodes[k].id));
  }

  /** Replacing one bucket's contents keeps the table well formed and changes nothing elsewhere. */
  lemma UpdateBucket(bs: seq<Bucket>, me: Id, i: nat, b: Bucket)
    requires WellFormed(bs, me) && i < |bs| && b.first == bs[i].first
    requires BucketOk(b, Lo(bs, i), Hi(bs, i), me)
    ensures WellFormed(bs[i := b], me)
    ensures forall n :: Contains(bs[i := b], n) <==> n in b.nodes || (Contains(bs, n) && n !in bs[i].nodes)
  {
    UpdateKeepsShape(bs, me, i, b);
    forall n
      ensures Contains(bs[i := b], n) <==> n in b.nodes || (Contains(bs, n) && n !in bs[i].nodes)
    {
      UpdateContains(bs, me, i, b, n);
    }
  }

  lemma UpdateKeepsShape(bs: seq<Bucket>, me: Id, i: nat, b: Bucket)
    requires WellFormed(bs, me) && i < |bs| && b.first == bs[i].first
    requires BucketOk(b, Lo(bs, i), Hi(bs, i), me)
    ensures WellFormed(bs[i := b], me)
  {
    var cs := bs[i := b];
    SameRanges(bs, i, b);
    forall j | 0 <= j < |cs|
      ensures BucketOk(cs[j], Lo(cs, j), Hi(cs, j), me)
    {
      assert BucketOk(bs[j], Lo(bs, j), Hi(bs, j), me);
    }
  }

  lemma SameRanges(bs: seq<Bucket>, i: nat, b: Bucket)
    requires i < |bs| && b.first == bs[i].first
    ensures forall j :: 0 <= j < |bs| ==> Lo(bs[i := b], j) == Lo(bs, j) && Hi(bs[i := b], j) == Hi(bs, j)
    ensures Partition(bs) ==> Partition(bs[i := b])
  {
    var cs := bs[i := b];
    forall j | 0 <= j < |bs|
      ensures Lo(cs, j) == Lo(bs, j) && Hi(cs, j) == Hi(bs, j)
    {
      assert cs[j].first == bs[j].first;
      if j + 1 < |bs| { assert cs[j + 1].first == bs[j + 1].first; }
    }
    if Partition(bs) {
      forall j | 0 <= j < |cs|
        ensures Aligned(Lo(cs, j), Hi(cs, j))
      {
        assert Aligned(Lo(bs, j), Hi(bs, j));
      }
    }
  }

  lemma UpdateContains(bs: seq<Bucket>, me: Id, i: nat, b: Bucket, n: Node)
    requires WellFormed(bs, me) && i < |bs|
    ensures Contains(bs[i := b], n) <==> n in b.nodes || (Contains(bs, n) && n !in bs[i].nodes)
  {
    var cs := bs[i := b];
    if Contains(cs, n) {
      var j :| 0 <= j < |cs| && n in cs[j].nodes;
      if j != i {
        assert n in bs[j].nodes;
        if n in bs[i].nodes { NodeInOneBucket(bs, me, i, j, n); }
      }
    }
    if n in b.nodes { assert n in cs[i].nodes; }
    if Contains(bs, n) && n !in bs[i].nodes {
      var j :| 0 <= j < |bs| && n in bs[j].nodes;
      assert n in cs[j].nodes;
    }
  }

  lemma NodeInOneBucket(bs: seq<Bucket>, me: Id, i: nat, j: nat, n: Node)
    requires WellFormed(bs, me) && i < |bs| && j < |bs| && n in bs[i].nodes && n in bs[j].nodes
    ensures i == j
  {
    assert BucketOk(bs[i], Lo(bs, i), Hi(bs, i), me) && BucketOk(bs[j], Lo(bs, j), Hi(bs, j), me);
    CoverUnique(bs, i, j, Value(n.id));
  }

  // ----- halving a range

  lemma HalvesAreAligned(lo: nat, hi: nat, d: nat)
    requires AlignedAt(lo, hi, d) && d < ID_BITS
    ensures Width(d) == 2 * Width(d + 1)
    ensures AlignedAt(lo, lo + Width(d + 1), d + 1) && AlignedAt(lo + Width(d + 1), hi, d + 1)
  {
    var k: nat :| Times(lo, k, Width(d));
    var w := Width(d + 1);
    MulAssoc(k, 2, w);
    assert Times(lo, k * 2, w);
    DistributeRight(k * 2, 1, w);
    assert Times(lo + w, k * 2 + 1, w);
  }

  /** The middle of bucket `i`, if its range has more than one id. */
  method BucketMiddle(bs: seq<Bucket>, i: nat) returns (mid: Option<Id>)
    requires Partition(bs) && i < |bs|
    ensures mid.None? <==> Hi(bs, i) - Lo(bs, i) == 1
    ensures mid.Some? ==>
      && 2 * (Value(mid.value) - Lo(bs, i)) == Hi(bs, i) - Lo(bs, i)
      && Aligned(Lo(bs, i), Value(mid.value)) && Aligned(Value(mid.value), Hi(bs, i))
  {
    ghost var lo, hi := Lo(bs, i), Hi(bs, i);
    assert Aligned(lo, hi);
    ghost var d :| AlignedAt(lo, hi, d);
    var bit := BucketDepth(bs, i, d);
    if bit >= 160 {
      assert Width(160) == 1;
      return None;
    }
    ghost var k: nat :| Times(lo, k, Width(d));
    var first := bs[i].first;
    SetBitAddsHalf(first, bit, k);
    HalvesAreAligned(lo, hi, d);
    mid := Some(first[bit / 8 := SetBit(first[bit / 8], bit % 8)]);
  }

  /** `MAX(bit1, bit2) + 1` of bucket_middle and bucket_random is the depth of the bucket. */
  method BucketDepth(bs: seq<Bucket>, i: nat, ghost d: nat) returns (bit: nat)
    requires Partition(bs) && i < |bs| && AlignedAt(Lo(bs, i), Hi(bs, i), d)
    ensures bit == d
  {
    var bit1 := LowBit(bs[i].first);
    var bit2 := -1;
    if i + 1 < |bs| {
      bit2 := LowBit(bs[i + 1].first);
      ValueBound(bs[i + 1].first);
    }
    DepthFromLowBits(Lo(bs, i), Hi(bs, i), d, bit1, bit2);
    bit := (if bit1 >= bit2 then bit1 else bit2) + 1;
  }

  /** A random id of bucket `i`: the random bytes are an input. */
  method BucketRandom(bs: seq<Bucket>, i: nat, random: Id) returns (id: Id)
    requires Partition(bs) && i < |bs|
    ensures Covers(bs, i, Value(id))
  {
    assert Aligned(Lo(bs, i), Hi(bs, i));
    ghost var d :| AlignedAt(Lo(bs, i), Hi(bs, i), d);
    var bit := BucketDepth(bs, i, d);
    var first := bs[i].first;
    if bit >= 160 { return first; }
    var m, low := bit / 8, Two(8 - bit % 8);
    ghost var k: nat :| Times(Lo(bs, i), k, Width(d));
    AlignedBytes(first, bit, k);
    TwoSplits(8 - bit % 8);
    RandomByteFits(first[m], random[m], 8 - bit % 8);
    // first & (0xFF00 >> (bit % 8)), then the low bits from random
    id := first[..m] + [first[m] - first[m] % low + random[m] % low] + random[m + 1..];
    assert id[..m] == first[..m] && id[m] == first[m] + random[m] % low;
    LowBitsStayInRange(first, id, bit, k);
  }

  lemma RandomByteFits(b: Byte, r: Byte, m: nat)
    requires m <= 8 && b % Two(m) == 0
    ensures b + r % Two(m) < 256
  {
    TwoSplits(m);
    var t, u := Two(m), Two(8 - m);
    var c := b / t;
    assert b == c * t;
    if c >= u { MulMonotone(u, c, t); }
    MulMonotone(c + 1, u, t);
    assert (c + 1) * t == c * t + t;
  }

  // ----- the three scans of new_node over one bucket

  predicate Bad(n: Node, now: int) { n.pinged >= 3 && n.pingedTime < now - 15 }

  /** `node_good`. */
  predicate Good(n: Node, now: int) {
    n.pinged <= 2 && n.replyTime >= now - 7200 && n.time >= now - 900
  }

  method FindIn(nodes: seq<Node>, id: Id) returns (k: nat)
    ensures k <= |nodes|
    ensures k < |nodes| ==> nodes[k].id == id
    ensures k == |nodes| <==> !HasIn(nodes, id)
  {
    k := 0;
    while k < |nodes|
      invariant 0 <= k <= |nodes|
      invariant forall j :: 0 <= j < k ==> nodes[j].id != id
    {
      var c := IdCmp(nodes[k].id, id);
      if c == 0 { return; }
      k := k + 1;
    }
  }

  method FindBad(nodes: seq<Node>, now: int) returns (k: nat)
    ensures k <= |nodes|
    ensures k < |nodes| ==> Bad(nodes[k], now)
    ensures forall j :: 0 <= j < k ==> !Bad(nodes[j], now)
  {
    k := 0;
    while k < |nodes| && !Bad(nodes[k], now)
      invariant 0 <= k <= |nodes|
      invariant forall j :: 0 <= j < k ==> !Bad(nodes[j], now)
    {
      k := k + 1;
    }
  }

  function PingedNode(n: Node, now: int): Node {
    n.(pinged := n.pinged + 1, pingedTime := now)
  }

  function Pinged(nodes: seq<Node>, k: nat, now: int): seq<Node>
    requires k < |nodes|
  {
    nodes[k := PingedNode(nodes[k], now)]
  }

  /** What `new_node` updates in a node it knows. */
  function Refreshed(n: Node, addr: Address, confirm: nat, now: int): Node {
    var m := n.(addr := addr);
    var m := if confirm != 0 then m.(time := now) else m;
    if confirm >= 2 then m.(replyTime := now, pinged := 0, pingedTime := 0) else m
  }

  /** Entry `k` is the first dubious one that has not been pinged in the last 15 seconds. */
  predicate FirstDubious(nodes: seq<Node>, k: nat, now: int) {
    k < |nodes| && DubiousAndQuiet(nodes[k], now) && forall j :: 0 <= j < k ==> !DubiousAndQuiet(nodes[j], now)
  }

  /** The first dubious node that has not been pinged in the last 15 seconds is the one to ping. */
  method FindDubious(nodes: seq<Node>, now: int) returns (dubious: bool, pick: Option<nat>)
    ensures dubious <==> exists n :: n in nodes && !Good(n, now)
    ensures pick.Some? ==> pick.value < |nodes|
    ensures forall k: nat :: FirstDubious(nodes, k, now) <==> pick == Some(k)
    ensures pick.None? ==> forall n :: n in nodes ==> !DubiousAndQuiet(n, now)
  {
    dubious := false;
    for k := 0 to |nodes|
      invariant dubious <==> exists j :: 0 <= j < k && !Good(nodes[j], now)
      invariant forall j :: 0 <= j < k ==> !DubiousAndQuiet(nodes[j], now)
    {
      if !Good(nodes[k], now) {
        dubious := true;
        if nodes[k].pingedTime < now - 15 { return true, Some(k); }
      }
    }
    return dubious, None;
  }

  predicate DubiousAndQuiet(n: Node, now: int) { !Good(n, now) && n.pingedTime < now - 15 }

  // ----- eight other ids and our own do not fit in a small range

  /** Nine different ids need a range of at least nine values. */
  lemma DistinctIdsNeedRoom(values: set<nat>, lo: nat, hi: nat)
    requires forall v :: v in values ==> lo <= v < hi
    requires lo <= hi
    ensures |values| <= hi - lo
    decreases hi - lo
  {
    if lo == hi {
      assert values == {};
    } else {
      DistinctIdsNeedRoom(values - {hi - 1}, lo, hi - 1);
    }
  }

  ghost function Values(nodes: seq<Node>): set<nat> {
    set n | n in nodes :: Value(n.id)
  }

  lemma {:induction false} DistinctValues(nodes: seq<Node>)
    requires Distinct(nodes)
    ensures |Values(nodes)| == |nodes|
  {
    if nodes != [] {
      var rest, last := nodes[..|nodes| - 1], nodes[|nodes| - 1];
      DistinctValues(rest);
      assert nodes == rest + [last];
      assert Value(last.id) !in Values(rest) by {
        if Value(last.id) in Values(rest) {
          var n :| n in rest && Value(n.id) == Value(last.id);
          ValueInjective(n.id, last.id);
        }
      }
      assert Values(nodes) == Values(rest) + {Value(last.id)};
    }
  }

  /** A full bucket that also covers our own id spans at least 16 ids, so it can be split. */
  lemma FullOwnBucketIsWide(bs: seq<Bucket>, me: Id, i: nat)
    requires WellFormed(bs, me) && i < |bs| && bs[i].count >= BUCKET_SIZE
    requires Covers(bs, i, Value(me))
    ensures Hi(bs, i) - Lo(bs, i) >= 16
  {
    var nodes := bs[i].nodes;
    var lo, hi := Lo(bs, i), Hi(bs, i);
    assert BucketOk(bs[i], lo, hi, me);
    DistinctValues(nodes);
    assert Value(me) !in Values(nodes) by {
      if Value(me) in Values(nodes) {
        var n :| n in nodes && Value(n.id) == Value(me);
        ValueInjective(n.id, me);
      }
    }
    DistinctIdsNeedRoom(Values(nodes) + {Value(me)}, lo, hi);
    assert Aligned(lo, hi);
    var d: nat :| AlignedAt(lo, hi, d);
    NineMeansSixteen(d);
  }

  lemma NineMeansSixteen(d: nat)
    requires d <= ID_BITS && Width(d) >= 9
    ensures Width(d) >= 16
  {
    assert Pow(2, 3) == 8 && Pow(2, 4) == 16;
    if d > 156 { PowMonotone(2, 160 - d, 3); } else { PowMonotone(2, 4, 160 - d); }
  }

  // ----- splitting

  /** The table with bucket `i` emptied and followed by an empty bucket that starts at `mid`. */
  function Opened(bs: seq<Bucket>, i: nat, mid: Id): (cs: seq<Bucket>)
    requires i < |bs|
    ensures |cs| == |bs| + 1
  {
    bs[..i] + [bs[i].(count := 0, nodes := [], cached := None), Bucket(mid, 0, bs[i].time, [], None)] + bs[i + 1..]
  }

  /** The buckets of an opened table are those of the table, with bucket `i` in two halves. */
  lemma OpenedParts(bs: seq<Bucket>, i: nat, mid: Id, j: nat)
    requires i < |bs| && j < |bs| + 1
    ensures var cs := Opened(bs, i, mid);
            && (j < i ==> cs[j] == bs[j] && Lo(cs, j) == Lo(bs, j) && Hi(cs, j) == Hi(bs, j))
            && (j == i ==> cs[j].nodes == [] && cs[j].count == 0 && Lo(cs, j) == Lo(bs, i) && Hi(cs, j) == Value(mid))
            && (j == i + 1 ==> cs[j].nodes == [] && cs[j].count == 0 && Lo(cs, j) == Value(mid) && Hi(cs, j) == Hi(bs, i))
            && (j > i + 1 ==> cs[j] == bs[j - 1] && Lo(cs, j) == Lo(bs, j - 1) && Hi(cs, j) == Hi(bs, j - 1))
  {
  }

  lemma OpenedIsWellFormed(bs: seq<Bucket>, me: Id, i: nat, mid: Id)
    requires WellFormed(bs, me) && i < |bs|
    requires Aligned(Lo(bs, i), Value(mid)) && Aligned(Value(mid), Hi(bs, i))
    ensures WellFormed(Opened(bs, i, mid), me)
  {
    var cs := Opened(bs, i, mid);
    OpenedParts(bs, i, mid, 0);
    forall j | 0 <= j < |cs|
      ensures Aligned(Lo(cs, j), Hi(cs, j)) && BucketOk(cs[j], Lo(cs, j), Hi(cs, j), me)
    {
      OpenedParts(bs, i, mid, j);
      if j < i { assert BucketOk(bs[j], Lo(bs, j), Hi(bs, j), me) && Aligned(Lo(bs, j), Hi(bs, j)); }
      if j > i + 1 { assert BucketOk(bs[j - 1], Lo(bs, j - 1), Hi(bs, j - 1), me) && Aligned(Lo(bs, j - 1), Hi(bs, j - 1)); }
    }
  }

  lemma OpenedContains(bs: seq<Bucket>, me: Id, i: nat, mid: Id, n: Node)
    requires WellFormed(bs, me) && i < |bs|
    ensures Contains(Opened(bs, i, mid), n) <==> Contains(bs, n) && n !in bs[i].nodes
  {
    if Contains(Opened(bs, i, mid), n) {
      var j := OpenedFrom(bs, i, mid, n);
      if n in bs[i].nodes { NodeInOneBucket(bs, me, i, j, n); }
    }
    if Contains(bs, n) && n !in bs[i].nodes { OpenedKeeps(bs, i, mid, n); }
  }

  lemma OpenedFrom(bs: seq<Bucket>, i: nat, mid: Id, n: Node) returns (o: nat)
    requires i < |bs| && Contains(Opened(bs, i, mid), n)
    ensures o < |bs| && o != i && n in bs[o].nodes
  {
    var j :| 0 <= j < |bs| + 1 && n in Opened(bs, i, mid)[j].nodes;
    OpenedParts(bs, i, mid, j);
    o := if j < i then j else j - 1;
  }

  lemma OpenedKeeps(bs: seq<Bucket>, i: nat, mid: Id, n: Node)
    requires i < |bs| && Contains(bs, n) && n !in bs[i].nodes
    ensures Contains(Opened(bs, i, mid), n)
  {
    var j :| 0 <= j < |bs| && n in bs[j].nodes;
    var o := if j < i then j else j + 1;
    OpenedParts(bs, i, mid, o);
    assert n in Opened(bs, i, mid)[o].nodes;
  }

  /** `cur` is the opened table after the first `k` nodes of the split bucket were inserted again. */
  ghost predicate HandedOut(bs: seq<Bucket>, me: Id, b: nat, mid: Id, cur: seq<Bucket>, k: nat) {
    && WellFormed(bs, me) && b < |bs| && k <= |bs[b].nodes|
    && Lo(bs, b) <= Value(mid) < Hi(bs, b)
    && WellFormed(cur, me) && |cur| == |bs| + 1
    && OpenedShape(cur, Opened(bs, b, mid), b)
    && |cur[b].nodes| + |cur[b + 1].nodes| == k
    && OpenedNodes(bs, b, cur, k)
  }

  ghost predicate OpenedShape(cur: seq<Bucket>, cs: seq<Bucket>, b: nat) {
    && |cur| == |cs|
    && (forall i :: 0 <= i < |cur| ==> cur[i].first == cs[i].first && cur[i].time == cs[i].time && cur[i].cached == cs[i].cached)
    && (forall i :: 0 <= i < |cur| && i != b && i != b + 1 ==> cur[i] == cs[i])
  }

  ghost predicate OpenedNodes(bs: seq<Bucket>, b: nat, cur: seq<Bucket>, k: nat)
    requires b < |bs| && k <= |bs[b].nodes|
  {
    forall n :: Contains(cur, n) <==> (Contains(bs, n) && n !in bs[b].nodes) || n in bs[b].nodes[..k]
  }

  lemma NothingHandedOut(bs: seq<Bucket>, me: Id, b: nat, mid: Id)
    requires WellFormed(bs, me) && b < |bs|
    requires Aligned(Lo(bs, b), Value(mid)) && Aligned(Value(mid), Hi(bs, b))
    ensures HandedOut(bs, me, b, mid, Opened(bs, b, mid), 0)
  {
    OpenedIsWellFormed(bs, me, b, mid);
    OpenedParts(bs, b, mid, b);
    OpenedParts(bs, b, mid, b + 1);
    forall n
      ensures Contains(Opened(bs, b, mid), n) <==> Contains(bs, n) && n !in bs[b].nodes
    {
      OpenedContains(bs, me, b, mid, n);
    }
  }

  lemma NextIsAbsent(bs: seq<Bucket>, me: Id, b: nat, cur: seq<Bucket>, k: nat)
    requires WellFormed(bs, me) && b < |bs| && k < |bs[b].nodes| && OpenedNodes(bs, b, cur, k)
    ensures !Has(cur, bs[b].nodes[k].id) && bs[b].nodes[k].id != me
  {
    var x := bs[b].nodes[k];
    IdsAreUnique(bs, me, b, k, b, k);
    if n :| Contains(cur, n) && n.id == x.id {
      var i :| 0 <= i < |bs| && n in bs[i].nodes;
      var l :| 0 <= l < |bs[i].nodes| && bs[i].nodes[l] == n;
      IdsAreUnique(bs, me, i, l, b, k);
    }
  }

  /** The next node belongs in one of the two halves, and both have room. */
  lemma NextHasRoom(bs: seq<Bucket>, b: nat, mid: Id, cur: seq<Bucket>, v: nat, j: int)
    requires Partition(cur) && b < |bs| && OpenedShape(cur, Opened(bs, b, mid), b)
    requires Covers(bs, b, v) && Lo(bs, b) <= Value(mid) < Hi(bs, b) && Covers(cur, j, v)
    ensures j == b || j == b + 1
  {
    OpenedParts(bs, b, mid, b);
    OpenedParts(bs, b, mid, b + 1);
    var h := if v < Value(mid) then b else b + 1;
    assert Covers(cur, h, v);
    CoverUnique(cur, j, h, v);
  }

  ghost predicate RoomFor(bs: seq<Bucket>, id: Id) {
    forall i :: Covers(bs, i, Value(id)) ==> bs[i].count < BUCKET_SIZE
  }

  lemma RoomForNext(bs: seq<Bucket>, me: Id, b: nat, mid: Id, cur: seq<Bucket>, k: nat)
    requires HandedOut(bs, me, b, mid, cur, k) && k < |bs[b].nodes|
    ensures RoomFor(cur, bs[b].nodes[k].id)
  {
    var n := bs[b].nodes[k];
    assert n in bs[b].nodes && BucketOk(bs[b], Lo(bs, b), Hi(bs, b), me);
    forall i | Covers(cur, i, Value(n.id))
      ensures cur[i].count < BUCKET_SIZE
    {
      NextHasRoom(bs, b, mid, cur, Value(n.id), i);
      assert BucketOk(cur[i], Lo(cur, i), Hi(cur, i), me);
    }
  }

  /** Bucket `b` with `n` put in front of its nodes. */
  function Prepended(b: Bucket, n: Node): Bucket {
    b.(nodes := [n] + b.nodes, count := b.count + 1)
  }

  lemma OneMoreHandedOut(bs: seq<Bucket>, me: Id, b: nat, mid: Id, cur: seq<Bucket>, k: nat, j: nat, next: seq<Bucket>)
    requires HandedOut(bs, me, b, mid, cur, k) && k < |bs[b].nodes|
    requires Covers(cur, j, Value(bs[b].nodes[k].id))
    requires next == cur[j := Prepended(cur[j], bs[b].nodes[k])] && WellFormed(next, me)
    requires forall n :: Contains(next, n) <==> Contains(cur, n) || n == bs[b].nodes[k]
    ensures HandedOut(bs, me, b, mid, next, k + 1)
  {
    var n := bs[b].nodes[k];
    assert n in bs[b].nodes && BucketOk(bs[b], Lo(bs, b), Hi(bs, b), me);
    NextHasRoom(bs, b, mid, cur, Value(n.id), j);
    OpenedShapeUpdate(cur, Opened(bs, b, mid), b, j, Prepended(cur[j], n));
    OpenedNodesNext(bs, b, cur, k, next);
  }

  lemma OpenedShapeUpdate(cur: seq<Bucket>, cs: seq<Bucket>, b: nat, j: nat, nb: Bucket)
    requires OpenedShape(cur, cs, b) && (j == b || j == b + 1) && j < |cur| && nb == cur[j].(nodes := nb.nodes, count := nb.count)
    ensures OpenedShape(cur[j := nb], cs, b)
  {
  }

  lemma OpenedNodesNext(bs: seq<Bucket>, b: nat, cur: seq<Bucket>, k: nat, next: seq<Bucket>)
    requires b < |bs| && k < |bs[b].nodes| && OpenedNodes(bs, b, cur, k)
    requires forall n :: Contains(next, n) <==> Contains(cur, n) || n == bs[b].nodes[k]
    ensures OpenedNodes(bs, b, next, k + 1)
  {
    assert bs[b].nodes[..k + 1] == bs[b].nodes[..k] + [bs[b].nodes[k]];
  }

  /** Adding a new node at the front of the bucket that covers its id. */
  lemma InsertIntoBucket(bs: seq<Bucket>, me: Id, i: nat, n: Node)
    requires WellFormed(bs, me) && Covers(bs, i, Value(n.id)) && bs[i].count < BUCKET_SIZE
    requires !Has(bs, n.id) && n.id != me
    ensures WellFormed(bs[i := Prepended(bs[i], n)], me)
    ensures forall m :: Contains(bs[i := Prepended(bs[i], n)], m)
                    <==> Contains(bs, m) || m == n
  {
    var b := Prepended(bs[i], n);
    forall k | 0 <= k < |bs[i].nodes|
      ensures bs[i].nodes[k].id != n.id
    {
      assert bs[i].nodes[k] in bs[i].nodes;
      assert Contains(bs, bs[i].nodes[k]);
    }
    assert BucketOk(bs[i], Lo(bs, i), Hi(bs, i), me);
    UpdateBucket(bs, me, i, b);
    assert forall m :: m in bs[i].nodes ==> Contains(bs, m);
  }

  /** An insertion that fills more than 8 places, repeats an id or adds our own breaks the table. */
  lemma InsertBreaks(bs: seq<Bucket>, me: Id, i: nat, n: Node)
    requires WellFormed(bs, me) && Covers(bs, i, Value(n.id))
    requires WellFormed(bs[i := Prepended(bs[i], n)], me)
    ensures !Has(bs, n.id) && n.id != me && RoomFor(bs, n.id)
  {
    var bs' := bs[i := Prepended(bs[i], n)];
    assert BucketOk(bs'[i], Lo(bs', i), Hi(bs', i), me);
    assert n in bs'[i].nodes;
    AbsentIfDistinct(bs[i].nodes, n);
    OneBucketLookupAgrees(bs, me, i, n.id);
    forall j | Covers(bs, j, Value(n.id)) ensures bs[j].count < BUCKET_SIZE {
      CoverUnique(bs, i, j, Value(n.id));
    }
  }

  lemma InsertKeepsIff(bs: seq<Bucket>, me: Id, i: nat, n: Node, bs': seq<Bucket>)
    requires WellFormed(bs, me) && Covers(bs, i, Value(n.id)) && bs' == bs[i := Prepended(bs[i], n)]
    ensures WellFormed(bs', me) <==> !Has(bs, n.id) && n.id != me && RoomFor(bs, n.id)
  {
    hide Has, WellFormed;
    if !Has(bs, n.id) && n.id != me && RoomFor(bs, n.id) {
      InsertIntoBucket(bs, me, i, n);
    } else if WellFormed(bs', me) {
      InsertBreaks(bs, me, i, n);
    }
  }

  lemma AbsentIfDistinct(nodes: seq<Node>, n: Node)
    requires Distinct([n] + nodes)
    ensures !HasIn(nodes, n.id)
  {
    forall m | m in nodes ensures m.id != n.id {
      var k: nat :| k < |nodes| && nodes[k] == m;
      assert ([n] + nodes)[k + 1] == m && ([n] + nodes)[0] == n;
    }
  }

  lemma InsertAddsOne(bs: seq<Bucket>, i: nat, n: Node, bs': seq<Bucket>)
    requires i < |bs| && bs' == bs[i := Prepended(bs[i], n)]
    ensures forall m :: Contains(bs', m) <==> Contains(bs, m) || m == n
  {
    assert n in bs'[i].nodes;
    forall m | Contains(bs, m) ensures Contains(bs', m) {
      var j :| 0 <= j < |bs| && m in bs[j].nodes;
      assert m in bs'[j].nodes;
    }
    forall m | Contains(bs', m) ensures Contains(bs, m) || m == n {
      var j :| 0 <= j < |bs'| && m in bs'[j].nodes;
      assert m == n || m in bs[j].nodes;
    }
  }

  // ----- changing and dropping nodes

  /** Replacing entry `k` of a bucket by a node with the same id, or with an id new to the table. */
  lemma ReplaceInBucket(bs: seq<Bucket>, me: Id, i: nat, k: nat, n: Node, cs: seq<Bucket>)
    requires WellFormed(bs, me) && i < |bs| && k < |bs[i].nodes|
    requires Covers(bs, i, Value(n.id)) && n.id != me
    requires n.id == bs[i].nodes[k].id || !Has(bs, n.id)
    requires cs == bs[i := bs[i].(nodes := bs[i].nodes[k := n])]
    ensures WellFormed(cs, me)
    ensures forall m :: Contains(cs, m) <==> m == n || (Contains(bs, m) && m != bs[i].nodes[k])
  {
    var nodes := bs[i].nodes;
    var b := bs[i].(nodes := nodes[k := n]);
    assert BucketOk(bs[i], Lo(bs, i), Hi(bs, i), me);
    ReplacedBucketOk(bs, me, i, k, n);
    UpdateKeepsShape(bs, me, i, b);
    forall m
      ensures Contains(cs, m) <==> m == n || (Contains(bs, m) && m != nodes[k])
    {
      UpdateContains(bs, me, i, b, m);
      ReplacedMember(nodes, k, n, m);
      if m in nodes { assert Contains(bs, m); }
    }
  }

  lemma ReplacedBucketOk(bs: seq<Bucket>, me: Id, i: nat, k: nat, n: Node)
    requires i < |bs| && k < |bs[i].nodes| && BucketOk(bs[i], Lo(bs, i), Hi(bs, i), me)
    requires Covers(bs, i, Value(n.id)) && n.id != me
    requires n.id == bs[i].nodes[k].id || !Has(bs, n.id)
    ensures BucketOk(bs[i].(nodes := bs[i].nodes[k := n]), Lo(bs, i), Hi(bs, i), me)
  {
    var nodes := bs[i].nodes;
    forall j | 0 <= j < |nodes| && j != k
      ensures nodes[j].id != n.id
    {
      assert nodes[j] in nodes;
      assert Contains(bs, nodes[j]);
    }
    assert forall m :: m in nodes[k := n] ==> m == n || m in nodes;
  }

  lemma ReplacedMember(nodes: seq<Node>, k: nat, n: Node, m: Node)
    requires k < |nodes| && Distinct(nodes)
    ensures m in nodes[k := n] <==> m == n || (m in nodes && m != nodes[k])
  {
    if m in nodes && m != nodes[k] {
      var j :| 0 <= j < |nodes| && nodes[j] == m;
      assert nodes[k := n][j] == m;
    }
    assert nodes[k := n][k] == n;
  }

  /** The nodes that `expire_buckets` keeps. */
  function Alive(nodes: seq<Node>): (r: seq<Node>)
  {
    if nodes == [] then []
    else if nodes[0].pinged < 4 then [nodes[0]] + Alive(nodes[1..])
    else Alive(nodes[1..])
  }

  /** A bucket after expiry: the others are dropped and counted off, and then the cached candidate is used up. */
  function Purged(b: Bucket): Bucket {
    var nodes := Alive(b.nodes);
    b.(nodes := nodes, count := b.count - |b.nodes| + |nodes|, cached := if |nodes| < |b.nodes| then None else b.cached)
  }

  lemma {:induction false} AliveMembers(nodes: seq<Node>)
    ensures |Alive(nodes)| <= |nodes|
    ensures forall n :: n in Alive(nodes) <==> n in nodes && n.pinged < 4
  {
    if nodes != [] {
      AliveMembers(nodes[1..]);
      assert nodes == [nodes[0]] + nodes[1..];
    }
  }

  lemma {:induction false} AliveDistinct(nodes: seq<Node>)
    requires Distinct(nodes)
    ensures Distinct(Alive(nodes))
  {
    if nodes != [] {
      AliveDistinct(nodes[1..]);
      AliveMembers(nodes[1..]);
      forall n | n in Alive(nodes[1..])
        ensures n.id != nodes[0].id
      {
        var j :| 0 <= j < |nodes[1..]| && nodes[1..][j] == n;
        assert nodes[j + 1] == n;
      }
    }
  }

  lemma {:induction false} AliveConcat(x: seq<Node>, y: seq<Node>)
    ensures Alive(x + y) == Alive(x) + Alive(y)
  {
    if x == [] {
      assert x + y == y;
    } else {
      assert (x + y)[1..] == x[1..] + y;
      AliveConcat(x[1..], y);
      assert (x + y)[0] == x[0];
    }
  }

  lemma {:induction false} AliveAll(nodes: seq<Node>)
    requires forall n :: n in nodes ==> n.pinged < 4
    ensures Alive(nodes) == nodes
  {
    if nodes != [] { AliveAll(nodes[1..]); }
  }

  /** Unlinking a dead node changes nothing that matters. */
  lemma AliveUnlink(nodes: seq<Node>, k: nat)
    requires k < |nodes| && nodes[k].pinged >= 4
    ensures Alive(nodes[..k] + nodes[k + 1..]) == Alive(nodes)
  {
    var x, y := nodes[..k], nodes[k..];
    assert nodes == x + y && y[1..] == nodes[k + 1..] && y[0] == nodes[k];
    AliveConcat(x, y);
    AliveConcat(x, nodes[k + 1..]);
  }

  /** The body of the loop of `expire_buckets`: drop every node pinged four times without a reply. */
  method ExpireBucket(b: Bucket) returns (r: Bucket)
    ensures r == Purged(b)
  {
    var nodes, count := b.nodes, b.count;
    while nodes != [] && nodes[0].pinged >= 4
      invariant Alive(nodes) == Alive(b.nodes)
      invariant count - |nodes| == b.count - |b.nodes| && |nodes| <= |b.nodes|
    {
      nodes, count := nodes[1..], count - 1;
    }
    var p := 0;
    while p < |nodes|
      invariant Alive(nodes) == Alive(b.nodes)
      invariant count - |nodes| == b.count - |b.nodes| && |nodes| <= |b.nodes|
      invariant 0 <= p <= |nodes|
      invariant forall j :: 0 <= j <= p && j < |nodes| ==> nodes[j].pinged < 4
      decreases |nodes| - p
    {
      while p + 1 < |nodes| && nodes[p + 1].pinged >= 4
        invariant Alive(nodes) == Alive(b.nodes)
        invariant count - |nodes| == b.count - |b.nodes| && |nodes| <= |b.nodes|
        invariant 0 <= p < |nodes|
        invariant forall j :: 0 <= j <= p ==> nodes[j].pinged < 4
        decreases |nodes|
      {
        AliveUnlink(nodes, p + 1);
        nodes, count := nodes[..p + 1] + nodes[p + 2..], count - 1;
      }
      p := p + 1;
    }
    AliveAll(nodes);
    var changed := |nodes| < |b.nodes|;
    r := b.(nodes := nodes, count := count, cached := if changed then None else b.cached);
  }

  ghost function CoverOf(bs: seq<Bucket>, id: Id): (i: nat)
    requires Partition(bs)
    ensures Covers(bs, i, Value(id))
  {
    ValueBound(id);
    Cover(bs, Value(id))
  }

  lemma OnlyCover(bs: seq<Bucket>, b: int, id: Id)
    requires Partition(bs) && Covers(bs, b, Value(id))
    ensures CoverOf(bs, id) == b && forall i :: Covers(bs, i, Value(id)) ==> i == b
  {
    forall i | Covers(bs, i, Value(id)) ensures i == b { CoverUnique(bs, i, b, Value(id)); }
  }

  /** The width of the range of the bucket that covers an id. */
  ghost function SpanOf(bs: seq<Bucket>, id: Id): nat
    requires Partition(bs)
  {
    Hi(bs, CoverOf(bs, id)) - Lo(bs, CoverOf(bs, id))
  }

  /** After bucket `b` was cut in the middle, an id it covered is covered by half the range. */
  lemma SplitHalvesSpan(bs: seq<Bucket>, cs: seq<Bucket>, b: nat, id: Id)
    requires Partition(bs) && Partition(cs) && Covers(bs, b, Value(id)) && b + 1 < |cs|
    requires Lo(cs, b) == Lo(bs, b) && Hi(cs, b + 1) == Hi(bs, b)
    requires 2 * (Lo(cs, b + 1) - Lo(cs, b)) == Hi(bs, b) - Lo(bs, b)
    ensures 2 * SpanOf(cs, id) == SpanOf(bs, id)
  {
    CoverUnique(bs, b, CoverOf(bs, id), Value(id));
    var h := if Value(id) < Lo(cs, b + 1) then b else b + 1;
    assert Covers(cs, h, Value(id));
    CoverUnique(cs, h, CoverOf(cs, id), Value(id));
  }

  /** No node disappears except one that could be discarded, and only for the sake of `id`. */
  ghost predicate LosesOnlyBad(bs: seq<Bucket>, cs: seq<Bucket>, id: Id, known: bool, now: int) {
    && (forall n :: Contains(bs, n) ==> Has(cs, n.id) || (known && Bad(n, now) && !Has(bs, id)))
    && (forall n, m :: Contains(bs, n) && !Has(cs, n.id) && Contains(bs, m) && !Has(cs, m.id) ==> n.id == m.id)
  }

  ghost predicate GainsOnly(bs: seq<Bucket>, cs: seq<Bucket>, id: Id, known: bool) {
    forall n :: Contains(cs, n) ==> Has(bs, n.id) || (known && n.id == id)
  }

  /** The table holds `id` at `addr`, heard of now, and without pings since its reply if it replied. */
  ghost predicate Heard(bs: seq<Bucket>, id: Id, addr: Address, confirm: nat, now: int) {
    exists n :: Contains(bs, n) && n.id == id && n.addr == addr && n.time == now
                && (confirm >= 2 ==> n.replyTime == now && n.pinged == 0 && n.pingedTime == 0)
  }

  /** The bucket that covers `id` has no room left. */
  ghost predicate IsFull(bs: seq<Bucket>, id: Id) {
    exists i :: Covers(bs, i, Value(id)) && bs[i].count >= BUCKET_SIZE
  }

  /** Putting `n` in the place of `o` gains the id of `n` and loses at most the id of `o`. */
  lemma SwapSummary(bs: seq<Bucket>, cs: seq<Bucket>, o: Node, n: Node, now: int)
    requires Contains(bs, o)
    requires forall m :: Contains(cs, m) <==> m == n || (Contains(bs, m) && m != o)
    requires n.id == o.id || (Bad(o, now) && !Has(bs, n.id))
    ensures Has(cs, n.id) && GainsOnly(bs, cs, n.id, true) && LosesOnlyBad(bs, cs, n.id, true, now)
  {
    assert Contains(cs, n);
    forall x | Contains(bs, x) && x != o
      ensures Has(cs, x.id)
    {
      assert Contains(cs, x);
    }
  }

  lemma AddSummary(bs: seq<Bucket>, cs: seq<Bucket>, n: Node, now: int)
    requires forall m :: Contains(cs, m) <==> Contains(bs, m) || m == n
    ensures Has(cs, n.id) && GainsOnly(bs, cs, n.id, true) && LosesOnlyBad(bs, cs, n.id, true, now)
  {
    assert Contains(cs, n);
    forall x | Contains(bs, x)
      ensures Has(cs, x.id)
    {
      assert Contains(cs, x);
    }
  }

  lemma SameSummary(bs: seq<Bucket>, cs: seq<Bucket>, id: Id, known: bool, now: int)
    requires forall m :: Contains(cs, m) <==> Contains(bs, m)
    ensures GainsOnly(bs, cs, id, known) && LosesOnlyBad(bs, cs, id, known, now)
    ensures forall x :: Has(bs, x) <==> Has(cs, x)
    ensures PingedFrom(bs, cs, now)
  {
    forall x
      ensures Has(bs, x) <==> Has(cs, x)
    {
      if n :| Contains(bs, n) && n.id == x { assert Contains(cs, n); }
      if n :| Contains(cs, n) && n.id == x { assert Contains(bs, n); }
    }
    assert forall n :: Contains(bs, n) ==> Has(bs, n.id);
  }

  lemma PingSummary(bs: seq<Bucket>, cs: seq<Bucket>, o: Node, n: Node, now: int)
    requires Contains(bs, o) && n.id == o.id && n.pingedTime == now
    requires forall m :: Contains(cs, m) <==> m == n || (Contains(bs, m) && m != o)
    ensures PingedFrom(bs, cs, now)
  {
    assert Contains(cs, n);
  }

  lemma PingedTable(bs: seq<Bucket>, me: Id, b: nat, k: nat, now: int, cs: seq<Bucket>)
    requires WellFormed(bs, me) && b < |bs| && k < |bs[b].nodes|
    requires cs == bs[b := bs[b].(nodes := Pinged(bs[b].nodes, k, now))]
    ensures WellFormed(cs, me) && PingedFrom(bs, cs, now)
  {
    var o := bs[b].nodes[k];
    EntryIsPlaced(bs, me, b, k);
    ReplaceInBucket(bs, me, b, k, PingedNode(o, now), cs);
    PingSummary(bs, cs, o, PingedNode(o, now), now);
  }

  lemma EntryIsPlaced(bs: seq<Bucket>, me: Id, b: nat, k: nat)
    requires WellFormed(bs, me) && b < |bs| && k < |bs[b].nodes|
    ensures Contains(bs, bs[b].nodes[k]) && Covers(bs, b, Value(bs[b].nodes[k].id)) && bs[b].nodes[k].id != me
  {
    assert bs[b].nodes[k] in bs[b].nodes;
    assert BucketOk(bs[b], Lo(bs, b), Hi(bs, b), me);
  }

  /** The table after pinging some nodes: the same ids, and only the ping counters differ. */
  ghost predicate PingedFrom(bs: seq<Bucket>, ms: seq<Bucket>, now: int) {
    && (forall n :: Contains(bs, n) ==> Contains(ms, n) || exists m :: Contains(ms, m) && m.id == n.id && m.pingedTime == now)
    && (forall n :: Contains(ms, n) ==> Has(bs, n.id))
  }

  lemma PingedThenSame(bs: seq<Bucket>, ms: seq<Bucket>, cs: seq<Bucket>, now: int)
    requires PingedFrom(bs, ms, now)
    requires forall n :: Contains(cs, n) <==> Contains(ms, n)
    ensures PingedFrom(bs, cs, now)
  {
    forall n | Contains(bs, n) && !Contains(cs, n)
      ensures exists m :: Contains(cs, m) && m.id == n.id && m.pingedTime == now
    {
      var m :| Contains(ms, m) && m.id == n.id && m.pingedTime == now;
      assert Contains(cs, m);
    }
  }

  /** Pinging one node in between adds and loses no id, and makes no node worse. */
  lemma LossesCompose(bs: seq<Bucket>, ms: seq<Bucket>, cs: seq<Bucket>, id: Id, known: bool, now: int)
    requires PingedFrom(bs, ms, now)
    requires LosesOnlyBad(ms, cs, id, known, now) && GainsOnly(ms, cs, id, known)
    ensures LosesOnlyBad(bs, cs, id, known, now) && GainsOnly(bs, cs, id, known)
  {
    forall n | Contains(bs, n) && !Has(cs, n.id)
      ensures Contains(ms, n)
    {
    }
    if n :| Contains(bs, n) && n.id == id && !Has(ms, id) {
      assert false;
    }
    forall n | Contains(cs, n) && Has(ms, n.id)
      ensures Has(bs, n.id)
    {
      var m :| Contains(ms, m) && m.id == n.id;
    }
  }

  // ----- what new_node makes of a table

  /** The entry for an id that was not known. */
  function Newcomer(id: Id, addr: Address, confirm: nat, now: int): Node {
    Node(id, addr, if confirm != 0 then now else 0, if confirm >= 2 then now else 0, 0, 0)
  }

  /** `n` is what becomes of the known entry `o`: nothing if it was seen lately and did not send this itself. */
  predicate Renewed(o: Node, n: Node, addr: Address, confirm: nat, now: int) {
    if confirm == 0 && o.time >= now - 900 then n == o
    else
      && n.id == o.id && n.addr == addr
      && n.time == (if confirm == 0 then o.time else now)
      && (if confirm >= 2 then n.replyTime == now && n.pinged == 0 == n.pingedTime
          else n.replyTime == o.replyTime && n.pinged == o.pinged && n.pingedTime == o.pingedTime)
  }

  /** Bucket `b` as `new_node` finds it: a reply counts as activity of the bucket. */
  function Stamped(bs: seq<Bucket>, b: int, confirm: nat, now: int): seq<Bucket>
    requires 0 <= b < |bs|
  {
    bs[b := bs[b].(time := if confirm == 2 then now else bs[b].time)]
  }

  predicate OneReplaced(bs: seq<Bucket>, cs: seq<Bucket>, b: int, k: nat, n: Node) {
    0 <= b < |bs| && k < |bs[b].nodes| && cs == bs[b := bs[b].(nodes := bs[b].nodes[k := n])]
  }

  ghost predicate RenewsEntry(bs: seq<Bucket>, cs: seq<Bucket>, b: int, id: Id, addr: Address, confirm: nat, now: int) {
    exists k: nat, n ::
      OneReplaced(bs, cs, b, k, n) && bs[b].nodes[k].id == id && Renewed(bs[b].nodes[k], n, addr, confirm, now)
  }

  predicate FirstBad(nodes: seq<Node>, k: nat, now: int) {
    k < |nodes| && Bad(nodes[k], now) && forall j :: 0 <= j < k ==> !Bad(nodes[j], now)
  }

  ghost predicate ReplacesBad(bs: seq<Bucket>, cs: seq<Bucket>, b: int, n: Node, now: int) {
    exists k: nat :: OneReplaced(bs, cs, b, k, n) && FirstBad(bs[b].nodes, k, now)
  }

  /** The first quiet dubious node of bucket `b`, if there is one, has one ping more. */
  ghost predicate PingsDubious(bs: seq<Bucket>, ms: seq<Bucket>, b: int, now: int) {
    && 0 <= b < |bs|
    && ((exists k: nat :: FirstPinged(bs, ms, b, k, now))
        || (ms == bs && forall n :: n in bs[b].nodes ==> !DubiousAndQuiet(n, now)))
  }

  predicate FirstPinged(bs: seq<Bucket>, ms: seq<Bucket>, b: int, k: nat, now: int) {
    && 0 <= b < |bs| && FirstDubious(bs[b].nodes, k, now)
    && OneReplaced(bs, ms, b, k, OncePinged(bs[b].nodes[k], now))
  }

  function OncePinged(n: Node, now: int): Node { n.(pinged := n.pinged + 1, pingedTime := now) }

  /** No room: the address is kept for later, unless one is kept already and this one is hearsay. */
  ghost predicate TurnsAway(bs: seq<Bucket>, cs: seq<Bucket>, b: int, addr: Address, confirm: nat, now: int) {
    exists ms :: PingsDubious(bs, ms, b, now) && |ms| == |bs| && KeepsAddress(ms, cs, b, addr, confirm)
  }

  predicate KeepsAddress(ms: seq<Bucket>, cs: seq<Bucket>, b: int, addr: Address, confirm: nat) {
    && 0 <= b < |ms|
    && cs == ms[b := ms[b].(cached := if confirm == 0 && ms[b].cached.Some? then ms[b].cached else Some(addr))]
  }

  /** A full bucket is split if our own id belongs in it and all its nodes are good or it is the only one. */
  predicate IsSplit(bs: seq<Bucket>, me: Id, b: int, now: int) {
    Covers(bs, b, Value(me)) && (|bs| == 1 || forall n :: n in bs[b].nodes ==> Good(n, now))
  }

  /** What becomes of an id that bucket `b` covers. */
  ghost predicate Settles(me: Id, bs: seq<Bucket>, cs: seq<Bucket>, b: int, id: Id, addr: Address, confirm: nat, now: int, known: bool)
    requires 0 <= b < |bs|
  {
    if HasIn(bs[b].nodes, id) then known && RenewsEntry(bs, cs, b, id, addr, confirm, now)
    else if exists n :: n in bs[b].nodes && Bad(n, now) then known && ReplacesBad(bs, cs, b, Newcomer(id, addr, confirm, now), now)
    else if |bs[b].nodes| < 8 then
      known && cs == bs[b := bs[b].(nodes := [Newcomer(id, addr, confirm, now)] + bs[b].nodes, count := bs[b].count + 1)]
    else if IsSplit(bs, me, b, now) then |cs| > |bs|
    else !known && TurnsAway(bs, cs, b, addr, confirm, now)
  }

  /**
   An id that was refused sees its bucket full of nodes none of which is bad, and its address kept
   if it sent the message itself; if our own id belongs there too, a split would not have helped.
   */
  ghost predicate NoPlaceFor(me: Id, cs: seq<Bucket>, b: int, id: Id, addr: Address, confirm: nat, now: int) {
    && Covers(cs, b, Value(id))
    && |cs[b].nodes| == 8 && (forall n :: n in cs[b].nodes ==> !Bad(n, now))
    && cs[b].cached.Some? && (confirm != 0 ==> cs[b].cached == Some(addr))
    && (Covers(cs, b, Value(me)) ==> |cs| > 1 && exists n :: n in cs[b].nodes && !Good(n, now))
  }

  ghost predicate Refuses(me: Id, cs: seq<Bucket>, id: Id, addr: Address, confirm: nat, now: int) {
    exists b :: NoPlaceFor(me, cs, b, id, addr, confirm, now)
  }

  predicate HasRange(bs: seq<Bucket>, lo: nat, hi: nat) {
    exists i :: 0 <= i < |bs| && Lo(bs, i) == lo && Hi(bs, i) == hi
  }

  /** Ranges stay, but for that of our own id; every new bucket is one more halving of the range of `id`. */
  ghost predicate Reshapes(me: Id, bs: seq<Bucket>, cs: seq<Bucket>, id: Id) {
    && Partition(bs) && Partition(cs) && |bs| <= |cs|
    && (forall i :: 0 <= i < |bs| && !Covers(bs, i, Value(me)) ==> HasRange(cs, Lo(bs, i), Hi(bs, i)))
    && SpanOf(bs, id) == Pow(2, |cs| - |bs|) * SpanOf(cs, id)
    && (|bs| < |cs| ==> Crowded(bs, me, id, 2 * SpanOf(cs, id)))
  }

  /** Eight nodes and our own id share a range of this width with `id`. */
  ghost predicate Crowded(bs: seq<Bucket>, me: Id, id: Id, width: nat) {
    exists nodes, lo: nat :: CrowdOf(bs, me, id, width, nodes, lo)
  }

  ghost predicate CrowdOf(bs: seq<Bucket>, me: Id, id: Id, width: nat, nodes: seq<Node>, lo: nat) {
    && lo <= Value(id) < lo + width && lo <= Value(me) < lo + width
    && |nodes| == 8 && Distinct(nodes)
    && forall n :: n in nodes ==> Has(bs, n.id) && lo <= Value(n.id) < lo + width
  }

  /** Other entries stay as they are, but for dubious ones, which may be pinged, and bad ones, which may go. */
  ghost predicate Spares(bs: seq<Bucket>, cs: seq<Bucket>, id: Id, now: int) {
    forall n :: Contains(bs, n) && n.id != id ==>
      || Contains(cs, n)
      || (DubiousAndQuiet(n, now) && Contains(cs, OncePinged(n, now)))
      || (Bad(n, now) && !Has(cs, n.id))
  }

  /** What `new_node` promises for an id that is not ours, with an address that is not refused. */
  ghost predicate Learns(me: Id, bs: seq<Bucket>, cs: seq<Bucket>, id: Id, addr: Address, confirm: nat, now: int, known: bool) {
    && (known <==> Has(cs, id))
    && (forall b :: Covers(bs, b, Value(id)) ==> Settles(me, Stamped(bs, b, confirm, now), cs, b, id, addr, confirm, now, known))
    && (known && !Has(bs, id) ==> Contains(cs, Newcomer(id, addr, confirm, now)))
    && (!known ==> Refuses(me, cs, id, addr, confirm, now))
    && Reshapes(me, bs, cs, id) && Spares(bs, cs, id, now)
    && GainsOnly(bs, cs, id, known) && LosesOnlyBad(bs, cs, id, known, now)
  }

  /** A node that replied at `t0` and was last heard at `t1` is good until 15 minutes after `t1` and two hours after `t0`. */
  lemma GoodUntil(o: Node, addr: Address, t0: int, t1: int, t: int)
    requires 0 <= t0 <= t1 <= t
    ensures var n := Refreshed(Refreshed(o, addr, 2, t0), addr, 1, t1);
            Good(n, t) <==> t <= t0 + 7200 && t <= t1 + 900
  {
  }

  /**
   A node that replied and then leaves three requests without a reply is bad from 15 seconds after
   the third, not before, and not good from then on; the fourth makes expiry drop it.
   */
  lemma BadAfterThree(o: Node, addr: Address, t0: int, t1: int, t2: int, t3: int, t: int)
    requires 20 <= t0 <= t1 <= t2 <= t3 <= t
    ensures var n := Refreshed(o, addr, 2, t0);
            var n1 := PingedNode(n, t1); var n2 := PingedNode(n1, t2); var n3 := PingedNode(n2, t3);
            && !Bad(n, t) && !Bad(n1, t) && !Bad(n2, t) && (Bad(n3, t) <==> t > t3 + 15)
            && (Good(n2, t) <==> t <= t0 + 900) && !Good(n3, t)
            && Alive([n3]) == [n3] && Alive([PingedNode(n3, t)]) == []
  {
  }

  // ----- steps towards that

  predicate SameFirsts(bs: seq<Bucket>, cs: seq<Bucket>) {
    |bs| == |cs| && forall i :: 0 <= i < |bs| ==> cs[i].first == bs[i].first
  }

  ghost predicate SameIdsIn(bs: seq<Bucket>, cs: seq<Bucket>) { forall x :: Has(bs, x) <==> Has(cs, x) }

  lemma SameFirstsSameRanges(bs: seq<Bucket>, cs: seq<Bucket>, id: Id)
    requires Partition(bs) && SameFirsts(bs, cs)
    ensures Partition(cs) && SpanOf(cs, id) == SpanOf(bs, id)
    ensures forall i :: 0 <= i < |bs| ==> Lo(cs, i) == Lo(bs, i) && Hi(cs, i) == Hi(bs, i)
  {
    assert forall i :: 0 <= i < |bs| ==> Lo(cs, i) == Lo(bs, i) && Hi(cs, i) == Hi(bs, i);
    forall i | 0 <= i < |cs| ensures Aligned(Lo(cs, i), Hi(cs, i)) { assert Aligned(Lo(bs, i), Hi(bs, i)); }
    var b := CoverOf(bs, id);
    assert Covers(cs, b, Value(id));
    CoverUnique(cs, b, CoverOf(cs, id), Value(id));
  }

  lemma UnchangedShape(me: Id, bs: seq<Bucket>, cs: seq<Bucket>, id: Id)
    requires Partition(bs) && SameFirsts(bs, cs)
    ensures Reshapes(me, bs, cs, id)
  {
    SameFirstsSameRanges(bs, cs, id);
    assert Pow(2, 0) == 1;
  }

  lemma ShapeFrom(me: Id, bs: seq<Bucket>, ms: seq<Bucket>, cs: seq<Bucket>, id: Id)
    requires Partition(bs) && SameFirsts(bs, ms) && SameIdsIn(bs, ms) && Reshapes(me, ms, cs, id)
    ensures Reshapes(me, bs, cs, id)
  {
    hide Partition, SpanOf, HasRange, Has, Pow, Distinct;
    SameFirstsSameRanges(bs, ms, id);
    if |bs| < |cs| { CrowdFrom(bs, ms, me, id, 2 * SpanOf(cs, id)); }
  }

  lemma CrowdFrom(bs: seq<Bucket>, ms: seq<Bucket>, me: Id, id: Id, width: nat)
    requires SameIdsIn(bs, ms) && Crowded(ms, me, id, width)
    ensures Crowded(bs, me, id, width)
  {
    hide Has;
    var nodes, lo: nat :| CrowdOf(ms, me, id, width, nodes, lo);
    assert CrowdOf(bs, me, id, width, nodes, lo);
  }

  /** Bucket `b` of `bs` is cut in the middle. */
  ghost predicate IsCut(bs: seq<Bucket>, ss: seq<Bucket>, b: nat) {
    && b < |bs| && |ss| == |bs| + 1
    && (forall i :: 0 <= i < b ==> ss[i] == bs[i])
    && (forall i :: b + 1 < i < |ss| ==> ss[i] == bs[i - 1])
    && Lo(ss, b) == Lo(bs, b)
    && 2 * (Lo(ss, b + 1) - Lo(ss, b)) == Hi(bs, b) - Lo(bs, b)
    && Hi(ss, b + 1) == Hi(bs, b)
    && ss[b].time == ss[b + 1].time == bs[b].time
    && ss[b].cached == ss[b + 1].cached == None
  }

  lemma CutKeepsRange(bs: seq<Bucket>, ss: seq<Bucket>, b: nat, i: nat) returns (j: nat)
    requires IsCut(bs, ss, b) && i < |bs| && i != b
    ensures j < |ss| && Lo(ss, j) == Lo(bs, i) && Hi(ss, j) == Hi(bs, i)
  {
    j := if i < b then i else i + 1;
  }

  lemma CutKeepsRanges(me: Id, bs: seq<Bucket>, ss: seq<Bucket>, cs: seq<Bucket>, b: nat, i: nat)
    requires IsCut(bs, ss, b) && Covers(bs, b, Value(me)) && i < |bs| && !Covers(bs, i, Value(me))
    requires forall j :: 0 <= j < |ss| && !Covers(ss, j, Value(me)) ==> HasRange(cs, Lo(ss, j), Hi(ss, j))
    ensures HasRange(cs, Lo(bs, i), Hi(bs, i))
  {
    hide HasRange, IsCut;
    var j := CutKeepsRange(bs, ss, b, i);
    assert !Covers(ss, j, Value(me));
  }

  lemma CutHalves(bs: seq<Bucket>, ss: seq<Bucket>, b: nat, id: Id)
    requires Partition(bs) && Partition(ss) && IsCut(bs, ss, b) && Covers(bs, b, Value(id))
    ensures SpanOf(bs, id) == 2 * SpanOf(ss, id) == Hi(bs, b) - Lo(bs, b)
  {
    SplitHalvesSpan(bs, ss, b, id);
    OnlyCover(bs, b, id);
  }

  /** Cutting the full bucket of our own id, and then going on. */
  lemma CutShape(me: Id, bs: seq<Bucket>, ss: seq<Bucket>, cs: seq<Bucket>, b: nat, id: Id)
    requires WellFormed(bs, me) && IsCut(bs, ss, b) && SameIdsIn(bs, ss) && |bs[b].nodes| == 8
    requires Covers(bs, b, Value(id)) && Covers(bs, b, Value(me))
    requires Reshapes(me, ss, cs, id)
    ensures Reshapes(me, bs, cs, id) && |cs| > |bs|
  {
    hide Aligned, BucketOk, HasRange, SameIdsIn, Pow, Crowded, Covers;
    assert |ss| == |bs| + 1;
    forall i | 0 <= i < |bs| && !Covers(bs, i, Value(me))
      ensures HasRange(cs, Lo(bs, i), Hi(bs, i))
    {
      CutKeepsRanges(me, bs, ss, cs, b, i);
    }
    CutHalves(bs, ss, b, id);
    hide IsCut, SpanOf;
    Doubled(|cs| - |ss|, SpanOf(cs, id));
    if |cs| > |ss| {
      CrowdFrom(bs, ss, me, id, 2 * SpanOf(cs, id));
    } else {
      OncePower(SpanOf(cs, id));
      CrowdInBucket(bs, me, b, id);
    }
  }

  lemma Doubled(n: nat, x: nat)
    ensures Pow(2, n + 1) * x == 2 * (Pow(2, n) * x)
  {
    MulAssoc(2, Pow(2, n), x);
  }

  lemma OncePower(x: nat)
    ensures Pow(2, 0) * x == x
  {
  }

  lemma CrowdInBucket(bs: seq<Bucket>, me: Id, b: nat, id: Id)
    requires WellFormed(bs, me) && b < |bs| && |bs[b].nodes| == 8
    requires Covers(bs, b, Value(id)) && Covers(bs, b, Value(me))
    ensures Crowded(bs, me, id, Hi(bs, b) - Lo(bs, b))
  {
    var nodes := bs[b].nodes;
    assert BucketOk(bs[b], Lo(bs, b), Hi(bs, b), me);
    forall n | n in nodes ensures Has(bs, n.id) { assert Contains(bs, n); }
    assert CrowdOf(bs, me, id, Hi(bs, b) - Lo(bs, b), nodes, Lo(bs, b));
  }

  /** Replacing the entry `o` spares the others. */
  lemma ReplacingSpares(bs: seq<Bucket>, me: Id, cs: seq<Bucket>, b: nat, k: nat, n: Node, now: int)
    requires WellFormed(bs, me) && b < |bs| && k < |bs[b].nodes|
    requires forall m :: Contains(cs, m) <==> m == n || (Contains(bs, m) && m != bs[b].nodes[k])
    requires n.id == bs[b].nodes[k].id || (Bad(bs[b].nodes[k], now) && !Has(bs, n.id))
    ensures Spares(bs, cs, n.id, now)
  {
    var o := bs[b].nodes[k];
    OnlyEntry(bs, me, b, k, o.id);
    assert Contains(bs, o) by { assert o in bs[b].nodes; }
    forall m | Contains(bs, m) && m.id != n.id && !Contains(cs, m)
      ensures Bad(m, now) && !Has(cs, m.id)
    {
      assert m == o;
    }
  }

  lemma SameSpares(bs: seq<Bucket>, cs: seq<Bucket>, id: Id, now: int)
    requires forall m :: Contains(bs, m) ==> Contains(cs, m)
    ensures Spares(bs, cs, id, now)
  {
  }

  /** Pinging dubious nodes: no entry goes. */
  ghost predicate OnlyPings(bs: seq<Bucket>, ms: seq<Bucket>, now: int) {
    forall n :: Contains(bs, n) ==> Contains(ms, n) || (DubiousAndQuiet(n, now) && Contains(ms, OncePinged(n, now)))
  }

  lemma PingingPings(bs: seq<Bucket>, ms: seq<Bucket>, b: nat, me: Id, now: int)
    requires WellFormed(bs, me) && PingsDubious(bs, ms, b, now)
    ensures OnlyPings(bs, ms, now)
  {
    if ms != bs {
      var k: nat :| FirstPinged(bs, ms, b, k, now);
      EntryIsPlaced(bs, me, b, k);
      ReplaceInBucket(bs, me, b, k, OncePinged(bs[b].nodes[k], now), ms);
    }
  }

  /** A ping first, and then what `new_node` does to the rest. */
  lemma SparesAfterPing(bs: seq<Bucket>, ms: seq<Bucket>, ss: seq<Bucket>, cs: seq<Bucket>, id: Id, now: int)
    requires OnlyPings(bs, ms, now) && (forall n :: Contains(ss, n) <==> Contains(ms, n)) && Spares(ss, cs, id, now)
    ensures Spares(bs, cs, id, now)
  {
    hide Contains, Has, Good;
    forall n | Contains(bs, n) && n.id != id && !Contains(cs, n)
      ensures (DubiousAndQuiet(n, now) && Contains(cs, OncePinged(n, now))) || (Bad(n, now) && !Has(cs, n.id))
    {
      if !Contains(ms, n) {
        var p := OncePinged(n, now);
        assert Contains(ss, p) && p.id != id && !DubiousAndQuiet(p, now) && !Bad(p, now);
      }
    }
  }

  /** After the ping no node of the bucket is bad, and as many as before are not good. */
  lemma PingedBucket(bs: seq<Bucket>, ms: seq<Bucket>, b: nat, now: int)
    requires PingsDubious(bs, ms, b, now) && forall n :: n in bs[b].nodes ==> !Bad(n, now)
    ensures SameFirsts(bs, ms) && |ms[b].nodes| == |bs[b].nodes| && ms[b].cached == bs[b].cached
    ensures forall n :: n in ms[b].nodes ==> !Bad(n, now)
    ensures (exists n :: n in bs[b].nodes && !Good(n, now)) ==> exists n :: n in ms[b].nodes && !Good(n, now)
  {
    if ms != bs {
      var k: nat :| FirstPinged(bs, ms, b, k, now);
      var p := OncePinged(bs[b].nodes[k], now);
      assert ms[b].nodes[k] == p && !Good(p, now);
      assert forall n :: n in ms[b].nodes ==> n == p || n in bs[b].nodes;
    }
  }

  lemma WellFormedIsPartition(bs: seq<Bucket>, me: Id)
    requires WellFormed(bs, me)
    ensures Partition(bs)
  {
  }

  lemma KeptAddress(ms: seq<Bucket>, cs: seq<Bucket>, b: nat, addr: Address, confirm: nat)
    requires b < |ms|
    requires if confirm != 0 || ms[b].cached.None? then cs == ms[b := ms[b].(time := ms[b].time, cached := Some(addr))] else cs == ms
    ensures KeepsAddress(ms, cs, b, addr, confirm)
  {
  }

  /** The bucket stays full: the id is turned away. */
  lemma TurnedAwayHere(me: Id, bs: seq<Bucket>, ms: seq<Bucket>, cs: seq<Bucket>, b: nat, id: Id, addr: Address, confirm: nat, now: int)
    requires Partition(bs) && PingsDubious(bs, ms, b, now) && KeepsAddress(ms, cs, b, addr, confirm)
    requires Covers(bs, b, Value(id)) && |bs[b].nodes| == 8 && forall n :: n in bs[b].nodes ==> !Bad(n, now)
    requires !IsSplit(bs, me, b, now)
    ensures TurnsAway(bs, cs, b, addr, confirm, now)
    ensures Refuses(me, cs, id, addr, confirm, now) && Reshapes(me, bs, cs, id)
  {
    hide Bad, Good, Aligned, PingsDubious, Reshapes;
    PingedBucket(bs, ms, b, now);
    UnchangedShape(me, bs, cs, id);
    SameFirstsSameRanges(bs, cs, id);
    assert NoPlaceFor(me, cs, b, id, addr, confirm, now);
  }

  lemma TurnedAway(me: Id, bs: seq<Bucket>, ms: seq<Bucket>, cs: seq<Bucket>, b: nat, id: Id, addr: Address, confirm: nat, now: int)
    requires WellFormed(bs, me) && WellFormed(cs, me) && !Has(bs, id)
    requires PingsDubious(bs, ms, b, now) && PingedFrom(bs, ms, now) && KeepsAddress(ms, cs, b, addr, confirm)
    requires Covers(bs, b, Value(id)) && |bs[b].nodes| == 8 && forall n :: n in bs[b].nodes ==> !Bad(n, now)
    requires !IsSplit(bs, me, b, now)
    requires forall n :: Contains(cs, n) <==> Contains(ms, n)
    ensures TurnsAway(bs, cs, b, addr, confirm, now) && !Has(cs, id)
    ensures Refuses(me, cs, id, addr, confirm, now) && IsFull(cs, id)
    ensures Reshapes(me, bs, cs, id) && Spares(bs, cs, id, now)
    ensures GainsOnly(bs, cs, id, false) && LosesOnlyBad(bs, cs, id, false, now)
  {
    hide Contains, Has, BucketOk, GainsOnly, LosesOnlyBad, PingedFrom, Aligned, Refuses, Reshapes, Spares, Good, PingsDubious, TurnsAway, IsFull, KeepsAddress;
    TurnedAwayHere(me, bs, ms, cs, b, id, addr, confirm, now);
    RefusedIsFull(me, cs, id, addr, confirm, now);
    PingedThenSame(bs, ms, cs, now);
    SameSummary(cs, cs, id, false, now);
    LossesCompose(bs, cs, cs, id, false, now);
    PingingPings(bs, ms, b, me, now);
    SameSpares(ms, cs, id, now);
    SparesAfterPing(bs, ms, ms, cs, id, now);
    NotGained(bs, cs, id);
  }

  lemma NotGained(bs: seq<Bucket>, cs: seq<Bucket>, id: Id)
    requires GainsOnly(bs, cs, id, false) && !Has(bs, id)
    ensures !Has(cs, id)
  {
  }

  lemma SettlesKnown(me: Id, bs: seq<Bucket>, cs: seq<Bucket>, b: nat, id: Id, addr: Address, confirm: nat, now: int)
    requires b < |bs| && HasIn(bs[b].nodes, id) && RenewsEntry(bs, cs, b, id, addr, confirm, now)
    ensures Settles(me, bs, cs, b, id, addr, confirm, now, true)
  {
  }

  lemma SettlesBad(me: Id, bs: seq<Bucket>, cs: seq<Bucket>, b: nat, k: nat, id: Id, addr: Address, confirm: nat, now: int)
    requires b < |bs| && !HasIn(bs[b].nodes, id) && k < |bs[b].nodes| && Bad(bs[b].nodes[k], now)
    requires ReplacesBad(bs, cs, b, Newcomer(id, addr, confirm, now), now)
    ensures Settles(me, bs, cs, b, id, addr, confirm, now, true)
  {
    assert bs[b].nodes[k] in bs[b].nodes;
  }

  lemma SettlesRoom(me: Id, bs: seq<Bucket>, cs: seq<Bucket>, b: nat, id: Id, addr: Address, confirm: nat, now: int)
    requires b < |bs| && !HasIn(bs[b].nodes, id) && |bs[b].nodes| < 8 && forall n :: n in bs[b].nodes ==> !Bad(n, now)
    requires cs == bs[b := Prepended(bs[b], Newcomer(id, addr, confirm, now))]
    ensures Settles(me, bs, cs, b, id, addr, confirm, now, true)
  {
  }

  lemma SettlesFull(me: Id, bs: seq<Bucket>, cs: seq<Bucket>, b: nat, id: Id, addr: Address, confirm: nat, now: int, known: bool)
    requires b < |bs| && !HasIn(bs[b].nodes, id) && |bs[b].nodes| == 8 && forall n :: n in bs[b].nodes ==> !Bad(n, now)
    requires if IsSplit(bs, me, b, now) then |cs| > |bs| else !known && TurnsAway(bs, cs, b, addr, confirm, now)
    ensures Settles(me, bs, cs, b, id, addr, confirm, now, known)
  {
  }

  /** A ping, a cut, and then what `new_node` makes of the halves. */
  lemma SplitLearns(me: Id, bs: seq<Bucket>, ms: seq<Bucket>, ss: seq<Bucket>, cs: seq<Bucket>, b: nat, id: Id, known: bool, now: int)
    requires WellFormed(bs, me) && WellFormed(ms, me) && SameFirsts(bs, ms)
    requires PingsDubious(bs, ms, b, now) && PingedFrom(bs, ms, now)
    requires forall n :: Contains(ss, n) <==> Contains(ms, n)
    requires IsCut(ms, ss, b) && |ms[b].nodes| == 8
    requires Covers(bs, b, Value(id)) && Covers(bs, b, Value(me))
    requires Reshapes(me, ss, cs, id) && Spares(ss, cs, id, now)
    requires GainsOnly(ss, cs, id, known) && LosesOnlyBad(ss, cs, id, known, now)
    ensures Reshapes(me, bs, cs, id) && |cs| > |bs| && Spares(bs, cs, id, now)
    ensures GainsOnly(bs, cs, id, known) && LosesOnlyBad(bs, cs, id, known, now)
  {
    hide Contains, Has, BucketOk, Aligned, OnlyPings, Spares, Reshapes, PingedFrom, GainsOnly, LosesOnlyBad;
    PingingPings(bs, ms, b, me, now);
    PingedSameIds(bs, ms, now);
    SameSummary(ms, ss, id, false, now);
    SameFirstsSameRanges(bs, ms, id);
    CutShape(me, ms, ss, cs, b, id);
    ShapeFrom(me, bs, ms, cs, id);
    SparesAfterPing(bs, ms, ss, cs, id, now);
    PingedThenSame(bs, ms, ss, now);
    LossesCompose(bs, ss, cs, id, known, now);
  }

  lemma StillAbsent(bs: seq<Bucket>, ms: seq<Bucket>, ss: seq<Bucket>, id: Id, now: int)
    requires !Has(bs, id) && PingedFrom(bs, ms, now) && forall n :: Contains(ss, n) <==> Contains(ms, n)
    ensures !Has(ss, id)
  {
  }

  lemma PingedSameIds(bs: seq<Bucket>, ms: seq<Bucket>, now: int)
    requires PingedFrom(bs, ms, now)
    ensures SameIdsIn(bs, ms)
  {
    forall x ensures Has(bs, x) <==> Has(ms, x) {
      if n :| Contains(bs, n) && n.id == x { }
      if n :| Contains(ms, n) && n.id == x { }
    }
  }

  lemma NewcomerIsHeard(cs: seq<Bucket>, id: Id, addr: Address, confirm: nat, now: int)
    requires Contains(cs, Newcomer(id, addr, confirm, now)) && confirm != 0
    ensures Heard(cs, id, addr, confirm, now)
  {
  }

  lemma NoneIsBad(nodes: seq<Node>, now: int)
    requires forall j :: 0 <= j < |nodes| ==> !Bad(nodes[j], now)
    ensures forall n :: n in nodes ==> !Bad(n, now)
  {
  }

  lemma BucketCounts(bs: seq<Bucket>, me: Id, b: nat)
    requires WellFormed(bs, me) && b < |bs|
    ensures bs[b].count == |bs[b].nodes| <= 8
  {
    assert BucketOk(bs[b], Lo(bs, b), Hi(bs, b), me);
  }

  lemma RefusedIsFull(me: Id, cs: seq<Bucket>, id: Id, addr: Address, confirm: nat, now: int)
    requires WellFormed(cs, me) && Refuses(me, cs, id, addr, confirm, now)
    ensures IsFull(cs, id)
  {
    var b :| NoPlaceFor(me, cs, b, id, addr, confirm, now);
    assert BucketOk(cs[b], Lo(cs, b), Hi(cs, b), me);
  }

  lemma PickPings(bs: seq<Bucket>, ms: seq<Bucket>, b: nat, k: nat, now: int)
    requires Partition(bs) && b < |bs| && FirstDubious(bs[b].nodes, k, now)
    requires ms == bs[b := bs[b].(nodes := Pinged(bs[b].nodes, k, now))]
    ensures PingsDubious(bs, ms, b, now) && |ms| == |bs|
    ensures forall i :: 0 <= i < |bs| ==> Lo(ms, i) == Lo(bs, i) && ms[i].count == bs[i].count
  {
    assert FirstPinged(bs, ms, b, k, now);
    SameRanges(bs, b, ms[b]);
  }

  /** The same table as far as its ranges and entries go. */
  lemma LearnsFrom(me: Id, bs: seq<Bucket>, ms: seq<Bucket>, cs: seq<Bucket>, id: Id, now: int)
    requires Partition(bs) && SameFirsts(bs, ms) && forall n :: Contains(bs, n) <==> Contains(ms, n)
    requires Reshapes(me, ms, cs, id) && Spares(ms, cs, id, now)
    ensures Reshapes(me, bs, cs, id) && Spares(bs, cs, id, now)
  {
    hide Contains;
    SameSummary(bs, ms, id, false, now);
    ShapeFrom(me, bs, ms, cs, id);
  }

  function InitialBucket(): Bucket { Bucket(seq(20, _ => 0), 0, 0, [], None) }

  class Table {
    const myid: Id
    var buckets: seq<Bucket>
    var now: int
    var growTime: int         // mybucket_grow_time

    ghost predicate Valid()
      reads this
    {
      WellFormed(buckets, myid)
    }

    /** `dht_init`: one empty bucket that covers every id. */
    constructor (id: Id, start: int)
      ensures Valid() && myid == id && now == start
      ensures buckets == [InitialBucket()]
    {
      myid := id;
      var zero := InitialBucket().first;
      buckets := [InitialBucket()];
      now := start;
      growTime := start;
      ValZeros(256, zero);
      assert Times(0, 0, Width(0));
      assert AlignedAt(0, Width(0), 0);
    }

    method FindBucket(id: Id) returns (b: nat)
      requires Partition(buckets)
      ensures Covers(buckets, b, Value(id))
    {
      ValueBound(id);
      b := 0;
      while true
        invariant 0 <= b < |buckets| && Lo(buckets, b) <= Value(id)
        decreases |buckets| - b
      {
        if b + 1 == |buckets| { return; }
        var c := IdCmp(id, buckets[b + 1].first);
        if c < 0 { return; }
        b := b + 1;
      }
    }

    method InBucket(id: Id, b: nat) returns (r: bool)
      requires b < |buckets|
      ensures r <==> Covers(buckets, b, Value(id))
    {
      ValueBound(id);
      var c := IdCmp(buckets[b].first, id);
      r := c <= 0;
      if r && b + 1 < |buckets| {
        var d := IdCmp(id, buckets[b + 1].first);
        r := d < 0;
      }
    }

    method FindNode(id: Id) returns (n: Option<Node>)
      requires Valid()
      ensures n.Some? <==> Has(buckets, id)
      ensures n.Some? ==> Contains(buckets, n.value) && n.value.id == id
    {
      var b := FindBucket(id);
      OneBucketLookupAgrees(buckets, myid, b, id);
      var k := FindIn(buckets[b].nodes, id);
      if k < |buckets[b].nodes| {
        assert buckets[b].nodes[k] in buckets[b].nodes;
        return Some(buckets[b].nodes[k]);
      }
      return None;
    }

    method InsertNode(n: Node) returns (b: nat)
      requires Valid()
      modifies `buckets
      ensures Valid() <==> old(!Has(buckets, n.id) && n.id != myid && RoomFor(buckets, n.id))
      ensures Covers(old(buckets), b, Value(n.id))
      ensures buckets == old(buckets)[b := old(buckets)[b].(nodes := [n] + old(buckets)[b].nodes, count := old(buckets)[b].count + 1)]
      ensures forall m :: Contains(buckets, m) <==> old(Contains(buckets, m)) || m == n
    {
      hide Has, RoomFor, BucketOk, Aligned;
      b := FindBucket(n.id);
      ghost var bs := buckets;
      buckets := buckets[b := Prepended(buckets[b], n)];
      InsertAddsOne(bs, b, n, buckets);
      InsertKeepsIff(bs, myid, b, n, buckets);
    }

    /** Split bucket `b` into two equal parts; fails exactly when it covers a single id. */
    method SplitBucket(b: nat) returns (ok: bool)
      requires Valid() && b < |buckets|
      modifies `buckets
      ensures Valid()
      ensures ok <==> old(Hi(buckets, b) - Lo(buckets, b)) > 1
      ensures !ok ==> buckets == old(buckets)
      ensures ok ==>
        && |buckets| == old(|buckets|) + 1
        && (forall i :: 0 <= i < b ==> buckets[i] == old(buckets)[i])
        && (forall i :: b + 1 < i < |buckets| ==> buckets[i] == old(buckets)[i - 1])
        && Lo(buckets, b) == old(Lo(buckets, b))
        && 2 * (Lo(buckets, b + 1) - Lo(buckets, b)) == old(Hi(buckets, b) - Lo(buckets, b))
        && Hi(buckets, b + 1) == old(Hi(buckets, b))
        && buckets[b].time == buckets[b + 1].time == old(buckets)[b].time
        && buckets[b].cached == buckets[b + 1].cached == None
      ensures forall n :: Contains(buckets, n) <==> old(Contains(buckets, n))
    {
      ghost var bs := buckets;
      var mid := BucketMiddle(buckets, b);
      assert Aligned(Lo(bs, b), Hi(bs, b));
      if mid.None? { return false; }
      ok := true;
      var nodes := buckets[b].nodes;
      NothingHandedOut(bs, myid, b, mid.value);
      buckets := Opened(buckets, b, mid.value);
      var k := 0;
      while k < |nodes|
        invariant 0 <= k <= |nodes| && HandedOut(bs, myid, b, mid.value, buckets, k)
      {
        NextIsAbsent(bs, myid, b, buckets, k);
        RoomForNext(bs, myid, b, mid.value, buckets, k);
        ghost var cur := buckets;
        var j := InsertNode(nodes[k]);
        OneMoreHandedOut(bs, myid, b, mid.value, cur, k, j, buckets);
        k := k + 1;
      }
      AllHandedOut(bs, myid, b, mid.value, buckets);
    }

    /** Replace entry `k` of bucket `b`. */
    method SetNode(b: nat, k: nat, n: Node)
      requires Valid() && b < |buckets| && k < |buckets[b].nodes|
      requires Covers(buckets, b, Value(n.id)) && n.id != myid
      requires n.id == buckets[b].nodes[k].id || !Has(buckets, n.id)
      modifies `buckets
      ensures Valid()
      ensures buckets == old(buckets)[b := old(buckets)[b].(nodes := old(buckets)[b].nodes[k := n])]
      ensures forall m :: Contains(buckets, m) <==> m == n || (old(Contains(buckets, m)) && m != old(buckets)[b].nodes[k])
    {
      ghost var bs := buckets;
      buckets := buckets[b := buckets[b].(nodes := buckets[b].nodes[k := n])];
      ReplaceInBucket(bs, myid, b, k, n, buckets);
    }

    /** Change fields of bucket `b` that its nodes do not depend on. */
    method SetBucketInfo(b: nat, time: int, cached: Option<Address>)
      requires Valid() && b < |buckets|
      modifies `buckets
      ensures Valid()
      ensures buckets == old(buckets)[b := old(buckets)[b].(time := time, cached := cached)]
      ensures forall m :: Contains(buckets, m) <==> old(Contains(buckets, m))
    {
      assert BucketOk(buckets[b], Lo(buckets, b), Hi(buckets, b), myid);
      UpdateBucket(buckets, myid, b, buckets[b].(time := time, cached := cached));
      assert forall m :: m in buckets[b].nodes ==> Contains(buckets, m);
      buckets := buckets[b := buckets[b].(time := time, cached := cached)];
    }

    /**
     We learnt of a node: `confirm` is 1 if it sent a message, 2 if it replied, 0 if we only
     heard of it.  `refused` stands for is_martian and node_blacklisted.
     */
    method NewNode(id: Id, addr: Address, refused: bool, confirm: nat) returns (known: bool)
      requires Valid()
      modifies this
      ensures Valid() && now == old(now)
      ensures id == myid || refused ==> !known && buckets == old(buckets) && growTime == old(growTime)
      ensures id != myid && !refused ==> Learns(myid, old(buckets), buckets, id, addr, confirm, now, known)
      ensures id != myid && !refused ==>
        growTime == if old(CoverOf(buckets, id) == CoverOf(buckets, myid) && !Has(buckets, id)) then now else old(growTime)
      ensures known ==> Has(buckets, id)
      ensures old(Has(buckets, id)) && id != myid && !refused ==> known
      ensures known && confirm != 0 ==> Heard(buckets, id, addr, confirm, now)
      ensures id != myid && !refused && !known ==> IsFull(buckets, id)
      ensures GainsOnly(old(buckets), buckets, id, known)
      ensures LosesOnlyBad(old(buckets), buckets, id, known, now)
      decreases SpanOf(buckets, id), 2
    {
      hide Contains, Has, HasIn, BucketOk, GainsOnly, LosesOnlyBad, Aligned, Settles, Refuses, Reshapes, Spares, IsFull, Heard;
      var b := FindBucket(id);
      var c := IdCmp(id, myid);
      ghost var bs := buckets;
      if c == 0 || refused {
        SameSummary(bs, bs, id, false, now);
        return false;
      }
      var mybucket := InBucket(myid, b);
      if confirm == 2 { SetBucketInfo(b, now, buckets[b].cached); }
      ghost var cs := buckets;
      assert cs == Stamped(bs, b, confirm, now);
      SameSummary(bs, cs, id, false, now);
      SameFirstsSameRanges(bs, cs, id);
      OnlyCover(bs, b, id);
      OnlyCover(bs, CoverOf(bs, myid), myid);
      known := Place(b, id, addr, confirm, mybucket);
      LossesCompose(bs, cs, buckets, id, known, now);
      LearnsFrom(myid, bs, cs, buckets, id, now);
    }

    /** The part of `new_node` after the bucket was found: `b` covers `id`. */
    method Place(b: nat, id: Id, addr: Address, confirm: nat, mybucket: bool) returns (known: bool)
      requires Valid() && id != myid && Covers(buckets, b, Value(id))
      requires mybucket <==> Covers(buckets, b, Value(myid))
      modifies this
      ensures Valid() && now == old(now)
      ensures growTime == if mybucket && !old(Has(buckets, id)) then now else old(growTime)
      ensures known <==> Has(buckets, id)
      ensures old(Has(buckets, id)) ==> known
      ensures Settles(myid, old(buckets), buckets, b, id, addr, confirm, now, known)
      ensures known && !old(Has(buckets, id)) ==> Contains(buckets, Newcomer(id, addr, confirm, now))
      ensures !known ==> Refuses(myid, buckets, id, addr, confirm, now) && IsFull(buckets, id)
      ensures Reshapes(myid, old(buckets), buckets, id) && Spares(old(buckets), buckets, id, now)
      ensures known && confirm != 0 ==> Heard(buckets, id, addr, confirm, now)
      ensures GainsOnly(old(buckets), buckets, id, known)
      ensures LosesOnlyBad(old(buckets), buckets, id, known, now)
      decreases SpanOf(buckets, id), 1
    {
      hide Contains, Has, HasIn, BucketOk, GainsOnly, LosesOnlyBad, Aligned, Refuses, Reshapes, Spares, Heard, RenewsEntry, ReplacesBad, TurnsAway, Good, IsFull, Settles, IsSplit, Bad;
      ghost var bs := buckets;
      OneBucketLookupAgrees(buckets, myid, b, id);
      var k := FindIn(buckets[b].nodes, id);
      if k < |buckets[b].nodes| {
        Refresh(b, k, addr, confirm);
        SettlesKnown(myid, bs, buckets, b, id, addr, confirm, now);
        return true;
      }
      if mybucket { growTime := now; }
      var n := Node(id, addr, if confirm != 0 then now else 0, if confirm >= 2 then now else 0, 0, 0);
      k := FindBad(buckets[b].nodes, now);
      if k < |buckets[b].nodes| {
        Evict(b, k, n);
        SettlesBad(myid, bs, buckets, b, k, id, addr, confirm, now);
        if confirm != 0 { NewcomerIsHeard(buckets, id, addr, confirm, now); }
        return true;
      }
      NoneIsBad(buckets[b].nodes, now);
      BucketCounts(buckets, myid, b);
      if buckets[b].count >= BUCKET_SIZE {
        known := MakeRoom(b, id, addr, confirm, mybucket);
        SettlesFull(myid, bs, buckets, b, id, addr, confirm, now, known);
        return;
      }
      Append(b, n);
      SettlesRoom(myid, bs, buckets, b, id, addr, confirm, now);
      if confirm != 0 { NewcomerIsHeard(buckets, id, addr, confirm, now); }
      return true;
    }

    /** Update the entry of a known node, unless we merely heard of it and saw it recently. */
    method Refresh(b: nat, k: nat, addr: Address, confirm: nat)
      requires Valid() && b < |buckets| && k < |buckets[b].nodes|
      modifies `buckets
      ensures Valid() && Has(buckets, old(buckets)[b].nodes[k].id)
      ensures RenewsEntry(old(buckets), buckets, b, old(buckets)[b].nodes[k].id, addr, confirm, now)
      ensures confirm != 0 ==> Heard(buckets, old(buckets)[b].nodes[k].id, addr, confirm, now)
      ensures Reshapes(myid, old(buckets), buckets, old(buckets)[b].nodes[k].id)
      ensures Spares(old(buckets), buckets, old(buckets)[b].nodes[k].id, now)
      ensures GainsOnly(old(buckets), buckets, old(buckets)[b].nodes[k].id, true)
      ensures LosesOnlyBad(old(buckets), buckets, old(buckets)[b].nodes[k].id, true, now)
    {
      hide BucketOk, Aligned, Reshapes, Spares, GainsOnly, LosesOnlyBad;
      ghost var bs := buckets;
      var o := buckets[b].nodes[k];
      EntryIsPlaced(bs, myid, b, k);
      ghost var n := o;
      if confirm != 0 || o.time < now - 15 * 60 {
        n := Refreshed(o, addr, confirm, now);
        SetNode(b, k, Refreshed(o, addr, confirm, now));
        SwapSummary(bs, buckets, o, n, now);
        ReplacingSpares(bs, myid, buckets, b, k, n, now);
      } else {
        SameSummary(bs, bs, o.id, true, now);
        SameSpares(bs, bs, o.id, now);
        assert bs[b].nodes[k := o] == bs[b].nodes;
        assert bs[b := bs[b].(nodes := bs[b].nodes[k := o])] == bs;
      }
      UnchangedShape(myid, bs, buckets, o.id);
      assert OneReplaced(bs, buckets, b, k, n) && Renewed(o, n, addr, confirm, now) && Contains(buckets, n);
    }

    /** Give the place of a bad node to a new one. */
    method Evict(b: nat, k: nat, n: Node)
      requires Valid() && b < |buckets| && k < |buckets[b].nodes| && FirstBad(buckets[b].nodes, k, now)
      requires Covers(buckets, b, Value(n.id)) && n.id != myid && !Has(buckets, n.id)
      modifies `buckets
      ensures Valid() && Contains(buckets, n) && Has(buckets, n.id)
      ensures ReplacesBad(old(buckets), buckets, b, n, now)
      ensures Reshapes(myid, old(buckets), buckets, n.id) && Spares(old(buckets), buckets, n.id, now)
      ensures GainsOnly(old(buckets), buckets, n.id, true)
      ensures LosesOnlyBad(old(buckets), buckets, n.id, true, now)
    {
      hide BucketOk, Aligned, Reshapes, Spares, GainsOnly, LosesOnlyBad;
      ghost var bs := buckets;
      EntryIsPlaced(bs, myid, b, k);
      SetNode(b, k, n);
      SwapSummary(bs, buckets, bs[b].nodes[k], n, now);
      ReplacingSpares(bs, myid, buckets, b, k, n, now);
      UnchangedShape(myid, bs, buckets, n.id);
      assert OneReplaced(bs, buckets, b, k, n);
    }

    /** Add a new node to a bucket with room. */
    method Append(b: nat, n: Node)
      requires Valid() && Covers(buckets, b, Value(n.id)) && n.id != myid && !Has(buckets, n.id)
      requires buckets[b].count < BUCKET_SIZE
      modifies `buckets
      ensures Valid() && Contains(buckets, n) && Has(buckets, n.id)
      ensures buckets == old(buckets)[b := Prepended(old(buckets)[b], n)]
      ensures Reshapes(myid, old(buckets), buckets, n.id) && Spares(old(buckets), buckets, n.id, now)
      ensures GainsOnly(old(buckets), buckets, n.id, true)
      ensures LosesOnlyBad(old(buckets), buckets, n.id, true, now)
    {
      hide BucketOk, Aligned, Reshapes, Spares, GainsOnly, LosesOnlyBad;
      ghost var bs := buckets;
      InsertIntoBucket(buckets, myid, b, n);
      buckets := buckets[b := Prepended(buckets[b], n)];
      AddSummary(bs, buckets, n, now);
      SameSpares(bs, buckets, n.id, now);
      UnchangedShape(myid, bs, buckets, n.id);
    }

    /** The full-bucket case of `NewNode`: ping a dubious node, then split and try again or give up. */
    method MakeRoom(b: nat, id: Id, addr: Address, confirm: nat, mybucket: bool) returns (known: bool)
      requires Valid() && id != myid && !Has(buckets, id)
      requires Covers(buckets, b, Value(id)) && buckets[b].count >= BUCKET_SIZE
      requires forall n :: n in buckets[b].nodes ==> !Bad(n, now)
      requires mybucket <==> Covers(buckets, b, Value(myid))
      modifies this
      ensures Valid() && now == old(now) && (growTime == old(growTime) || (mybucket && growTime == now))
      ensures known <==> Has(buckets, id)
      ensures if IsSplit(old(buckets), myid, b, now) then |buckets| > |old(buckets)|
              else !known && TurnsAway(old(buckets), buckets, b, addr, confirm, now)
      ensures known ==> Contains(buckets, Newcomer(id, addr, confirm, now))
      ensures !known ==> Refuses(myid, buckets, id, addr, confirm, now) && IsFull(buckets, id)
      ensures Reshapes(myid, old(buckets), buckets, id) && Spares(old(buckets), buckets, id, now)
      ensures known && confirm != 0 ==> Heard(buckets, id, addr, confirm, now)
      ensures GainsOnly(old(buckets), buckets, id, known)
      ensures LosesOnlyBad(old(buckets), buckets, id, known, now)
      decreases SpanOf(buckets, id), 0
    {
      hide Contains, Has, BucketOk, GainsOnly, LosesOnlyBad, PingedFrom, Aligned, Settles, Refuses, Reshapes, Spares, Heard, Good, Bad, PingsDubious, TurnsAway, IsFull, Partition, SpanOf, IsCut, KeepsAddress;
      ghost var bs := buckets;
      BucketCounts(bs, myid, b);
      WellFormedIsPartition(bs, myid);
      var dubious := PingDubiousIn(b);
      ghost var ms := buckets;
      PingedBucket(bs, ms, b, now);
      SameFirstsSameRanges(bs, ms, id);
      var split := mybucket && (!dubious || |buckets| == 1);
      if split {
        SplitOwn(b, id);
        ghost var ss := buckets;
        StillAbsent(bs, ms, ss, id, now);
        known := NewNode(id, addr, false, confirm);
        SplitLearns(myid, bs, ms, ss, buckets, b, id, known, now);
        return;
      }
      if confirm != 0 || buckets[b].cached.None? {
        SetBucketInfo(b, buckets[b].time, Some(addr));
      }
      KeptAddress(ms, buckets, b, addr, confirm);
      TurnedAway(myid, bs, ms, buckets, b, id, addr, confirm, now);
      return false;
    }

    /** Splitting the full bucket that also covers our own id cannot fail, and halves its range. */
    method SplitOwn(b: nat, ghost id: Id)
      requires Valid() && Covers(buckets, b, Value(id)) && Covers(buckets, b, Value(myid))
      requires buckets[b].count >= BUCKET_SIZE
      modifies `buckets
      ensures Valid() && 2 * SpanOf(buckets, id) == old(SpanOf(buckets, id)) && old(SpanOf(buckets, id)) >= 16
      ensures IsCut(old(buckets), buckets, b)
      ensures forall n :: Contains(buckets, n) <==> old(Contains(buckets, n))
    {
      ghost var ms := buckets;
      FullOwnBucketIsWide(buckets, myid, b);
      CoverUnique(ms, b, CoverOf(ms, id), Value(id));
      var ok := SplitBucket(b);
      SplitHalvesSpan(ms, buckets, b, id);
    }

    /** A full bucket: ping one dubious node if there is any, and tell whether there was. */
    method PingDubiousIn(b: nat) returns (dubious: bool)
      requires Valid() && b < |buckets|
      modifies `buckets
      ensures Valid() && |buckets| == |old(buckets)|
      ensures dubious <==> exists n :: n in old(buckets)[b].nodes && !Good(n, now)
      ensures forall i :: 0 <= i < |buckets| ==> Lo(buckets, i) == old(Lo(buckets, i)) && buckets[i].count == old(buckets)[i].count
      ensures forall k: nat :: FirstDubious(old(buckets)[b].nodes, k, now) ==>
        buckets == old(buckets)[b := old(buckets)[b].(nodes := Pinged(old(buckets)[b].nodes, k, now))]
      ensures (forall k: nat :: !FirstDubious(old(buckets)[b].nodes, k, now)) ==> buckets == old(buckets)
      ensures PingsDubious(old(buckets), buckets, b, now)
      ensures PingedFrom(old(buckets), buckets, now)
    {
      hide FirstDubious, FirstPinged, Good, Contains, Has, BucketOk, GainsOnly, LosesOnlyBad, PingedFrom, Aligned;
      ghost var bs := buckets;
      SameSummary(bs, bs, myid, false, now);
      var pick;
      dubious, pick := FindDubious(buckets[b].nodes, now);
      if pick.Some? {
        assert FirstDubious(bs[b].nodes, pick.value, now);
        PingEntry(b, pick.value);
        PickPings(bs, buckets, b, pick.value, now);
      }
    }

    /** Purge the nodes that ignored four requests, in every bucket. */
    method ExpireBuckets()
      requires Valid()
      modifies `buckets
      ensures Valid() && |buckets| == old(|buckets|)
      ensures forall i :: 0 <= i < |buckets| ==> buckets[i] == Purged(old(buckets)[i])
      ensures forall n :: Contains(buckets, n) <==> old(Contains(buckets, n)) && n.pinged < 4
    {
      ghost var bs := buckets;
      var b := 0;
      while b < |buckets|
        invariant 0 <= b <= |buckets| == |bs| && Valid()
        invariant forall i :: b <= i < |bs| ==> buckets[i] == bs[i]
        invariant ExpiredUpTo(bs, buckets, b)
        decreases |bs| - b
      {
        ghost var cur := buckets;
        var r := ExpireBucket(buckets[b]);
        ExpireStep(bs, cur, myid, b, r);
        buckets := buckets[b := r];
        b := b + 1;
      }
      forall n
        ensures Contains(buckets, n) <==> Contains(bs, n) && n.pinged < 4
      {
        ExpiredMeans(bs, buckets, n);
      }
    }

    /** `pinged`: a request was sent to a node that may be in the table; at the third one without a reply the cached candidate is pinged. */
    method RequestSent(id: Id)
      requires Valid()
      modifies `buckets
      ensures Valid() && PingedFrom(old(buckets), buckets, now)
      ensures OneEntry(old(buckets), buckets, id, now, AfterRequest)
    {
      hide AfterRequest, OneEntry, PingedFrom, Contains, Has, BucketOk, Aligned, HasIn;
      ghost var bs := buckets;
      SameSummary(bs, bs, id, false, now);
      var b := FindBucket(id);
      var k := FindIn(buckets[b].nodes, id);
      if k < |buckets[b].nodes| {
        RequestParts(buckets[b], k, now);
        EntryExists(bs, b, k, id);
        PingEntry(b, k);
        ghost var ms := buckets;
        if buckets[b].nodes[k].pinged >= 3 { SetBucketInfo(b, buckets[b].time, None); }
        PingedThenSame(bs, ms, buckets, now);
        EntryMakes(bs, buckets, b, k, id, now, AfterRequest);
      } else {
        NoEntryMakes(bs, b, id, now, AfterRequest);
      }
    }

    method PingEntry(b: nat, k: nat)
      requires Valid() && b < |buckets| && k < |buckets[b].nodes|
      modifies `buckets
      ensures Valid() && PingedFrom(old(buckets), buckets, now)
      ensures buckets == old(buckets)[b := old(buckets)[b].(nodes := Pinged(old(buckets)[b].nodes, k, now))]
    {
      ghost var bs := buckets;
      buckets := buckets[b := buckets[b].(nodes := Pinged(buckets[b].nodes, k, now))];
      PingedTable(bs, myid, b, k, now, buckets);
    }

    /** The table part of `blacklist_node`: the node becomes one that the next expiry purges. */
    method Discredit(id: Id)
      requires Valid()
      modifies `buckets
      ensures Valid() && PingedFrom(old(buckets), buckets, now)
      ensures forall n :: Contains(buckets, n) && n.id == id ==> n.pinged == 4
      ensures OneEntry(old(buckets), buckets, id, now, AfterDiscredit)
    {
      hide OneEntry, PingedFrom, HasIn, Aligned;
      ghost var bs := buckets;
      SameSummary(bs, bs, id, false, now);
      var b := FindBucket(id);
      OneBucketLookupAgrees(buckets, myid, b, id);
      var k := FindIn(buckets[b].nodes, id);
      if k < |buckets[b].nodes| {
        EntryExists(bs, b, k, id);
        DiscreditEntry(b, k);
        OnlyEntry(bs, myid, b, k, id);
        EntryMakes(bs, buckets, b, k, id, now, AfterDiscredit);
      } else {
        NoEntryMakes(bs, b, id, now, AfterDiscredit);
      }
    }

    method DiscreditEntry(b: nat, k: nat)
      requires Valid() && b < |buckets| && k < |buckets[b].nodes|
      modifies `buckets
      ensures Valid() && PingedFrom(old(buckets), buckets, now)
      ensures buckets == old(buckets)[b := AfterDiscredit(old(buckets)[b], k, now)]
      ensures var o := old(buckets)[b].nodes[k];
              forall m :: Contains(buckets, m) ==> m == o.(pinged := 4, pingedTime := now) || (old(Contains(buckets, m)) && m != o)
    {
      hide PingedFrom, Contains, BucketOk, Aligned;
      ghost var bs := buckets;
      EntryIsPlaced(bs, myid, b, k);
      var o := buckets[b].nodes[k];
      var n := o.(pinged := 4, pingedTime := now);
      SetNode(b, k, n);
      PingSummary(bs, buckets, o, n, now);
      ghost var ms := buckets;
      SetBucketInfo(b, buckets[b].time, None);
      PingedThenSame(bs, ms, buckets, now);
    }
  }

  lemma EntryExists(bs: seq<Bucket>, b: nat, k: nat, id: Id)
    requires b < |bs| && k < |bs[b].nodes| && bs[b].nodes[k].id == id
    ensures HasIn(bs[b].nodes, id)
  {
  }

  lemma EntryMakes(bs: seq<Bucket>, cs: seq<Bucket>, b: nat, k: nat, id: Id, now: int, change: (Bucket, nat, int) -> Bucket)
    requires Covers(bs, b, Value(id)) && HasIn(bs[b].nodes, id) && k < |bs[b].nodes| && bs[b].nodes[k].id == id
    requires cs == bs[b := change(bs[b], k, now)]
    ensures OneEntry(bs, cs, id, now, change)
  {
    assert EntryChanged(bs, cs, b, k, id, now, change);
    assert ChangedIn(bs, cs, b, id, now, change);
  }

  lemma NoEntryMakes(bs: seq<Bucket>, b: nat, id: Id, now: int, change: (Bucket, nat, int) -> Bucket)
    requires Covers(bs, b, Value(id)) && !HasIn(bs[b].nodes, id)
    ensures OneEntry(bs, bs, id, now, change)
  {
    assert ChangedIn(bs, bs, b, id, now, change);
  }

  /** A bucket after a request to entry `k`: the third one without a reply also uses up the cached candidate. */
  function AfterRequest(b: Bucket, k: nat, now: int): Bucket {
    if k >= |b.nodes| then b
    else
      var n := PingedNode(b.nodes[k], now);
      b.(nodes := b.nodes[k := n], cached := if n.pinged >= 3 then None else b.cached)
  }

  /** A bucket after entry `k` was blacklisted. */
  function AfterDiscredit(b: Bucket, k: nat, now: int): Bucket {
    if k >= |b.nodes| then b
    else b.(nodes := b.nodes[k := b.nodes[k].(pinged := 4, pingedTime := now)], cached := None)
  }

  lemma RequestParts(b: Bucket, k: nat, now: int)
    requires k < |b.nodes|
    ensures AfterRequest(b, k, now)
         == b.(nodes := Pinged(b.nodes, k, now), cached := if Pinged(b.nodes, k, now)[k].pinged >= 3 then None else b.cached)
  {
  }

  /** The entry of `id` has changed as `change` says, and nothing else; without an entry nothing has. */
  ghost predicate OneEntry(bs: seq<Bucket>, cs: seq<Bucket>, id: Id, now: int, change: (Bucket, nat, int) -> Bucket) {
    exists b :: ChangedIn(bs, cs, b, id, now, change)
  }

  ghost predicate ChangedIn(bs: seq<Bucket>, cs: seq<Bucket>, b: int, id: Id, now: int, change: (Bucket, nat, int) -> Bucket) {
    && Covers(bs, b, Value(id))
    && if HasIn(bs[b].nodes, id)
       then exists k: nat :: EntryChanged(bs, cs, b, k, id, now, change)
       else cs == bs
  }

  ghost predicate EntryChanged(bs: seq<Bucket>, cs: seq<Bucket>, b: nat, k: nat, id: Id, now: int, change: (Bucket, nat, int) -> Bucket) {
    b < |bs| && k < |bs[b].nodes| && bs[b].nodes[k].id == id && cs == bs[b := change(bs[b], k, now)]
  }

  lemma OnlyEntry(bs: seq<Bucket>, me: Id, b: nat, k: nat, id: Id)
    requires WellFormed(bs, me) && b < |bs| && k < |bs[b].nodes| && bs[b].nodes[k].id == id
    ensures forall n :: Contains(bs, n) && n.id == id ==> n == bs[b].nodes[k]
  {
    forall n | Contains(bs, n) && n.id == id
      ensures n == bs[b].nodes[k]
    {
      var i :| 0 <= i < |bs| && n in bs[i].nodes;
      var l :| 0 <= l < |bs[i].nodes| && bs[i].nodes[l] == n;
      IdsAreUnique(bs, me, i, l, b, k);
    }
  }

  ghost predicate ExpiredUpTo(bs: seq<Bucket>, cur: seq<Bucket>, b: nat) {
    && |cur| == |bs| && b <= |bs|
    && forall i :: 0 <= i < b ==> cur[i] == Purged(bs[i])
  }

  lemma ExpireStep(bs: seq<Bucket>, cur: seq<Bucket>, me: Id, b: nat, r: Bucket)
    requires WellFormed(cur, me) && ExpiredUpTo(bs, cur, b) && b < |bs| && cur[b] == bs[b]
    requires r == Purged(cur[b])
    ensures WellFormed(cur[b := r], me) && ExpiredUpTo(bs, cur[b := r], b + 1)
  {
    assert BucketOk(cur[b], Lo(cur, b), Hi(cur, b), me);
    AliveDistinct(cur[b].nodes);
    AliveMembers(cur[b].nodes);
    UpdateKeepsShape(cur, me, b, r);
  }

  lemma ExpiredMeans(bs: seq<Bucket>, cur: seq<Bucket>, n: Node)
    requires ExpiredUpTo(bs, cur, |bs|)
    ensures Contains(cur, n) <==> Contains(bs, n) && n.pinged < 4
  {
    forall i | 0 <= i < |bs|
      ensures n in cur[i].nodes <==> n in bs[i].nodes && n.pinged < 4
    {
      AliveMembers(bs[i].nodes);
    }
  }

  // ----- whole runs

  datatype Event =
    | Tick(seconds: nat)
    | Learnt(id: Id, addr: Address, refused: bool, confirm: nat)
    | Request(id: Id)
    | Blacklist(id: Id)
    | Expire

  /** The table and the clock between two events. */
  datatype Snapshot = Snapshot(buckets: seq<Bucket>, now: int)

  /** What an event makes of a table. */
  ghost predicate StepMakes(me: Id, s: Snapshot, e: Event, s': Snapshot) {
    match e
    case Tick(seconds) => s' == Snapshot(s.buckets, s.now + seconds)
    case Learnt(id, addr, refused, confirm) =>
      && s'.now == s.now
      && if id == me || refused then s'.buckets == s.buckets
         else Learns(me, s.buckets, s'.buckets, id, addr, confirm, s.now, true) || Learns(me, s.buckets, s'.buckets, id, addr, confirm, s.now, false)
    case Request(id) => s'.now == s.now && OneEntry(s.buckets, s'.buckets, id, s.now, AfterRequest)
    case Blacklist(id) => s'.now == s.now && OneEntry(s.buckets, s'.buckets, id, s.now, AfterDiscredit)
    case Expire =>
      && s'.now == s.now && |s'.buckets| == |s.buckets|
      && forall i :: 0 <= i < |s.buckets| ==> s'.buckets[i] == Purged(s.buckets[i])
  }

  /** The table goes from the initial bucket through one step for each event. */
  ghost predicate Follows(me: Id, start: int, events: seq<Event>, trace: seq<Snapshot>) {
    && |trace| == |events| + 1 && trace[0] == Snapshot([InitialBucket()], start)
    && (forall k :: 0 <= k < |events| ==> StepMakes(me, trace[k], events[k], trace[k + 1]))
    && (forall k :: 0 <= k < |trace| ==> WellFormed(trace[k].buckets, me))
  }

  function Elapsed(events: seq<Event>): nat {
    if events == [] then 0
    else Elapsed(events[..|events| - 1]) + if events[|events| - 1].Tick? then events[|events| - 1].seconds else 0
  }

  /** The id was learnt, from an address that is not refused, and is not our own. */
  predicate WasLearnt(me: Id, events: seq<Event>, id: Id) {
    exists k :: 0 <= k < |events| && LearntAt(me, events[k], id)
  }

  predicate LearntAt(me: Id, e: Event, id: Id) { e.Learnt? && !e.refused && e.id == id && id != me }

  lemma StepGains(me: Id, s: Snapshot, e: Event, s': Snapshot, n: Node)
    requires WellFormed(s.buckets, me) && StepMakes(me, s, e, s') && Contains(s'.buckets, n)
    ensures Has(s.buckets, n.id) || LearntAt(me, e, n.id)
  {
    hide Purged, AfterRequest, AfterDiscredit, HasIn, Covers;
    match e {
      case Tick(_) =>
      case Learnt(_, _, _, _) =>
      case Request(id) => OneEntryGains(s.buckets, s'.buckets, id, s.now, AfterRequest, n) by { KeepsIds(); }
      case Blacklist(id) => OneEntryGains(s.buckets, s'.buckets, id, s.now, AfterDiscredit, n) by { KeepsIds(); }
      case Expire =>
        var i :| 0 <= i < |s'.buckets| && n in s'.buckets[i].nodes;
        PurgedMembers(s.buckets[i]);
        assert n in s.buckets[i].nodes;
        assert Contains(s.buckets, n);
    }
  }

  lemma PurgedMembers(b: Bucket)
    ensures forall n :: n in Purged(b).nodes ==> n in b.nodes
  {
    AliveMembers(b.nodes);
  }

  /** A change of a bucket that leaves the ids of its entries as they are. */
  ghost predicate SameIds(change: (Bucket, nat, int) -> Bucket) {
    forall b, k, now :: var c := change(b, k, now); |c.nodes| == |b.nodes| && forall j :: 0 <= j < |b.nodes| ==> c.nodes[j].id == b.nodes[j].id
  }

  lemma KeepsIds()
    ensures SameIds(AfterRequest) && SameIds(AfterDiscredit)
  {
  }

  lemma OneEntryGains(bs: seq<Bucket>, cs: seq<Bucket>, id: Id, now: int, change: (Bucket, nat, int) -> Bucket, n: Node)
    requires OneEntry(bs, cs, id, now, change) && SameIds(change) && Contains(cs, n)
    ensures Has(bs, n.id)
  {
    var b :| ChangedIn(bs, cs, b, id, now, change);
    var i :| 0 <= i < |cs| && n in cs[i].nodes;
    var j :| 0 <= j < |cs[i].nodes| && cs[i].nodes[j] == n;
    assert bs[i].nodes[j].id == n.id;
    assert Contains(bs, bs[i].nodes[j]);
  }

  /** Every node of the table was learnt in the run. */
  lemma {:induction false} OnlyLearntNodes(me: Id, start: int, events: seq<Event>, trace: seq<Snapshot>, n: Node)
    requires Follows(me, start, events, trace) && Contains(trace[|events|].buckets, n)
    ensures WasLearnt(me, events, n.id)
  {
    hide StepMakes, WellFormed;
    if events == [] {
      InitialIsEmpty(n);
    } else {
      var k := |events| - 1;
      StepGains(me, trace[k], events[k], trace[k + 1], n);
      if !LearntAt(me, events[k], n.id) {
        var m :| Contains(trace[k].buckets, m) && m.id == n.id;
        OnlyLearntNodes(me, start, events[..k], trace[..k + 1], m);
        var i :| 0 <= i < k && LearntAt(me, events[..k][i], m.id);
        assert LearntAt(me, events[i], n.id);
      }
    }
  }

  lemma InitialIsEmpty(n: Node)
    ensures !Contains([InitialBucket()], n)
  {
  }

  lemma {:induction false} ClockIsElapsed(me: Id, start: int, events: seq<Event>, trace: seq<Snapshot>)
    requires Follows(me, start, events, trace)
    ensures trace[|events|].now == start + Elapsed(events)
  {
    hide WellFormed, OneEntry, Learns, Purged;
    if events != [] {
      var k := |events| - 1;
      assert StepMakes(me, trace[k], events[k], trace[k + 1]);
      ClockIsElapsed(me, start, events[..k], trace[..k + 1]);
    }
  }

  /**
   Any run of the table from the initial single bucket: it goes through one step for each event,
   and at every moment the buckets partition the id space with every node in its place.  At the
   end every node was learnt in the run, and for every id one bucket covers it and looking there
   agrees with a full scan.
   */
  method Run(me: Id, start: int, events: seq<Event>) returns (t: Table, ghost trace: seq<Snapshot>)
    ensures t.Valid() && t.myid == me
    ensures Follows(me, start, events, trace) && trace[|events|] == Snapshot(t.buckets, t.now)
    ensures t.now == start + Elapsed(events)
    ensures forall n :: Contains(t.buckets, n) ==> WasLearnt(me, events, n.id)
    ensures forall id: Id :: FoundInOneBucket(t.buckets, id)
    ensures !Has(t.buckets, me)
  {
    hide WellFormed, OneEntry, Contains, Has, WasLearnt, FoundInOneBucket, GainsOnly, LosesOnlyBad, Heard, IsFull, Purged;
    t := new Table(me, start);
    trace := [Snapshot(t.buckets, t.now)];
    for k := 0 to |events|
      invariant t.Valid() && t.myid == me && fresh(t)
      invariant Follows(me, start, events[..k], trace) && trace[k] == Snapshot(t.buckets, t.now)
    {
      ghost var s := Snapshot(t.buckets, t.now);
      var e := events[k];
      match e {
        case Tick(seconds) => t.now := t.now + seconds;
        case Learnt(id, addr, refused, confirm) => var _ := t.NewNode(id, addr, refused, confirm);
        case Request(id) => t.RequestSent(id);
        case Blacklist(id) => t.Discredit(id);
        case Expire => t.ExpireBuckets();
      }
      assert StepMakes(me, s, e, Snapshot(t.buckets, t.now));
      FollowsOn(me, start, events, k, trace, Snapshot(t.buckets, t.now));
      trace := trace + [Snapshot(t.buckets, t.now)];
    }
    assert events[..|events|] == events;
    ClockIsElapsed(me, start, events, trace);
    forall n | Contains(t.buckets, n)
      ensures WasLearnt(me, events, n.id)
    {
      OnlyLearntNodes(me, start, events, trace, n);
    }
    forall id: Id
      ensures FoundInOneBucket(t.buckets, id)
    {
      LookupAnywhere(t.buckets, me, id);
    }
    OwnIdIsAbsent(t.buckets, me);
  }

  lemma FollowsOn(me: Id, start: int, events: seq<Event>, k: nat, trace: seq<Snapshot>, s: Snapshot)
    requires k < |events| && Follows(me, start, events[..k], trace)
    requires StepMakes(me, trace[k], events[k], s) && WellFormed(s.buckets, me)
    ensures Follows(me, start, events[..k + 1], trace + [s])
  {
    hide StepMakes, WellFormed;
    assert events[..k + 1][..k] == events[..k];
  }

  /** Exactly one bucket covers the id, and looking there agrees with scanning the table. */
  ghost predicate FoundInOneBucket(bs: seq<Bucket>, id: Id) {
    && (exists i :: Covers(bs, i, Value(id)) && (HasIn(bs[i].nodes, id) <==> Has(bs, id)))
    && (forall i, j :: Covers(bs, i, Value(id)) && Covers(bs, j, Value(id)) ==> i == j)
  }

  lemma LookupAnywhere(bs: seq<Bucket>, me: Id, id: Id)
    requires WellFormed(bs, me)
    ensures FoundInOneBucket(bs, id)
  {
    OneBucketLookupAgrees(bs, me, CoverOf(bs, id), id);
    forall i, j | Covers(bs, i, Value(id)) && Covers(bs, j, Value(id))
      ensures i == j
    {
      CoverUnique(bs, i, j, Value(id));
    }
  }

  lemma OwnIdIsAbsent(bs: seq<Bucket>, me: Id)
    requires WellFormed(bs, me)
    ensures !Has(bs, me)
  {
    forall n | Contains(bs, n)
      ensures n.id != me
    {
      var i :| 0 <= i < |bs| && n in bs[i].nodes;
      assert BucketOk(bs[i], Lo(bs, i), Hi(bs, i), me);
    }
  }

  lemma AllHandedOut(bs: seq<Bucket>, me: Id, b: nat, mid: Id, cur: seq<Bucket>)
    requires b < |bs| && HandedOut(bs, me, b, mid, cur, |bs[b].nodes|)
    ensures forall i :: 0 <= i < b ==> cur[i] == bs[i]
    ensures forall i :: b + 1 < i < |cur| ==> cur[i] == bs[i - 1]
    ensures Lo(cur, b) == Lo(bs, b) && Lo(cur, b + 1) == Value(mid) && Hi(cur, b + 1) == Hi(bs, b)
    ensures forall n :: Contains(cur, n) <==> Contains(bs, n)
  {
    OpenedParts(bs, b, mid, b);
    OpenedParts(bs, b, mid, b + 1);
    forall i | 0 <= i < |cur|
      ensures i < b ==> cur[i] == bs[i]
      ensures i > b + 1 ==> cur[i] == bs[i - 1]
    {
      OpenedParts(bs, b, mid, i);
    }
    assert bs[b].nodes[..|bs[b].nodes|] == bs[b].nodes;
    assert forall n :: n in bs[b].nodes ==> Contains(bs, n);
  }
}
