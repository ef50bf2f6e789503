/**
 The closest-nodes reply of routing/dht.c: a byte buffer of packed node records, 26 bytes
 for IPv4 and 38 for IPv6, kept sorted by XOR distance with memmove.
 */
module ClosestNodes {
  import opened Numbers
  import opened NodeIds
  import opened NearestIds
  import RT = RoutingTable

  const REPLY_NODES := 8

  function IpLength(f: RT.Family): nat { if f.Inet? then 4 else 16 }

  function RecordSize(f: RT.Family): nat { 20 + IpLength(f) + 2 }

  /** A node whose address fits its family. */
  predicate Packable(n: RT.Node) {
    |n.addr.ip| == IpLength(n.addr.family) && n.addr.port < 0x1_0000
  }

  /** Id, address and port in network order. */
  function Pack(n: RT.Node): (r: seq<Byte>)
    requires Packable(n)
    ensures |r| == RecordSize(n.addr.family) && r[..20] == n.id
  {
    n.id + n.addr.ip + [n.addr.port / 256, n.addr.port % 256]
  }

  /** Where a record has its parts: the id, the address, and the port with its high byte first; 26 or 38 bytes in all. */
  lemma PackLayout(n: RT.Node)
    requires Packable(n)
    ensures var r := Pack(n); var k := if n.addr.family.Inet? then 24 else 36;
            |r| == k + 2 && r[..20] == n.id && r[20..k] == n.addr.ip && Val(256, r[k..]) == n.addr.port
  {
    var k := 20 + |n.addr.ip|;
    assert Pack(n)[20..k] == n.addr.ip;
    assert Pack(n)[k..] == [n.addr.port / 256, n.addr.port % 256];
    ValFirst(256, Pack(n)[k..]);
    ValFirst(256, Pack(n)[k..][1..]);
  }

  /** What a receiver reads off a record. */
  function Unpack(r: seq<Byte>, f: RT.Family): (Id, RT.Address)
    requires |r| == RecordSize(f)
  {
    var n := 20 + IpLength(f);
    (r[..20], RT.Address(f, r[20..n], r[n] as int * 256 + r[n + 1] as int))
  }

  /** A record tells id, address and port of its node. */
  lemma UnpackPacked(n: RT.Node)
    requires Packable(n)
    ensures Unpack(Pack(n), n.addr.family) == (n.id, n.addr)
  {
    var r, k := Pack(n), 20 + IpLength(n.addr.family);
    assert r[20..k] == n.addr.ip && r[k] == n.addr.port / 256 && r[k + 1] == n.addr.port % 256;
  }

  /** Record `k` of a buffer. */
  function Rec(buf: seq<Byte>, size: nat, k: nat): (r: seq<Byte>)
    requires size * k + size <= |buf|
    ensures |r| == size
  {
    buf[size * k..size * k + size]
  }

  predicate Fits(buf: seq<Byte>, size: nat, num: nat) {
    forall k: nat :: k < num ==> size * k + size <= |buf|
  }

  function Recs(buf: seq<Byte>, size: nat, num: nat): (r: seq<seq<Byte>>)
    requires Fits(buf, size, num)
    ensures |r| == num && forall k :: 0 <= k < num ==> r[k] == Rec(buf, size, k)
  {
    seq(num, k requires 0 <= k < num => Rec(buf, size, k))
  }

  function RecId(r: seq<Byte>): Id
    requires |r| >= 20
  {
    r[..20]
  }

  function RecIds(recs: seq<seq<Byte>>): (ids: seq<Id>)
    requires forall k :: 0 <= k < |recs| ==> |recs[k]| >= 20
    ensures |ids| == |recs| && forall k :: 0 <= k < |ids| ==> ids[k] == RecId(recs[k])
  {
    seq(|recs|, k requires 0 <= k < |recs| => RecId(recs[k]))
  }

  /** `insert_closest_node` on the list of records. */
  function InsertRec(recs: seq<seq<Byte>>, r: seq<Byte>, t: Id): seq<seq<Byte>>
    requires |r| >= 20 && forall k :: 0 <= k < |recs| ==> |recs[k]| >= 20
  {
    var ids, id := RecIds(recs), RecId(r);
    var p := Position(ids, id, t);
    if Found(ids, id, t) || p == REPLY_NODES then recs else Spliced(recs, p, r, REPLY_NODES)
  }

  lemma InsertRecIds(recs: seq<seq<Byte>>, r: seq<Byte>, t: Id)
    requires |r| >= 20 && |recs| <= REPLY_NODES && forall k :: 0 <= k < |recs| ==> |recs[k]| >= 20
    ensures forall k :: 0 <= k < |InsertRec(recs, r, t)| ==> InsertRec(recs, r, t)[k] == r || InsertRec(recs, r, t)[k] in recs
    ensures forall k :: 0 <= k < |InsertRec(recs, r, t)| ==> |InsertRec(recs, r, t)[k]| >= 20
    ensures RecIds(InsertRec(recs, r, t)) == Insert(RecIds(recs), RecId(r), t, REPLY_NODES)
    ensures |InsertRec(recs, r, t)| <= REPLY_NODES
  {
    hide Distance, Spliced;
    var ids, id := RecIds(recs), RecId(r);
    var p := Position(ids, id, t);
    if !Found(ids, id, t) && p != REPLY_NODES {
      SplicedAt(recs, p, r, REPLY_NODES);
      SplicedAt(ids, p, id, REPLY_NODES);
      var s, si := Spliced(recs, p, r, REPLY_NODES), Spliced(ids, p, id, REPLY_NODES);
      forall k | 0 <= k < |s|
        ensures (s[k] == r || s[k] in recs) && |s[k]| >= 20 && RecId(s[k]) == si[k]
      {
        if k < p { assert s[k] == recs[k]; } else if k > p { assert s[k] == recs[k - 1]; }
      }
    }
  }

  /** memmove of `len` bytes from `src` to the higher place `dst`. */
  method MoveUp(a: array<Byte>, src: nat, dst: nat, len: nat)
    requires src <= dst && dst + len <= a.Length
    modifies a
    ensures forall b :: dst <= b < dst + len ==> a[b] == old(a[src + (b - dst)])
    ensures forall b :: 0 <= b < a.Length && !(dst <= b < dst + len) ==> a[b] == old(a[b])
  {
    var k := len;
    while k > 0
      invariant 0 <= k <= len
      invariant forall b :: dst + k <= b < dst + len ==> a[b] == old(a[src + (b - dst)])
      invariant forall b :: 0 <= b < a.Length && !(dst + k <= b < dst + len) ==> a[b] == old(a[b])
    {
      k := k - 1;
      a[dst + k] := a[src + k];
    }
  }

  method CopyIn(a: array<Byte>, dst: nat, bytes: seq<Byte>)
    requires dst + |bytes| <= a.Length
    modifies a
    ensures a[dst..dst + |bytes|] == bytes
    ensures forall b :: 0 <= b < a.Length && !(dst <= b < dst + |bytes|) ==> a[b] == old(a[b])
  {
    for k := 0 to |bytes|
      invariant forall j :: 0 <= j < k ==> a[dst + j] == bytes[j]
      invariant forall b :: 0 <= b < a.Length && !(dst <= b < dst + k) ==> a[b] == old(a[b])
    {
      a[dst + k] := bytes[k];
    }
  }

  lemma {:induction false} AllFit(size: nat, num: nat, buf: seq<Byte>)
    requires |buf| == size * REPLY_NODES && num <= REPLY_NODES
    ensures Fits(buf, size, num)
  {
    forall k: nat | k < num
      ensures size * k + size <= |buf|
    {
      MulMonotone(k + 1, REPLY_NODES, size);
    }
  }

  /** Bytes before place `i` kept, `r` at place `i`, the rest moved up: the records are spliced. */
  lemma RecordsSpliced(was: seq<Byte>, now: seq<Byte>, size: nat, num: nat, num': nat, i: nat, r: seq<Byte>)
    requires |was| == |now| == size * REPLY_NODES && |r| == size
    requires i <= num <= REPLY_NODES && i < REPLY_NODES && num' == if num < REPLY_NODES then num + 1 else num
    requires size * i + size <= |now| && now[size * i..size * i + size] == r
    requires forall b :: 0 <= b < size * i ==> now[b] == was[b]
    requires size * i <= |was| && size * num' <= |was|
    requires forall b :: size * i + size <= b < size * num' ==> now[b] == was[b - size]
    requires Fits(was, size, num) && Fits(now, size, num')
    ensures Recs(now, size, num') == Spliced(Recs(was, size, num), i, r, REPLY_NODES)
  {
    hide Spliced, Rec, Fits;
    var list := Recs(was, size, num);
    SplicedAt(list, i, r, REPLY_NODES);
    forall k | 0 <= k < num'
      ensures Recs(now, size, num')[k] == Spliced(list, i, r, REPLY_NODES)[k]
    {
      if k < i {
        RecBefore(was, now, size, i, k);
      } else if k > i {
        RecAfter(was, now, size, i, num', k);
      } else {
        RecAt(now, size, i);
      }
    }
  }

  lemma RecAt(buf: seq<Byte>, size: nat, k: nat)
    requires size * k + size <= |buf|
    ensures Rec(buf, size, k) == buf[size * k..size * k + size]
  {
  }

  lemma RecBefore(was: seq<Byte>, now: seq<Byte>, size: nat, i: nat, k: nat)
    requires k < i && size * i <= |was| && |was| == |now| && forall b :: 0 <= b < size * i ==> now[b] == was[b]
    ensures size * k + size <= |was| && Rec(now, size, k) == Rec(was, size, k)
  {
    MulMonotone(k + 1, i, size);
    RecSame(was, now, size, k, size * i);
  }

  lemma RecAfter(was: seq<Byte>, now: seq<Byte>, size: nat, i: nat, num: nat, k: nat)
    requires i < k < num && size * num <= |was| && |was| == |now|
    requires forall b :: size * i + size <= b < size * num ==> now[b] == was[b - size]
    ensures size * k + size <= |was| && size * (k - 1) + size <= |was| && Rec(now, size, k) == Rec(was, size, k - 1)
  {
    MulMonotone(i + 1, k, size);
    MulMonotone(k + 1, num, size);
    RecMoved(was, now, size, k, size * i + size, size * num);
  }

  lemma RecSame(was: seq<Byte>, now: seq<Byte>, size: nat, k: nat, hi: nat)
    requires size * k + size <= hi && hi <= |was| && |was| == |now| && forall b :: 0 <= b < hi ==> now[b] == was[b]
    ensures Rec(now, size, k) == Rec(was, size, k)
  {
  }

  lemma RecMoved(was: seq<Byte>, now: seq<Byte>, size: nat, k: nat, lo: nat, hi: nat)
    requires k > 0 && size <= lo <= size * k && size * k + size <= hi && hi <= |was| && |was| == |now|
    requires forall b :: lo <= b < hi ==> now[b] == was[b - size]
    ensures size * (k - 1) + size <= |was| && Rec(now, size, k) == Rec(was, size, k - 1)
  {
    assert size * (k - 1) + size == size * k;
  }

  /** `insert_closest_node`. */
  method InsertClosestNode(nodes: array<Byte>, numnodes: nat, t: Id, n: RT.Node) returns (num: nat)
    requires Packable(n) && numnodes <= REPLY_NODES
    requires nodes.Length == RecordSize(n.addr.family) * REPLY_NODES && Fits(nodes[..], RecordSize(n.addr.family), numnodes)
    modifies nodes
    ensures num <= REPLY_NODES && Fits(nodes[..], RecordSize(n.addr.family), num)
    ensures Recs(nodes[..], RecordSize(n.addr.family), num)
         == InsertRec(old(Recs(nodes[..], RecordSize(n.addr.family), numnodes)), Pack(n), t)
  {
    hide Position, Found, Pack, Spliced, Fits, Rec, RecIds;
    var size := RecordSize(n.addr.family);
    ghost var was := nodes[..];
    var i, found := ScanRecords(nodes, size, numnodes, t, n.id);
    if found || i == REPLY_NODES { return numnodes; }
    num := if numnodes < REPLY_NODES then numnodes + 1 else numnodes;
    ShiftIn(nodes, size, num, i, Pack(n));
    AllFit(size, num, nodes[..]);
    RecordsSpliced(was, nodes[..], size, numnodes, num, i, Pack(n));
  }

  /** Move the records from place `i` on up by one and write `r` at place `i`. */
  method ShiftIn(nodes: array<Byte>, size: nat, num: nat, i: nat, r: seq<Byte>)
    requires i < num <= REPLY_NODES && nodes.Length == size * REPLY_NODES && |r| == size
    modifies nodes
    ensures size * i + size <= nodes.Length && size * num <= nodes.Length
    ensures nodes[size * i..size * i + size] == r
    ensures forall b :: 0 <= b < size * i ==> nodes[b] == old(nodes[b])
    ensures forall b :: size * i + size <= b < size * num ==> nodes[b] == old(nodes[b - size])
  {
    MulMonotone(num, REPLY_NODES, size);
    MulMonotone(i + 1, num, size);
    ShiftBytes(nodes, size * i, size * num, r);
  }

  method ShiftBytes(nodes: array<Byte>, at: nat, end: nat, r: seq<Byte>)
    requires at + |r| <= end <= nodes.Length
    modifies nodes
    ensures nodes[at..at + |r|] == r
    ensures forall b :: 0 <= b < at ==> nodes[b] == old(nodes[b])
    ensures forall b :: at + |r| <= b < end ==> nodes[b] == old(nodes[b - |r|])
  {
    MoveUp(nodes, at, at + |r|, end - at - |r|);
    CopyIn(nodes, at, r);
  }

  lemma IdAt(buf: seq<Byte>, size: nat, num: nat, i: nat)
    requires size >= 20 && Fits(buf, size, num) && i < num
    ensures size * i + size <= |buf| && RecIds(Recs(buf, size, num))[i] == buf[size * i..size * i + 20]
  {
    FitsAt(buf, size, num, i);
    hide Fits;
    SliceStart(buf, size * i, size);
  }

  lemma FitsAt(buf: seq<Byte>, size: nat, num: nat, i: nat)
    requires Fits(buf, size, num) && i < num
    ensures size * i + size <= |buf|
  {
  }

  lemma SliceStart(buf: seq<Byte>, at: nat, size: nat)
    requires at + size <= |buf| && size >= 20
    ensures buf[at..at + size][..20] == buf[at..at + 20]
  {
  }

  method IdOfRecord(nodes: array<Byte>, size: nat, num: nat, i: nat) returns (id: Id)
    requires size >= 20 && Fits(nodes[..], size, num) && i < num
    ensures id == RecIds(Recs(nodes[..], size, num))[i]
  {
    IdAt(nodes[..], size, num, i);
    id := nodes[size * i..size * i + 20];
  }

  method ScanRecords(nodes: array<Byte>, size: nat, numnodes: nat, t: Id, id: Id) returns (i: nat, found: bool)
    requires size >= 20 && Fits(nodes[..], size, numnodes)
    ensures i == Position(RecIds(Recs(nodes[..], size, numnodes)), id, t)
    ensures found <==> Found(RecIds(Recs(nodes[..], size, numnodes)), id, t)
  {
    hide Fits, Distance;
    ghost var ids := RecIds(Recs(nodes[..], size, numnodes));
    i, found := 0, false;
    while i < numnodes
      invariant 0 <= i <= numnodes
      invariant forall k :: 0 <= k < i ==> ids[k] != id && Distance(ids[k], t) <= Distance(id, t)
    {
      var other := IdOfRecord(nodes, size, numnodes, i);
      var c := IdCmp(id, other);
      if c == 0 {
        return i, true;
      }
      var d := XorCmp(id, other, t);
      if d < 0 { break; }
      i := i + 1;
    }
  }

  // ----- the reply

  /** The good nodes of a bucket, in list order. */
  function GoodNodes(nodes: seq<RT.Node>, now: int): (r: seq<RT.Node>)
    ensures forall n :: n in r <==> n in nodes && RT.Good(n, now)
  {
    if nodes == [] then []
    else
      var last := nodes[|nodes| - 1];
      GoodNodes(nodes[..|nodes| - 1], now) + (if RT.Good(last, now) then [last] else [])
  }

  ghost function PoolIds(pool: seq<RT.Node>): set<Id> { set n | n in pool :: n.id }

  predicate AllPackable(pool: seq<RT.Node>, f: RT.Family) {
    forall n :: n in pool ==> Packable(n) && n.addr.family == f
  }

  /** The records are those of the nearest nodes of `pool`, nearest first, each one intact. */
  ghost predicate Describes(recs: seq<seq<Byte>>, pool: seq<RT.Node>, t: Id, f: RT.Family) {
    && (forall k :: 0 <= k < |recs| ==> |recs[k]| == RecordSize(f))
    && NearestOf(RecIds(recs), PoolIds(pool), t, REPLY_NODES)
    && (forall k :: 0 <= k < |recs| ==> exists n :: n in pool && Packable(n) && recs[k] == Pack(n))
  }

  lemma DescribesNothing(t: Id, f: RT.Family)
    ensures Describes([], [], t, f)
  {
  }

  lemma DescribesOneMore(recs: seq<seq<Byte>>, pool: seq<RT.Node>, t: Id, f: RT.Family, n: RT.Node)
    requires Describes(recs, pool, t, f) && Packable(n) && n.addr.family == f
    ensures Describes(InsertRec(recs, Pack(n), t), pool + [n], t, f)
  {
    hide Insert, NearestOf, Pack, Position, Found;
    CapHolds(recs, pool, t);
    InsertRecIds(recs, Pack(n), t);
    InsertKeepsNearest(RecIds(recs), PoolIds(pool), n.id, t, REPLY_NODES);
    PoolIdsAppend(pool, n);
    var next := InsertRec(recs, Pack(n), t);
    forall k | 0 <= k < |next|
      ensures |next[k]| == RecordSize(f)
      ensures exists m :: m in pool + [n] && Packable(m) && next[k] == Pack(m)
    {
      if next[k] == Pack(n) {
        assert n in pool + [n];
      } else {
        var j :| 0 <= j < |recs| && recs[j] == next[k];
        var m :| m in pool && Packable(m) && recs[j] == Pack(m);
        assert m in pool + [n];
      }
    }
  }

  lemma CapHolds(recs: seq<seq<Byte>>, pool: seq<RT.Node>, t: Id)
    requires (forall k :: 0 <= k < |recs| ==> |recs[k]| >= 20) && NearestOf(RecIds(recs), PoolIds(pool), t, REPLY_NODES)
    ensures |recs| <= REPLY_NODES
  {
  }

  lemma PoolIdsAppend(pool: seq<RT.Node>, n: RT.Node)
    ensures PoolIds(pool + [n]) == PoolIds(pool) + {n.id}
  {
    assert n in pool + [n];
    forall x | x in PoolIds(pool)
      ensures x in PoolIds(pool + [n])
    {
      var m :| m in pool && m.id == x;
      assert m in pool + [n];
    }
  }

  /** `buffer_closest_nodes`. */
  method BufferClosestNodes(nodes: array<Byte>, numnodes: nat, t: Id, b: seq<RT.Node>, f: RT.Family, now: int, ghost pool: seq<RT.Node>)
    returns (num: nat)
    requires AllPackable(b, f) && numnodes <= REPLY_NODES
    requires nodes.Length == RecordSize(f) * REPLY_NODES && Fits(nodes[..], RecordSize(f), numnodes)
    requires Describes(Recs(nodes[..], RecordSize(f), numnodes), pool, t, f)
    modifies nodes
    ensures num <= REPLY_NODES && Fits(nodes[..], RecordSize(f), num)
    ensures Describes(Recs(nodes[..], RecordSize(f), num), pool + GoodNodes(b, now), t, f)
  {
    hide Describes, RT.Good, Packable, RecordSize, Fits;
    num := numnodes;
    assert pool + GoodNodes([], now) == pool && b[..0] == [];
    for k := 0 to |b|
      invariant num <= REPLY_NODES && Fits(nodes[..], RecordSize(f), num)
      invariant Describes(Recs(nodes[..], RecordSize(f), num), pool + GoodNodes(b[..k], now), t, f)
    {
      assert b[..k + 1][..k] == b[..k] && b[..k + 1][k] == b[k];
      if RT.Good(b[k], now) {
        DescribesOneMore(Recs(nodes[..], RecordSize(f), num), pool + GoodNodes(b[..k], now), t, f, b[k]);
        num := InsertClosestNode(nodes, num, t, b[k]);
        assert pool + GoodNodes(b[..k + 1], now) == pool + GoodNodes(b[..k], now) + [b[k]];
      } else {
        assert pool + GoodNodes(b[..k + 1], now) == pool + GoodNodes(b[..k], now);
      }
    }
    assert b[..|b|] == b;
  }

  /** The good nodes of the target's bucket and its two neighbours. */
  function Candidates(bs: seq<RT.Bucket>, b: nat, now: int): seq<RT.Node>
    requires b < |bs|
  {
    GoodNodes(bs[b].nodes, now)
    + (if b + 1 < |bs| then GoodNodes(bs[b + 1].nodes, now) else [])
    + (if b > 0 then GoodNodes(bs[b - 1].nodes, now) else [])
  }

  /** A node is considered exactly if it is good and in the bucket of the target or in the one before or after it. */
  lemma CandidatesAre(bs: seq<RT.Bucket>, b: nat, now: int, n: RT.Node)
    requires b < |bs|
    ensures n in Candidates(bs, b, now)
       <==> RT.Good(n, now) && exists j :: 0 <= j < |bs| && b - 1 <= j <= b + 1 && n in bs[j].nodes
  {
    hide RT.Good, GoodNodes;
    var after := if b + 1 < |bs| then GoodNodes(bs[b + 1].nodes, now) else [];
    var before := if b > 0 then GoodNodes(bs[b - 1].nodes, now) else [];
    InThree(GoodNodes(bs[b].nodes, now), after, before, n);
    if j :| 0 <= j < |bs| && b - 1 <= j <= b + 1 && n in bs[j].nodes {
      assert j == b - 1 || j == b || j == b + 1;
    }
  }

  lemma InThree<T>(x: seq<T>, y: seq<T>, z: seq<T>, n: T)
    ensures n in x + y + z <==> n in x || n in y || n in z
  {
  }

  lemma ReplySize(f: RT.Family)
    ensures RecordSize(f) * REPLY_NODES == if f.Inet? then 208 else 304
  {
  }

  /** The node part of `send_closest_nodes` for one family. */
  method ClosestNodesReply(table: RT.Table, t: Id, f: RT.Family) returns (nodes: array<Byte>, num: nat, ghost b: nat)
    requires table.Valid()
    requires forall i :: 0 <= i < |table.buckets| ==> AllPackable(table.buckets[i].nodes, f)
    ensures RT.Covers(table.buckets, b, Value(t))
    ensures nodes.Length == RecordSize(f) * REPLY_NODES && num <= REPLY_NODES && Fits(nodes[..], RecordSize(f), num)
    ensures Describes(Recs(nodes[..], RecordSize(f), num), Candidates(table.buckets, b, table.now), t, f)
    ensures num <= 8 && nodes.Length == if f.Inet? then 208 else 304
  {
    ReplySize(f);
    hide Describes, RecordSize, GoodNodes, AllPackable, RT.BucketOk, RT.Aligned;
    var bs, now := table.buckets, table.now;
    var i := table.FindBucket(t);
    b := i;
    nodes := new Byte[RecordSize(f) * REPLY_NODES](_ => 0);
    DescribesNothing(t, f);
    assert Recs(nodes[..], RecordSize(f), 0) == [];
    num := BufferClosestNodes(nodes, 0, t, bs[i].nodes, f, now, []);
    assert [] + GoodNodes(bs[i].nodes, now) == GoodNodes(bs[i].nodes, now);
    ghost var pool := GoodNodes(bs[i].nodes, now);
    if i + 1 < |bs| {
      num := BufferClosestNodes(nodes, num, t, bs[i + 1].nodes, f, now, pool);
      pool := pool + GoodNodes(bs[i + 1].nodes, now);
    }
    if i > 0 {
      num := BufferClosestNodes(nodes, num, t, bs[i - 1].nodes, f, now, pool);
      pool := pool + GoodNodes(bs[i - 1].nodes, now);
    }
    assert pool == Candidates(bs, i, now);
  }
}
