/**
 `libp2p_routing_dht_find_closest_peers` of routing/dht_utils.c: one pass over the peerstore
 that keeps the nearest peers in two parallel arrays.  The SHA-256 based peer hash is an
 uninterpreted function.
 */
module ClosestPeers {
  import opened Options
  import opened Numbers
  import opened NodeIds
  import opened NearestIds

  datatype Peer = Peer(id: seq<Byte>, isLocal: bool)

  /** The distance with which every place starts: twenty bytes 0xFF. */
  const FARTHEST: Id := [255, 255, 255, 255, 255, 255, 255, 255, 255, 255, 255, 255, 255, 255, 255, 255, 255, 255, 255, 255]

  function Dist(hash: seq<Byte> -> Id, target: Id, p: Peer): nat {
    Value(DistBytes(hash, target, p))
  }

  function DistBytes(hash: seq<Byte> -> Id, target: Id, p: Peer): Id {
    XorIds(target, hash(p.id))
  }

  lemma NothingFarther(d: Id)
    ensures Value(d) <= Value(FARTHEST)
    ensures Value(d) == Value(FARTHEST) <==> d == FARTHEST
  {
    if Value(d) == Value(FARTHEST) { ValueInjective(d, FARTHEST); }
    if d != FARTHEST {
      var k := FirstDifference(d, FARTHEST);
      ValCompare(256, d, FARTHEST, k);
    }
  }

  lemma FirstDifference(x: Id, y: Id) returns (k: nat)
    requires x != y
    ensures k < 20 && x[..k] == y[..k] && x[k] != y[k]
  {
    k := 0;
    assert x == x[..20] && y == y[..20];
    while x[k] == y[k]
      invariant 0 <= k < 20 && x[..k] == y[..k]
      decreases 20 - k
    {
      k := k + 1;
    }
  }

  /** The peers the pass considers: entries that are present and not local. */
  function Considered(store: seq<Option<Peer>>): seq<Peer> {
    if store == [] then []
    else
      var e := store[|store| - 1];
      Considered(store[..|store| - 1]) + (if e.Some? && !e.value.isLocal then [e.value] else [])
  }

  /** Every entry that is present and not local is considered as often as the store has it, and nothing else is. */
  lemma {:induction false} ConsideredAre(store: seq<Option<Peer>>, p: Peer)
    ensures multiset(Considered(store))[p] == if p.isLocal then 0 else multiset(store)[Some(p)]
  {
    if store != [] {
      ConsideredAre(store[..|store| - 1], p);
      assert store == store[..|store| - 1] + [store[|store| - 1]];
    }
  }

  predicate Ascending(d: seq<nat>) {
    forall i, j :: 0 <= i < j < |d| ==> d[i] <= d[j]
  }

  function Dists(hash: seq<Byte> -> Id, target: Id, list: seq<Peer>): (d: seq<nat>)
    ensures |d| == |list| && forall k :: 0 <= k < |d| ==> d[k] == Dist(hash, target, list[k])
  {
    seq(|list|, k requires 0 <= k < |list| => Dist(hash, target, list[k]))
  }

  /**
   `list` is a nearest-first choice of `num` of `cands`, and `omitted` is the rest: an omitted
   peer is as far as possible, or the list is full of peers at most as far.
   */
  ghost predicate Best(hash: seq<Byte> -> Id, target: Id, list: seq<Peer>, omitted: multiset<Peer>, cands: seq<Peer>, num: nat) {
    && multiset(list) + omitted == multiset(cands)
    && |list| <= num
    && Ascending(Dists(hash, target, list))
    && (forall k :: 0 <= k < |list| ==> Dist(hash, target, list[k]) < Value(FARTHEST))
    && (forall o :: o in omitted ==> RightlyOmitted(hash, target, list, num, o))
  }

  ghost predicate RightlyOmitted(hash: seq<Byte> -> Id, target: Id, list: seq<Peer>, num: nat, o: Peer) {
    || Dist(hash, target, o) == Value(FARTHEST)
    || (|list| == num && forall k :: 0 <= k < |list| ==> Dist(hash, target, list[k]) <= Dist(hash, target, o))
  }

  /** Where a peer goes: before the first one strictly farther away. */
  function Place(d: seq<nat>, x: nat): (p: nat)
    ensures p <= |d| && (forall k :: 0 <= k < p ==> d[k] <= x) && (p < |d| ==> x < d[p])
  {
    if d == [] || x < d[0] then 0 else 1 + Place(d[1..], x)
  }

  /** The list after one more peer. */
  function Offer(hash: seq<Byte> -> Id, target: Id, list: seq<Peer>, p: Peer, num: nat): seq<Peer> {
    var i := Place(Dists(hash, target, list), Dist(hash, target, p));
    if i == num || Dist(hash, target, p) == Value(FARTHEST) then list else Spliced(list, i, p, num)
  }

  /** What an offer leaves out: the peer itself, the last one of a full list, or nothing. */
  ghost function LeftOut(hash: seq<Byte> -> Id, target: Id, list: seq<Peer>, p: Peer, num: nat): multiset<Peer>
    requires |list| <= num
  {
    var i := Place(Dists(hash, target, list), Dist(hash, target, p));
    if i == num || Dist(hash, target, p) == Value(FARTHEST) then multiset{p}
    else if |list| == num then multiset{list[num - 1]}
    else multiset{}
  }

  lemma SplicedMultiset<T>(list: seq<T>, i: nat, x: T, cap: nat)
    requires i <= |list| <= cap && i < cap
    ensures multiset(Spliced(list, i, x, cap)) + (if |list| == cap then multiset{list[cap - 1]} else multiset{})
         == multiset(list) + multiset{x}
  {
    var all := list[..i] + [x] + list[i..];
    assert list == list[..i] + list[i..];
    assert multiset(all) == multiset(list) + multiset{x};
    if |list| == cap {
      assert all == all[..cap] + [list[cap - 1]];
    }
  }

  lemma OfferKeepsOrder(hash: seq<Byte> -> Id, target: Id, list: seq<Peer>, p: Peer, num: nat)
    requires |list| <= num && Ascending(Dists(hash, target, list))
    requires forall k :: 0 <= k < |list| ==> Dist(hash, target, list[k]) < Value(FARTHEST)
    ensures var r := Offer(hash, target, list, p, num);
            && |r| <= num && |list| <= |r|
            && Ascending(Dists(hash, target, r))
            && forall k :: 0 <= k < |r| ==> Dist(hash, target, r[k]) < Value(FARTHEST)
  {
    hide Dist;
    var d, x := Dists(hash, target, list), Dist(hash, target, p);
    var i := Place(d, x);
    var r := Offer(hash, target, list, p, num);
    XorIdsBound(hash, target, p);
    if i != num && x != Value(FARTHEST) {
      SplicedAt(list, i, p, num);
      var dr := Dists(hash, target, r);
      forall a, b | 0 <= a < b < |r|
        ensures dr[a] <= dr[b]
      {
        assert dr[a] == if a < i then d[a] else if a == i then x else d[a - 1];
        assert dr[b] == if b < i then d[b] else if b == i then x else d[b - 1];
      }
    }
  }

  lemma XorIdsBound(hash: seq<Byte> -> Id, target: Id, p: Peer)
    ensures Dist(hash, target, p) <= Value(FARTHEST)
  {
    NothingFarther(XorIds(target, hash(p.id)));
  }

  lemma OfferKeepsBest(hash: seq<Byte> -> Id, target: Id, list: seq<Peer>, omitted: multiset<Peer>, cands: seq<Peer>, p: Peer, num: nat)
    requires num > 0 && Best(hash, target, list, omitted, cands, num)
    ensures Best(hash, target, Offer(hash, target, list, p, num), omitted + LeftOut(hash, target, list, p, num), cands + [p], num)
  {
    hide Dist, RightlyOmitted, Offer, LeftOut;
    var r, left := Offer(hash, target, list, p, num), LeftOut(hash, target, list, p, num);
    OfferKeepsOrder(hash, target, list, p, num);
    OfferMultiset(hash, target, list, p, num);
    Regroup(multiset(r), left, multiset(list), multiset{p}, omitted);
    assert multiset(cands + [p]) == multiset(cands) + multiset{p};
    forall o | o in omitted + left
      ensures RightlyOmitted(hash, target, r, num, o)
    {
      OmittedIsFar(hash, target, list, omitted, cands, p, num, o);
    }
  }

  lemma Regroup<T>(a: multiset<T>, l: multiset<T>, b: multiset<T>, p: multiset<T>, o: multiset<T>)
    requires a + l == b + p
    ensures a + (o + l) == b + o + p
  {
    forall x: T
      ensures (a + (o + l))[x] == (b + o + p)[x]
    {
      assert (a + l)[x] == (b + p)[x];
    }
  }

  lemma OfferMultiset(hash: seq<Byte> -> Id, target: Id, list: seq<Peer>, p: Peer, num: nat)
    requires |list| <= num
    ensures multiset(Offer(hash, target, list, p, num)) + LeftOut(hash, target, list, p, num) == multiset(list) + multiset{p}
  {
    hide Dist;
    var i := Place(Dists(hash, target, list), Dist(hash, target, p));
    if i != num && Dist(hash, target, p) != Value(FARTHEST) { SplicedMultiset(list, i, p, num); }
  }

  lemma OmittedIsFar(hash: seq<Byte> -> Id, target: Id, list: seq<Peer>, omitted: multiset<Peer>, cands: seq<Peer>, p: Peer, num: nat, o: Peer)
    requires num > 0 && Best(hash, target, list, omitted, cands, num)
    requires o in omitted + LeftOut(hash, target, list, p, num)
    ensures RightlyOmitted(hash, target, Offer(hash, target, list, p, num), num, o)
  {
    hide Dist;
    var d, x := Dists(hash, target, list), Dist(hash, target, p);
    var i := Place(d, x);
    var r := Offer(hash, target, list, p, num);
    if i != num && x != Value(FARTHEST) && Dist(hash, target, o) != Value(FARTHEST) {
      SplicedAt(list, i, p, num);
      assert |list| == num && d[num - 1] <= Dist(hash, target, o);
      forall k | 0 <= k < |r|
        ensures Dist(hash, target, r[k]) <= Dist(hash, target, o)
      {
        if k < i { assert d[k] == Dist(hash, target, r[k]); }
        else if k > i { assert d[k - 1] == Dist(hash, target, r[k]); }
        else { assert x < d[i] <= d[num - 1]; }
      }
    }
  }

  /** The arrays hold `list` in front and the farthest distance everywhere behind it. */
  ghost predicate Holds(hash: seq<Byte> -> Id, target: Id, closest: seq<Option<Peer>>, distances: seq<Id>, list: seq<Peer>) {
    && |closest| == |distances| && |list| <= |closest|
    && (forall k :: 0 <= k < |list| ==> closest[k] == Some(list[k]) && distances[k] == DistBytes(hash, target, list[k]))
    && (forall k :: |list| <= k < |distances| ==> distances[k] == FARTHEST)
  }

  /** The first place whose distance is larger. */
  method ScanDistances(distances: array<Id>, distance: Id) returns (i: nat)
    ensures i <= distances.Length
    ensures forall k :: 0 <= k < i ==> Value(distances[k]) <= Value(distance)
    ensures i < distances.Length ==> Value(distance) < Value(distances[i])
  {
    i := 0;
    while i < distances.Length
      invariant 0 <= i <= distances.Length
      invariant forall k :: 0 <= k < i ==> Value(distances[k]) <= Value(distance)
    {
      var c := IdCmp(distance, distances[i]);
      if c < 0 { return; }
      i := i + 1;
    }
  }

  /** The body of the pass for one peer: find its place, shift the worse ones down, write it. */
  method OfferPeer(hash: seq<Byte> -> Id, target: Id, closest: array<Option<Peer>>, distances: array<Id>, found: nat, p: Peer, ghost list: seq<Peer>)
    returns (found': nat)
    requires closest.Length == distances.Length > 0 && found == |list|
    requires Holds(hash, target, closest[..], distances[..], list)
    requires forall k :: 0 <= k < |list| ==> Dist(hash, target, list[k]) < Value(FARTHEST)
    modifies closest, distances
    ensures found' == |Offer(hash, target, list, p, closest.Length)|
    ensures Holds(hash, target, closest[..], distances[..], Offer(hash, target, list, p, closest.Length))
  {
    var num := closest.Length;
    hide Value, XorIds, Spliced;
    var distance := DistBytes(hash, target, p);
    NothingFarther(distance);
    var i := ScanDistances(distances, distance);
    PlaceIs(hash, target, closest[..], distances[..], list, p, i);
    if i == num { return found; }
    ghost var c0, d0 := closest[..], distances[..];
    ShiftDown(closest, distances, i, p, distance);
    found' := if found < num then found + 1 else found;
    HoldsSpliced(hash, target, c0, d0, closest[..], distances[..], list, i, p);
  }

  /** Move both arrays down by one from place `i` on, dropping the last entries, and write there. */
  method ShiftDown(closest: array<Option<Peer>>, distances: array<Id>, i: nat, p: Peer, distance: Id)
    requires i < closest.Length == distances.Length
    modifies closest, distances
    ensures Shifted(old(closest[..]), closest[..], i, Some(p))
    ensures Shifted(old(distances[..]), distances[..], i, distance)
  {
    ghost var c0, d0 := closest[..], distances[..];
    var num := closest.Length;
    var j := num - 1;
    while j > i
      invariant i <= j < num
      invariant forall k :: 0 <= k <= j ==> closest[k] == c0[k] && distances[k] == d0[k]
      invariant forall k :: j < k < num ==> closest[k] == c0[k - 1] && distances[k] == d0[k - 1]
    {
      closest[j] := closest[j - 1];
      distances[j] := distances[j - 1];
      j := j - 1;
    }
    closest[i] := Some(p);
    distances[i] := distance;
  }

  ghost predicate Shifted<T>(was: seq<T>, now: seq<T>, i: nat, x: T) {
    && |now| == |was| && i < |now|
    && (forall k :: 0 <= k < i ==> now[k] == was[k])
    && now[i] == x
    && (forall k :: i < k < |now| ==> now[k] == was[k - 1])
  }

  lemma HoldsSpliced(hash: seq<Byte> -> Id, target: Id, c0: seq<Option<Peer>>, d0: seq<Id>,
                     c: seq<Option<Peer>>, d: seq<Id>, list: seq<Peer>, i: nat, p: Peer)
    requires Holds(hash, target, c0, d0, list) && i <= |list|
    requires Shifted(c0, c, i, Some(p)) && Shifted(d0, d, i, DistBytes(hash, target, p))
    ensures Holds(hash, target, c, d, Spliced(list, i, p, |c|))
  {
    hide DistBytes, Spliced;
    SplicedAt(list, i, p, |c|);
  }

  /** The scan stops at the place of the peer, or runs off the end if it has none. */
  lemma PlaceIs(hash: seq<Byte> -> Id, target: Id, closest: seq<Option<Peer>>, distances: seq<Id>, list: seq<Peer>, p: Peer, i: nat)
    requires Holds(hash, target, closest, distances, list) && i <= |distances|
    requires forall k :: 0 <= k < |list| ==> Dist(hash, target, list[k]) < Value(FARTHEST)
    requires forall k :: 0 <= k < i ==> Value(distances[k]) <= Dist(hash, target, p)
    requires i < |distances| ==> Dist(hash, target, p) < Value(distances[i])
    ensures var q := Place(Dists(hash, target, list), Dist(hash, target, p));
            if i == |distances| then q == i || Dist(hash, target, p) == Value(FARTHEST)
            else q == i && Dist(hash, target, p) != Value(FARTHEST)
  {
    hide Distance, XorIds, Value;
    var d, x := Dists(hash, target, list), Dist(hash, target, p);
    var q := Place(d, x);
    XorIdsBound(hash, target, p);
    assert forall k :: 0 <= k < |list| ==> d[k] == Value(distances[k]) by { DistIsValue(hash, target, list); }
    if i < |distances| { NothingFarther(distances[i]); }
    if i > |list| { assert distances[|list|] == FARTHEST; }
  }

  lemma DistIsValue(hash: seq<Byte> -> Id, target: Id, list: seq<Peer>)
    ensures forall k :: 0 <= k < |list| ==> Dist(hash, target, list[k]) == Value(DistBytes(hash, target, list[k]))
  {
  }

  /** The pass over the peerstore. */
  method FindClosestPeers(hash: seq<Byte> -> Id, store: seq<Option<Peer>>, key: seq<Byte>, numResults: int)
    returns (results: seq<Peer>, ghost omitted: multiset<Peer>)
    ensures numResults <= 0 ==> results == []
    ensures numResults > 0 ==> Best(hash, hash(key), results, omitted, Considered(store), numResults)
    ensures numResults > 0 && |results| < numResults ==>
      forall o :: o in omitted ==> Dist(hash, hash(key), o) == Value(FARTHEST)
  {
    omitted := multiset{};
    results := [];
    if numResults <= 0 { return; }
    var target := hash(key);
    var closest := new Option<Peer>[numResults](_ => None);
    var distances := new Id[numResults](_ => FARTHEST);
    var found := 0;
    ghost var list: seq<Peer> := [];
    assert store[..0] == [];
    for k := 0 to |store|
      invariant found == |list| && Holds(hash, target, closest[..], distances[..], list)
      invariant Best(hash, target, list, omitted, Considered(store[..k]), numResults)
    {
      hide Offer, LeftOut, Dist, DistBytes, Best, Holds;
      assert store[..k + 1][..k] == store[..k] && store[..k + 1][k] == store[k];
      var e := store[k];
      if e.Some? && !e.value.isLocal {
        OfferKeepsBest(hash, target, list, omitted, Considered(store[..k]), e.value, numResults);
        found := OfferPeer(hash, target, closest, distances, found, e.value, list);
        omitted := omitted + LeftOut(hash, target, list, e.value, numResults);
        list := Offer(hash, target, list, e.value, numResults);
      } else {
        assert Considered(store[..k + 1]) == Considered(store[..k]);
      }
    }
    assert store[..|store|] == store;
    results := CopyOut(closest, found, list);
  }

  method CopyOut(closest: array<Option<Peer>>, found: nat, ghost list: seq<Peer>) returns (results: seq<Peer>)
    requires found == |list| <= closest.Length && forall k :: 0 <= k < found ==> closest[k] == Some(list[k])
    ensures results == list
  {
    results := [];
    for i := 0 to found
      invariant results == list[..i]
    {
      results := results + [closest[i].value];
    }
  }
}
