/**
 The peers announced for each info hash in routing/dht.c: a list of hashes, each with a bounded
 array of peers, from which peers not refreshed for 32 minutes are dropped.
 */
module PeerStore {
  import opened Options
  import opened Numbers
  import opened NodeIds

  const MAX_PEERS := 2048
  const MAX_HASHES := 16384
  const PEER_LIFE := 32 * 60

  datatype Peer = Peer(time: int, ip: seq<Byte>, port: nat)

  /** `numpeers` is the length of `peers`; `maxpeers` the size of the array behind it. */
  datatype Storage = Storage(id: Id, maxpeers: nat, peers: seq<Peer>)

  datatype Source = Inet(ip: seq<Byte>) | Inet6(ip: seq<Byte>) | Unsupported

  // ----- what the store means

  /** Where a peer can be reached. */
  type Place = (seq<Byte>, nat)

  function PlaceOf(p: Peer): Place { (p.ip, p.port) }

  predicate DistinctPlaces(peers: seq<Peer>) {
    forall i, j :: 0 <= i < j < |peers| ==> PlaceOf(peers[i]) != PlaceOf(peers[j])
  }

  predicate DistinctIds(list: seq<Storage>) {
    forall i, j :: 0 <= i < j < |list| ==> list[i].id != list[j].id
  }

  predicate StorageOk(st: Storage) {
    && 1 <= |st.peers| <= st.maxpeers <= MAX_PEERS
    && DistinctPlaces(st.peers)
  }

  predicate ListOk(list: seq<Storage>) {
    && |list| <= MAX_HASHES
    && DistinctIds(list)
    && forall i :: 0 <= i < |list| ==> StorageOk(list[i])
  }

  /** When each place was last heard of. */
  function Heard(peers: seq<Peer>): map<Place, int> {
    if peers == [] then map[] else Heard(peers[..|peers| - 1])[PlaceOf(peers[|peers| - 1]) := peers[|peers| - 1].time]
  }

  /** The whole store: for each hash, when each of its places was last heard of. */
  function View(list: seq<Storage>): map<Id, map<Place, int>> {
    if list == [] then map[] else View(list[..|list| - 1])[list[|list| - 1].id := Heard(list[|list| - 1].peers)]
  }

  lemma {:induction false} HeardOf(peers: seq<Peer>, x: Place)
    ensures x in Heard(peers) <==> exists i :: 0 <= i < |peers| && PlaceOf(peers[i]) == x
  {
    if peers != [] {
      var init := peers[..|peers| - 1];
      HeardOf(init, x);
      if x in Heard(init) {
        var i :| 0 <= i < |init| && PlaceOf(init[i]) == x;
        assert PlaceOf(peers[i]) == x;
      }
      if i :| 0 <= i < |peers| && PlaceOf(peers[i]) == x && i < |init| { assert PlaceOf(init[i]) == x; }
    }
  }

  lemma {:induction false} HeardWhen(peers: seq<Peer>, i: nat)
    requires DistinctPlaces(peers) && i < |peers|
    ensures PlaceOf(peers[i]) in Heard(peers) && Heard(peers)[PlaceOf(peers[i])] == peers[i].time
  {
    if i < |peers| - 1 {
      var init := peers[..|peers| - 1];
      HeardWhen(init, i);
      assert init[i] == peers[i];
    }
  }

  /** `m` lists exactly the peers of an array without repetitions. */
  lemma SameHeard(peers: seq<Peer>, m: map<Place, int>)
    requires DistinctPlaces(peers)
    requires forall i :: 0 <= i < |peers| ==> PlaceOf(peers[i]) in m && m[PlaceOf(peers[i])] == peers[i].time
    requires forall x :: x in m ==> exists i :: 0 <= i < |peers| && PlaceOf(peers[i]) == x
    ensures Heard(peers) == m
  {
    forall x: Place
      ensures x in Heard(peers) <==> x in m
      ensures x in m ==> Heard(peers)[x] == m[x]
    {
      HeardOf(peers, x);
      if x in m {
        var i :| 0 <= i < |peers| && PlaceOf(peers[i]) == x;
        HeardWhen(peers, i);
      }
    }
  }

  lemma {:induction false} ViewHas(list: seq<Storage>, id: Id)
    ensures id in View(list) <==> exists i :: 0 <= i < |list| && list[i].id == id
  {
    if list != [] {
      var init := list[..|list| - 1];
      ViewHas(init, id);
      if id in View(init) {
        var i :| 0 <= i < |init| && init[i].id == id;
        assert list[i].id == id;
      }
      if i :| 0 <= i < |list| && list[i].id == id && i < |init| { assert init[i].id == id; }
    }
  }

  lemma {:induction false} ViewAt(list: seq<Storage>, i: nat)
    requires DistinctIds(list) && i < |list|
    ensures list[i].id in View(list) && View(list)[list[i].id] == Heard(list[i].peers)
  {
    if i < |list| - 1 {
      var init := list[..|list| - 1];
      ViewAt(init, i);
      assert init[i] == list[i];
    }
  }

  lemma SameView(list: seq<Storage>, m: map<Id, map<Place, int>>)
    requires DistinctIds(list)
    requires forall i :: 0 <= i < |list| ==> list[i].id in m && m[list[i].id] == Heard(list[i].peers)
    requires forall id :: id in m ==> exists i :: 0 <= i < |list| && list[i].id == id
    ensures View(list) == m
  {
    hide View, Heard;
    forall id: Id
      ensures id in View(list) <==> id in m
      ensures id in m ==> View(list)[id] == m[id]
    {
      ViewHas(list, id);
      if id in m {
        var i :| 0 <= i < |list| && list[i].id == id;
        ViewAt(list, i);
      }
    }
  }

  // ----- storing

  /** A peer is refreshed where it stands. */
  lemma RefreshHeard(peers: seq<Peer>, i: nat, now: int)
    requires DistinctPlaces(peers) && i < |peers|
    ensures var next := peers[i := peers[i].(time := now)];
            DistinctPlaces(next) && Heard(next) == Heard(peers)[PlaceOf(peers[i]) := now]
  {
    var next := peers[i := peers[i].(time := now)];
    var m := Heard(peers)[PlaceOf(peers[i]) := now];
    assert forall k :: 0 <= k < |next| ==> PlaceOf(next[k]) == PlaceOf(peers[k]);
    assert DistinctPlaces(next);
    forall k | 0 <= k < |next|
      ensures PlaceOf(next[k]) in m && m[PlaceOf(next[k])] == next[k].time
    {
      HeardWhen(peers, k);
    }
    forall x | x in m
      ensures exists k :: 0 <= k < |next| && PlaceOf(next[k]) == x
    {
      HeardOf(peers, x);
      assert PlaceOf(next[i]) == PlaceOf(peers[i]);
      if x != PlaceOf(peers[i]) {
        var k :| 0 <= k < |peers| && PlaceOf(peers[k]) == x;
        assert PlaceOf(next[k]) == x;
      }
    }
    SameHeard(next, m);
  }

  lemma AppendHeard(peers: seq<Peer>, p: Peer)
    requires DistinctPlaces(peers) && forall k :: 0 <= k < |peers| ==> PlaceOf(peers[k]) != PlaceOf(p)
    ensures DistinctPlaces(peers + [p]) && Heard(peers + [p]) == Heard(peers)[PlaceOf(p) := p.time]
    ensures PlaceOf(p) !in Heard(peers)
  {
    assert (peers + [p])[..|peers|] == peers;
    HeardOf(peers, PlaceOf(p));
  }

  /** One hash of the list gets other peers. */
  lemma ReplaceView(list: seq<Storage>, i: nat, st: Storage)
    requires DistinctIds(list) && i < |list| && st.id == list[i].id
    ensures DistinctIds(list[i := st]) && View(list[i := st]) == View(list)[st.id := Heard(st.peers)]
  {
    var next := list[i := st];
    var m := View(list)[st.id := Heard(st.peers)];
    assert forall k :: 0 <= k < |next| ==> next[k].id == list[k].id;
    forall k | 0 <= k < |next|
      ensures next[k].id in m && m[next[k].id] == Heard(next[k].peers)
    {
      ViewAt(list, k);
    }
    forall id | id in m
      ensures exists k :: 0 <= k < |next| && next[k].id == id
    {
      ViewHas(list, id);
      assert next[i].id == st.id;
      if id != st.id {
        var k :| 0 <= k < |list| && list[k].id == id;
        assert next[k].id == id;
      }
    }
    SameView(next, m);
  }

  lemma {:induction false} PrependView(list: seq<Storage>, st: Storage)
    requires forall k :: 0 <= k < |list| ==> list[k].id != st.id
    ensures View([st] + list) == View(list)[st.id := Heard(st.peers)]
  {
    hide Heard;
    if list == [] {
      assert [st] + list == [st] && [st][..0] == [];
    } else {
      var init := list[..|list| - 1];
      PrependView(init, st);
      assert ([st] + list)[..|list|] == [st] + init;
    }
  }

  // ----- expiry

  predicate Fresh(p: Peer, now: int) { p.time >= now - PEER_LIFE }

  function FreshPeers(peers: seq<Peer>, now: int): (r: seq<Peer>) {
    if peers == [] then []
    else FreshPeers(peers[..|peers| - 1], now) + if Fresh(peers[|peers| - 1], now) then [peers[|peers| - 1]] else []
  }

  /** The places heard of in the last 32 minutes. */
  function FreshHeard(m: map<Place, int>, now: int): map<Place, int> {
    map x | x in m && m[x] >= now - PEER_LIFE :: m[x]
  }

  /** The store without stale places, and without the hashes that then have none. */
  function FreshView(v: map<Id, map<Place, int>>, now: int): map<Id, map<Place, int>> {
    map id | id in v && FreshHeard(v[id], now) != map[] :: FreshHeard(v[id], now)
  }

  lemma {:induction false} FreshCount(peers: seq<Peer>, now: int, p: Peer)
    ensures multiset(FreshPeers(peers, now))[p] == if Fresh(p, now) then multiset(peers)[p] else 0
  {
    if peers != [] {
      var init, last := peers[..|peers| - 1], peers[|peers| - 1];
      FreshCount(init, now, p);
      assert peers == init + [last];
    }
  }

  lemma FreshMembers(peers: seq<Peer>, kept: seq<Peer>, now: int, p: Peer)
    requires multiset(kept) == multiset(FreshPeers(peers, now))
    ensures p in kept <==> p in peers && Fresh(p, now)
  {
    FreshCount(peers, now, p);
    assert p in kept <==> multiset(kept)[p] > 0;
    assert p in peers <==> multiset(peers)[p] > 0;
  }

  /** The last peer takes the place of the one at `i`. */
  function SwapOut(peers: seq<Peer>, i: nat): seq<Peer>
    requires i < |peers|
  {
    peers[i := peers[|peers| - 1]][..|peers| - 1]
  }

  lemma SwapOutMultiset(peers: seq<Peer>, i: nat)
    requires i < |peers|
    ensures multiset(peers) == multiset(SwapOut(peers, i)) + multiset{peers[i]}
    ensures DistinctPlaces(peers) ==> DistinctPlaces(SwapOut(peers, i))
  {
    var n := |peers| - 1;
    var swapped := peers[i := peers[n]][n := peers[i]];
    assert multiset(swapped) == multiset(peers);
    assert swapped == SwapOut(peers, i) + [peers[i]];
  }

  lemma DropStale(peers: seq<Peer>, i: nat, now: int)
    requires i < |peers| && !Fresh(peers[i], now)
    ensures multiset(FreshPeers(SwapOut(peers, i), now)) == multiset(FreshPeers(peers, now))
  {
    hide FreshPeers, SwapOut;
    SwapOutMultiset(peers, i);
    var next := SwapOut(peers, i);
    forall p: Peer
      ensures multiset(FreshPeers(next, now))[p] == multiset(FreshPeers(peers, now))[p]
    {
      FreshCount(next, now, p);
      FreshCount(peers, now, p);
    }
  }

  lemma {:induction false} AllFresh(peers: seq<Peer>, now: int)
    requires forall k :: 0 <= k < |peers| ==> Fresh(peers[k], now)
    ensures FreshPeers(peers, now) == peers
  {
    if peers != [] { AllFresh(peers[..|peers| - 1], now); }
  }

  /** The inner loop of `expire_storage`. */
  method ExpirePeers(all: seq<Peer>, now: int) returns (peers: seq<Peer>)
    ensures multiset(peers) == multiset(FreshPeers(all, now))
    ensures DistinctPlaces(all) ==> DistinctPlaces(peers)
  {
    hide FreshPeers, SwapOut;
    peers := all;
    var i := 0;
    while i < |peers|
      invariant 0 <= i <= |peers|
      invariant forall k :: 0 <= k < i ==> Fresh(peers[k], now)
      invariant multiset(FreshPeers(peers, now)) == multiset(FreshPeers(all, now))
      invariant DistinctPlaces(all) ==> DistinctPlaces(peers)
      decreases |peers| - i
    {
      if peers[i].time < now - PEER_LIFE {
        DropStale(peers, i, now);
        SwapOutMultiset(peers, i);
        SwapOutFront(peers, i);
        peers := SwapOut(peers, i);
      } else {
        i := i + 1;
      }
    }
    AllFresh(peers, now);
  }

  lemma SwapOutFront(peers: seq<Peer>, i: nat)
    requires i < |peers|
    ensures |SwapOut(peers, i)| == |peers| - 1 && forall k :: 0 <= k < i ==> SwapOut(peers, i)[k] == peers[k]
  {
  }

  lemma ExpiredHeard(peers: seq<Peer>, kept: seq<Peer>, now: int)
    requires DistinctPlaces(peers) && DistinctPlaces(kept) && multiset(kept) == multiset(FreshPeers(peers, now))
    ensures Heard(kept) == FreshHeard(Heard(peers), now)
    ensures FreshHeard(Heard(peers), now) == map[] <==> kept == []
  {
    var m := FreshHeard(Heard(peers), now);
    forall k | 0 <= k < |kept|
      ensures PlaceOf(kept[k]) in m && m[PlaceOf(kept[k])] == kept[k].time
    {
      FreshMembers(peers, kept, now, kept[k]);
      var i :| 0 <= i < |peers| && peers[i] == kept[k];
      HeardWhen(peers, i);
    }
    forall x | x in m
      ensures exists k :: 0 <= k < |kept| && PlaceOf(kept[k]) == x
    {
      HeardOf(peers, x);
      var i :| 0 <= i < |peers| && PlaceOf(peers[i]) == x;
      HeardWhen(peers, i);
      FreshMembers(peers, kept, now, peers[i]);
      var k :| 0 <= k < |kept| && kept[k] == peers[i];
    }
    SameHeard(kept, m);
    if kept != [] { assert PlaceOf(kept[0]) in m; }
  }

  /** What expiry makes of a list: hashes in the same order, each with its fresh peers, none left empty. */
  ghost predicate ExpiredList(was: seq<Storage>, left: seq<Storage>, now: int) {
    if was == [] then left == []
    else
      var init, last := was[..|was| - 1], was[|was| - 1];
      if FreshPeers(last.peers, now) == [] then ExpiredList(init, left, now)
      else
        && left != [] && ExpiredList(init, left[..|left| - 1], now)
        && var st := left[|left| - 1];
           st.id == last.id && st.maxpeers == last.maxpeers && DistinctPlaces(st.peers)
           && multiset(st.peers) == multiset(FreshPeers(last.peers, now))
  }

  lemma {:induction false} ExpiredIds(was: seq<Storage>, left: seq<Storage>, now: int)
    requires ExpiredList(was, left, now) && ListOk(was)
    ensures ListOk(left) && |left| <= |was|
    ensures forall k :: 0 <= k < |left| ==> HasId(was, left[k].id)
  {
    hide FreshPeers, StorageOk, DistinctIds, HasId;
    if was != [] {
      var init, last := was[..|was| - 1], was[|was| - 1];
      InitOk(was);
      if FreshPeers(last.peers, now) == [] {
        ExpiredIds(init, left, now);
        IdsWithin(was, left);
      } else {
        var front, st := left[..|left| - 1], left[|left| - 1];
        ExpiredIds(init, front, now);
        IdsWithin(was, front);
        KeptOk(last, st, now);
        AppendOk(front, st);
        HasLast(was);
        assert left == front + [st];
      }
    }
  }

  lemma InitOk(list: seq<Storage>)
    requires list != [] && ListOk(list)
    ensures ListOk(list[..|list| - 1]) && StorageOk(list[|list| - 1])
  {
  }

  lemma HasLast(list: seq<Storage>)
    requires list != []
    ensures HasId(list, list[|list| - 1].id)
  {
  }

  lemma AppendOk(front: seq<Storage>, st: Storage)
    requires ListOk(front) && |front| < MAX_HASHES && StorageOk(st) && forall k :: 0 <= k < |front| ==> front[k].id != st.id
    ensures ListOk(front + [st])
  {
    hide StorageOk;
  }

  lemma KeptOk(last: Storage, st: Storage, now: int)
    requires StorageOk(last) && st.maxpeers == last.maxpeers && DistinctPlaces(st.peers)
    requires FreshPeers(last.peers, now) != [] && multiset(st.peers) == multiset(FreshPeers(last.peers, now))
    ensures StorageOk(st)
  {
    hide FreshPeers, DistinctPlaces;
    FreshIsFewer(last.peers, now);
    SameSize(st.peers, FreshPeers(last.peers, now));
  }

  predicate HasId(list: seq<Storage>, id: Id) { exists i :: 0 <= i < |list| && list[i].id == id }

  lemma IdsWithin(was: seq<Storage>, left: seq<Storage>)
    requires was != [] && forall k :: 0 <= k < |left| ==> HasId(was[..|was| - 1], left[k].id)
    ensures forall k :: 0 <= k < |left| ==> HasId(was, left[k].id)
    ensures DistinctIds(was) ==> forall k :: 0 <= k < |left| ==> left[k].id != was[|was| - 1].id
  {
    var init := was[..|was| - 1];
    forall k | 0 <= k < |left|
      ensures HasId(was, left[k].id)
      ensures DistinctIds(was) ==> left[k].id != was[|was| - 1].id
    {
      assert HasId(init, left[k].id);
      var i :| 0 <= i < |init| && init[i].id == left[k].id;
      assert was[i].id == left[k].id;
    }
  }

  lemma {:induction false} FreshIsFewer(peers: seq<Peer>, now: int)
    ensures |FreshPeers(peers, now)| <= |peers|
  {
    if peers != [] { FreshIsFewer(peers[..|peers| - 1], now); }
  }

  lemma SameSize<T>(x: seq<T>, y: seq<T>)
    requires multiset(x) == multiset(y)
    ensures |x| == |y|
  {
    assert |multiset(x)| == |x| && |multiset(y)| == |y|;
  }

  /** Expiry keeps exactly the places heard of in the last 32 minutes. */
  lemma {:induction false} ExpiredView(was: seq<Storage>, left: seq<Storage>, now: int)
    requires ExpiredList(was, left, now) && ListOk(was)
    ensures View(left) == FreshView(View(was), now)
  {
    hide FreshPeers, StorageOk, Heard, FreshHeard, DistinctIds;
    if was != [] {
      var init, last := was[..|was| - 1], was[|was| - 1];
      InitOk(was);
      PlacesOf(was, |was| - 1);
      var v, t := View(init), Heard(last.peers);
      assert last.id !in v by { LastIsNew(was); }
      if FreshPeers(last.peers, now) == [] {
        ExpiredView(init, left, now);
        ExpiredHeard(last.peers, [], now);
        FreshViewDrops(v, last.id, t, now);
      } else {
        var front, st := left[..|left| - 1], left[|left| - 1];
        ExpiredView(init, front, now);
        ExpiredHeard(last.peers, st.peers, now);
        SameSize(st.peers, FreshPeers(last.peers, now));
        FreshViewKeeps(v, last.id, t, now);
      }
    }
  }

  lemma LastIsNew(list: seq<Storage>)
    requires list != [] && DistinctIds(list)
    ensures list[|list| - 1].id !in View(list[..|list| - 1])
  {
    ViewHas(list[..|list| - 1], list[|list| - 1].id);
  }

  lemma FreshViewDrops(v: map<Id, map<Place, int>>, id: Id, t: map<Place, int>, now: int)
    requires id !in v && FreshHeard(t, now) == map[]
    ensures FreshView(v[id := t], now) == FreshView(v, now)
  {
    hide FreshHeard;
  }

  lemma FreshViewKeeps(v: map<Id, map<Place, int>>, id: Id, t: map<Place, int>, now: int)
    requires id !in v && FreshHeard(t, now) != map[]
    ensures FreshView(v[id := t], now) == FreshView(v, now)[id := FreshHeard(t, now)]
  {
    hide FreshHeard;
  }

  /** What a call of `storage_store` returns and leaves, given the store and its number of hashes. */
  function Stored(v: map<Id, map<Place, int>>, n: nat, id: Id, sa: Source, port: nat, now: int): (int, map<Id, map<Place, int>>) {
    if sa.Unsupported? then (-1, v)
    else if id !in v then
      if n >= MAX_HASHES then (-1, v) else (1, v[id := map[(sa.ip, port) := now]])
    else if (sa.ip, port) in v[id] then (0, v[id := v[id][(sa.ip, port) := now]])
    else if |v[id]| >= MAX_PEERS then (0, v)
    else (1, v[id := v[id][(sa.ip, port) := now]])
  }

  /** When a call changes nothing. */
  predicate Declines(v: map<Id, map<Place, int>>, n: nat, id: Id, sa: Source, port: nat) {
    || sa.Unsupported?
    || (id !in v && n >= 16384)
    || (id in v && (sa.ip, port) !in v[id] && |v[id]| >= 2048)
  }

  /** When a place was last heard of, if it is stored for this hash. */
  function TimeOf(v: map<Id, map<Place, int>>, id: Id, x: Place): Option<int> {
    if id in v && x in v[id] then Some(v[id][x]) else None
  }

  /** A call sets the time of its own place, also if that is stored already, and of no other; its result tells a new place. */
  lemma StoredSetsTime(v: map<Id, map<Place, int>>, n: nat, id: Id, sa: Source, port: nat, now: int, id': Id, x: Place)
    ensures var (rc, w) := Stored(v, n, id, sa, port, now);
            && (Declines(v, n, id, sa, port) ==> w == v && rc == if sa.Unsupported? || id !in v then -1 else 0)
            && (!Declines(v, n, id, sa, port) ==>
                  && TimeOf(w, id', x) == (if id' == id && x == (sa.ip, port) then Some(now) else TimeOf(v, id', x))
                  && rc == if TimeOf(v, id, (sa.ip, port)).Some? then 0 else 1)
  {
  }

  lemma {:induction false} SizeOfHeard(peers: seq<Peer>)
    requires DistinctPlaces(peers)
    ensures |Heard(peers)| == |peers|
  {
    if peers != [] {
      var init := peers[..|peers| - 1];
      SizeOfHeard(init);
      HeardOf(init, PlaceOf(peers[|peers| - 1]));
      var m := Heard(init);
      assert Heard(peers).Keys == m.Keys + {PlaceOf(peers[|peers| - 1])};
    }
  }

  lemma NewHash(list: seq<Storage>, id: Id)
    requires DistinctIds(list) && id !in View(list)
    ensures DistinctIds([Storage(id, 0, [])] + list)
    ensures View([Storage(id, 0, [])] + list) == View(list)[id := map[]] && Heard([]) == map[]
  {
    forall k | 0 <= k < |list|
      ensures list[k].id != id
    {
      ViewHas(list, id);
    }
    assert DistinctIds([Storage(id, 0, [])] + list);
    PrependView(list, Storage(id, 0, []));
  }

  lemma WriteTwice<K, V>(m: map<K, V>, k: K, x: V, y: V)
    ensures m[k := x][k := y] == m[k := y]
  {
  }

  lemma PlacesAt(was: seq<Storage>, list: seq<Storage>, i: nat)
    requires ListOk(was) && i < |list| && (list[i].peers == [] || list == was)
    ensures DistinctPlaces(list[i].peers)
  {
  }

  /** The scan for a peer that is already there. */
  method FindPeer(peers: seq<Peer>, ip: seq<Byte>, port: nat) returns (j: nat)
    ensures j <= |peers| && (forall k :: 0 <= k < j ==> PlaceOf(peers[k]) != (ip, port))
    ensures j < |peers| ==> PlaceOf(peers[j]) == (ip, port)
    ensures j < |peers| <==> (ip, port) in Heard(peers)
  {
    HeardOf(peers, (ip, port));
    j := 0;
    while j < |peers|
      invariant 0 <= j <= |peers| && forall k :: 0 <= k < j ==> PlaceOf(peers[k]) != (ip, port)
    {
      if peers[j].port == port && |peers[j].ip| == |ip| && peers[j].ip == ip { return; }
      j := j + 1;
    }
  }

  class Store {
    var storage: seq<Storage>
    var numstorage: int

    ghost predicate Valid()
      reads this
    {
      ListOk(storage) && numstorage == |storage|
    }

    constructor ()
      ensures Valid() && View(storage) == map[]
    {
      storage, numstorage := [], 0;
    }

    /** `find_storage`. */
    method FindStorage(id: Id) returns (i: nat)
      ensures i <= |storage| && (forall k :: 0 <= k < i ==> storage[k].id != id)
      ensures i < |storage| ==> storage[i].id == id
      ensures i < |storage| <==> id in View(storage)
    {
      ViewHas(storage, id);
      i := 0;
      while i < |storage|
        invariant 0 <= i <= |storage| && forall k :: 0 <= k < i ==> storage[k].id != id
      {
        var c := IdCmp(id, storage[i].id);
        if c == 0 { return; }
        i := i + 1;
      }
    }

    /** `storage_store`. */
    method StorageStore(id: Id, sa: Source, port: nat, now: int) returns (rc: int)
      requires Valid()
      modifies this
      ensures Valid()
      ensures (rc, View(storage)) == Stored(old(View(storage)), old(|storage|), id, sa, port, now)
    {
      hide View, Heard, DistinctPlaces, DistinctIds;
      if sa.Unsupported? { return -1; }
      ghost var was := storage;
      var i := FindStorage(id);
      if i == |storage| {
        if numstorage >= MAX_HASHES { return -1; }
        NewHash(storage, id);
        storage := [Storage(id, 0, [])] + storage;
        numstorage := numstorage + 1;
        i := 0;
      } else {
        ViewAt(storage, i);
      }
      var st := storage[i];
      assert DistinctPlaces(st.peers) by { PlacesAt(was, storage, i); }
      var j := FindPeer(st.peers, sa.ip, port);
      SizeOfHeard(st.peers);
      if j < |st.peers| {
        RefreshHeard(st.peers, j, now);
        ReplaceView(storage, i, st.(peers := st.peers[j := st.peers[j].(time := now)]));
        storage := storage[i := st.(peers := st.peers[j := st.peers[j].(time := now)])];
        return 0;
      }
      if j >= st.maxpeers {
        if st.maxpeers >= MAX_PEERS { return 0; }
        var n := if st.maxpeers == 0 then 2 else 2 * st.maxpeers;
        n := if n < MAX_PEERS then n else MAX_PEERS;
        st := st.(maxpeers := n);
      }
      AppendHeard(st.peers, Peer(now, sa.ip, port));
      ReplaceView(storage, i, st.(peers := st.peers + [Peer(now, sa.ip, port)]));
      storage := storage[i := st.(peers := st.peers + [Peer(now, sa.ip, port)])];
      WriteTwice(View(was), id, map[], map[(sa.ip, port) := now]);
      return 1;
    }

    /** `expire_storage`. */
    method ExpireStorage(now: int)
      requires Valid()
      modifies this
      ensures Valid() && ExpiredList(old(storage), storage, now)
      ensures View(storage) == FreshView(old(View(storage)), now)
    {
      hide FreshPeers, View, ExpiredList, DistinctIds, StorageOk;
      ghost var was, left, j := storage, [], 0;
      ExpireNothing(was, now);
      var i := 0;
      while i < |storage|
        invariant 0 <= j <= |was| && i == |left| && storage == left + was[j..] && numstorage == |storage|
        invariant ExpiredList(was[..j], left, now)
        decreases |was| - j
      {
        AtFront(left, was, j);
        var st := storage[i];
        PlacesOf(was, j);
        var peers := ExpirePeers(st.peers, now);
        ExpireOne(was, left, j, now, peers);
        if |peers| == 0 {
          storage := storage[..i] + storage[i + 1..];
          numstorage := numstorage - 1;
        } else {
          storage := storage[i := st.(peers := peers)];
          left := left + [st.(peers := peers)];
          i := i + 1;
        }
        j := j + 1;
      }
      assert was[..j] == was && storage == left;
      ExpiredIds(was, left, now);
      ExpiredView(was, left, now);
    }
  }

  lemma PlacesOf(list: seq<Storage>, j: nat)
    requires ListOk(list) && j < |list|
    ensures DistinctPlaces(list[j].peers)
  {
  }

  lemma ExpireNothing(was: seq<Storage>, now: int)
    ensures ExpiredList(was[..0], [], now) && was == [] + was[0..]
  {
  }

  lemma AtFront(left: seq<Storage>, was: seq<Storage>, j: nat)
    requires j < |was|
    ensures var all, i := left + was[j..], |left|;
            && all[i] == was[j]
            && all[..i] + all[i + 1..] == left + was[j + 1..]
            && forall st :: all[i := st] == (left + [st]) + was[j + 1..]
  {
  }

  lemma ExpireOne(was: seq<Storage>, left: seq<Storage>, j: nat, now: int, peers: seq<Peer>)
    requires j < |was| && ExpiredList(was[..j], left, now)
    requires DistinctPlaces(peers) && multiset(peers) == multiset(FreshPeers(was[j].peers, now))
    ensures ExpiredList(was[..j + 1], if |peers| == 0 then left else left + [was[j].(peers := peers)], now)
  {
    hide FreshPeers, DistinctPlaces;
    assert was[..j + 1][..j] == was[..j] && was[..j + 1][j] == was[j];
    SameSize(peers, FreshPeers(was[j].peers, now));
    assert |peers| > 0 ==> (left + [was[j].(peers := peers)])[..|left|] == left;
  }

  // ----- runs

  datatype Event = StoreEvent(id: Id, sa: Source, port: nat, now: int) | ExpireEvent(now: int)

  /** The store after a run, as a map, from the number of hashes alone. */
  function ViewAfter(events: seq<Event>): map<Id, map<Place, int>> {
    if events == [] then map[]
    else
      ViewNext(ViewAfter(events[..|events| - 1]), events[|events| - 1])
  }

  predicate Announces(e: Event, id: Id, x: Place) {
    e.StoreEvent? && !e.sa.Unsupported? && e.id == id && (e.sa.ip, e.port) == x
  }

  /** Event `k` is the last announcement of this place for this hash. */
  predicate LastAnnounced(events: seq<Event>, k: nat, id: Id, x: Place) {
    k < |events| && Announces(events[k], id, x) && forall j :: k < j < |events| ==> !Announces(events[j], id, x)
  }

  /** In every run, the time kept for a place is that of its last announcement. */
  lemma {:induction false} TimesAreLast(events: seq<Event>, id: Id, x: Place)
    requires TimeOf(ViewAfter(events), id, x).Some?
    ensures exists k: nat :: LastAnnounced(events, k, id, x) && TimeOf(ViewAfter(events), id, x) == Some(events[k].now)
  {
    hide Stored, FreshView;
    if events != [] {
      var init, e := events[..|events| - 1], events[|events| - 1];
      var v := ViewAfter(init);
      EventKeeps(v, e, id, x);
      if Announces(e, id, x) && TimeOf(ViewAfter(events), id, x) == Some(e.now) {
        assert LastAnnounced(events, |events| - 1, id, x);
      } else {
        TimesAreLast(init, id, x);
        var k: nat :| LastAnnounced(init, k, id, x) && TimeOf(v, id, x) == Some(init[k].now);
        assert LastAnnounced(events, k, id, x);
      }
    }
  }

  /** Expiry keeps a place exactly if it was heard of in the last 32 minutes, with its time. */
  lemma ExpiryKeeps(v: map<Id, map<Place, int>>, now: int, id: Id, x: Place)
    ensures TimeOf(FreshView(v, now), id, x)
         == if id in v && x in v[id] && v[id][x] >= now - 1920 then Some(v[id][x]) else None
  {
    if id in v && x in FreshHeard(v[id], now) { assert FreshHeard(v[id], now) != map[]; }
  }

  /** The store after one more event. */
  function ViewNext(v: map<Id, map<Place, int>>, e: Event): map<Id, map<Place, int>> {
    match e
    case StoreEvent(id, sa, port, now) => Stored(v, |v|, id, sa, port, now).1
    case ExpireEvent(now) => FreshView(v, now)
  }

  /** What is there after an event was announced by it, or was there before with the same time. */
  lemma EventKeeps(v: map<Id, map<Place, int>>, e: Event, id: Id, x: Place)
    requires TimeOf(ViewNext(v, e), id, x).Some?
    ensures if Announces(e, id, x) then TimeOf(ViewNext(v, e), id, x) == Some(e.now)
            else TimeOf(ViewNext(v, e), id, x) == TimeOf(v, id, x)
  {
    match e
    case StoreEvent(id', sa, port, now) => StoredSetsTime(v, |v|, id', sa, port, now, id, x);
    case ExpireEvent(now) =>
  }

  lemma {:induction false} SizeOfView(list: seq<Storage>)
    requires DistinctIds(list)
    ensures |View(list)| == |list|
  {
    if list != [] {
      var init := list[..|list| - 1];
      SizeOfView(init);
      ViewHas(init, list[|list| - 1].id);
      assert View(list).Keys == View(init).Keys + {list[|list| - 1].id};
    }
  }

  /** Every run keeps the store within its limits and means what the map says. */
  method Run(events: seq<Event>) returns (s: Store)
    ensures s.Valid() && View(s.storage) == ViewAfter(events)
  {
    hide View;
    s := new Store();
    for k := 0 to |events|
      invariant fresh(s) && s.Valid() && View(s.storage) == ViewAfter(events[..k])
    {
      assert events[..k + 1][..k] == events[..k];
      SizeOfView(s.storage);
      match events[k] {
        case StoreEvent(id, sa, port, now) => var _ := s.StorageStore(id, sa, port, now);
        case ExpireEvent(now) => s.ExpireStorage(now);
      }
    }
    assert events[..|events|] == events;
  }
}
