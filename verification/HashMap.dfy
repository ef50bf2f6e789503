/**
 The string map of hashmap/hashmap.c: open addressing with at most eight linear probes, a table
 that doubles when a chain or half of the table is full, and re-insertion that may itself double
 the table.  The string hash is an uninterpreted function, and so is the allocator.
 */
module HashMap {
  import opened Options
  import opened Numbers

  const INITIAL_SIZE := 256
  const MAX_CHAIN_LENGTH := 8
  const INT_LIMIT := 0x8000_0000

  type Key = string

  datatype Slot<V> = Free | Used(key: Key, data: V)

  datatype Status = MapOk | MapOmem | MapMissing

  // ----- chains

  function Start(hash: Key -> nat, k: Key, n: nat): (i: nat)
    requires n > 0
    ensures i < n
  {
    hash(k) % n
  }

  /** The `j`-th place of a chain that starts at `start`, going round at the end of the table. */
  function Probe(start: nat, j: nat, n: nat): (i: nat)
    requires start < n && j < n
    ensures i < n
  {
    if start + j < n then start + j else start + j - n
  }

  /** How many probes it takes from `start` to `i`. */
  function Steps(start: nat, i: nat, n: nat): (j: nat)
    requires start < n && i < n
    ensures j < n && Probe(start, j, n) == i
  {
    if i >= start then i - start else i - start + n
  }

  lemma NextProbe(start: nat, j: nat, n: nat)
    requires start < n && j + 1 < n
    ensures Probe(start, j + 1, n) == (Probe(start, j, n) + 1) % n
  {
  }

  predicate IsKey<V>(s: Slot<V>, k: Key) { s.Used? && s.key == k }

  /** The first of the probes `j`, ..., 7 that holds `k`, or is free if `takeFree`; 8 if there is none. */
  function FirstStop<V>(s: seq<Slot<V>>, start: nat, k: Key, takeFree: bool, j: nat): (r: nat)
    requires start < |s| && |s| >= MAX_CHAIN_LENGTH && j <= MAX_CHAIN_LENGTH
    ensures j <= r <= MAX_CHAIN_LENGTH
    ensures forall x :: j <= x < r ==> !IsKey(s[Probe(start, x, |s|)], k) && (takeFree ==> s[Probe(start, x, |s|)].Used?)
    ensures r < MAX_CHAIN_LENGTH ==> IsKey(s[Probe(start, r, |s|)], k) || (takeFree && s[Probe(start, r, |s|)].Free?)
    decreases MAX_CHAIN_LENGTH - j
  {
    if j == MAX_CHAIN_LENGTH then j
    else
      var e := s[Probe(start, j, |s|)];
      if IsKey(e, k) || (takeFree && e.Free?) then j else FirstStop(s, start, k, takeFree, j + 1)
  }

  // ----- what a table means

  /** Every stored key is within eight probes of its hash. */
  predicate InChains<V>(hash: Key -> nat, s: seq<Slot<V>>) {
    forall i :: 0 <= i < |s| && s[i].Used? ==> Steps(Start(hash, s[i].key, |s|), i, |s|) < MAX_CHAIN_LENGTH
  }

  /** No key is stored twice. */
  predicate Distinct<V>(s: seq<Slot<V>>) {
    forall i, j :: 0 <= i < j < |s| && s[i].Used? && s[j].Used? ==> s[i].key != s[j].key
  }

  /** No stored key has a free slot before it in its chain. */
  ghost predicate Packed<V>(hash: Key -> nat, s: seq<Slot<V>>) {
    forall i, x :: 0 <= i < |s| && s[i].Used? && 0 <= x < Steps(Start(hash, s[i].key, |s|), i, |s|)
      ==> s[Probe(Start(hash, s[i].key, |s|), x, |s|)].Used?
  }

  function Occupied<V>(s: seq<Slot<V>>): nat {
    if s == [] then 0 else Occupied(s[..|s| - 1]) + if s[|s| - 1].Used? then 1 else 0
  }

  function Contents<V>(s: seq<Slot<V>>): map<Key, V> {
    if s == [] then map[]
    else
      var m, e := Contents(s[..|s| - 1]), s[|s| - 1];
      if e.Used? then m[e.key := e.data] else m
  }

  ghost predicate Within<V>(small: map<Key, V>, large: map<Key, V>) {
    forall k :: k in small ==> k in large && large[k] == small[k]
  }

  predicate Holds<V>(s: seq<Slot<V>>, k: Key) { exists i :: 0 <= i < |s| && IsKey(s[i], k) }

  lemma {:induction false} ContentsKeys<V>(s: seq<Slot<V>>, k: Key)
    ensures k in Contents(s) <==> Holds(s, k)
  {
    if s != [] {
      var t := s[..|s| - 1];
      ContentsKeys(t, k);
      if Holds(t, k) {
        var i :| 0 <= i < |t| && IsKey(t[i], k);
        assert IsKey(s[i], k);
      }
      if Holds(s, k) && !IsKey(s[|s| - 1], k) {
        var i :| 0 <= i < |s| && IsKey(s[i], k);
        assert IsKey(t[i], k);
      }
    }
  }

  lemma {:induction false} ContentsValue<V>(s: seq<Slot<V>>, i: nat)
    requires Distinct(s) && i < |s| && s[i].Used?
    ensures s[i].key in Contents(s) && Contents(s)[s[i].key] == s[i].data
  {
    if i < |s| - 1 {
      var t := s[..|s| - 1];
      assert Distinct(t);
      ContentsValue(t, i);
      assert t[i] == s[i];
    }
  }

  /** A table without repeated keys has one entry of the map per used slot. */
  lemma SameContents<V>(s: seq<Slot<V>>, m: map<Key, V>)
    requires Distinct(s)
    requires forall i :: 0 <= i < |s| && s[i].Used? ==> s[i].key in m && m[s[i].key] == s[i].data
    requires forall k :: k in m ==> Holds(s, k)
    ensures Contents(s) == m
  {
    forall k
      ensures k in Contents(s) <==> k in m
      ensures k in m ==> Contents(s)[k] == m[k]
    {
      ContentsKeys(s, k);
      if Holds(s, k) {
        var i :| 0 <= i < |s| && IsKey(s[i], k);
        ContentsValue(s, i);
      }
    }
  }

  /** Writing a key where it is, or in a free slot when it is nowhere else. */
  lemma WriteSlot<V>(s: seq<Slot<V>>, i: nat, k: Key, v: V)
    requires Distinct(s) && i < |s|
    requires IsKey(s[i], k) || (s[i].Free? && !Holds(s, k))
    ensures Distinct(s[i := Used(k, v)])
    ensures Contents(s[i := Used(k, v)]) == Contents(s)[k := v]
  {
    var t := s[i := Used(k, v)];
    assert forall x :: 0 <= x < |s| && x != i && s[x].Used? ==> s[x].key != k by {
      if x :| 0 <= x < |s| && x != i && s[x].Used? && s[x].key == k { assert IsKey(s[x], k); }
    }
    var m := Contents(s)[k := v];
    forall x | 0 <= x < |t| && t[x].Used?
      ensures t[x].key in m && m[t[x].key] == t[x].data
    {
      if x != i { ContentsValue(s, x); }
    }
    forall y | y in m
      ensures Holds(t, y)
    {
      if y == k {
        assert IsKey(t[i], k);
      } else {
        ContentsKeys(s, y);
        var x :| 0 <= x < |s| && IsKey(s[x], y);
        assert IsKey(t[x], y);
      }
    }
    SameContents(t, m);
  }

  lemma FreeSlot<V>(s: seq<Slot<V>>, i: nat)
    requires Distinct(s) && i < |s| && s[i].Used?
    ensures Distinct(s[i := Free]) && Contents(s[i := Free]) == Contents(s) - {s[i].key}
  {
    var t, k := s[i := Free], s[i].key;
    var m := Contents(s) - {k};
    forall x | 0 <= x < |t| && t[x].Used?
      ensures t[x].key in m && m[t[x].key] == t[x].data
    {
      ContentsValue(s, x);
    }
    forall y | y in m
      ensures Holds(t, y)
    {
      ContentsKeys(s, y);
      var x :| 0 <= x < |s| && IsKey(s[x], y);
      assert IsKey(t[x], y);
    }
    SameContents(t, m);
  }

  lemma {:induction false} OccupiedUpdate<V>(s: seq<Slot<V>>, i: nat, e: Slot<V>)
    requires i < |s|
    ensures Occupied(s[i := e]) == Occupied(s) + (if e.Used? then 1 else 0) - (if s[i].Used? then 1 else 0)
  {
    var t := s[..|s| - 1];
    if i == |s| - 1 {
      assert s[i := e][..|s| - 1] == t;
    } else {
      OccupiedUpdate(t, i, e);
      assert s[i := e][..|s| - 1] == t[i := e];
    }
  }

  lemma {:induction false} BlankContents<V>(s: seq<Slot<V>>)
    requires forall i :: 0 <= i < |s| ==> s[i].Free?
    ensures Occupied(s) == 0 && Contents(s) == map[]
  {
    if s != [] { BlankContents(s[..|s| - 1]); }
  }

  lemma BlankTable<V>(hash: Key -> nat, s: seq<Slot<V>>)
    requires forall i :: 0 <= i < |s| ==> s[i].Free?
    ensures Occupied(s) == 0 && Contents(s) == map[]
    ensures InChains(hash, s) && Distinct(s) && Packed(hash, s)
  {
    BlankContents(s);
  }

  // ----- chains and contents

  /** A full scan of a chain finds a key exactly when it is stored. */
  lemma StopFindsKey<V>(hash: Key -> nat, s: seq<Slot<V>>, k: Key)
    requires |s| >= MAX_CHAIN_LENGTH && InChains(hash, s)
    ensures FirstStop(s, Start(hash, k, |s|), k, false, 0) < MAX_CHAIN_LENGTH <==> Holds(s, k)
  {
    var start := Start(hash, k, |s|);
    var r := FirstStop(s, start, k, false, 0);
    if r < MAX_CHAIN_LENGTH { assert IsKey(s[Probe(start, r, |s|)], k); }
    if Holds(s, k) {
      var i :| 0 <= i < |s| && IsKey(s[i], k);
      var j := Steps(start, i, |s|);
      assert IsKey(s[Probe(start, j, |s|)], k);
    }
  }

  /** A free slot comes before `k` in its chain, though `k` is stored further on. */
  ghost predicate Shadowed<V>(hash: Key -> nat, s: seq<Slot<V>>, k: Key)
    requires |s| >= MAX_CHAIN_LENGTH
  {
    exists i, x :: 0 <= i < |s| && IsKey(s[i], k) && 0 <= x < Steps(Start(hash, k, |s|), i, |s|)
                   && s[Probe(Start(hash, k, |s|), x, |s|)].Free?
  }

  lemma PackedHasNoShadow<V>(hash: Key -> nat, s: seq<Slot<V>>, k: Key)
    requires |s| >= MAX_CHAIN_LENGTH && Packed(hash, s)
    ensures !Shadowed(hash, s, k)
  {
  }

  /** A put that stops at a free slot is wrong exactly if the key is stored beyond it. */
  lemma StopIsRightUnlessShadowed<V>(hash: Key -> nat, s: seq<Slot<V>>, k: Key)
    requires |s| >= MAX_CHAIN_LENGTH && InChains(hash, s) && Distinct(s)
    ensures var start := Start(hash, k, |s|);
            var r := FirstStop(s, start, k, true, 0);
            && (r == MAX_CHAIN_LENGTH ==> !Holds(s, k) && !Shadowed(hash, s, k))
            && (r < MAX_CHAIN_LENGTH ==> (Shadowed(hash, s, k) <==> s[Probe(start, r, |s|)].Free? && Holds(s, k)))
  {
    var n, start := |s|, Start(hash, k, |s|);
    var r := FirstStop(s, start, k, true, 0);
    if Holds(s, k) {
      var i :| 0 <= i < n && IsKey(s[i], k);
      var j := Steps(start, i, n);
      assert j < MAX_CHAIN_LENGTH && Probe(start, j, n) == i;
      assert r <= j;
      if s[Probe(start, r, n)].Free? {
        assert r < j;
        assert Shadowed(hash, s, k);
      } else {
        assert IsKey(s[Probe(start, r, n)], k);
        SamePlace(s, Probe(start, r, n), i, k);
        ProbeInjective(start, r, j, n);
      }
    }
  }

  lemma SamePlace<V>(s: seq<Slot<V>>, i: nat, j: nat, k: Key)
    requires Distinct(s) && i < |s| && j < |s| && IsKey(s[i], k) && IsKey(s[j], k)
    ensures i == j
  {
  }

  lemma ProbeInjective(start: nat, a: nat, b: nat, n: nat)
    requires start < n && a < n && b < n && Probe(start, a, n) == Probe(start, b, n)
    ensures a == b
  {
  }

  /** Writing at the first stop keeps chains short and, in a packed table, leaves no hole. */
  lemma WriteKeepsChains<V>(hash: Key -> nat, s: seq<Slot<V>>, k: Key, v: V, r: nat)
    requires |s| >= MAX_CHAIN_LENGTH && InChains(hash, s)
    requires r == FirstStop(s, Start(hash, k, |s|), k, true, 0) < MAX_CHAIN_LENGTH
    ensures var t := s[Probe(Start(hash, k, |s|), r, |s|) := Used(k, v)];
            InChains(hash, t) && (Packed(hash, s) ==> Packed(hash, t))
  {
    var n, start := |s|, Start(hash, k, |s|);
    var i := Probe(start, r, n);
    var t := s[i := Used(k, v)];
    ProbeInjective(start, r, Steps(start, i, n), n);
    assert InChains(hash, t);
    if Packed(hash, s) {
      forall a, x | 0 <= a < n && t[a].Used? && 0 <= x < Steps(Start(hash, t[a].key, n), a, n)
        ensures t[Probe(Start(hash, t[a].key, n), x, n)].Used?
      {
        if a != i { assert s[a] == t[a]; }
      }
    }
  }

  // ----- what a put does to a table

  /** A table and its `size`. */
  datatype Image<V> = Image(slots: seq<Slot<V>>, size: nat)

  datatype Outcome<V> = Outcome(status: Status, image: Image<V>)

  predicate Sized<V>(t: Image<V>) { MAX_CHAIN_LENGTH <= |t.slots| < INT_LIMIT }

  /** Where a put of `k` writes, if it needs no larger table. */
  function IndexIn<V>(hash: Key -> nat, t: Image<V>, k: Key): (index: Option<nat>)
    requires Sized(t)
    ensures index.Some? ==> index.value < |t.slots|
  {
    var n := |t.slots|;
    var start := Start(hash, k, n);
    var r := FirstStop(t.slots, start, k, true, 0);
    if t.size >= n / 2 || r == MAX_CHAIN_LENGTH then None else Some(Probe(start, r, n))
  }

  /** The `j`-th place from the hash on, as the code steps to it. */
  function PlaceFrom(h: nat, j: nat, n: nat): (i: nat)
    requires n > 0
    ensures i < n
  {
    (h + j) % n
  }

  lemma PlaceIsProbe(h: nat, j: nat, n: nat)
    requires 0 < n && j < n
    ensures PlaceFrom(h, j, n) == Probe(h % n, j, n)
  {
    var q, r := h / n, h % n;
    if r + j < n {
      DivModUnique(q, (h + j) / n, n, r + j, (h + j) % n);
    } else {
      DistributeRight(q, 1, n);
      DivModUnique(q + 1, (h + j) / n, n, r + j - n, (h + j) % n);
    }
  }

  /** The places before the `j`-th of the chain hold other keys, and this one is free or holds `k`. */
  predicate IsFirstPlace<V>(hash: Key -> nat, s: seq<Slot<V>>, k: Key, j: nat)
    requires |s| > 0
  {
    && (s[PlaceFrom(hash(k), j, |s|)].Free? || s[PlaceFrom(hash(k), j, |s|)].key == k)
    && forall x: nat :: x < j ==> s[PlaceFrom(hash(k), x, |s|)].Used? && s[PlaceFrom(hash(k), x, |s|)].key != k
  }

  lemma StopIsFirst<V>(hash: Key -> nat, s: seq<Slot<V>>, k: Key)
    requires |s| >= 8
    ensures var r := FirstStop(s, Start(hash, k, |s|), k, true, 0);
            && (r < 8 ==> IsFirstPlace(hash, s, k, r))
            && forall j: nat :: j < 8 && IsFirstPlace(hash, s, k, j) ==> j == r
  {
    hide PlaceFrom, Probe;
    forall j: nat | j < 8 ensures PlaceFrom(hash(k), j, |s|) == Probe(Start(hash, k, |s|), j, |s|) { PlaceIsProbe(hash(k), j, |s|); }
  }

  /**
   A put that needs no larger table takes the first of eight places, from the hash on, that is free
   or holds the key; it needs one exactly if there is none, or the table is half full.
   */
  lemma IndexIsFirst<V>(hash: Key -> nat, t: Image<V>, k: Key)
    requires Sized(t)
    ensures IndexIn(hash, t, k).Some? <==> 2 * t.size + 1 < |t.slots| && exists j: nat :: j < 8 && IsFirstPlace(hash, t.slots, k, j)
    ensures forall j: nat :: j < 8 && IsFirstPlace(hash, t.slots, k, j) && IndexIn(hash, t, k).Some?
              ==> IndexIn(hash, t, k) == Some(PlaceFrom(hash(k), j, |t.slots|))
  {
    hide PlaceFrom, Probe, IsFirstPlace;
    StopIsFirst(hash, t.slots, k);
    var r := FirstStop(t.slots, Start(hash, k, |t.slots|), k, true, 0);
    if r < 8 { PlaceIsProbe(hash(k), r, |t.slots|); }
  }

  predicate Doubles(granted: nat -> bool, n: nat) { 2 * n < INT_LIMIT && granted(2 * n) }

  function BlankSlots<V>(n: nat): seq<Slot<V>> { seq(n, _ => Free) }

  /** `libp2p_hashmap_put`. */
  function AfterPut<V>(hash: Key -> nat, granted: nat -> bool, t: Image<V>, k: Key, v: V): (r: Outcome<V>)
    requires Sized(t)
    ensures Sized(r.image) && |r.image.slots| >= |t.slots| && (r.status == MapOk || r.status == MapOmem)
    decreases INT_LIMIT - |t.slots|, 2, 0
  {
    var index := IndexIn(hash, t, k);
    if index.Some? then Outcome(MapOk, Image(t.slots[index.value := Used(k, v)], t.size + 1))
    else
      var grown := AfterRehash(hash, granted, t);
      if grown.status == MapOmem then grown else AfterPut(hash, granted, grown.image, k, v)
  }

  /** `hashmap_rehash`. */
  function AfterRehash<V>(hash: Key -> nat, granted: nat -> bool, t: Image<V>): (r: Outcome<V>)
    requires Sized(t)
    ensures Sized(r.image) && |r.image.slots| >= |t.slots| && (r.status == MapOk || r.status == MapOmem)
    ensures r.status == MapOk ==> |r.image.slots| >= 2 * |t.slots| && Doubles(granted, |t.slots|)
    decreases INT_LIMIT - |t.slots|, 1, 0
  {
    if !Doubles(granted, |t.slots|) then Outcome(MapOmem, t)
    else Refilled(hash, granted, t.slots, 0, Image(BlankSlots(2 * |t.slots|), 0))
  }

  /** The elements of `curr` from slot `i` on, put into `t` one after the other. */
  function Refilled<V>(hash: Key -> nat, granted: nat -> bool, curr: seq<Slot<V>>, i: nat, t: Image<V>): (r: Outcome<V>)
    requires Sized(t) && i <= |curr|
    ensures Sized(r.image) && |r.image.slots| >= |t.slots| && (r.status == MapOk || r.status == MapOmem)
    decreases INT_LIMIT - |t.slots|, 3, |curr| - i
  {
    if i == |curr| then Outcome(MapOk, t)
    else if curr[i].Free? then Refilled(hash, granted, curr, i + 1, t)
    else
      var r := AfterPut(hash, granted, t, curr[i].key, curr[i].data);
      if r.status != MapOk then r else Refilled(hash, granted, curr, i + 1, r.image)
  }

  lemma RehashIs<V>(hash: Key -> nat, granted: nat -> bool, t: Image<V>)
    requires Sized(t)
    ensures AfterRehash(hash, granted, t) ==
      if Doubles(granted, |t.slots|) then Refilled(hash, granted, t.slots, 0, Image(BlankSlots(2 * |t.slots|), 0)) else Outcome(MapOmem, t)
  {
  }

  lemma AllBlank<V>(s: seq<Slot<V>>)
    requires forall i :: 0 <= i < |s| ==> s[i].Free?
    ensures s == BlankSlots(|s|)
  {
  }

  /** A put that needs a larger table and, after doublings that go through, is refused the next one at once. */
  predicate RefusedAtOnce<V>(hash: Key -> nat, granted: nat -> bool, t: Image<V>, k: Key)
    requires Sized(t)
    decreases INT_LIMIT - |t.slots|
  {
    && IndexIn(hash, t, k) == None
    && (Doubles(granted, |t.slots|) ==>
          var grown := AfterRehash(hash, granted, t);
          grown.status == MapOk && RefusedAtOnce(hash, granted, grown.image, k))
  }

  // ----- the map

  class Table<V(0)> {
    const hash: Key -> nat
    const granted: nat -> bool        // does the allocator give room for so many slots?
    var tableSize: nat
    var size: nat
    var data: array<Slot<V>>

    /** What holds of every table, also one that holds a key twice. */
    ghost predicate Shaped()
      reads this, data
    {
      && INITIAL_SIZE <= tableSize == data.Length < INT_LIMIT
      && InChains(hash, data[..])
      && Occupied(data[..]) <= size <= tableSize / 2
    }

    ghost predicate Valid()
      reads this, data
    {
      Shaped() && Distinct(data[..])
    }

    ghost function Map(): map<Key, V>
      reads this, data
    {
      Contents(data[..])
    }

    ghost predicate PackedTable()
      reads this, data
    {
      Packed(hash, data[..])
    }

    /** Would a put of `k` now write in front of the slot that holds `k`? */
    ghost predicate Misplaces(k: Key)
      requires Shaped()
      reads this, data
    {
      size < tableSize / 2 && Shadowed(hash, data[..], k)
    }

    ghost function Now(): (t: Image<V>)
      reads this, data
    {
      Image(data[..], size)
    }

    /** Where a put of `k` writes, if it needs no larger table. */
    ghost function Index(k: Key): (index: Option<nat>)
      requires Shaped()
      reads this, data
      ensures index.Some? ==> index.value < tableSize
    {
      IndexIn(hash, Now(), k)
    }

    predicate CanDouble()
      reads this
    {
      Doubles(granted, tableSize)
    }

    constructor (hash: Key -> nat, granted: nat -> bool)
      ensures Valid() && PackedTable() && fresh(data) && Map() == map[]
      ensures forall i :: 0 <= i < data.Length ==> data[i].Free?
      ensures this.hash == hash && this.granted == granted && size == 0 && tableSize == INITIAL_SIZE
    {
      this.hash, this.granted := hash, granted;
      tableSize, size := INITIAL_SIZE, 0;
      data := new Slot<V>[INITIAL_SIZE](_ => Free);
      new;
      BlankTable(hash, data[..]);
    }

    /** `hashmap_hash`: the slot to write `k` in, or nothing when the table has to grow. */
    method HashIndex(k: Key) returns (index: Option<nat>)
      requires Shaped()
      ensures index == Index(k)
    {
      hide InChains, Occupied, Distinct;
      if size >= tableSize / 2 { return None; }
      var curr := Start(hash, k, tableSize);
      ghost var start, s := curr, data[..];
      var i := 0;
      while i < MAX_CHAIN_LENGTH
        invariant 0 <= i <= MAX_CHAIN_LENGTH && curr == Probe(start, i, tableSize)
        invariant FirstStop(s, start, k, true, 0) == FirstStop(s, start, k, true, i)
      {
        if data[curr].Free? { return Some(curr); }
        if data[curr].Used? && data[curr].key == k { return Some(curr); }
        NextProbe(start, i, tableSize);
        curr := (curr + 1) % tableSize;
        i := i + 1;
      }
      return None;
    }

    /** `libp2p_hashmap_put`. */
    method Put(k: Key, v: V) returns (status: Status)
      requires Valid()
      modifies this, data
      ensures data == old(data) || fresh(data)
      ensures status == MapOk || status == MapOmem
      ensures Shaped() && tableSize >= old(tableSize)
      ensures old(PackedTable()) ==> PackedTable()
      ensures status == MapOk && !old(Misplaces(k)) ==> Distinct(data[..]) && Map() == old(Map())[k := v]
      ensures status == MapOk && old(Misplaces(k)) ==> !Distinct(data[..])
      ensures old(Index(k)).Some? ==>
        status == MapOk && data == old(data) && tableSize == old(tableSize) && size == old(size) + 1 && data[..] == old(data[..])[old(Index(k)).value := Used(k, v)]
      ensures status == MapOmem ==> !CanDouble() && Distinct(data[..]) && Within(Map(), old(Map()))
      ensures status == MapOmem ==> 2 * tableSize >= 0x8000_0000 || !granted(2 * tableSize)
      ensures status == MapOmem ==> (Map() == old(Map()) <==> RefusedAtOnce(hash, granted, old(Now()), k))
      ensures Outcome(status, Now()) == AfterPut(hash, granted, old(Now()), k, v)
      decreases INT_LIMIT - tableSize, 1
    {
      hide FirstStop, Packed, InChains, Shadowed, Distinct, Contents, Occupied, Within, IndexIn, AfterRehash;
      var index := HashIndex(k);
      while index == None
        invariant Valid() && tableSize >= old(tableSize) && (data == old(data) || fresh(data)) && index == Index(k)
        invariant data == old(data) ==> tableSize == old(tableSize) && size == old(size) && data[..] == old(data[..])
        invariant data != old(data) ==> PackedTable() && !Misplaces(k) && !old(Misplaces(k)) && old(Index(k)) == None
        invariant Map() == old(Map())
        invariant AfterPut(hash, granted, Now(), k, v) == AfterPut(hash, granted, old(Now()), k, v)
        invariant RefusedAtOnce(hash, granted, Now(), k) == RefusedAtOnce(hash, granted, old(Now()), k)
        decreases INT_LIMIT - tableSize
      {
        FullIsNotMisplaced(k);
        status := Rehash();
        if status == MapOmem { return; }
        NotMisplaced(k);
        index := HashIndex(k);
      }
      Store(index.value, k, v);
      return MapOk;
    }

    lemma FullIsNotMisplaced(k: Key)
      requires Valid() && Index(k) == None
      ensures !Misplaces(k)
    {
      StopIsRightUnlessShadowed(hash, data[..], k);
    }

    lemma NotMisplaced(k: Key)
      requires Shaped() && PackedTable()
      ensures !Misplaces(k)
    {
      PackedHasNoShadow(hash, data[..], k);
    }

    /** The last lines of a put: fill the slot that was found. */
    method Store(index: nat, k: Key, v: V)
      requires Valid() && Index(k) == Some(index)
      modifies this`size, data
      ensures Shaped() && size == old(size) + 1 && data[..] == old(data[..])[index := Used(k, v)]
      ensures old(PackedTable()) ==> PackedTable()
      ensures !old(Misplaces(k)) ==> Distinct(data[..]) && Map() == old(Map())[k := v]
      ensures old(Misplaces(k)) ==> !Distinct(data[..])
    {
      ghost var s, r := data[..], FirstStop(data[..], Start(hash, k, tableSize), k, true, 0);
      Written(s, k, v, r);
      data[index] := Used(k, v);
      size := size + 1;
      assert data[..] == s[index := Used(k, v)];
    }

    /** `hashmap_rehash`: a table of twice the size, filled by putting every element again. */
    method Rehash() returns (status: Status)
      requires Valid()
      modifies this, data
      ensures Valid() && (status == MapOk || status == MapOmem)
      ensures status == MapOk ==> PackedTable() && fresh(data) && tableSize >= 2 * old(tableSize) && Map() == old(Map())
      ensures status == MapOmem ==> !CanDouble() && Within(Map(), old(Map())) && (data == old(data) || fresh(data))
      ensures status == MapOmem ==> 2 * tableSize >= 0x8000_0000 || !granted(2 * tableSize)
      ensures status == MapOmem ==> (Map() == old(Map()) <==> !old(CanDouble()))
      ensures Outcome(status, Now()) == AfterRehash(hash, granted, old(Now()))
      ensures old(PackedTable()) ==> PackedTable()
      ensures tableSize >= old(tableSize)
      decreases INT_LIMIT - tableSize, 0
    {
      hide FirstStop, Packed, InChains, Shadowed, Distinct, Occupied, Contents, Within, AfterPut, AfterRehash, BlankSlots;
      RehashIs(hash, granted, Now());
      WithinItself(Map());
      if !CanDouble() { return MapOmem; }
      var curr, oldSize := data, tableSize;
      ghost var s := curr[..];
      data := new Slot<V>[2 * tableSize](_ => Free);
      tableSize := 2 * tableSize;
      size := 0;
      BlankTable(hash, data[..]);
      BlankContents(s[..0]);
      AllBlank(data[..]);
      assert old(Now()).slots == s;
      for i := 0 to oldSize
        invariant Valid() && PackedTable() && fresh(data) && curr[..] == s
        invariant tableSize >= 2 * oldSize
        invariant Map() == Contents(s[..i])
        invariant Refilled(hash, granted, s, i, Now()) == AfterRehash(hash, granted, old(Now()))
      {
        NextContents(s, i);
        if curr[i].Used? {
          NotMisplaced(curr[i].key);
          status := Put(curr[i].key, curr[i].data);
          if status != MapOk {
            PrefixContents(s, i, Map());
            KeyIsLost(s, i, Map());
            return;
          }
        }
      }
      assert s[..oldSize] == s;
      return MapOk;
    }

    /** `libp2p_hashmap_get`. */
    method Get(k: Key) returns (status: Status, v: Option<V>)
      requires Shaped()
      ensures status == MapOk <==> k in Map()
      ensures status == if v.Some? then MapOk else MapMissing
      ensures Distinct(data[..]) && k in Map() ==> v == Some(Map()[k])
      ensures v == Lookup(hash, data[..], k)
    {
      var curr := Start(hash, k, tableSize);
      ghost var start, s := curr, data[..];
      StopFindsKey(hash, s, k);
      ContentsKeys(s, k);
      var i := 0;
      while i < MAX_CHAIN_LENGTH
        invariant 0 <= i <= MAX_CHAIN_LENGTH && curr == Probe(start, i, tableSize)
        invariant FirstStop(s, start, k, false, 0) == FirstStop(s, start, k, false, i)
      {
        if data[curr].Used? && data[curr].key == k {
          if Distinct(s) { ContentsValue(s, curr); }
          return MapOk, Some(data[curr].data);
        }
        NextProbe(start, i, tableSize);
        curr := (curr + 1) % tableSize;
        i := i + 1;
      }
      return MapMissing, None;
    }

    /** `libp2p_hashmap_remove`. */
    method Remove(k: Key) returns (status: Status)
      requires Shaped()
      modifies this`size, data
      ensures Shaped() && data == old(data) && tableSize == old(tableSize)
      ensures status == if k in old(Map()) then MapOk else MapMissing
      ensures status == MapMissing ==> data[..] == old(data[..]) && size == old(size)
      ensures status == MapOk ==> size == old(size) - 1
      ensures status == MapOk ==>
        data[..] == old(data[..])[Probe(Start(hash, k, tableSize), FirstStop(old(data[..]), Start(hash, k, tableSize), k, false, 0), tableSize) := Free]
      ensures old(Distinct(data[..])) ==> Distinct(data[..]) && Map() == old(Map()) - {k}
    {
      var curr := Start(hash, k, tableSize);
      ghost var start, s := curr, data[..];
      StopFindsKey(hash, s, k);
      ContentsKeys(s, k);
      var i := 0;
      while i < MAX_CHAIN_LENGTH
        invariant 0 <= i <= MAX_CHAIN_LENGTH && curr == Probe(start, i, tableSize)
        invariant FirstStop(s, start, k, false, 0) == FirstStop(s, start, k, false, i)
        invariant data[..] == s && size == old(size)
      {
        if data[curr].Used? && data[curr].key == k {
          OccupiedUpdate(s, curr, Free);
          if Distinct(s) { FreeSlot(s, curr); }
          data[curr] := Free;
          size := size - 1;
          assert data[..] == s[curr := Free];
          return MapOk;
        }
        NextProbe(start, i, tableSize);
        curr := (curr + 1) % tableSize;
        i := i + 1;
      }
      return MapMissing;
    }

    /** The table after a put at the first stop. */
    lemma Written(s: seq<Slot<V>>, k: Key, v: V, r: nat)
      requires |s| >= MAX_CHAIN_LENGTH && InChains(hash, s) && Distinct(s)
      requires r == FirstStop(s, Start(hash, k, |s|), k, true, 0) < MAX_CHAIN_LENGTH
      ensures var t := s[Probe(Start(hash, k, |s|), r, |s|) := Used(k, v)];
              && InChains(hash, t) && (Packed(hash, s) ==> Packed(hash, t))
              && Occupied(t) <= Occupied(s) + 1
              && (Shadowed(hash, s, k) ==> !Distinct(t))
              && (!Shadowed(hash, s, k) ==> Distinct(t) && Contents(t) == Contents(s)[k := v])
    {
      var i := Probe(Start(hash, k, |s|), r, |s|);
      var t := s[i := Used(k, v)];
      WriteKeepsChains(hash, s, k, v, r);
      OccupiedUpdate(s, i, Used(k, v));
      StopIsRightUnlessShadowed(hash, s, k);
      if Shadowed(hash, s, k) {
        var j :| 0 <= j < |s| && IsKey(s[j], k);
        assert t[i].key == t[j].key && i != j;
      } else {
        WriteSlot(s, i, k, v);
      }
    }
  }

  /** What a get returns: the first copy of the key in its chain. */
  function Lookup<V>(hash: Key -> nat, s: seq<Slot<V>>, k: Key): Option<V>
    requires |s| >= MAX_CHAIN_LENGTH
  {
    var start := Start(hash, k, |s|);
    var r := FirstStop(s, start, k, false, 0);
    if r == MAX_CHAIN_LENGTH then None else Some(s[Probe(start, r, |s|)].data)
  }

  lemma NextContents<V>(s: seq<Slot<V>>, i: nat)
    requires i < |s|
    ensures Contents(s[..i + 1]) == if s[i].Used? then Contents(s[..i])[s[i].key := s[i].data] else Contents(s[..i])
  {
    assert s[..i + 1][..i] == s[..i];
  }

  lemma WithinItself<V>(m: map<Key, V>)
    ensures Within(m, m)
  {
  }

  /** A part of the first entries lacks the next one. */
  lemma KeyIsLost<V>(s: seq<Slot<V>>, i: nat, m: map<Key, V>)
    requires Distinct(s) && i < |s| && s[i].Used? && Within(m, Contents(s[..i]))
    ensures m != Contents(s)
  {
    ContentsKeys(s[..i], s[i].key);
    ContentsValue(s, i);
  }

  lemma PrefixContents<V>(s: seq<Slot<V>>, i: nat, m: map<Key, V>)
    requires Distinct(s) && i <= |s| && Within(m, Contents(s[..i]))
    ensures Within(m, Contents(s))
  {
    var p := s[..i];
    assert Distinct(p);
    forall k | k in m
      ensures k in Contents(s) && Contents(s)[k] == m[k]
    {
      ContentsKeys(p, k);
      var x :| 0 <= x < |p| && IsKey(p[x], k);
      ContentsValue(p, x);
      ContentsValue(s, x);
    }
  }

  // ----- histories

  datatype Op<V> = PutOp(key: Key, data: V) | GetOp(key: Key) | RemoveOp(key: Key)

  datatype Reply<V> = Reply(status: Status, value: Option<V>)

  /** The mathematical map after a history. */
  function MapAfter<V>(ops: seq<Op<V>>): map<Key, V> {
    if ops == [] then map[]
    else
      var m := MapAfter(ops[..|ops| - 1]);
      match ops[|ops| - 1]
      case PutOp(k, v) => m[k := v]
      case GetOp(_) => m
      case RemoveOp(k) => m - {k}
  }

  /** The replies of the mathematical map. */
  function Replies<V>(ops: seq<Op<V>>): (r: seq<Reply<V>>)
    ensures |r| == |ops|
  {
    if ops == [] then []
    else
      var before, last := ops[..|ops| - 1], ops[|ops| - 1];
      var m := MapAfter(before);
      Replies(before) + [
        if last.PutOp? then Reply(MapOk, None)
        else if last.key !in m then Reply(MapMissing, None)
        else Reply(MapOk, if last.GetOp? then Some(m[last.key]) else None)]
  }

  /** Has a stored key been removed? */
  predicate Removed<V>(ops: seq<Op<V>>) {
    ops != [] &&
    var before, last := ops[..|ops| - 1], ops[|ops| - 1];
    Removed(before) || (last.RemoveOp? && last.key in MapAfter(before))
  }

  /** No stored key is put again after a removal. */
  predicate Allowed<V>(ops: seq<Op<V>>) {
    ops == [] ||
    var before, last := ops[..|ops| - 1], ops[|ops| - 1];
    Allowed(before) && (last.PutOp? && last.key in MapAfter(before) ==> !Removed(before))
  }

  lemma {:induction false} AllowedPrefix<V>(ops: seq<Op<V>>, i: nat)
    requires Allowed(ops) && i <= |ops|
    ensures Allowed(ops[..i])
    ensures |Replies(ops[..i])| == i && Replies(ops[..i]) <= Replies(ops)
  {
    if i == |ops| {
      assert ops[..i] == ops;
    } else {
      AllowedPrefix(ops[..|ops| - 1], i);
      assert ops[..|ops| - 1][..i] == ops[..i];
    }
  }

  /** A put of an absent key or into a table without holes is never misplaced. */
  lemma PutIsPlaced<V>(hash: Key -> nat, s: seq<Slot<V>>, k: Key)
    requires |s| >= MAX_CHAIN_LENGTH && (Packed(hash, s) || k !in Contents(s))
    ensures !Shadowed(hash, s, k)
  {
    if k !in Contents(s) { ContentsKeys(s, k); }
  }

  /** Every allowed history agrees with the mathematical map, until memory runs out. */
  method Run<V(0)>(hash: Key -> nat, granted: nat -> bool, ops: seq<Op<V>>)
    returns (t: Table<V>, replies: seq<Reply<V>>, outOfMemory: bool)
    requires Allowed(ops)
    ensures t.Valid() && t.hash == hash
    ensures !outOfMemory ==> replies == Replies(ops) && t.Map() == MapAfter(ops)
    ensures outOfMemory ==> !t.CanDouble() && replies < Replies(ops)
    ensures outOfMemory ==> 2 * t.tableSize >= 0x8000_0000 || !t.granted(2 * t.tableSize)
    ensures outOfMemory ==> Within(t.Map(), MapAfter(ops[..|replies|]))
  {
    hide Packed, InChains, Occupied, Distinct, Contents, Shadowed, FirstStop, Within;
    t := new Table<V>(hash, granted);
    replies, outOfMemory := [], false;
    for i := 0 to |ops|
      invariant fresh(t) && fresh(t.data) && t.Valid() && t.hash == hash && !outOfMemory
      invariant replies == Replies(ops[..i]) && t.Map() == MapAfter(ops[..i])
      invariant !Removed(ops[..i]) ==> t.PackedTable()
    {
      AllowedPrefix(ops, i);
      AllowedPrefix(ops, i + 1);
      assert ops[..i + 1][..i] == ops[..i];
      match ops[i] {
        case PutOp(k, v) =>
          PutIsPlaced(hash, t.data[..], k);
          var status := t.Put(k, v);
          if status == MapOmem {
            outOfMemory := true;
            return;
          }
          replies := replies + [Reply(status, None)];
        case GetOp(k) =>
          var status, v := t.Get(k);
          replies := replies + [Reply(status, v)];
        case RemoveOp(k) =>
          var status := t.Remove(k);
          replies := replies + [Reply(status, None)];
      }
    }
    assert ops[..|ops|] == ops;
  }

  /**
   The history that is not allowed: two keys with the same hash, the first one removed, the
   second put again.  Its old value comes back after its removal.
   */
  method StaleValueReturns<V(0)>(hash: Key -> nat, granted: nat -> bool, a: Key, b: Key, u: V, v: V, w: V)
    returns (removed: Status, value: Option<V>)
    requires a != b && hash(a) % INITIAL_SIZE == hash(b) % INITIAL_SIZE
    ensures removed == MapOk && value == Some(v)
  {
    hide FirstStop, Contents, Packed, InChains, Occupied, Distinct, Shadowed;
    var t := PutTwo(hash, granted, a, b, u, v);
    ghost var h, h1 := Start(hash, a, INITIAL_SIZE), Probe(Start(hash, a, INITIAL_SIZE), 1, INITIAL_SIZE);
    SecondProbe(h);
    ghost var s := t.data[..];
    FirstStopIs(s, h, a, false, 0);
    StoredKey(s, h);
    var _ := t.Remove(a);
    s := s[h := Free];
    FirstStopIs(s, h, b, true, 0);
    var _ := t.Put(b, w);
    s := s[h := Used(b, w)];
    FirstStopIs(s, h, b, false, 0);
    StoredKey(s, h);
    removed := t.Remove(b);
    s := s[h := Free];
    FirstStopIs(s, h, b, false, 1);
    var _, x := t.Get(b);
    value := x;
  }

  lemma StoredKey<V>(s: seq<Slot<V>>, i: nat)
    requires i < |s| && s[i].Used?
    ensures s[i].key in Contents(s)
  {
    ContentsKeys(s, s[i].key);
  }

  lemma SecondProbe(h: nat)
    requires h < INITIAL_SIZE
    ensures Probe(h, 0, INITIAL_SIZE) == h && Probe(h, 1, INITIAL_SIZE) != h
  {
  }

  /** A table with two keys of one hash. */
  method PutTwo<V(0)>(hash: Key -> nat, granted: nat -> bool, a: Key, b: Key, u: V, v: V) returns (t: Table<V>)
    requires a != b && hash(a) % INITIAL_SIZE == hash(b) % INITIAL_SIZE
    ensures fresh(t) && fresh(t.data) && t.Valid() && t.hash == hash && t.tableSize == INITIAL_SIZE && t.size == 2
    ensures var h := Start(hash, a, INITIAL_SIZE);
            && Start(hash, b, INITIAL_SIZE) == h
            && t.data[h] == Used(a, u) && t.data[Probe(h, 1, INITIAL_SIZE)] == Used(b, v)
  {
    hide FirstStop, Contents, Packed, InChains, Occupied, Distinct, Shadowed;
    t := new Table<V>(hash, granted);
    ghost var h := Start(hash, a, INITIAL_SIZE);
    SecondProbe(h);
    FirstStopIs(t.data[..], h, a, true, 0);
    t.NotMisplaced(a);
    var _ := t.Put(a, u);
    FirstStopIs(t.data[..], h, b, true, 1);
    t.NotMisplaced(b);
    var _ := t.Put(b, v);
  }

  lemma FirstStopIs<V>(s: seq<Slot<V>>, start: nat, k: Key, takeFree: bool, r: nat)
    requires start < |s| && |s| >= MAX_CHAIN_LENGTH && r <= 1
    requires r == 1 ==> !IsKey(s[start], k) && (takeFree ==> s[start].Used?)
    requires IsKey(s[Probe(start, r, |s|)], k) || (takeFree && s[Probe(start, r, |s|)].Free?)
    ensures FirstStop(s, start, k, takeFree, 0) == r
  {
    assert Probe(start, 0, |s|) == start;
  }

  // ----- a history that loses an entry

  /** The key of length `i`, by which the hash below tells keys apart. */
  function Name(i: nat): (k: Key)
    ensures |k| == i
  {
    seq(i, _ => 'a')
  }

  /** Eight keys start at slot 248, the next seven at 255, and one more at 248. */
  function HashOf(k: Key): nat { if 8 <= |k| < 15 then 255 else 248 }

  predicate UpTo512(n: nat) { n <= 512 }

  /** Slot `x` of the table of 256 slots after the first `i` keys were put in order. */
  function Cell<V>(x: nat, i: nat, d: V): Slot<V> {
    if x >= 248 && x - 248 < 8 && x - 248 < i then Used(Name(x - 248), d)
    else if x < 7 && 8 + x < i then Used(Name(8 + x), d)
    else Free
  }

  ghost predicate Filled<V>(s: seq<Slot<V>>, i: nat, d: V) {
    |s| == 256 && forall x :: 0 <= x < 256 ==> s[x] == Cell(x, i, d)
  }

  /** Slot `x` of the table of 512 slots when the keys at 255 and `b` of those at 248 were put again. */
  function NewCell<V>(x: nat, a: nat, b: nat, d: V): Slot<V> {
    if 248 <= x < 255 && x - 248 < b then Used(Name(x - 248), d)
    else if 255 <= x < 262 && x - 255 < a then Used(Name(8 + (x - 255)), d)
    else Free
  }

  ghost predicate Refill<V>(t: Image<V>, a: nat, b: nat, d: V) {
    |t.slots| == 512 && t.size == a + b && forall x :: 0 <= x < 512 ==> t.slots[x] == NewCell(x, a, b, d)
  }

  /** A scan for a key that is not there ends at the first free slot. */
  lemma StopsAt<V>(s: seq<Slot<V>>, start: nat, k: Key, r: nat)
    requires start < |s| && |s| >= MAX_CHAIN_LENGTH && r <= MAX_CHAIN_LENGTH
    requires forall x :: 0 <= x < r ==> s[Probe(start, x, |s|)].Used? && s[Probe(start, x, |s|)].key != k
    requires r < MAX_CHAIN_LENGTH ==> s[Probe(start, r, |s|)].Free?
    ensures FirstStop(s, start, k, true, 0) == r
  {
  }

  lemma NextKeyGoes<V>(t: Image<V>, i: nat, d: V)
    requires Filled(t.slots, i, d) && i < 15 && t.size == i
    ensures IndexIn(HashOf, t, Name(i)) == Some(if i < 8 then 248 + i else i - 8)
    ensures Filled(t.slots[if i < 8 then 248 + i else i - 8 := Used(Name(i), d)], i + 1, d)
  {
    StopsAt(t.slots, HashOf(Name(i)), Name(i), if i < 8 then i else i - 7);
  }

  lemma RefillTakes<V>(curr: seq<Slot<V>>, i: nat, t: Image<V>, p: nat)
    requires Sized(t) && i < |curr| && curr[i].Used? && IndexIn(HashOf, t, curr[i].key) == Some(p)
    ensures Refilled(HashOf, UpTo512, curr, i, t)
         == Refilled(HashOf, UpTo512, curr, i + 1, Image(t.slots[p := Used(curr[i].key, curr[i].data)], t.size + 1))
  {
  }

  lemma FrontKeyGoes<V>(t: Image<V>, i: nat, d: V)
    requires Refill(t, i, 0, d) && i < 7
    ensures IndexIn(HashOf, t, Name(8 + i)) == Some(255 + i)
    ensures Refill(Image(t.slots[255 + i := Used(Name(8 + i), d)], t.size + 1), i + 1, 0, d)
  {
    hide IndexIn, Name;
    FrontIndex(t, i, d);
    FrontCells(i, d);
  }

  lemma FrontCells<V>(i: nat, d: V)
    requires i < 7
    ensures forall x :: 0 <= x < 512 ==> NewCell(x, i + 1, 0, d) == if x == 255 + i then Used(Name(8 + i), d) else NewCell(x, i, 0, d)
  {
    forall x | 0 <= x < 512
      ensures NewCell(x, i + 1, 0, d) == if x == 255 + i then Used(Name(8 + i), d) else NewCell(x, i, 0, d)
    {
      if x == 255 + i { assert x - 255 == i; }
    }
  }

  lemma FrontIndex<V>(t: Image<V>, i: nat, d: V)
    requires Refill(t, i, 0, d) && i < 7
    ensures IndexIn(HashOf, t, Name(8 + i)) == Some(255 + i)
  {
    hide Name, FirstStop;
    forall x | 0 <= x < i
      ensures t.slots[Probe(255, x, 512)].Used? && t.slots[Probe(255, x, 512)].key != Name(8 + i)
    {
      assert t.slots[255 + x] == NewCell(255 + x, i, 0, d);
    }
    assert t.slots[255 + i] == NewCell(255 + i, i, 0, d);
    StopsAt(t.slots, 255, Name(8 + i), i);
  }

  lemma LateKeyGoes<V>(t: Image<V>, i: nat, d: V)
    requires Refill(t, 7, i, d) && i < 7
    ensures IndexIn(HashOf, t, Name(i)) == Some(248 + i)
    ensures Refill(Image(t.slots[248 + i := Used(Name(i), d)], t.size + 1), 7, i + 1, d)
  {
    hide IndexIn, Name;
    LateIndex(t, i, d);
    LateCells(i, d);
  }

  lemma LateCells<V>(i: nat, d: V)
    requires i < 7
    ensures forall x :: 0 <= x < 512 ==> NewCell(x, 7, i + 1, d) == if x == 248 + i then Used(Name(i), d) else NewCell(x, 7, i, d)
  {
    forall x | 0 <= x < 512
      ensures NewCell(x, 7, i + 1, d) == if x == 248 + i then Used(Name(i), d) else NewCell(x, 7, i, d)
    {
      if x == 248 + i { assert x - 248 == i; }
    }
  }

  lemma LateIndex<V>(t: Image<V>, i: nat, d: V)
    requires Refill(t, 7, i, d) && i < 7
    ensures IndexIn(HashOf, t, Name(i)) == Some(248 + i)
  {
    hide Name, FirstStop;
    forall x | 0 <= x < i
      ensures t.slots[Probe(248, x, 512)].Used? && t.slots[Probe(248, x, 512)].key != Name(i)
    {
      assert t.slots[248 + x] == NewCell(248 + x, 7, i, d);
    }
    assert t.slots[248 + i] == NewCell(248 + i, 7, i, d);
    StopsAt(t.slots, 248, Name(i), i);
  }

  lemma LastKeyFails<V>(t: Image<V>, d: V)
    requires Refill(t, 7, 7, d)
    ensures AfterPut(HashOf, UpTo512, t, Name(7), d).status == MapOmem
  {
    StopsAt(t.slots, 248, Name(7), 8);
  }

  /** In the larger table the keys from the front of the old one come first, and take the last place of the eighth key at 248. */
  lemma {:induction false} RefillFails<V>(curr: seq<Slot<V>>, i: nat, t: Image<V>, d: V)
    requires Filled(curr, 15, d) && i <= 255
    requires Refill(t, if i < 7 then i else 7, if i < 248 then 0 else i - 248, d)
    ensures Refilled(HashOf, UpTo512, curr, i, t).status == MapOmem
    decreases 255 - i
  {
    hide FirstStop, IndexIn, AfterPut, Refill, Name;
    assert curr[i] == Cell(i, 15, d) && Sized(t) by { RefillIsSized(t, if i < 7 then i else 7, if i < 248 then 0 else i - 248, d); }
    if i < 7 {
      FrontKeyGoes(t, i, d);
      RefillTakes(curr, i, t, 255 + i);
      RefillFails(curr, i + 1, Image(t.slots[255 + i := Used(Name(8 + i), d)], t.size + 1), d);
    } else if i < 248 {
      RefillFails(curr, i + 1, t, d);
    } else if i < 255 {
      LateKeyGoes(t, i - 248, d);
      RefillTakes(curr, i, t, i);
      RefillFails(curr, i + 1, Image(t.slots[i := Used(Name(i - 248), d)], t.size + 1), d);
    } else {
      LastKeyFails(t, d);
    }
  }

  lemma RefillIsSized<V>(t: Image<V>, a: nat, b: nat, d: V)
    requires Refill(t, a, b, d)
    ensures Sized(t)
  {
  }

  lemma SixteenthPutFails<V>(t: Image<V>, d: V)
    requires Filled(t.slots, 15, d) && t.size == 15
    ensures AfterPut(HashOf, UpTo512, t, Name(15), d).status == MapOmem
    ensures !RefusedAtOnce(HashOf, UpTo512, t, Name(15))
  {
    assert IndexIn(HashOf, t, Name(15)) == None by { StopsAt(t.slots, 248, Name(15), 8); }
    var blank := Image(BlankSlots(512), 0);
    assert Refill(blank, 0, 0, d);
    hide FirstStop, IndexIn, Refilled, Refill, Filled;
    RefillFails(t.slots, 0, blank, d);
  }

  /** Sixteen puts with an allocator that grants 512 slots but not 1024: the last one is refused, and an entry is gone. */
  method EntryIsLost<V(0)>(d: V) returns (t: Table<V>, ghost before: map<Key, V>, status: Status)
    ensures t.Valid() && status == MapOmem && Within(t.Map(), before) && t.Map() != before
    ensures forall i :: 0 <= i < 15 ==> Name(i) in before
  {
    hide FirstStop, Packed, InChains, Occupied, Distinct, Contents, Shadowed, Within, AfterPut, RefusedAtOnce, Cell;
    t := new Table<V>(HashOf, UpTo512);
    BlankIsFilled(t.data[..], d);
    for i := 0 to 15
      invariant fresh(t) && fresh(t.data) && t.Valid() && t.PackedTable() && t.hash == HashOf && t.granted == UpTo512
      invariant Filled(t.data[..], i, d) && t.size == i
      invariant forall j :: 0 <= j < i ==> Name(j) in t.Map()
    {
      NextKeyGoes(t.Now(), i, d);
      t.NotMisplaced(Name(i));
      status := t.Put(Name(i), d);
    }
    before := t.Map();
    SixteenthPutFails(t.Now(), d);
    status := t.Put(Name(15), d);
  }

  lemma BlankIsFilled<V>(s: seq<Slot<V>>, d: V)
    requires |s| == 256 && forall i :: 0 <= i < |s| ==> s[i].Free?
    ensures Filled(s, 0, d)
  {
  }
}
