/**
 Bounded lists of ids sorted by XOR distance to a target: the order that search candidate
 lists and closest-node replies keep.  The list after any offers is characterised without
 reference to the order in which the ids were offered.
 */
module NearestIds {
  import opened NodeIds

  /** Strictly increasing distance, hence no duplicates. */
  predicate Sorted(ids: seq<Id>, t: Id) {
    forall i, j :: 0 <= i < j < |ids| ==> Distance(ids[i], t) < Distance(ids[j], t)
  }

  /** Where the scan for `id` stops: at `id` itself or at the first id farther away. */
  function Position(ids: seq<Id>, id: Id, t: Id): (p: nat)
    ensures p <= |ids|
    ensures forall k :: 0 <= k < p ==> ids[k] != id && Distance(ids[k], t) <= Distance(id, t)
    ensures p < |ids| ==> ids[p] == id || Distance(id, t) < Distance(ids[p], t)
  {
    if ids == [] || ids[0] == id || Distance(id, t) < Distance(ids[0], t) then 0
    else 1 + Position(ids[1..], id, t)
  }

  /** `x` put at place `i`, keeping at most `cap` elements. */
  function Spliced<T>(list: seq<T>, i: nat, x: T, cap: nat): (r: seq<T>)
    requires i <= |list|
    ensures |r| == if |list| < cap then |list| + 1 else cap
  {
    var all := list[..i] + [x] + list[i..];
    if |list| < cap then all else all[..cap]
  }

  lemma SplicedAt<T>(list: seq<T>, p: nat, x: T, cap: nat)
    requires p <= |list| <= cap && p < cap
    ensures var r := Spliced(list, p, x, cap);
            && (forall k :: 0 <= k < p ==> r[k] == list[k])
            && r[p] == x
            && (forall k :: p < k < |r| ==> r[k] == list[k - 1])
  {
  }

  predicate Found(ids: seq<Id>, id: Id, t: Id) {
    Position(ids, id, t) < |ids| && ids[Position(ids, id, t)] == id
  }

  /** One offer, as `insert_search_node` and `insert_closest_node` treat it. */
  function Insert(ids: seq<Id>, id: Id, t: Id, cap: nat): seq<Id> {
    var p := Position(ids, id, t);
    if Found(ids, id, t) || p == cap then ids else Spliced(ids, p, id, cap)
  }

  /** `ids` are the `cap` nearest of `offered`, nearest first. */
  ghost predicate NearestOf(ids: seq<Id>, offered: set<Id>, t: Id, cap: nat) {
    && Sorted(ids, t)
    && |ids| <= cap
    && (forall x :: x in ids ==> x in offered)
    && (forall x :: x in offered && x !in ids ==>
          |ids| == cap && forall k :: 0 <= k < |ids| ==> Distance(ids[k], t) < Distance(x, t))
  }

  /** Before its position every id is nearer, from it on every other id is farther. */
  lemma PositionSplits(ids: seq<Id>, id: Id, t: Id)
    requires Sorted(ids, t)
    ensures var p := Position(ids, id, t);
            && (forall k :: 0 <= k < p ==> Distance(ids[k], t) < Distance(id, t))
            && (!Found(ids, id, t) ==> id !in ids && forall k :: p <= k < |ids| ==> Distance(id, t) < Distance(ids[k], t))
  {
    var p := Position(ids, id, t);
    forall k | 0 <= k < p
      ensures Distance(ids[k], t) < Distance(id, t)
    {
      if Distance(ids[k], t) == Distance(id, t) { DistanceInjective(ids[k], id, t); }
    }
  }

  lemma SplicedElements(ids: seq<Id>, p: nat, id: Id, cap: nat)
    requires p <= |ids| <= cap && p < cap
    ensures var r := Spliced(ids, p, id, cap);
            && (forall k :: 0 <= k < p ==> r[k] == ids[k])
            && r[p] == id
            && (forall k :: p < k < |r| ==> r[k] == ids[k - 1])
            && (forall x :: x in r ==> x == id || x in ids)
            && (forall x :: x in ids ==> x in r || (|ids| == cap && x == ids[cap - 1]))
  {
    var r := Spliced(ids, p, id, cap);
    forall x | x in ids
      ensures x in r || (|ids| == cap && x == ids[cap - 1])
    {
      var k :| 0 <= k < |ids| && ids[k] == x;
      if k < p { assert r[k] == x; } else if k + 1 < |r| { assert r[k + 1] == x; }
    }
  }

  lemma InsertKeepsSorted(ids: seq<Id>, id: Id, t: Id, cap: nat)
    requires Sorted(ids, t) && |ids| <= cap
    ensures Sorted(Insert(ids, id, t, cap), t) && |Insert(ids, id, t, cap)| <= cap
  {
    var p := Position(ids, id, t);
    PositionSplits(ids, id, t);
    if !Found(ids, id, t) && p != cap { SplicedElements(ids, p, id, cap); }
  }

  /** Offering one more id to the nearest of `offered` gives the nearest of both. */
  lemma InsertKeepsNearest(ids: seq<Id>, offered: set<Id>, id: Id, t: Id, cap: nat)
    requires NearestOf(ids, offered, t, cap)
    ensures NearestOf(Insert(ids, id, t, cap), offered + {id}, t, cap)
  {
    var p := Position(ids, id, t);
    var r := Insert(ids, id, t, cap);
    InsertKeepsSorted(ids, id, t, cap);
    PositionSplits(ids, id, t);
    if !Found(ids, id, t) && p != cap {
      SplicedElements(ids, p, id, cap);
      forall x | x in offered + {id} && x !in r
        ensures |r| == cap && forall k :: 0 <= k < |r| ==> Distance(r[k], t) < Distance(x, t)
      {
        assert r[p] == id && x != id;
        assert |ids| == cap && Distance(ids[cap - 1], t) <= Distance(x, t);
        forall k | 0 <= k < |r|
          ensures Distance(r[k], t) < Distance(x, t)
        {
          if k < p { assert r[k] == ids[k]; }
          else if k == p { assert Distance(id, t) < Distance(ids[p], t); }
          else { assert r[k] == ids[k - 1]; }
        }
      }
    }
  }

  function Offers(t: Id, cap: nat, offers: seq<Id>): seq<Id> {
    if offers == [] then [] else Insert(Offers(t, cap, offers[..|offers| - 1]), offers[|offers| - 1], t, cap)
  }

  /** After any offers, in any order and with any repetitions, the list is the `cap` nearest of them. */
  lemma {:induction false} OffersAreNearest(t: Id, cap: nat, offers: seq<Id>)
    ensures NearestOf(Offers(t, cap, offers), Elements(offers), t, cap)
  {
    hide NearestOf, Insert, Elements;
    if offers == [] {
      NothingOffered(t, cap);
    } else {
      var rest, last := offers[..|offers| - 1], offers[|offers| - 1];
      OffersAreNearest(t, cap, rest);
      InsertKeepsNearest(Offers(t, cap, rest), Elements(rest), last, t, cap);
      assert offers == rest + [last];
      ElementsAppend(rest, last);
    }
  }

  lemma NothingOffered(t: Id, cap: nat)
    ensures NearestOf([], Elements([]), t, cap)
  {
  }

  lemma ElementsAppend(s: seq<Id>, x: Id)
    ensures Elements(s + [x]) == Elements(s) + {x}
  {
  }

  function Elements(ids: seq<Id>): set<Id> { set x | x in ids }

  /** The characterisation has one solution, so the order of the offers does not matter. */
  lemma {:induction false} NearestIsUnique(x: seq<Id>, y: seq<Id>, offered: set<Id>, t: Id, cap: nat)
    requires NearestOf(x, offered, t, cap) && NearestOf(y, offered, t, cap)
    ensures x == y
  {
    SameElements(x, y, offered, t, cap);
    SameElements(y, x, offered, t, cap);
    NoDuplicates(x, t);
    NoDuplicates(y, t);
    assert Elements(x) == Elements(y);
    SortedSameSet(x, y, t);
  }

  lemma SameElements(x: seq<Id>, y: seq<Id>, offered: set<Id>, t: Id, cap: nat)
    requires NearestOf(x, offered, t, cap) && NearestOf(y, offered, t, cap)
    ensures forall e :: e in x ==> e in y
  {
    forall e | e in x
      ensures e in y
    {
      if e !in y {
        assert |y| == cap && forall k :: 0 <= k < |y| ==> Distance(y[k], t) < Distance(e, t);
        // every element of y is nearer than e, hence in x before e: too many for x
        var i :| 0 <= i < |x| && x[i] == e;
        assert Distance(x[i], t) == Distance(e, t);
        assert forall d :: d in y ==> d in x;
        Crowded(x, y, e, t);
        assert false;
      }
    }
  }

  lemma {:induction false} NoDuplicates(s: seq<Id>, t: Id)
    requires Sorted(s, t)
    ensures |Elements(s)| == |s|
  {
    if s != [] {
      hide Distance;
      var rest, last := s[..|s| - 1], s[|s| - 1];
      NoDuplicates(rest, t);
      assert s == rest + [last];
      ElementsAppend(rest, last);
      assert last !in rest by {
        forall k | 0 <= k < |rest|
          ensures rest[k] != last
        {
          assert Distance(s[k], t) < Distance(s[|s| - 1], t);
        }
      }
    }
  }

  lemma Crowded(x: seq<Id>, y: seq<Id>, e: Id, t: Id)
    requires Sorted(x, t) && Sorted(y, t) && e in x && e !in y && forall d :: d in y ==> d in x
    ensures |y| < |x|
  {
    NoDuplicates(x, t);
    NoDuplicates(y, t);
    assert Elements(y) <= Elements(x) - {e};
    Subset(Elements(y), Elements(x) - {e});
  }

  lemma Subset(a: set<Id>, b: set<Id>)
    requires a <= b
    ensures |a| <= |b|
  {
    assert b == a + (b - a);
  }

  predicate Within(x: seq<Id>, y: seq<Id>) { forall e :: e in x ==> e in y }

  lemma {:induction false} SortedSameSet(x: seq<Id>, y: seq<Id>, t: Id)
    requires Sorted(x, t) && Sorted(y, t) && |x| == |y| && Within(x, y) && Within(y, x)
    ensures x == y
    decreases |x|
  {
    if x != [] {
      hide Sorted, Within, Distance;
      SameFirst(x, y, t);
      TailElements(x, y, t);
      TailElements(y, x, t);
      SortedSameSet(x[1..], y[1..], t);
      assert x == [x[0]] + x[1..] && y == [y[0]] + y[1..];
    }
  }

  lemma SameFirst(x: seq<Id>, y: seq<Id>, t: Id)
    requires Sorted(x, t) && Sorted(y, t) && x != [] && y != [] && Within(x, y) && Within(y, x)
    ensures x[0] == y[0]
  {
    hide Distance;
    assert x[0] in y && y[0] in x;
    var i :| 0 <= i < |y| && y[i] == x[0];
    var j :| 0 <= j < |x| && x[j] == y[0];
    assert Distance(y[0], t) <= Distance(y[i], t) && Distance(x[0], t) <= Distance(x[j], t);
  }

  lemma TailElements(x: seq<Id>, y: seq<Id>, t: Id)
    requires Sorted(x, t) && x != [] && y != [] && x[0] == y[0] && Within(x, y)
    ensures Sorted(x[1..], t) && Within(x[1..], y[1..])
  {
    hide Distance;
    forall e | e in x[1..]
      ensures e in y[1..]
    {
      var k :| 0 <= k < |x[1..]| && x[1..][k] == e;
      assert Distance(x[0], t) < Distance(x[k + 1], t);
      assert e in x && e in y && e != y[0];
    }
  }

  /** Removing an entry keeps the order. */
  lemma RemovalKeepsSorted(ids: seq<Id>, i: nat, t: Id)
    requires Sorted(ids, t) && i < |ids|
    ensures Sorted(ids[..i] + ids[i + 1..], t)
    ensures ids[i] !in ids[..i] + ids[i + 1..]
  {
  }
}
