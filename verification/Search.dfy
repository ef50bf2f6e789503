/**
 A search of routing/dht.c: its bounded candidate list, kept sorted in an array by in-place
 shifts, and the steps that send requests until the search is done.  Sending a packet is
 left out; the counters and times that a request changes are kept.
 */
module Search {
  import opened Options
  import opened Numbers
  import opened NodeIds
  import opened NearestIds
  import RT = RoutingTable

  const SEARCH_NODES := 14

  datatype SearchNode = SearchNode(
    id: Id, addr: RT.Address, requestTime: int, replyTime: int, pinged: int,
    token: seq<Byte>, replied: bool, acked: bool)

  function IdsOf(list: seq<SearchNode>): (ids: seq<Id>)
    ensures |ids| == |list| && forall k :: 0 <= k < |ids| ==> ids[k] == list[k].id
  {
    seq(|list|, k requires 0 <= k < |list| => list[k].id)
  }

  /** A candidate about which nothing is known yet. */
  function Blank(id: Id, addr: RT.Address): SearchNode {
    SearchNode(id, addr, 0, 0, 0, [], false, false)
  }

  /** What `insert_search_node` records in an entry, new or old; tokens of 40 bytes or more are dropped. */
  function Touched(n: SearchNode, addr: RT.Address, replied: bool, token: Option<seq<Byte>>, now: int): SearchNode {
    var n := n.(addr := addr);
    var n := if replied then n.(replied := true, replyTime := now, requestTime := 0, pinged := 0) else n;
    if token.Some? && |token.value| < 40 then n.(token := token.value) else n
  }

  /** The list after an offer that is accepted: the entry of `id`, spliced in if it is new. */
  function WithEntry(list: seq<SearchNode>, id: Id, addr: RT.Address, t: Id): seq<SearchNode> {
    if Found(IdsOf(list), id, t) then list
    else Spliced(list, Position(IdsOf(list), id, t), Blank(id, addr), SEARCH_NODES)
  }

  lemma IdsOfSpliced(list: seq<SearchNode>, p: nat, x: SearchNode, cap: nat)
    requires p <= |list| <= cap && p < cap
    ensures IdsOf(Spliced(list, p, x, cap)) == Spliced(IdsOf(list), p, x.id, cap)
  {
    SplicedAt(list, p, x, cap);
    SplicedAt(IdsOf(list), p, x.id, cap);
  }

  /** The ids of the list after an offer are those of the offer to the id list. */
  lemma WithEntryIds(list: seq<SearchNode>, id: Id, addr: RT.Address, t: Id)
    requires |list| <= SEARCH_NODES
    requires Found(IdsOf(list), id, t) || Position(IdsOf(list), id, t) < SEARCH_NODES
    ensures IdsOf(WithEntry(list, id, addr, t)) == Insert(IdsOf(list), id, t, SEARCH_NODES)
    ensures var p := Position(IdsOf(list), id, t);
            p < |WithEntry(list, id, addr, t)| && WithEntry(list, id, addr, t)[p].id == id
  {
    if !Found(IdsOf(list), id, t) {
      var p := Position(IdsOf(list), id, t);
      IdsOfSpliced(list, p, Blank(id, addr), SEARCH_NODES);
      SplicedAt(list, p, Blank(id, addr), SEARCH_NODES);
    }
  }

  lemma PositionIs(ids: seq<Id>, id: Id, t: Id, i: nat)
    requires i <= |ids| && forall k :: 0 <= k < i ==> ids[k] != id && Distance(ids[k], t) <= Distance(id, t)
    requires i < |ids| ==> ids[i] == id || Distance(id, t) < Distance(ids[i], t)
    ensures Position(ids, id, t) == i
  {
  }

  lemma FullOfNearer(ids: seq<Id>, id: Id, t: Id)
    requires !Found(ids, id, t) && Position(ids, id, t) == SEARCH_NODES
    ensures Insert(ids, id, t, SEARCH_NODES) == ids
  {
  }

  /** All entries but those of `id`, in order. */
  function Without(list: seq<SearchNode>, id: Id): seq<SearchNode> {
    if list == [] then []
    else if list[0].id == id then Without(list[1..], id)
    else [list[0]] + Without(list[1..], id)
  }

  lemma {:induction false} WithoutAbsent(list: seq<SearchNode>, id: Id)
    requires forall n: SearchNode :: n in list ==> n.id != id
    ensures Without(list, id) == list
  {
    if list != [] { WithoutAbsent(list[1..], id); }
  }

  lemma {:induction false} WithoutConcat(x: seq<SearchNode>, y: seq<SearchNode>, id: Id)
    ensures Without(x + y, id) == Without(x, id) + Without(y, id)
  {
    if x == [] {
      assert x + y == y;
    } else {
      assert (x + y)[1..] == x[1..] + y && (x + y)[0] == x[0];
      WithoutConcat(x[1..], y, id);
    }
  }

  /** In a list without duplicates one removal removes every copy. */
  lemma RemovedOnce(list: seq<SearchNode>, i: nat, t: Id)
    requires i < |list| && Sorted(IdsOf(list), t)
    ensures Without(list, list[i].id) == list[..i] + list[i + 1..]
  {
    hide Distance, Without;
    var id, x, y := list[i].id, list[..i], list[i + 1..];
    OtherIdsDiffer(list, i, t);
    CutOut(list, i);
    WithoutConcat(x, [list[i]] + y, id);
    WithoutAbsent(x, id);
    WithoutAbsent(y, id);
    WithoutFirst(list[i], y);
  }

  lemma CutOut<T>(s: seq<T>, i: nat)
    requires i < |s|
    ensures s == s[..i] + ([s[i]] + s[i + 1..])
  {
  }

  lemma OtherIdsDiffer(list: seq<SearchNode>, i: nat, t: Id)
    requires i < |list| && Sorted(IdsOf(list), t)
    ensures forall k :: 0 <= k < |list| && k != i ==> list[k].id != list[i].id
  {
    hide Distance;
    forall k | 0 <= k < |list| && k != i
      ensures list[k].id != list[i].id
    {
      var ids := IdsOf(list);
      assert ids[k] == list[k].id && ids[i] == list[i].id;
      if k < i { assert Distance(ids[k], t) < Distance(ids[i], t); } else { assert Distance(ids[i], t) < Distance(ids[k], t); }
    }
  }

  lemma IdsOfRemoved(list: seq<SearchNode>, i: nat)
    requires i < |list|
    ensures IdsOf(list[..i] + list[i + 1..]) == IdsOf(list)[..i] + IdsOf(list)[i + 1..]
  {
    var r := list[..i] + list[i + 1..];
    forall k | 0 <= k < |r|
      ensures IdsOf(r)[k] == (IdsOf(list)[..i] + IdsOf(list)[i + 1..])[k]
    {
      assert r[k] == list[if k < i then k else k + 1];
    }
  }

  lemma WithoutFirst(n: SearchNode, rest: seq<SearchNode>)
    ensures Without([n] + rest, n.id) == Without(rest, n.id)
  {
    assert ([n] + rest)[1..] == rest;
  }

  lemma TouchKeeps(n: SearchNode, addr: RT.Address, replied: bool, token: Option<seq<Byte>>, now: int)
    ensures var m := Touched(n, addr, replied, token, now);
            m.id == n.id && m.addr == addr && (m.pinged == n.pinged || m.pinged == 0)
  {
  }

  /** Splicing in a blank entry keeps every ping counter in range. */
  lemma PingsStay(list: seq<SearchNode>, id: Id, addr: RT.Address, t: Id)
    requires |list| <= SEARCH_NODES && forall k :: 0 <= k < |list| ==> 0 <= list[k].pinged <= 3
    requires Found(IdsOf(list), id, t) || Position(IdsOf(list), id, t) < SEARCH_NODES
    ensures forall k :: 0 <= k < |WithEntry(list, id, addr, t)| ==> 0 <= WithEntry(list, id, addr, t)[k].pinged <= 3
  {
    if !Found(IdsOf(list), id, t) {
      SplicedAt(list, Position(IdsOf(list), id, t), Blank(id, addr), SEARCH_NODES);
    }
  }

  class SearchState {
    const id: Id                    // what is searched for
    const family: RT.Family
    const nodes: array<SearchNode>
    var numnodes: nat
    var port: nat                   // 0 for pure searches
    var done: bool
    var stepTime: int

    ghost predicate Valid()
      reads this, nodes
    {
      && nodes.Length == SEARCH_NODES && numnodes <= SEARCH_NODES
      && Sorted(IdsOf(nodes[..numnodes]), id)
      && forall k :: 0 <= k < numnodes ==> 0 <= nodes[k].pinged <= 3
    }

    ghost function Now(): Progress
      requires numnodes <= nodes.Length
      reads this, nodes
    {
      Progress(List(), stepTime, done)
    }

    ghost function List(): seq<SearchNode>
      requires numnodes <= nodes.Length
      reads this, nodes
    {
      nodes[..numnodes]
    }

    constructor (target: Id, af: RT.Family, p: nat)
      ensures Valid() && Now() == Progress([], 0, false) && id == target && family == af && port == p && fresh(nodes)
    {
      id, family, port := target, af, p;
      nodes := new SearchNode[SEARCH_NODES](_ => Blank(target, RT.Address(af, [], 0)));
      numnodes, done, stepTime := 0, false, 0;
    }

    /** `insert_search_node`. */
    method InsertSearchNode(x: Id, addr: RT.Address, replied: bool, token: Option<seq<Byte>>, now: int) returns (ok: bool)
      requires Valid()
      modifies `numnodes, nodes
      ensures Valid()
      ensures ok <==> addr.family == family && (Found(IdsOf(old(List())), x, id) || Position(IdsOf(old(List())), x, id) < SEARCH_NODES)
      ensures List() == Offered(old(List()), x, addr, replied, token, id, family, now)
    {
      hide Insert, Position, Found, WithEntry, Sorted, Touched;
      if addr.family != family { return false; }
      var i;
      ok, i := PlaceEntry(x, addr);
      if ok { Touch(i, addr, replied, token, now); }
    }

    /** Find the entry of `x`, or make a blank one at its place. */
    method PlaceEntry(x: Id, addr: RT.Address) returns (ok: bool, i: nat)
      requires Valid()
      modifies `numnodes, nodes
      ensures Valid() && i == Position(IdsOf(old(List())), x, id)
      ensures ok <==> Found(IdsOf(old(List())), x, id) || i < SEARCH_NODES
      ensures ok ==> i < numnodes && List() == WithEntry(old(List()), x, addr, id)
      ensures !ok ==> List() == old(List())
      ensures IdsOf(List()) == Insert(IdsOf(old(List())), x, id, SEARCH_NODES)
    {
      hide Insert, Position, Distance, Spliced, Sorted;
      ghost var list := List();
      ghost var ids := IdsOf(list);
      var found;
      i, found := Scan(x);
      if !found && i == SEARCH_NODES {
        FullOfNearer(ids, x, id);
        return false, i;
      }
      WithEntryIds(list, x, addr, id);
      InsertKeepsSorted(ids, x, id, SEARCH_NODES);
      PingsStay(list, x, addr, id);
      if !found { MakeRoomAt(i, Blank(x, addr)); }
      assert List() == WithEntry(list, x, addr, id);
      ok := true;
    }

    /** The part of `insert_search_node` after the label `found`. */
    method Touch(i: nat, addr: RT.Address, replied: bool, token: Option<seq<Byte>>, now: int)
      requires Valid() && i < numnodes
      modifies nodes
      ensures Valid() && List() == old(List())[i := Touched(old(List())[i], addr, replied, token, now)]
      ensures IdsOf(List()) == IdsOf(old(List()))
    {
      hide Sorted, Touched;
      ghost var placed := List();
      TouchKeeps(nodes[i], addr, replied, token, now);
      nodes[i] := Touched(nodes[i], addr, replied, token, now);
      assert List() == placed[i := Touched(placed[i], addr, replied, token, now)];
      assert IdsOf(List()) == IdsOf(placed);
    }

    /** The first loop of `insert_search_node`. */
    method Scan(x: Id) returns (i: nat, found: bool)
      requires Valid()
      ensures i == Position(IdsOf(List()), x, id)
      ensures found <==> Found(IdsOf(List()), x, id)
    {
      ghost var ids := IdsOf(List());
      i, found := 0, false;
      while i < numnodes
        invariant 0 <= i <= numnodes
        invariant forall k :: 0 <= k < i ==> ids[k] != x && Distance(ids[k], id) <= Distance(x, id)
      {
        var c := IdCmp(x, nodes[i].id);
        if c == 0 {
          PositionIs(ids, x, id, i);
          return i, true;
        }
        var d := XorCmp(x, nodes[i].id, id);
        if d < 0 { break; }
        i := i + 1;
      }
      PositionIs(ids, x, id, i);
    }

    /** `insert_search_bucket`. */
    method InsertSearchBucket(b: RT.Bucket, now: int)
      requires Valid()
      modifies `numnodes, nodes
      ensures Valid() && List() == OfferedAll(old(List()), b.nodes, id, family, now)
    {
      hide Offered, Sorted;
      ghost var list := List();
      assert b.nodes[..0] == [];
      for k := 0 to |b.nodes|
        invariant Valid() && List() == OfferedAll(list, b.nodes[..k], id, family, now)
      {
        assert b.nodes[..k + 1][..k] == b.nodes[..k];
        var _ := InsertSearchNode(b.nodes[k].id, b.nodes[k].addr, false, None, now);
      }
      assert b.nodes[..|b.nodes|] == b.nodes;
    }

    /** Shift the entries from `i` on by one place, dropping the last of a full list, and put `n` there. */
    method MakeRoomAt(i: nat, n: SearchNode)
      requires nodes.Length == SEARCH_NODES && i <= numnodes <= SEARCH_NODES && i < SEARCH_NODES
      modifies `numnodes, nodes
      ensures numnodes <= SEARCH_NODES && List() == Spliced(old(List()), i, n, SEARCH_NODES)
    {
      ghost var list := List();
      if numnodes < SEARCH_NODES { numnodes := numnodes + 1; }
      var n' := numnodes;
      var j := n' - 1;
      while j > i
        invariant i <= j < n' == numnodes
        invariant forall k :: 0 <= k <= j && k < |list| ==> nodes[k] == list[k]
        invariant forall k :: j < k < n' ==> nodes[k] == list[k - 1]
      {
        nodes[j] := nodes[j - 1];
        j := j - 1;
      }
      nodes[i] := n;
      SplicedAt(list, i, n, SEARCH_NODES);
      assert List() == Spliced(list, i, n, SEARCH_NODES);
    }

    /** `flush_search_node`. */
    method FlushSearchNode(i: nat)
      requires Valid() && i < numnodes
      modifies `numnodes, nodes
      ensures Valid() && List() == old(List()[..i] + List()[i + 1..])
    {
      ghost var list := List();
      CloseGap(i);
      IdsOfRemoved(list, i);
      RemovalKeepsSorted(IdsOf(list), i, id);
      forall k | 0 <= k < numnodes
        ensures 0 <= nodes[k].pinged <= 3
      {
        assert List()[k] == list[if k < i then k else k + 1];
      }
    }

    method CloseGap(i: nat)
      requires nodes.Length == SEARCH_NODES && i < numnodes <= SEARCH_NODES
      modifies `numnodes, nodes
      ensures numnodes == old(numnodes) - 1 && List() == old(List()[..i] + List()[i + 1..])
    {
      ghost var list := List();
      var n := numnodes;
      var j := i;
      while j < n - 1
        invariant i <= j < n == numnodes == |list|
        invariant forall k :: i <= k < j ==> nodes[k] == list[k + 1]
        invariant forall k :: 0 <= k < n && !(i <= k < j) ==> nodes[k] == list[k]
      {
        nodes[j] := nodes[j + 1];
        j := j + 1;
      }
      numnodes := n - 1;
      assert List() == list[..i] + list[i + 1..];
    }

    /** The loop of `blacklist_node` over one search; the index advances even after a removal. */
    method Blacklist(x: Id)
      requires Valid()
      modifies `numnodes, nodes
      ensures Valid() && List() == Without(old(List()), x)
      ensures forall n :: n in List() ==> n.id != x
    {
      ghost var list := List();
      var i := 0;
      ghost var gone := false;
      while i < numnodes
        invariant 0 <= i && Valid() && (gone || i <= numnodes)
        invariant gone ==> List() == Without(list, x) && forall n :: n in List() ==> n.id != x
        invariant !gone ==> List() == list && forall k :: 0 <= k < i ==> nodes[k].id != x
        decreases numnodes - i
      {
        var c := IdCmp(nodes[i].id, x);
        if c == 0 {
          assert nodes[i] in List();
          RemovedOnce(list, i, id);
          WithoutIsFree(list, x);
          FlushSearchNode(i);
          gone := true;
        }
        i := i + 1;
      }
      if !gone { WithoutAbsent(list, x); }
    }

    /** `search_send_get_peers`: to entry `pick`, or to the last entry that can be asked. */
    method SendGetPeers(pick: Option<nat>, now: int) returns (sent: nat)
      requires Valid() && (pick.Some? ==> pick.value < numnodes)
      modifies nodes
      ensures Valid() && sent <= 1
      ensures pick.Some? ==> sent == (if CanAsk(old(List())[pick.value], now) then 1 else 0)
      ensures pick.Some? ==> List() == if sent == 1 then old(List())[pick.value := Asked(old(List())[pick.value], now)] else old(List())
      ensures pick.None? ==> (sent == 0 <==> forall n :: n in old(List()) ==> !CanAsk(n, now))
      ensures pick.None? && sent == 0 ==> List() == old(List())
      ensures pick.None? && sent == 1 ==> AskedLast(old(List()), List(), now)
    {
      hide Sorted, Asked, CanAsk;
      var n := pick;
      if n.None? {
        n := LastToAsk(now);
      }
      if n.None? || !CanAsk(nodes[n.value], now) { return 0; }
      ghost var list := List();
      AskAt(n.value, now);
      if pick.None? { AskedAt(list, n.value, now); }
      return 1;
    }

    method AskAt(n: nat, now: int)
      requires Valid() && n < numnodes && CanAsk(nodes[n], now)
      modifies nodes
      ensures Valid() && List() == old(List())[n := Asked(old(List())[n], now)]
    {
      hide Sorted;
      ghost var list := List();
      nodes[n] := Asked(nodes[n], now);
      assert List() == list[n := Asked(list[n], now)];
      assert IdsOf(List()) == IdsOf(list);
    }

    method LastToAsk(now: int) returns (n: Option<nat>)
      requires Valid()
      ensures n.Some? ==> n.value < numnodes && CanAsk(nodes[n.value], now)
                          && forall j :: n.value < j < numnodes ==> !CanAsk(nodes[j], now)
      ensures n.None? ==> forall m :: m in List() ==> !CanAsk(m, now)
    {
      n := None;
      for i := 0 to numnodes
        invariant n.Some? ==> n.value < i && CanAsk(nodes[n.value], now) && forall j :: n.value < j < i ==> !CanAsk(nodes[j], now)
        invariant n.None? ==> forall j :: 0 <= j < i ==> !CanAsk(nodes[j], now)
      {
        if CanAsk(nodes[i], now) { n := Some(i); }
      }
    }

    /** The first loop of `search_step`. */
    method CheckReplies() returns (allDone: bool)
      requires Valid()
      ensures allDone <==> AllHaveReplied(List())
    {
      hide Sorted, AllHaveReplied, FirstEightReplied;
      FirstEightRepliedMeans(List());
      assert List()[0..] == List();
      var i, j := 0, 0;
      while i < numnodes && j < 8
        invariant 0 <= i <= numnodes && 0 <= j <= 8
        invariant FirstEightReplied(List(), 0) <==> FirstEightReplied(List()[i..], j)
      {
        RepliedNext(List(), i, j);
        if nodes[i].pinged < 3 {
          if !nodes[i].replied { return false; }
          j := j + 1;
        }
        i := i + 1;
      }
      NoneLeft(List()[i..], j);
      return true;
    }

    /** The announce loop of `search_step`. */
    method Announce(now: int) returns (allAcked: bool)
      requires Valid()
      modifies nodes
      ensures Valid() && List() == Announced(old(List()), 0, now)
      ensures allAcked <==> AllHaveAcked(old(List()))
    {
      hide Announced, FirstEightAcked, Sorted, AllHaveAcked;
      ghost var list := List();
      FirstEightAckedMeans(list);
      allAcked := AnnounceLoop(now);
      AnnouncedKeeps(list, 0, now);
    }

    method AnnounceLoop(now: int) returns (allAcked: bool)
      requires numnodes <= nodes.Length
      modifies nodes
      ensures List() == Announced(old(List()), 0, now)
      ensures allAcked <==> FirstEightAcked(old(List()), 0)
    {
      hide Announced, FirstEightAcked, AnnounceTo;
      ghost var list := List();
      var i, j := 0, 0;
      allAcked := true;
      ghost var head := [];
      while i < numnodes && j < 8
        invariant 0 <= i <= numnodes && 0 <= j <= 8 && |head| == i
        invariant List() == head + list[i..]
        invariant Announced(list, 0, now) == head + Announced(list[i..], j, now)
        invariant FirstEightAcked(list, 0) <==> allAcked && FirstEightAcked(list[i..], j)
      {
        AnnounceNext(list, i, j, now);
        var live := nodes[i].pinged < 3;
        ghost var cur := List();
        assert cur[i] == list[i] == nodes[i];
        if live {
          var acked := AnnounceOne(i, now);
          if !acked { allAcked := false; }
        }
        ghost var x := if live then AnnounceTo(list[i], now) else list[i];
        ghost var j' := if live then j + 1 else j;
        assert List() == cur[i := x];
        Advance(head, list, i, x, Announced(list[i + 1..], j', now));
        head := head + [x];
        j := if live then j + 1 else j;
        i := i + 1;
      }
      AnnounceRest(list[i..], j, now);
    }

    /** One turn of the announce loop. */
    method AnnounceOne(i: nat, now: int) returns (acked: bool)
      requires i < numnodes <= nodes.Length
      modifies nodes
      ensures List() == old(List())[i := AnnounceTo(old(List())[i], now)]
      ensures acked <==> old(nodes[i]).acked || old(nodes[i]).token == []
    {
      ghost var list := List();
      if nodes[i].token == [] { nodes[i] := nodes[i].(acked := true); }
      acked := nodes[i].acked;
      if !acked { nodes[i] := Asked(nodes[i], now); }
      assert List() == list[i := AnnounceTo(list[i], now)];
    }

    /** The last loop of `search_step`: at most three requests. */
    method AskThree(now: int)
      requires Valid()
      modifies nodes
      ensures Valid() && List() == Requested(old(List()), 0, now)
    {
      hide Requested, CanAsk, Asked, Sorted, Asking;
      ghost var list := List();
      var i, j := 0, 0;
      ghost var head := [];
      AskingStarts(list, now);
      while i < numnodes && j < 3
        invariant 0 <= i <= numnodes == |list| && 0 <= j <= 3 && Valid()
        invariant Asking(list, List(), head, i, j, now)
      {
        var sent;
        sent, head := AskNext(i, j, now, head, list);
        j := j + sent;
        i := i + 1;
      }
      AskingEnds(list, List(), head, i, j, now);
    }

    method AskNext(i: nat, ghost j: nat, now: int, ghost head: seq<SearchNode>, ghost list: seq<SearchNode>)
      returns (sent: nat, ghost head': seq<SearchNode>)
      requires Valid() && i < numnodes == |list| && j < 3 && Asking(list, List(), head, i, j, now)
      modifies nodes
      ensures Valid() && sent <= 1 && Asking(list, List(), head', i + 1, j + sent, now)
    {
      hide Requested, CanAsk, Asked, Sorted;
      RequestNext(list, i, j, now);
      sent := AskEntry(i, now, head, list);
      ghost var x := if sent == 1 then Asked(list[i], now) else list[i];
      Advance(head, list, i, x, Requested(list[i + 1..], j + sent, now));
      head' := head + [x];
    }

    /** One turn of that loop: entry `i`, with `head` before it already treated. */
    method AskEntry(i: nat, now: int, ghost head: seq<SearchNode>, ghost list: seq<SearchNode>) returns (sent: nat)
      requires Valid() && |head| == i < numnodes && |list| == numnodes && List() == head + list[i..]
      modifies nodes
      ensures Valid() && sent == if CanAsk(list[i], now) then 1 else 0
      ensures List() == (head + list[i..])[i := if sent == 1 then Asked(list[i], now) else list[i]]
    {
      hide CanAsk, Asked, Sorted;
      sent := SendGetPeers(Some(i), now);
    }

    /** `search_step`. */
    method Step(now: int)
      requires Valid()
      modifies `done, `stepTime, nodes
      ensures Valid()
      ensures Now() == Stepped(old(Now()), port, now)
    {
      var allDone := CheckReplies();
      if allDone {
        if port == 0 {
          done := true;
        } else {
          var allAcked := Announce(now);
          if allAcked { done := true; }
        }
        stepTime := now;
        return;
      }
      if stepTime + 15 >= now { return; }
      AskThree(now);
      stepTime := now;
    }

    /**
     With no further replies or insertions, steps at `times`, each more than 15 seconds after
     everything sent before, finish the search within three per candidate and one more.
     */
    method RunSteps(times: seq<int>)
      requires Valid()
      modifies `done, `stepTime, nodes
      ensures Valid() && Now() == Iterated(old(Now()), port, times)
      ensures |times| >= 3 * old(numnodes) + 1 && WellSpaced(old(Now()), times) ==> done && SameCandidates(old(List()), List())
    {
      hide Stepped, Sorted;
      ghost var start := Now();
      assert times[0..] == times;
      var k := 0;
      while k < |times| && !done
        invariant 0 <= k <= |times| && Valid()
        invariant Iterated(Now(), port, times[k..]) == Iterated(start, port, times)
      {
        assert times[k..][1..] == times[k + 1..];
        Step(times[k]);
        k := k + 1;
      }
      if |times| >= 3 * |start.list| + 1 && WellSpaced(start, times) { IterationFinishes(start, port, times); }
    }

    /** One call on the search. */
    method Handle(e: Event)
      requires Valid()
      modifies `numnodes, `done, `stepTime, nodes
      ensures Valid() && Now() == Handled(old(Now()), id, family, port, e)
    {
      hide Stepped, Sorted, Offered, OfferedAll, Without;
      match e {
        case Offer(x, addr, replied, token, now) => var _ := InsertSearchNode(x, addr, replied, token, now);
        case OfferBucket(b, now) => InsertSearchBucket(b, now);
        case StepAt(now) => Step(now);
        case Flush(i) => if i < numnodes { FlushSearchNode(i); }
        case Drop(x) => Blacklist(x);
      }
    }
  }

  lemma {:induction false} WithoutIsFree(list: seq<SearchNode>, id: Id)
    ensures forall n :: n in Without(list, id) ==> n.id != id
  {
    if list != [] { WithoutIsFree(list[1..], id); }
  }

  // ----- what one step does to the list

  /** `list` is `was` with a request sent to the last candidate that could be asked. */
  ghost predicate AskedLast(was: seq<SearchNode>, list: seq<SearchNode>, now: int) {
    exists k :: (
      && 0 <= k < |was| && CanAsk(was[k], now)
      && (forall j :: k < j < |was| ==> !CanAsk(was[j], now))
      && list == was[k := Asked(was[k], now)])
  }

  lemma AskedAt(list: seq<SearchNode>, k: nat, now: int)
    requires k < |list| && CanAsk(list[k], now) && forall j :: k < j < |list| ==> !CanAsk(list[j], now)
    ensures AskedLast(list, list[k := Asked(list[k], now)], now)
  {
  }

  predicate CanAsk(n: SearchNode, now: int) {
    n.pinged < 3 && !n.replied && n.requestTime < now - 15
  }

  function Asked(n: SearchNode, now: int): SearchNode {
    n.(pinged := n.pinged + 1, requestTime := now)
  }

  /** Whether the first eight live candidates, of which `j` were seen before, have replied. */
  predicate FirstEightReplied(list: seq<SearchNode>, j: nat) {
    list == [] || j >= 8 ||
    (if list[0].pinged >= 3 then FirstEightReplied(list[1..], j)
     else list[0].replied && FirstEightReplied(list[1..], j + 1))
  }

  lemma RepliedNext(list: seq<SearchNode>, i: nat, j: nat)
    requires i < |list| && j < 8
    ensures FirstEightReplied(list[i..], j)
       <==> (list[i].pinged < 3 ==> list[i].replied) && FirstEightReplied(list[i + 1..], if list[i].pinged < 3 then j + 1 else j)
  {
    assert list[i..][1..] == list[i + 1..];
  }

  lemma NoneLeft(rest: seq<SearchNode>, j: nat)
    requires rest == [] || j >= 8
    ensures FirstEightReplied(rest, j)
  {
  }

  /** Whether they have acknowledged our announcement, or have given us no token for it. */
  predicate FirstEightAcked(list: seq<SearchNode>, j: nat) {
    list == [] || j >= 8 ||
    (if list[0].pinged >= 3 then FirstEightAcked(list[1..], j)
     else (list[0].acked || list[0].token == []) && FirstEightAcked(list[1..], j + 1))
  }

  function AnnounceTo(n: SearchNode, now: int): SearchNode {
    var n := if n.token == [] then n.(acked := true) else n;
    if n.acked then n else Asked(n, now)
  }

  function Announced(list: seq<SearchNode>, j: nat, now: int): seq<SearchNode> {
    if list == [] || j >= 8 then list
    else if list[0].pinged >= 3 then [list[0]] + Announced(list[1..], j, now)
    else [AnnounceTo(list[0], now)] + Announced(list[1..], j + 1, now)
  }

  /** Moving the boundary between the finished head and the untouched rest of a list. */
  lemma Advance<T>(head: seq<T>, list: seq<T>, i: nat, x: T, tail: seq<T>)
    requires |head| == i < |list|
    ensures (head + list[i..])[i := x] == (head + [x]) + list[i + 1..]
    ensures head + ([x] + tail) == (head + [x]) + tail
  {
  }

  lemma AnnounceNext(list: seq<SearchNode>, i: nat, j: nat, now: int)
    requires i < |list| && j < 8
    ensures list[i..] == [list[i]] + list[i + 1..]
    ensures var live := list[i].pinged < 3;
            && Announced(list[i..], j, now)
               == [if live then AnnounceTo(list[i], now) else list[i]] + Announced(list[i + 1..], if live then j + 1 else j, now)
            && (FirstEightAcked(list[i..], j)
                <==> (live ==> list[i].acked || list[i].token == []) && FirstEightAcked(list[i + 1..], if live then j + 1 else j))
  {
    assert list[i..][1..] == list[i + 1..];
  }

  lemma AnnounceRest(rest: seq<SearchNode>, j: nat, now: int)
    requires rest == [] || j >= 8
    ensures Announced(rest, j, now) == rest && FirstEightAcked(rest, j)
  {
  }

  /** In the middle of the request loop: `head` has been treated, the rest of `list` has not. */
  ghost predicate Asking(list: seq<SearchNode>, cur: seq<SearchNode>, head: seq<SearchNode>, i: nat, j: nat, now: int) {
    && |head| == i <= |list| && cur == head + list[i..]
    && Requested(list, 0, now) == head + Requested(list[i..], j, now)
  }

  lemma AskingStarts(list: seq<SearchNode>, now: int)
    ensures Asking(list, list, [], 0, 0, now)
  {
    assert list[0..] == list;
  }

  lemma AskingEnds(list: seq<SearchNode>, cur: seq<SearchNode>, head: seq<SearchNode>, i: nat, j: nat, now: int)
    requires Asking(list, cur, head, i, j, now) && (i == |list| || j >= 3)
    ensures cur == Requested(list, 0, now)
  {
    hide Requested;
    RequestRest(list[i..], j, now);
  }

  lemma RequestNext(list: seq<SearchNode>, i: nat, sent: nat, now: int)
    requires i < |list| && sent < 3
    ensures list[i..] == [list[i]] + list[i + 1..]
    ensures Requested(list[i..], sent, now)
         == if CanAsk(list[i], now) then [Asked(list[i], now)] + Requested(list[i + 1..], sent + 1, now)
            else [list[i]] + Requested(list[i + 1..], sent, now)
  {
    assert list[i..][1..] == list[i + 1..];
  }

  lemma RequestRest(rest: seq<SearchNode>, sent: nat, now: int)
    requires rest == [] || sent >= 3
    ensures Requested(rest, sent, now) == rest
  {
  }

  function Requested(list: seq<SearchNode>, sent: nat, now: int): seq<SearchNode> {
    if list == [] || sent >= 3 then list
    else if CanAsk(list[0], now) then [Asked(list[0], now)] + Requested(list[1..], sent + 1, now)
    else [list[0]] + Requested(list[1..], sent, now)
  }

  // ----- the search as a value

  datatype Progress = Progress(list: seq<SearchNode>, stepTime: int, done: bool)

  /** The list after an offer: unchanged if the family is wrong or fourteen nearer candidates are known. */
  function Offered(list: seq<SearchNode>, x: Id, addr: RT.Address, replied: bool, token: Option<seq<Byte>>, t: Id, family: RT.Family, now: int): seq<SearchNode> {
    var p, placed := Position(IdsOf(list), x, t), WithEntry(list, x, addr, t);
    if addr.family == family && (Found(IdsOf(list), x, t) || p < SEARCH_NODES) && p < |placed|
    then placed[p := Touched(placed[p], addr, replied, token, now)]
    else list
  }

  function OfferedAll(list: seq<SearchNode>, nodes: seq<RT.Node>, t: Id, family: RT.Family, now: int): seq<SearchNode> {
    if nodes == [] then list
    else
      var n := nodes[|nodes| - 1];
      Offered(OfferedAll(list, nodes[..|nodes| - 1], t, family, now), n.id, n.addr, false, None, t, family, now)
  }

  /** `search_step`. */
  function Stepped(p: Progress, port: nat, now: int): Progress {
    if AllHaveReplied(p.list) then
      Progress(if port == 0 then p.list else Announced(p.list, 0, now), now, p.done || port == 0 || AllHaveAcked(p.list))
    else if p.stepTime + 15 >= now then p
    else Progress(Requested(p.list, 0, now), now, p.done)
  }

  /** Steps at the given times, until the search is done. */
  function Iterated(p: Progress, port: nat, times: seq<int>): Progress
    decreases |times|
  {
    if times == [] || p.done then p else Iterated(Stepped(p, port, times[0]), port, times[1..])
  }

  /** Each time is more than 15 seconds after the one before, and the first after everything sent so far. */
  predicate WellSpaced(p: Progress, times: seq<int>) {
    && InRange(p.list)
    && (forall k :: 0 <= k < |times| - 1 ==> times[k] + 15 < times[k + 1])
    && (times != [] ==> p.stepTime + 15 < times[0] && QuietBefore(p.list, times[0]))
  }

  /** Every iteration with enough well-spaced times finishes. */
  lemma {:induction false} FinishesWithin(p: Progress, port: nat, times: seq<int>)
    requires WellSpaced(p, times) && |times| > Budget(p.list)
    ensures Iterated(p, port, times).done && SameCandidates(p.list, Iterated(p, port, times).list)
    decreases |times|
  {
    hide Announced, Requested, FirstEightReplied, FirstEightAcked, Budget;
    BudgetBound(p.list);
    if !p.done {
      var next := Stepped(p, port, times[0]);
      StepProgress(p.list, times[0]);
      FirstEightRepliedMeans(p.list);
      FirstEightAckedMeans(p.list);
      if next.done {
        assert Iterated(next, port, times[1..]) == next;
      } else {
        if |times| > 1 { StillQuiet(p.list, next.list, times[0], times[1]); }
        BudgetBound(next.list);
        FinishesWithin(next, port, times[1..]);
        SameTransitive(p.list, next.list, Iterated(p, port, times).list);
      }
    }
  }

  lemma IterationFinishes(p: Progress, port: nat, times: seq<int>)
    requires WellSpaced(p, times) && |times| >= 3 * |p.list| + 1
    ensures Iterated(p, port, times).done && SameCandidates(p.list, Iterated(p, port, times).list)
  {
    BudgetBound(p.list);
    FinishesWithin(p, port, times);
  }

  // ----- which candidates the loops of search_step look at

  /** The candidates before place `i` that have not ignored three requests. */
  function LiveBefore(list: seq<SearchNode>, i: nat): (r: set<nat>)
    requires i <= |list|
  {
    set k: nat | k < i && list[k].pinged < 3
  }

  /** Entry `i` is one of the first eight live candidates. */
  predicate InFirstEight(list: seq<SearchNode>, i: nat) {
    i < |list| && list[i].pinged < 3 && |LiveBefore(list, i)| < 8
  }

  predicate AllHaveReplied(list: seq<SearchNode>) {
    forall i: nat :: i < |list| && InFirstEight(list, i) ==> list[i].replied
  }

  /** A candidate without a token cannot be announced to and counts as if it had acknowledged. */
  predicate AllHaveAcked(list: seq<SearchNode>) {
    forall i: nat :: i < |list| && InFirstEight(list, i) ==> list[i].acked || list[i].token == []
  }

  lemma LiveStep(list: seq<SearchNode>, i: nat)
    requires i < |list|
    ensures |LiveBefore(list, i + 1)| == |LiveBefore(list, i)| + if list[i].pinged < 3 then 1 else 0
  {
    assert LiveBefore(list, i + 1) == LiveBefore(list, i) + if list[i].pinged < 3 then {i} else {};
  }

  lemma {:induction false} LiveGrows(list: seq<SearchNode>, i: nat, k: nat)
    requires i <= k <= |list|
    ensures |LiveBefore(list, i)| <= |LiveBefore(list, k)|
    decreases k
  {
    if i < k {
      LiveGrows(list, i, k - 1);
      LiveStep(list, k - 1);
    }
  }

  /** From place `i` on, with the live candidates before it counted. */
  lemma {:induction false} RepliedFrom(list: seq<SearchNode>, i: nat)
    requires i <= |list|
    ensures FirstEightReplied(list[i..], |LiveBefore(list, i)|)
       <==> forall k: nat :: i <= k && InFirstEight(list, k) ==> list[k].replied
    decreases |list| - i
  {
    if i < |list| {
      LiveStep(list, i);
      assert list[i..][1..] == list[i + 1..];
      if |LiveBefore(list, i)| >= 8 {
        forall k: nat | i <= k <= |list| ensures !InFirstEight(list, k) { LiveGrows(list, i, k); }
      } else {
        RepliedFrom(list, i + 1);
      }
    }
  }

  /** The check of `search_step` passes exactly if every one of the first eight live candidates has replied. */
  lemma FirstEightRepliedMeans(list: seq<SearchNode>)
    ensures FirstEightReplied(list, 0) <==> AllHaveReplied(list)
  {
    RepliedFrom(list, 0);
    assert LiveBefore(list, 0) == {} && list[0..] == list;
  }

  lemma {:induction false} AckedFrom(list: seq<SearchNode>, i: nat)
    requires i <= |list|
    ensures FirstEightAcked(list[i..], |LiveBefore(list, i)|)
       <==> forall k: nat :: i <= k && InFirstEight(list, k) ==> list[k].acked || list[k].token == []
    decreases |list| - i
  {
    if i < |list| {
      LiveStep(list, i);
      assert list[i..][1..] == list[i + 1..];
      if |LiveBefore(list, i)| >= 8 {
        forall k: nat | i <= k <= |list| ensures !InFirstEight(list, k) { LiveGrows(list, i, k); }
      } else {
        AckedFrom(list, i + 1);
      }
    }
  }

  /** All is acknowledged exactly if each of them has acknowledged or gave no token to announce with. */
  lemma FirstEightAckedMeans(list: seq<SearchNode>)
    ensures FirstEightAcked(list, 0) <==> AllHaveAcked(list)
  {
    AckedFrom(list, 0);
    assert LiveBefore(list, 0) == {} && list[0..] == list;
  }

  /** `m` is what an announcement makes of `n`: a request if an acknowledgement is owed, and no token counts as acknowledged. */
  predicate AfterAnnounce(n: SearchNode, m: SearchNode, now: int) {
    && m.id == n.id && m.addr == n.addr && m.replyTime == n.replyTime && m.token == n.token && m.replied == n.replied
    && (m.acked <==> n.acked || n.token == [])
    && (if n.acked || n.token == [] then m.pinged == n.pinged && m.requestTime == n.requestTime
        else m.pinged == n.pinged + 1 && m.requestTime == now)
  }

  lemma {:induction false} AnnouncedFrom(list: seq<SearchNode>, i: nat, now: int)
    requires i <= |list|
    ensures var r := Announced(list[i..], |LiveBefore(list, i)|, now);
            && |r| == |list| - i
            && forall k: nat :: i <= k < |list| ==>
                 if InFirstEight(list, k) then AfterAnnounce(list[k], r[k - i], now) else r[k - i] == list[k]
    decreases |list| - i
  {
    if i < |list| {
      LiveStep(list, i);
      if |LiveBefore(list, i)| >= 8 {
        forall k: nat | i <= k <= |list| ensures !InFirstEight(list, k) { LiveGrows(list, i, k); }
      } else {
        AnnounceNext(list, i, |LiveBefore(list, i)|, now);
        AnnouncedFrom(list, i + 1, now);
      }
    }
  }

  /** An announcement changes exactly those of the first eight live candidates that owe an acknowledgement or gave no token. */
  lemma AnnouncedMeans(list: seq<SearchNode>, now: int)
    ensures var r := Announced(list, 0, now);
            && |r| == |list|
            && forall i: nat :: i < |list| ==>
                 if InFirstEight(list, i) then AfterAnnounce(list[i], r[i], now) else r[i] == list[i]
  {
    AnnouncedFrom(list, 0, now);
    assert LiveBefore(list, 0) == {} && list[0..] == list;
  }

  /** The candidates before place `i` that can be asked: live, without a reply, and not asked in the last 15 seconds. */
  function AskableBefore(list: seq<SearchNode>, i: nat, now: int): set<nat>
    requires i <= |list|
  {
    set k: nat | k < i && list[k].pinged < 3 && !list[k].replied && list[k].requestTime < now - 15
  }

  predicate InFirstThree(list: seq<SearchNode>, i: nat, now: int) {
    && i < |list| && list[i].pinged < 3 && !list[i].replied && list[i].requestTime < now - 15
    && |AskableBefore(list, i, now)| < 3
  }

  lemma AskableStep(list: seq<SearchNode>, i: nat, now: int)
    requires i < |list|
    ensures |AskableBefore(list, i + 1, now)| == |AskableBefore(list, i, now)| + if CanAsk(list[i], now) then 1 else 0
  {
    assert AskableBefore(list, i + 1, now) == AskableBefore(list, i, now) + if CanAsk(list[i], now) then {i} else {};
  }

  lemma {:induction false} AskableGrows(list: seq<SearchNode>, i: nat, k: nat, now: int)
    requires i <= k <= |list|
    ensures |AskableBefore(list, i, now)| <= |AskableBefore(list, k, now)|
    decreases k
  {
    if i < k {
      AskableGrows(list, i, k - 1, now);
      AskableStep(list, k - 1, now);
    }
  }

  /** What a round of requests makes of entry `k`. */
  function AfterRound(list: seq<SearchNode>, k: nat, now: int): SearchNode
    requires k < |list|
  {
    if InFirstThree(list, k, now) then list[k].(pinged := list[k].pinged + 1, requestTime := now) else list[k]
  }

  lemma {:induction false} RequestedFrom(list: seq<SearchNode>, i: nat, now: int)
    requires i <= |list|
    ensures var r := Requested(list[i..], |AskableBefore(list, i, now)|, now);
            |r| == |list| - i && forall k: nat :: i <= k < |list| ==> r[k - i] == AfterRound(list, k, now)
    decreases |list| - i
  {
    hide Requested, InFirstThree, AskableBefore, CanAsk;
    var n := |AskableBefore(list, i, now)|;
    if i == |list| {
      assert list[i..] == [];
      RequestRest([], n, now);
    } else if n >= 3 {
      RequestRest(list[i..], n, now);
      forall k: nat | i <= k < |list| ensures AfterRound(list, k, now) == list[k] { NotInThree(list, i, k, now); }
    } else {
      AskableStep(list, i, now);
      RequestNext(list, i, n, now);
      RequestedFrom(list, i + 1, now);
      FirstOfThree(list, i, now);
      var r, rest := Requested(list[i..], n, now), Requested(list[i + 1..], |AskableBefore(list, i + 1, now)|, now);
      assert r == [AfterRound(list, i, now)] + rest;
      forall k: nat | i <= k < |list|
        ensures r[k - i] == AfterRound(list, k, now)
      {
        if k > i { assert r[k - i] == rest[k - (i + 1)]; }
      }
    }
  }

  lemma NotInThree(list: seq<SearchNode>, i: nat, k: nat, now: int)
    requires i <= k < |list| && |AskableBefore(list, i, now)| >= 3
    ensures !InFirstThree(list, k, now)
  {
    AskableGrows(list, i, k, now);
  }

  lemma FirstOfThree(list: seq<SearchNode>, i: nat, now: int)
    requires i < |list| && |AskableBefore(list, i, now)| < 3
    ensures AfterRound(list, i, now) == if CanAsk(list[i], now) then Asked(list[i], now) else list[i]
  {
  }

  /** A round of requests changes exactly the first three candidates that can be asked. */
  lemma RequestedMeans(list: seq<SearchNode>, now: int)
    ensures var r := Requested(list, 0, now);
            && |r| == |list|
            && forall i: nat :: i < |list| ==>
                 r[i] == if InFirstThree(list, i, now) then list[i].(pinged := list[i].pinged + 1, requestTime := now) else list[i]
  {
    RequestedFrom(list, 0, now);
    assert AskableBefore(list, 0, now) == {} && list[0..] == list;
    hide InFirstThree, Requested;
    var r := Requested(list, 0, now);
    forall i: nat | i < |list|
      ensures r[i] == AfterRound(list, i, now)
    {
      assert r[i - 0] == AfterRound(list, i, now);
    }
  }

  /**
   What an accepted offer records: a reply renews the entry, a token is kept if it has fewer than
   40 bytes, and an acknowledgement stays; a new entry starts out with nothing.
   */
  lemma OfferRecords(list: seq<SearchNode>, x: Id, addr: RT.Address, replied: bool, token: Option<seq<Byte>>, t: Id, now: int)
    requires |list| <= SEARCH_NODES
    requires Found(IdsOf(list), x, t) || Position(IdsOf(list), x, t) < SEARCH_NODES
    ensures var i, r := Position(IdsOf(list), x, t), Offered(list, x, addr, replied, token, t, addr.family, now);
            && i < |r| <= 14 && r[i].id == x && r[i].addr == addr
            && (replied ==> r[i].replied && r[i].replyTime == now && r[i].requestTime == 0 && r[i].pinged == 0)
            && (token.Some? && |token.value| < 40 ==> r[i].token == token.value)
            && (if Found(IdsOf(list), x, t)
                then
                  && |r| == |list|
                  && (!replied ==> (r[i].replied <==> list[i].replied) && r[i].replyTime == list[i].replyTime
                                   && r[i].requestTime == list[i].requestTime && r[i].pinged == list[i].pinged)
                  && (token.None? || |token.value| >= 40 ==> r[i].token == list[i].token)
                  && (r[i].acked <==> list[i].acked)
                  && forall k :: 0 <= k < |r| && k != i ==> r[k] == list[k]
                else
                  && |r| == (if |list| < 14 then |list| + 1 else 14)
                  && (!replied ==> !r[i].replied && r[i].replyTime == 0 == r[i].requestTime && r[i].pinged == 0)
                  && (token.None? || |token.value| >= 40 ==> r[i].token == [])
                  && !r[i].acked
                  && forall k :: 0 <= k < |r| && k != i ==> r[k] == list[if k < i then k else k - 1])
  {
    hide Distance;
    WithEntryIds(list, x, addr, t);
    if !Found(IdsOf(list), x, t) { SplicedAt(list, Position(IdsOf(list), x, t), Blank(x, addr), SEARCH_NODES); }
  }

  /** Within 15 seconds of a step that sent something, another one sends nothing, unless all have replied since. */
  lemma StepsAreSpaced(p: Progress, port: nat, t1: int, t2: int)
    requires Stepped(p, port, t1).stepTime == t1 <= t2 <= t1 + 15 && !AllHaveReplied(Stepped(p, port, t1).list)
    ensures Stepped(Stepped(p, port, t1), port, t2) == Stepped(p, port, t1)
  {
  }

  // ----- runs of offers, steps and removals

  datatype Event =
    | Offer(x: Id, addr: RT.Address, replied: bool, token: Option<seq<Byte>>, now: int)
    | OfferBucket(bucket: RT.Bucket, now: int)
    | StepAt(now: int)
    | Flush(i: nat)
    | Drop(x: Id)

  function Handled(p: Progress, t: Id, family: RT.Family, port: nat, e: Event): Progress {
    match e
    case Offer(x, addr, replied, token, now) => p.(list := Offered(p.list, x, addr, replied, token, t, family, now))
    case OfferBucket(b, now) => p.(list := OfferedAll(p.list, b.nodes, t, family, now))
    case StepAt(now) => Stepped(p, port, now)
    case Flush(i) => if i < |p.list| then p.(list := p.list[..i] + p.list[i + 1..]) else p
    case Drop(x) => p.(list := Without(p.list, x))
  }

  function After(t: Id, family: RT.Family, port: nat, events: seq<Event>): Progress {
    if events == [] then Progress([], 0, false)
    else Handled(After(t, family, port, events[..|events| - 1]), t, family, port, events[|events| - 1])
  }

  /** The ids that nodes of the right family were offered under. */
  function IdsIn(nodes: seq<RT.Node>, family: RT.Family): set<Id> {
    set n | n in nodes && n.addr.family == family :: n.id
  }

  function WithOffers(before: set<Id>, e: Event, family: RT.Family): set<Id> {
    match e
    case Offer(x, addr, _, _, _) => if addr.family == family then before + {x} else before
    case OfferBucket(b, _) => before + IdsIn(b.nodes, family)
    case _ => before
  }

  function IdsOffered(events: seq<Event>, family: RT.Family): set<Id> {
    if events == [] then {} else WithOffers(IdsOffered(events[..|events| - 1], family), events[|events| - 1], family)
  }

  predicate Removes(e: Event) { e.Flush? || e.Drop? }

  ghost predicate ListOk(list: seq<SearchNode>, t: Id) {
    Sorted(IdsOf(list), t) && |list| <= SEARCH_NODES && InRange(list)
  }

  /** An offer of the right family is one offer to the nearest fourteen; entries change, ids do not. */
  lemma OfferedIds(list: seq<SearchNode>, x: Id, addr: RT.Address, replied: bool, token: Option<seq<Byte>>, t: Id, family: RT.Family, now: int)
    requires ListOk(list, t)
    ensures var r := Offered(list, x, addr, replied, token, t, family, now);
            ListOk(r, t) && IdsOf(r) == if addr.family == family then Insert(IdsOf(list), x, t, SEARCH_NODES) else IdsOf(list)
  {
    hide Insert, Distance, Sorted, Touched, Position, Found, WithEntry;
    var ids := IdsOf(list);
    var p, placed := Position(ids, x, t), WithEntry(list, x, addr, t);
    if addr.family == family {
      InsertKeepsSorted(ids, x, t, SEARCH_NODES);
      if Found(ids, x, t) || p < SEARCH_NODES {
        WithEntryIds(list, x, addr, t);
        PingsStay(list, x, addr, t);
        TouchKeeps(placed[p], addr, replied, token, now);
        assert IdsOf(Offered(list, x, addr, replied, token, t, family, now)) == IdsOf(placed);
      } else {
        PositionInList(ids, x, t);
        FullOfNearer(ids, x, t);
      }
    }
  }

  lemma PositionInList(ids: seq<Id>, x: Id, t: Id)
    ensures Position(ids, x, t) <= |ids|
  {
  }

  lemma {:induction false} BucketOffered(list: seq<SearchNode>, nodes: seq<RT.Node>, t: Id, family: RT.Family, now: int, offered: set<Id>)
    requires ListOk(list, t)
    ensures ListOk(OfferedAll(list, nodes, t, family, now), t)
    ensures NearestOf(IdsOf(list), offered, t, SEARCH_NODES) ==>
      NearestOf(IdsOf(OfferedAll(list, nodes, t, family, now)), offered + IdsIn(nodes, family), t, SEARCH_NODES)
  {
    hide ListOk, NearestOf, Insert, Offered;
    if nodes == [] {
      assert offered + IdsIn(nodes, family) == offered;
    } else {
      var rest, n := nodes[..|nodes| - 1], nodes[|nodes| - 1];
      BucketOffered(list, rest, t, family, now, offered);
      var before := OfferedAll(list, rest, t, family, now);
      OfferedIds(before, n.id, n.addr, false, None, t, family, now);
      OneMoreNode(rest, n, family);
      assert nodes == rest + [n];
      if n.addr.family == family && NearestOf(IdsOf(list), offered, t, SEARCH_NODES) {
        InsertKeepsNearest(IdsOf(before), offered + IdsIn(rest, family), n.id, t, SEARCH_NODES);
        assert offered + IdsIn(nodes, family) == offered + IdsIn(rest, family) + {n.id};
      }
      if n.addr.family != family { assert IdsIn(nodes, family) == IdsIn(rest, family); }
    }
  }

  lemma OneMoreNode(rest: seq<RT.Node>, n: RT.Node, family: RT.Family)
    ensures IdsIn(rest + [n], family) == IdsIn(rest, family) + if n.addr.family == family then {n.id} else {}
  {
    forall x | x in IdsIn(rest, family)
      ensures x in IdsIn(rest + [n], family)
    {
      var m :| m in rest && m.addr.family == family && m.id == x;
      assert m in rest + [n];
    }
    assert n in rest + [n];
  }

  lemma SteppedKeeps(p: Progress, t: Id, port: nat, now: int)
    requires ListOk(p.list, t)
    ensures ListOk(Stepped(p, port, now).list, t) && IdsOf(Stepped(p, port, now).list) == IdsOf(p.list)
  {
    hide Announced, Requested, FirstEightReplied, FirstEightAcked, Budget, Sorted;
    AnnouncedKeeps(p.list, 0, now);
    RequestedKeeps(p.list, 0, now);
    assert forall q: seq<SearchNode> :: SameCandidates(p.list, q) ==> IdsOf(q) == IdsOf(p.list);
  }

  lemma RemovalKeepsList(list: seq<SearchNode>, i: nat, t: Id)
    requires ListOk(list, t) && i < |list|
    ensures ListOk(list[..i] + list[i + 1..], t)
  {
    RemovalKeepsSorted(IdsOf(list), i, t);
    assert IdsOf(list[..i] + list[i + 1..]) == IdsOf(list)[..i] + IdsOf(list)[i + 1..];
  }

  lemma DropKeepsList(list: seq<SearchNode>, x: Id, t: Id)
    requires ListOk(list, t)
    ensures ListOk(Without(list, x), t)
  {
    hide ListOk;
    if i :| 0 <= i < |list| && list[i].id == x {
      RemovedOnce(list, i, t) by { assert Sorted(IdsOf(list), t) by { ListIsSorted(list, t); } }
      RemovalKeepsList(list, i, t);
    } else {
      WithoutAbsent(list, x);
    }
  }

  lemma ListIsSorted(list: seq<SearchNode>, t: Id)
    requires ListOk(list, t)
    ensures Sorted(IdsOf(list), t)
  {
  }

  lemma HandledKeeps(p: Progress, t: Id, family: RT.Family, port: nat, e: Event, offered: set<Id>)
    requires ListOk(p.list, t)
    ensures var r := Handled(p, t, family, port, e);
            && ListOk(r.list, t)
            && (!Removes(e) && NearestOf(IdsOf(p.list), offered, t, SEARCH_NODES) ==>
                  NearestOf(IdsOf(r.list), WithOffers(offered, e, family), t, SEARCH_NODES))
  {
    hide ListOk, NearestOf, Stepped, Offered, OfferedAll, Without, Insert;
    match e {
      case Offer(x, addr, replied, token, now) =>
        OfferedIds(p.list, x, addr, replied, token, t, family, now);
        if NearestOf(IdsOf(p.list), offered, t, SEARCH_NODES) { InsertKeepsNearest(IdsOf(p.list), offered, x, t, SEARCH_NODES); }
      case OfferBucket(b, now) => BucketOffered(p.list, b.nodes, t, family, now, offered);
      case StepAt(now) => SteppedKeeps(p, t, port, now);
      case Flush(i) => if i < |p.list| { RemovalKeepsList(p.list, i, t); }
      case Drop(x) => DropKeepsList(p.list, x, t);
    }
  }

  lemma NoCandidates(t: Id)
    ensures ListOk([], t) && NearestOf(IdsOf([]), {}, t, SEARCH_NODES)
  {
  }

  /**
   In every run the candidates are sorted and distinct, and without removals they are the fourteen
   nearest of all ids offered through any of the calls, however steps come in between.
   */
  lemma {:induction false} CandidatesAreNearest(t: Id, family: RT.Family, port: nat, events: seq<Event>)
    ensures ListOk(After(t, family, port, events).list, t)
    ensures (forall e :: e in events ==> !Removes(e)) ==>
      NearestOf(IdsOf(After(t, family, port, events).list), IdsOffered(events, family), t, SEARCH_NODES)
  {
    hide ListOk, NearestOf, Handled, WithOffers;
    NoCandidates(t);
    if events != [] {
      var before, e := events[..|events| - 1], events[|events| - 1];
      CandidatesAreNearest(t, family, port, before);
      assert forall d :: d in before ==> d in events;
      HandledKeeps(After(t, family, port, before), t, family, port, e, IdsOffered(before, family));
    }
  }

  /** Any run of calls on one search. */
  method Run(target: Id, family: RT.Family, port: nat, events: seq<Event>) returns (s: SearchState)
    ensures s.Valid() && s.id == target && s.Now() == After(target, family, port, events)
    ensures (forall e :: e in events ==> !Removes(e)) ==>
      NearestOf(IdsOf(s.List()), IdsOffered(events, family), target, SEARCH_NODES)
  {
    hide Handled, NearestOf, Sorted;
    s := new SearchState(target, family, port);
    for k := 0 to |events|
      invariant fresh(s) && fresh(s.nodes) && s.Valid() && s.id == target && s.family == family && s.port == port
      invariant s.Now() == After(target, family, port, events[..k])
    {
      assert events[..k + 1][..k] == events[..k];
      s.Handle(events[k]);
    }
    assert events[..|events|] == events;
    CandidatesAreNearest(target, family, port, events);
  }

  // ----- progress

  predicate InRange(list: seq<SearchNode>) {
    forall k :: 0 <= k < |list| ==> 0 <= list[k].pinged <= 3
  }

  /** How many requests the candidates can still be sent without a reply. */
  function Budget(list: seq<SearchNode>): int {
    if list == [] then 0 else 3 - list[0].pinged + Budget(list[1..])
  }

  lemma {:induction false} BudgetBound(list: seq<SearchNode>)
    requires InRange(list)
    ensures 0 <= Budget(list) <= 3 * |list|
  {
    if list != [] { BudgetBound(list[1..]); }
  }

  /** Every request so far was sent more than 15 seconds before `now`. */
  predicate QuietBefore(list: seq<SearchNode>, now: int) {
    forall k :: 0 <= k < |list| ==> list[k].requestTime < now - 15
  }

  predicate SameCandidates(was: seq<SearchNode>, list: seq<SearchNode>) {
    && |list| == |was|
    && forall k :: 0 <= k < |list| ==> list[k].id == was[k].id && list[k].pinged >= was[k].pinged
  }

  lemma SameTransitive(x: seq<SearchNode>, y: seq<SearchNode>, z: seq<SearchNode>)
    requires SameCandidates(x, y) && SameCandidates(y, z)
    ensures SameCandidates(x, z)
  {
  }

  /** `list` came from `was` by requests sent at `now`. */
  predicate SentAt(was: seq<SearchNode>, list: seq<SearchNode>, now: int) {
    && SameCandidates(was, list) && InRange(list)
    && forall k :: 0 <= k < |list| ==> list[k].requestTime == was[k].requestTime || list[k].requestTime == now
  }

  lemma {:induction false} AnnouncedKeeps(list: seq<SearchNode>, j: nat, now: int)
    requires InRange(list)
    ensures SentAt(list, Announced(list, j, now), now)
    ensures Budget(Announced(list, j, now)) <= Budget(list)
    ensures !FirstEightAcked(list, j) ==> Budget(Announced(list, j, now)) < Budget(list)
    ensures IdsOf(Announced(list, j, now)) == IdsOf(list)
    decreases |list|
  {
    if list != [] && j < 8 {
      var rest := list[1..];
      AnnouncedKeeps(rest, if list[0].pinged >= 3 then j else j + 1, now);
      var r := Announced(list, j, now);
      assert r[1..] == Announced(rest, if list[0].pinged >= 3 then j else j + 1, now);
      HeadAndTail(list, r, now);
    }
  }

  lemma HeadAndTail(was: seq<SearchNode>, list: seq<SearchNode>, now: int)
    requires was != [] && list != [] && SentAt(was[1..], list[1..], now)
    requires list[0].id == was[0].id && was[0].pinged <= list[0].pinged && 0 <= list[0].pinged <= 3
    requires list[0].requestTime == was[0].requestTime || list[0].requestTime == now
    ensures SentAt(was, list, now) && IdsOf(list) == IdsOf(was)
  {
    forall k | 0 <= k < |list|
      ensures list[k].id == was[k].id && list[k].pinged >= was[k].pinged && 0 <= list[k].pinged <= 3
      ensures list[k].requestTime == was[k].requestTime || list[k].requestTime == now
    {
      if k > 0 { assert list[k] == list[1..][k - 1] && was[k] == was[1..][k - 1]; }
    }
  }

  lemma {:induction false} RequestedKeeps(list: seq<SearchNode>, sent: nat, now: int)
    requires InRange(list)
    ensures SentAt(list, Requested(list, sent, now), now)
    ensures Budget(Requested(list, sent, now)) <= Budget(list)
    decreases |list|
  {
    if list != [] && sent < 3 {
      var rest, next := list[1..], if CanAsk(list[0], now) then sent + 1 else sent;
      RequestedKeeps(rest, next, now);
      var r := Requested(list, sent, now);
      assert r[1..] == Requested(rest, next, now);
      HeadAndTail(list, r, now);
    }
  }

  /** If one of the first eight live candidates has not replied and nothing was sent lately, a request is sent. */
  lemma {:induction false} RequestedProgress(list: seq<SearchNode>, j: nat, sent: nat, now: int)
    requires InRange(list) && QuietBefore(list, now) && !FirstEightReplied(list, j) && sent < 3
    ensures Budget(Requested(list, sent, now)) < Budget(list)
    decreases |list|
  {
    var rest, r := list[1..], Requested(list, sent, now);
    if CanAsk(list[0], now) {
      RequestedKeeps(rest, sent + 1, now);
      assert r[1..] == Requested(rest, sent + 1, now);
    } else {
      RequestedProgress(rest, if list[0].pinged >= 3 then j else j + 1, sent, now);
      assert r[1..] == Requested(rest, sent, now);
    }
  }

  /** With nothing left to send, every candidate counts as dead and the checks pass. */
  lemma {:induction false} ExhaustedIsDone(list: seq<SearchNode>, j: nat)
    requires InRange(list) && Budget(list) <= 0
    ensures FirstEightReplied(list, j) && FirstEightAcked(list, j)
    decreases |list|
  {
    if list != [] {
      BudgetBound(list[1..]);
      ExhaustedIsDone(list[1..], j);
    }
  }

  /** What a step at a quiet time achieves: the search is done, or the budget shrinks. */
  lemma StepProgress(list: seq<SearchNode>, now: int)
    requires InRange(list) && QuietBefore(list, now)
    ensures FirstEightReplied(list, 0) ==>
              SentAt(list, Announced(list, 0, now), now)
              && (FirstEightAcked(list, 0) || Budget(Announced(list, 0, now)) < Budget(list))
    ensures !FirstEightReplied(list, 0) ==>
              SentAt(list, Requested(list, 0, now), now) && Budget(Requested(list, 0, now)) < Budget(list)
    ensures Budget(list) <= 0 ==> FirstEightReplied(list, 0) && FirstEightAcked(list, 0)
    ensures SentAt(list, list, now)
  {
    AnnouncedKeeps(list, 0, now);
    RequestedKeeps(list, 0, now);
    if !FirstEightReplied(list, 0) { RequestedProgress(list, 0, 0, now); }
    if Budget(list) <= 0 { ExhaustedIsDone(list, 0); }
  }

  lemma StillQuiet(was: seq<SearchNode>, list: seq<SearchNode>, now: int, next: int)
    requires SentAt(was, list, now) && QuietBefore(was, now) && now + 15 < next
    ensures QuietBefore(list, next)
  {
  }
}
