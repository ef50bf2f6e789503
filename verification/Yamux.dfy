/**
 The receiving side of a yamux session (yamux/session.c, yamux/stream.c) with the byte queue
 behind each channel (utils/threadsafe_buffer.c): how slots are given out and taken back, and how
 interleaved frames are sorted into their channels.
 */
module Yamux {
  import opened Options
  import opened Numbers

  type Bytes = seq<Byte>

  const U32: nat := 0x1_0000_0000
  const DEFAULT_WINDOW: nat := 0x100 * 0x400
  const HEADER_SIZE := 12
  const EPROTO := 71

  // ----- the byte queue

  /** `ThreadsafeBufferContext`: every operation runs under its lock, so each is one step. */
  class ThreadsafeBuffer {
    var buffer: Bytes

    constructor ()
      ensures buffer == []
    {
      buffer := [];
    }

    /** `threadsafe_buffer_peek`. */
    method Peek(size: nat) returns (bytes: Bytes)
      ensures bytes <= buffer && |bytes| == Min(size, |buffer|)
    {
      return buffer[..Min(size, |buffer|)];
    }

    /** `threadsafe_buffer_read`: take bytes from the front. */
    method Read(size: nat) returns (bytes: Bytes)
      modifies this
      ensures bytes == old(buffer)[..Min(size, old(|buffer|))] && buffer == old(buffer)[Min(size, old(|buffer|))..]
    {
      var n := Min(size, |buffer|);
      bytes := buffer[..n];
      buffer := buffer[n..];
    }

    /** `threadsafe_buffer_write`: put bytes at the end. */
    method Write(bytes: Bytes) returns (n: nat)
      modifies this
      ensures buffer == old(buffer) + bytes && n == |bytes|
    {
      if |bytes| == 0 { return 0; }
      buffer := buffer + bytes;
      return |bytes|;
    }
  }

  // ----- frames

  datatype FrameType = Data | WindowUpdate | Ping | GoAway | OtherType

  datatype Frame = Frame(version: nat, kind: FrameType, flags: nat, streamid: nat, length: nat)

  function KindOf(b: Byte): FrameType {
    if b == 0 then Data else if b == 1 then WindowUpdate else if b == 2 then Ping else if b == 3 then GoAway else OtherType
  }

  /** `decode_frame`: numbers come in network order. */
  function ParseFrame(bytes: Bytes): (f: Frame)
    requires |bytes| >= HEADER_SIZE
    ensures f.flags < 0x1_0000 && f.streamid < U32 && f.length < U32
  {
    ValBound(256, bytes[2..4]);
    ValBound(256, bytes[4..8]);
    ValBound(256, bytes[8..12]);
    assert Pow(256, 2) == 0x1_0000 && Pow(256, 4) == U32;
    Frame(bytes[0], KindOf(bytes[1]), Val(256, bytes[2..4]), Val(256, bytes[4..8]), Val(256, bytes[8..12]))
  }

  predicate Syn(f: Frame) { f.flags % 2 == 1 }
  predicate Ack(f: Frame) { f.flags / 2 % 2 == 1 }
  predicate Fin(f: Frame) { f.flags / 4 % 2 == 1 }
  predicate Rst(f: Frame) { f.flags / 8 % 2 == 1 }

  /** A 32-bit number read as signed. */
  function Signed(n: nat): int { if n < U32 / 2 then n else n - U32 }

  // ----- what a session is, and what each operation makes of it

  datatype State = Inited | SynSent | SynRecv | Est | Closing | Closed

  /** A slot below `cap_streams`: its stream, the stream's channel and the bytes that wait there. */
  datatype Held = Held(alive: bool, id: nat, state: State, window: nat, channelState: State, hasChild: bool, waiting: Bytes)

  /** The slots below `cap_streams`, and the rest of the session. */
  datatype View = View(slots: seq<Held>, nextid: nat, closed: bool)

  /** What a session never changes: the number of slots, its side, its callbacks, and which bytes are a protocol message. */
  datatype Config = Config(backlog: nat, amServer: bool, hasPong: bool, valid: Bytes -> bool)

  function Live(slots: seq<Held>): (n: nat)
    ensures n <= |slots|
  {
    if slots == [] then 0 else Live(slots[..|slots| - 1]) + if slots[|slots| - 1].alive then 1 else 0
  }

  function FirstDead(slots: seq<Held>): (i: nat)
    ensures i <= |slots| && (i < |slots| ==> !slots[i].alive)
    ensures forall k :: 0 <= k < i ==> slots[k].alive
  {
    if slots == [] || !slots[0].alive then 0 else 1 + FirstDead(slots[1..])
  }

  function FirstWithId(slots: seq<Held>, id: nat): (i: nat)
    ensures i <= |slots| && (i < |slots| ==> slots[i].id == id)
    ensures forall k :: 0 <= k < i ==> slots[k].id != id
  {
    if slots == [] || slots[0].id == id then 0 else 1 + FirstWithId(slots[1..], id)
  }

  function FirstLive(slots: seq<Held>, id: nat): (i: nat)
    ensures i <= |slots| && (i < |slots| ==> slots[i].alive && slots[i].id == id)
    ensures forall k :: 0 <= k < i ==> !(slots[k].alive && slots[k].id == id)
  {
    if slots == [] || (slots[0].alive && slots[0].id == id) then 0 else 1 + FirstLive(slots[1..], id)
  }

  /** A stream that still takes frames. */
  predicate Open(h: Held) { h.alive && h.state != Closed }

  function FirstOpen(slots: seq<Held>, id: nat): (i: nat)
    ensures i <= |slots| && (i < |slots| ==> Open(slots[i]) && slots[i].id == id)
    ensures forall k :: 0 <= k < i ==> !(Open(slots[k]) && slots[k].id == id)
  {
    if slots == [] || (Open(slots[0]) && slots[0].id == id) then 0 else 1 + FirstOpen(slots[1..], id)
  }

  /** The slot for a new stream: the first one that is not live, if there is one. */
  function Opening(backlog: nat, slots: seq<Held>): (i: Option<nat>)
    ensures i.Some? ==> i.value <= |slots| && i.value < backlog
  {
    if FirstDead(slots) < backlog then Some(FirstDead(slots)) else None
  }

  function Placed(slots: seq<Held>, i: nat, h: Held): (r: seq<Held>)
    requires i <= |slots|
    ensures |r| == if i == |slots| then i + 1 else |slots|
    ensures r[i] == h && forall k :: 0 <= k < |r| && k != i ==> r[k] == slots[k]
  {
    if i == |slots| then slots + [h] else slots[i := h]
  }

  function Fresh(id: nat): Held { Held(true, id, Inited, DEFAULT_WINDOW, Inited, false, []) }

  /** `yamux_stream_free`: the first live slot with the id; the last slot goes with its stream. */
  function Freed(slots: seq<Held>, id: nat): seq<Held> {
    var i := FirstLive(slots, id);
    if i == |slots| then slots else if i == |slots| - 1 then slots[..i] else slots[i := slots[i].(alive := false)]
  }

  /** The bytes of a frame that its channel takes: any that follow a window update, and data of the announced length. */
  function Carried(f: Frame, payload: Bytes): Bytes {
    if f.kind == WindowUpdate || (f.kind == Data && |payload| == f.length) then payload else []
  }

  /** `window_size` plus a signed number, cut to 32 bits. */
  function Widened(f: Frame, window: nat): nat {
    if f.kind == WindowUpdate then (window + Signed(f.length)) % U32 else window
  }

  /** A window update adds its length modulo 2^32, signed or not. */
  lemma WindowAdds(f: Frame, window: nat)
    ensures Widened(f, window) == if f.kind == WindowUpdate then (window + f.length) % 0x1_0000_0000 else window
  {
  }

  /** What a channel without a child stream hands on at once: everything, if it is a whole protocol message. */
  function HandedOn(valid: Bytes -> bool, h: Held, carried: Bytes): Bytes {
    if carried != [] && !h.hasChild && valid(h.waiting + carried) then h.waiting + carried else []
  }

  /** `yamux_stream_process`. */
  function Processed(valid: Bytes -> bool, h: Held, f: Frame, payload: Bytes): (r: Held)
    ensures HandedOn(valid, h, Carried(f, payload)) + r.waiting == h.waiting + Carried(f, payload)
  {
    var carried := Carried(f, payload);
    h.(window := Widened(f, h.window), waiting := if HandedOn(valid, h, carried) != [] then [] else h.waiting + carried)
  }

  function ProcessCode(f: Frame, payload: Bytes): int {
    if f.kind == Data && |payload| != f.length then -1
    else if f.kind == Data || f.kind == WindowUpdate then |payload|
    else -EPROTO
  }

  /** What the flags of a frame do to an open stream; nothing for flags that are refused. */
  function Flagged(state: State, f: Frame): Option<State> {
    if Rst(f) || Fin(f) then Some(Closed)
    else if Ack(f) then if state == SynSent then Some(Est) else None
    else if f.flags != 0 then None
    else Some(state)
  }

  function FlagsFor(state: State): nat { if state == Inited then 1 else if state == SynRecv then 2 else 0 }

  /** `get_flags` on the channel in slot `i`; the stream it updates is the first with the same id. */
  function Announced(slots: seq<Held>, i: nat): (r: seq<Held>)
    requires i < |slots|
    ensures |r| == |slots|
  {
    if FlagsFor(slots[i].channelState) == 0 then slots
    else
      var state := if slots[i].channelState == Inited then SynSent else Est;
      var was := slots[i := slots[i].(channelState := state)];
      var k := FirstWithId(was, was[i].id);
      if k < |was| then was[k := was[k].(state := state)] else was
  }

  /** The new stream in slot `i` gets the frame that opened it: the receiver is looked up by id. */
  function Greeted(valid: Bytes -> bool, slots: seq<Held>, i: nat, f: Frame, payload: Bytes): (r: seq<Held>)
    requires i < |slots| && FirstWithId(slots, f.streamid) < |slots|
    ensures |r| == |slots|
  {
    var k := FirstWithId(slots, f.streamid);
    var received := slots[k := Processed(valid, slots[k].(state := SynRecv, window := 0), f, payload)];
    var marked := received[i := received[i].(channelState := SynRecv)];
    if f.kind == WindowUpdate then Announced(marked, i) else marked
  }

  /** What an operation leaves, returns, puts into the queue of stream `id` and takes out of it. */
  datatype Result = Result(view: View, rc: int, id: nat, took: Bytes, gave: Bytes)

  function Nothing(v: View, rc: int, id: nat): Result { Result(v, rc, id, [], []) }

  function ControlCode(hasPong: bool, f: Frame): int {
    if f.kind == GoAway || (f.kind == Ping && (Syn(f) || (Ack(f) && hasPong))) then 0 else -EPROTO
  }

  /** A frame for the open stream in slot `i`. */
  function Delivered(c: Config, v: View, i: nat, f: Frame, payload: Bytes): Result
    requires i < |v.slots|
  {
    var h := v.slots[i];
    var state := Flagged(h.state, f);
    if state.None? then Nothing(v, -EPROTO, f.streamid)
    else
      var code := ProcessCode(f, payload);
      Result(v.(slots := v.slots[i := Processed(c.valid, h.(state := state.value), f, payload)]),
             if code < 0 then code else code + HEADER_SIZE + |payload|,
             f.streamid, Carried(f, payload), HandedOn(c.valid, h, Carried(f, payload)))
  }

  /** A frame that opens a stream from the other side. */
  function Started(c: Config, v: View, f: Frame, payload: Bytes): Result {
    var i := Opening(c.backlog, v.slots);
    if i.None? then Nothing(v, -EPROTO, f.streamid)
    else
      var slots := Placed(v.slots, i.value, Fresh(f.streamid));
      var k := FirstWithId(slots, f.streamid);
      Result(v.(slots := Greeted(c.valid, slots, i.value, f, payload)), 0,
             f.streamid, Carried(f, payload), HandedOn(c.valid, slots[k], Carried(f, payload)))
  }

  predicate FromRemote(amServer: bool, id: nat) { (id % 2 == 0 && !amServer) || (id % 2 == 1 && amServer) }

  /** `yamux_decode`. */
  function Decoded(c: Config, v: View, incoming: Bytes): Result {
    if |incoming| < HEADER_SIZE then Nothing(v, 0, 0)
    else
      var f, payload := ParseFrame(incoming), incoming[HEADER_SIZE..];
      if f.version != 0 then Nothing(v, 0, f.streamid)
      else if f.streamid == 0 then Nothing(v.(closed := v.closed || f.kind == GoAway), ControlCode(c.hasPong, f), 0)
      else if FirstOpen(v.slots, f.streamid) < |v.slots| then Delivered(c, v, FirstOpen(v.slots, f.streamid), f, payload)
      else if !Syn(f) then Nothing(v, -EPROTO, f.streamid)
      else if !FromRemote(c.amServer, f.streamid) then Nothing(v, 0, f.streamid)
      else Started(c, v, f, payload)
  }

  // ----- runs

  datatype Event =
    | OpenEvent                              // yamux_channel_new for ourselves
    | FrameEvent(incoming: Bytes)            // a frame arrives
    | ReadEvent(id: nat, size: nat)          // a reader takes bytes from a channel
    | SendEvent(id: nat)                     // something is sent on a channel
    | AttachEvent(id: nat)                   // a child stream is set up on a channel
    | FreeEvent(id: nat)                     // yamux_stream_free

  function Begin(c: Config): View { View([], if c.amServer then 2 else 1, false) }

  /** `yamux_channel_new`: a stream with the wanted id, or with the next one if none is wanted. */
  function WithNew(v: View, backlog: nat, wanted: nat): View {
    var i := Opening(backlog, v.slots);
    View(if i.None? then v.slots else Placed(v.slots, i.value, Fresh(if wanted == 0 then v.nextid else wanted)),
         if wanted == 0 then (v.nextid + 2) % U32 else v.nextid, v.closed)
  }

  function OpenedHere(c: Config, v: View): Result {
    var i := Opening(c.backlog, v.slots);
    Nothing(WithNew(v, c.backlog, 0), if i.None? then -1 else i.value, v.nextid)
  }

  /** A reader, a sender or a new child stream works on the channel in slot `i`. */
  function Touched(v: View, i: nat, e: Event): Result
    requires i < |v.slots|
  {
    var h := v.slots[i];
    match e
    case ReadEvent(id, size) =>
      var n := Min(size, |h.waiting|);
      Result(v.(slots := v.slots[i := h.(waiting := h.waiting[n..])]), n, id, [], h.waiting[..n])
    case SendEvent(id) => Nothing(v.(slots := Announced(v.slots, i)), FlagsFor(h.channelState), id)
    case AttachEvent(id) => Nothing(v.(slots := v.slots[i := h.(hasChild := true)]), 0, id)
    case _ => Nothing(v, 0, 0)
  }

  function Step(c: Config, v: View, e: Event): Result {
    match e
    case OpenEvent => OpenedHere(c, v)
    case FrameEvent(incoming) => Decoded(c, v, incoming)
    case FreeEvent(id) => Nothing(v.(slots := Freed(v.slots, id)), 0, id)
    case _ =>
      var i := FirstWithId(v.slots, e.id);
      if i < |v.slots| then Touched(v, i, e) else Nothing(v, 0, e.id)
  }

  function After(c: Config, events: seq<Event>): View
    decreases |events|, 1
  {
    if events == [] then Begin(c) else Last(c, events).view
  }

  /** The last step of a run. */
  function Last(c: Config, events: seq<Event>): Result
    requires events != []
    decreases |events|, 0
  {
    Step(c, After(c, events[..|events| - 1]), events[|events| - 1])
  }

  /** The payloads accepted for stream `id`, in order. */
  function Taken(c: Config, events: seq<Event>, id: nat): Bytes {
    if events == [] then []
    else Taken(c, events[..|events| - 1], id) + if Last(c, events).id == id then Last(c, events).took else []
  }

  /** The bytes consumed from the queue of stream `id`, in order. */
  function Given(c: Config, events: seq<Event>, id: nat): Bytes {
    if events == [] then []
    else Given(c, events[..|events| - 1], id) + if Last(c, events).id == id then Last(c, events).gave else []
  }

  /** The frame opens a stream from the other side. */
  predicate Starts(c: Config, v: View, incoming: Bytes) {
    && |incoming| >= HEADER_SIZE
    && var f := ParseFrame(incoming);
       (f.version == 0 && f.streamid != 0 && FirstOpen(v.slots, f.streamid) == |v.slots| && Syn(f)
        && FromRemote(c.amServer, f.streamid) && Opening(c.backlog, v.slots).Some?)
  }

  /** The id under which an event opens a stream, if it does. */
  function OpensId(c: Config, v: View, e: Event): Option<nat> {
    if e.OpenEvent? && Opening(c.backlog, v.slots).Some? then Some(v.nextid)
    else if e.FrameEvent? && Starts(c, v, e.incoming) then Some(ParseFrame(e.incoming).streamid)
    else None
  }

  function Used(c: Config, events: seq<Event>): set<nat> {
    if events == [] then {}
    else
      var before := events[..|events| - 1];
      var id := OpensId(c, After(c, before), events[|events| - 1]);
      Used(c, before) + if id.Some? then {id.value} else {}
  }

  /** No stream is opened under an id that was used before. */
  predicate NoReuse(c: Config, events: seq<Event>) {
    events == [] ||
    var before := events[..|events| - 1];
    var id := OpensId(c, After(c, before), events[|events| - 1]);
    NoReuse(c, before) && (id.Some? ==> id.value !in Used(c, before))
  }

  // ----- what a run keeps

  /** Ids are distinct and were opened, and every stream's account balances. */
  ghost predicate Conserved(c: Config, events: seq<Event>) {
    var slots := After(c, events).slots;
    && (forall i :: 0 <= i < |slots| ==> Taken(c, events, slots[i].id) == Given(c, events, slots[i].id) + slots[i].waiting)
    && (forall i, j :: 0 <= i < j < |slots| ==> slots[i].id != slots[j].id)
    && (forall i :: 0 <= i < |slots| ==> slots[i].id in Used(c, events))
    && (forall id :: id !in Used(c, events) ==> Taken(c, events, id) == [] && Given(c, events, id) == [])
  }

  /** Slot `h` has become `h'`: the same stream, in balance with what the step took and gave. */
  predicate Continues(h: Held, h': Held, r: Result) {
    && h'.id == h.id
    && if h.id == r.id then r.gave + h'.waiting == h.waiting + r.took else h'.waiting == h.waiting
  }

  /** A slot with a stream that the step opened. */
  predicate Begins(h': Held, r: Result) { h'.id == r.id && r.gave + h'.waiting == r.took }

  /** The slots change by continuing, by opening one under a new id, or by losing the last one. */
  ghost predicate Balances(slots: seq<Held>, r: Result, begun: Option<nat>) {
    var slots' := r.view.slots;
    && (begun == None ==>
          && |slots'| <= |slots| && (forall i :: 0 <= i < |slots'| ==> Continues(slots[i], slots'[i], r))
          && ((r.took == [] && r.gave == []) || exists i :: 0 <= i < |slots| && slots[i].id == r.id))
    && (begun.Some? ==> begun.value == r.id && exists i: nat :: BeginsAt(slots, i, r))
  }

  ghost predicate BeginsAt(slots: seq<Held>, i: nat, r: Result) {
    var slots' := r.view.slots;
    && i < |slots'| <= |slots| + 1 && Begins(slots'[i], r)
    && forall k :: 0 <= k < |slots'| && k != i ==> k < |slots| && Continues(slots[k], slots'[k], r)
  }

  lemma Regroup(given: Bytes, bytes: Bytes, took: Bytes, gave: Bytes, rest: Bytes)
    requires gave + rest == bytes + took
    ensures (given + bytes) + took == (given + gave) + rest
  {
    assert (given + bytes) + took == given + (bytes + took);
    assert (given + gave) + rest == given + (gave + rest);
  }

  /** The account of one stream after a step. */
  lemma AccountOf(c: Config, events: seq<Event>, e: Event, id: nat)
    ensures var r := Step(c, After(c, events), e);
            && After(c, events + [e]) == r.view
            && Taken(c, events + [e], id) == Taken(c, events, id) + (if r.id == id then r.took else [])
            && Given(c, events + [e], id) == Given(c, events, id) + (if r.id == id then r.gave else [])
    ensures var begun := OpensId(c, After(c, events), e);
            Used(c, events + [e]) == Used(c, events) + if begun.Some? then {begun.value} else {}
  {
    assert (events + [e])[..|events|] == events;
  }

  lemma KeepsAccounts(c: Config, events: seq<Event>, e: Event)
    requires Conserved(c, events)
    requires var v := After(c, events); Balances(v.slots, Step(c, v, e), OpensId(c, v, e))
    requires OpensId(c, After(c, events), e).Some? ==> OpensId(c, After(c, events), e).value !in Used(c, events)
    ensures Conserved(c, events + [e])
  {
    hide Step, After, Taken, Given, Used, OpensId;
    var v, all := After(c, events), events + [e];
    var r := Step(c, v, e);
    AccountOf(c, events, e, 0);
    var slots' := r.view.slots;
    assert AreDistinct(slots') by { StaysDistinct(v.slots, r, OpensId(c, v, e), Used(c, events)); }
    forall i | 0 <= i < |slots'|
      ensures Taken(c, all, slots'[i].id) == Given(c, all, slots'[i].id) + slots'[i].waiting
      ensures slots'[i].id in Used(c, all)
    {
      var id := slots'[i].id;
      AccountOf(c, events, e, id);
      if i < |v.slots| && Continues(v.slots[i], slots'[i], r) && id == r.id {
        Regroup(Given(c, events, id), v.slots[i].waiting, r.took, r.gave, slots'[i].waiting);
      }
    }
    forall id | id !in Used(c, all)
      ensures Taken(c, all, id) == [] && Given(c, all, id) == []
    {
      AccountOf(c, events, e, id);
    }
  }

  predicate AreDistinct(slots: seq<Held>) { forall i, j :: 0 <= i < j < |slots| ==> slots[i].id != slots[j].id }

  lemma StaysDistinct(slots: seq<Held>, r: Result, begun: Option<nat>, used: set<nat>)
    requires AreDistinct(slots) && Balances(slots, r, begun) && forall i :: 0 <= i < |slots| ==> slots[i].id in used
    requires begun.Some? ==> begun.value !in used
    ensures AreDistinct(r.view.slots)
  {
  }

  /** Where a slot stands: nothing but states and flags has changed. */
  predicate SameAccount(h: Held, h': Held) { h'.id == h.id && h'.waiting == h.waiting && h'.alive == h.alive && h'.hasChild == h.hasChild }

  lemma AnnouncedKeeps(slots: seq<Held>, i: nat)
    requires i < |slots|
    ensures forall k :: 0 <= k < |slots| ==> SameAccount(slots[k], Announced(slots, i)[k])
  {
  }

  /** The frame that opens a stream goes to the first slot with its id; no other queue changes. */
  lemma GreetedKeeps(valid: Bytes -> bool, slots: seq<Held>, i: nat, f: Frame, payload: Bytes)
    requires i < |slots| && FirstWithId(slots, f.streamid) < |slots|
    ensures var r, k := Greeted(valid, slots, i, f, payload), FirstWithId(slots, f.streamid);
            && (forall j :: 0 <= j < |slots| && j != k ==> SameAccount(slots[j], r[j]))
            && r[k].id == slots[k].id && r[k].alive == slots[k].alive
            && HandedOn(valid, slots[k], Carried(f, payload)) + r[k].waiting == slots[k].waiting + Carried(f, payload)
  {
    hide FirstWithId, Announced, Carried, HandedOn, Processed, SameAccount;
    var k := FirstWithId(slots, f.streamid);
    var h := Processed(valid, slots[k].(state := SynRecv, window := 0), f, payload);
    var received := slots[k := h];
    var marked := received[i := received[i].(channelState := SynRecv)];
    var r := Greeted(valid, slots, i, f, payload);
    MarkedKeeps(received, i);
    AnnouncedKeeps(marked, i);
    forall j | 0 <= j < |slots|
      ensures SameAccount(received[j], r[j])
    {
      SameTransitive(received[j], marked[j], r[j]);
    }
    ReceivedKeeps(valid, slots[k], f, payload, r[k]);
  }

  lemma MarkedKeeps(slots: seq<Held>, i: nat)
    requires i < |slots|
    ensures forall j :: 0 <= j < |slots| ==> SameAccount(slots[j], slots[i := slots[i].(channelState := SynRecv)][j])
  {
  }

  lemma SameTransitive(x: Held, y: Held, z: Held)
    requires SameAccount(x, y) && (SameAccount(y, z) || y == z)
    ensures SameAccount(x, z)
  {
  }

  lemma ReceivedKeeps(valid: Bytes -> bool, h: Held, f: Frame, payload: Bytes, r: Held)
    requires SameAccount(Processed(valid, h.(state := SynRecv, window := 0), f, payload), r)
    ensures r.id == h.id && r.alive == h.alive
    ensures HandedOn(valid, h, Carried(f, payload)) + r.waiting == h.waiting + Carried(f, payload)
  {
    hide Processed, HandedOn, Carried;
    ProcessedKeeps(valid, h.(state := SynRecv, window := 0), f, payload);
    SameHanding(valid, h, h.(state := SynRecv, window := 0), Carried(f, payload));
  }

  lemma ProcessedKeeps(valid: Bytes -> bool, h: Held, f: Frame, payload: Bytes)
    ensures var r := Processed(valid, h, f, payload);
            r.id == h.id && r.alive == h.alive && r.hasChild == h.hasChild
  {
  }

  lemma SameHanding(valid: Bytes -> bool, h: Held, h': Held, carried: Bytes)
    requires SameAccount(h, h')
    ensures HandedOn(valid, h, carried) == HandedOn(valid, h', carried)
  {
  }

  lemma StepBalances(c: Config, v: View, e: Event)
    requires AreDistinct(v.slots)
    requires var begun := OpensId(c, v, e);
             begun.Some? ==> forall i :: 0 <= i < |v.slots| ==> v.slots[i].id != begun.value
    ensures Balances(v.slots, Step(c, v, e), OpensId(c, v, e))
  {
    match e
    case OpenEvent =>
      if Opening(c.backlog, v.slots).Some? { assert BeginsAt(v.slots, Opening(c.backlog, v.slots).value, Step(c, v, e)); }
    case FrameEvent(incoming) => FrameBalances(c, v, incoming);
    case FreeEvent(_) =>
    case _ => ChannelBalances(c, v, e);
  }

  lemma ChannelBalances(c: Config, v: View, e: Event)
    requires AreDistinct(v.slots) && (e.ReadEvent? || e.SendEvent? || e.AttachEvent?)
    ensures Balances(v.slots, Step(c, v, e), None)
  {
    hide Announced, FirstWithId;
    var i := FirstWithId(v.slots, e.id);
    if i < |v.slots| { AnnouncedKeeps(v.slots, i); }
  }

  lemma FrameBalances(c: Config, v: View, incoming: Bytes)
    requires AreDistinct(v.slots)
    requires Starts(c, v, incoming) ==> forall i :: 0 <= i < |v.slots| ==> v.slots[i].id != ParseFrame(incoming).streamid
    ensures Balances(v.slots, Decoded(c, v, incoming), if Starts(c, v, incoming) then Some(ParseFrame(incoming).streamid) else None)
  {
    hide ParseFrame, FirstOpen, Opening, Carried, HandedOn, Widened, FirstWithId, Greeted;
    if Starts(c, v, incoming) {
      StartBalances(c, v, ParseFrame(incoming), incoming[HEADER_SIZE..]);
    } else if |incoming| >= HEADER_SIZE {
      var f, payload := ParseFrame(incoming), incoming[HEADER_SIZE..];
      var i := FirstOpen(v.slots, f.streamid);
      if i < |v.slots| && Flagged(v.slots[i].state, f).Some? {
        SameHanding(c.valid, v.slots[i], v.slots[i].(state := Flagged(v.slots[i].state, f).value), Carried(f, payload));
      }
    }
  }

  lemma StartBalances(c: Config, v: View, f: Frame, payload: Bytes)
    requires AreDistinct(v.slots) && Opening(c.backlog, v.slots).Some?
    requires forall i :: 0 <= i < |v.slots| ==> v.slots[i].id != f.streamid
    ensures Balances(v.slots, Started(c, v, f, payload), Some(f.streamid))
  {
    hide Carried, HandedOn, Greeted, Opening;
    var i := Opening(c.backlog, v.slots).value;
    var slots := Placed(v.slots, i, Fresh(f.streamid));
    GreetedKeeps(c.valid, slots, i, f, payload);
    assert [] + Carried(f, payload) == Carried(f, payload);
    assert BeginsAt(v.slots, i, Started(c, v, f, payload));
  }

  /**
   In every run that uses no id twice, what was consumed from a channel and what waits there are
   the payloads accepted for its id, in order.
   */
  lemma {:induction false} AccountsBalance(c: Config, events: seq<Event>)
    requires NoReuse(c, events)
    ensures Conserved(c, events)
  {
    if events != [] {
      hide Step, Taken, Given, Used, OpensId, Balances, After, NoReuse, Conserved;
      var before, e := events[..|events| - 1], events[|events| - 1];
      UsesOnce(c, before, e);
      assert events == before + [e];
      AccountsBalance(c, before);
      OneMoreStep(c, before, e);
    } else {
      NothingYet(c);
    }
  }

  lemma NothingYet(c: Config)
    ensures Conserved(c, [])
  {
  }

  lemma UsesOnce(c: Config, before: seq<Event>, e: Event)
    requires NoReuse(c, before + [e])
    ensures NoReuse(c, before)
    ensures OpensId(c, After(c, before), e).Some? ==> OpensId(c, After(c, before), e).value !in Used(c, before)
  {
    assert (before + [e])[..|before|] == before;
  }

  lemma OneMoreStep(c: Config, before: seq<Event>, e: Event)
    requires Conserved(c, before)
    requires OpensId(c, After(c, before), e).Some? ==> OpensId(c, After(c, before), e).value !in Used(c, before)
    ensures Conserved(c, before + [e])
  {
    hide Step, Taken, Given, Used, OpensId, Balances, After;
    StepBalances(c, After(c, before), e);
    KeepsAccounts(c, before, e);
  }

  lemma {:induction false} AllLive(slots: seq<Held>)
    ensures Live(slots) == |slots| <==> FirstDead(slots) == |slots|
  {
    if slots != [] {
      AllLive(slots[..|slots| - 1]);
      assert forall k :: 0 <= k < |slots| - 1 ==> slots[..|slots| - 1][k] == slots[k];
    }
  }

  /** Never more slots than the backlog, and no room for a stream exactly when all of them are live. */
  lemma {:induction false} SlotsBounded(c: Config, events: seq<Event>)
    ensures |After(c, events).slots| <= c.backlog
    ensures Opening(c.backlog, After(c, events).slots) == None <==> Live(After(c, events).slots) == c.backlog
  {
    if events != [] {
      SlotsBounded(c, events[..|events| - 1]);
      StepBounded(c, After(c, events[..|events| - 1]), events[|events| - 1]);
    }
    AllLive(After(c, events).slots);
  }

  lemma StepBounded(c: Config, v: View, e: Event)
    requires |v.slots| <= c.backlog
    ensures |Step(c, v, e).view.slots| <= c.backlog
  {
  }

  /** The frame meets an open stream that its flags suit, or opens one. */
  predicate Accepted(c: Config, v: View, incoming: Bytes) {
    && |incoming| >= HEADER_SIZE
    && var f := ParseFrame(incoming);
       var i := FirstOpen(v.slots, f.streamid);
       ((f.version == 0 && f.streamid != 0 && i < |v.slots| && Flagged(v.slots[i].state, f).Some?) || Starts(c, v, incoming))
  }

  /** What a frame carries is taken exactly if the frame is accepted, and for the stream that it names. */
  lemma FrameIsTakenIff(c: Config, v: View, incoming: Bytes)
    ensures var r := Decoded(c, v, incoming);
            if Accepted(c, v, incoming)
            then r.id == ParseFrame(incoming).streamid && r.took == Carried(ParseFrame(incoming), incoming[HEADER_SIZE..])
            else r.took == [] && r.gave == [] && r.view.slots == v.slots
  {
  }

  // ----- an id used twice

  /**
   A frame that opens a stream reaches the new channel if and only if no slot below the one chosen
   for it holds the id.  Otherwise it reaches the first of those, whose stream is live but closed.
   */
  lemma OpeningFrameArrivesIff(c: Config, v: View, f: Frame, payload: Bytes)
    requires Opening(c.backlog, v.slots).Some? && FirstOpen(v.slots, f.streamid) == |v.slots|
    ensures var i := Opening(c.backlog, v.slots).value;
            var slots := Placed(v.slots, i, Fresh(f.streamid));
            var k, r := FirstWithId(slots, f.streamid), Started(c, v, f, payload);
            && (k == i <==> forall j :: 0 <= j < i ==> v.slots[j].id != f.streamid)
            && k <= i && |r.view.slots| == |slots|
            && r.gave + r.view.slots[k].waiting == slots[k].waiting + Carried(f, payload)
            && (forall j :: 0 <= j < |slots| && j != k ==> SameAccount(slots[j], r.view.slots[j]))
            && (k != i ==> v.slots[k].alive && v.slots[k].state == Closed && r.view.slots[i].waiting == [])
            && (Carried(f, payload) != [] && r.gave == [] ==> (r.view.slots[i].waiting == Carried(f, payload) <==> k == i))
  {
    hide Carried, HandedOn, Greeted;
    var i := Opening(c.backlog, v.slots).value;
    var slots := Placed(v.slots, i, Fresh(f.streamid));
    GreetedKeeps(c.valid, slots, i, f, payload);
    assert [] + Carried(f, payload) == Carried(f, payload);
  }

  function Opens(events: seq<Event>): nat {
    if events == [] then 0 else Opens(events[..|events| - 1]) + if events[|events| - 1].OpenEvent? then 1 else 0
  }

  /** The ids that a session gives to its own streams are the odd or the even numbers in turn, modulo 2^32, whatever the other side sends. */
  lemma {:induction false} OwnIds(c: Config, events: seq<Event>)
    ensures After(c, events).nextid == ((if c.amServer then 2 else 1) + 2 * Opens(events)) % 0x1_0000_0000
  {
    hide Decoded, Announced;
    if events != [] {
      var init := events[..|events| - 1];
      OwnIds(c, init);
      StepId(c, After(c, init), events[|events| - 1]);
      NextOfIds((if c.amServer then 2 else 1) + 2 * Opens(init));
    }
  }

  lemma StepId(c: Config, v: View, e: Event)
    ensures Step(c, v, e).view.nextid == if e.OpenEvent? then (v.nextid + 2) % U32 else v.nextid
  {
    hide ParseFrame, Processed, Greeted, Announced, Freed, Placed;
  }

  lemma NextOfIds(n: nat)
    ensures (n % U32 + 2) % U32 == (n + 2) % U32
  {
  }

  /** A frame with a one-byte flag, id and length. */
  function Wire(flags: Byte, id: Byte, payload: Bytes): Bytes
    requires |payload| < 256
  {
    [0, 0, 0, flags, 0, 0, 0, id, 0, 0, 0, |payload|] + payload
  }

  lemma {:induction false} SmallNumber(zeros: Bytes, b: Byte)
    requires forall k :: 0 <= k < |zeros| ==> zeros[k] == 0
    ensures Val(256, zeros + [b]) == b
  {
    ValZeros(256, zeros);
    assert (zeros + [b])[..|zeros|] == zeros;
  }

  lemma ParseWire(flags: Byte, id: Byte, payload: Bytes)
    requires |payload| < 256
    ensures var w := Wire(flags, id, payload);
            |w| >= HEADER_SIZE && ParseFrame(w) == Frame(0, Data, flags, id, |payload|) && w[HEADER_SIZE..] == payload
  {
    var w := Wire(flags, id, payload);
    SmallNumber([0], flags);
    SmallNumber([0, 0, 0], id);
    SmallNumber([0, 0, 0], |payload|);
    assert w[2] == 0 && w[3] == flags;
    assert w[2..4] == [0] + [flags];
    assert w[4] == w[5] == w[6] == 0 && w[7] == id;
    assert w[4..8] == [0, 0, 0] + [id];
    assert w[8] == w[9] == w[10] == 0 && w[11] == |payload|;
    assert w[8..12] == [0, 0, 0] + [|payload|];
  }

  /** An acknowledgement (2) establishes a stream whose opening was sent, with its payload; any other open stream refuses it. */
  lemma AckEstablishes(c: Config, v: View, id: Byte, payload: Bytes)
    requires |payload| < 256 && id != 0 && FirstOpen(v.slots, id) < |v.slots|
    ensures var i, r := FirstOpen(v.slots, id), Step(c, v, FrameEvent(Wire(2, id, payload)));
            if v.slots[i].state == SynSent
            then |r.view.slots| == |v.slots| && r.view.slots[i].state == Est && r.took == payload && r.rc >= 0
            else r.view == v && r.rc == -71 && r.took == []
  {
    ParseWire(2, id, payload);
    hide ParseFrame, Wire, HandedOn, Decoded;
    var w, f := Wire(2, id, payload), Frame(0, Data, 2, id, |payload|);
    OpenIsDelivered(c, v, w, f);
    assert w[HEADER_SIZE..] == payload && Step(c, v, FrameEvent(w)) == Decoded(c, v, w);
    assert !Rst(f) && !Fin(f) && Ack(f);
  }

  lemma OpenIsDelivered(c: Config, v: View, w: Bytes, f: Frame)
    requires |w| >= HEADER_SIZE && ParseFrame(w) == f && f.version == 0 && f.streamid != 0
    requires FirstOpen(v.slots, f.streamid) < |v.slots|
    ensures Decoded(c, v, w) == Delivered(c, v, FirstOpen(v.slots, f.streamid), f, w[HEADER_SIZE..])
  {
    hide ParseFrame, Delivered, FirstOpen;
  }

  /** FIN (4) and RST (8) close an open stream in any state; what came with them is still taken. */
  lemma FinAndRstClose(c: Config, v: View, flags: Byte, id: Byte, payload: Bytes)
    requires flags in [4, 8] && |payload| < 256 && id != 0 && FirstOpen(v.slots, id) < |v.slots|
    ensures var i, r := FirstOpen(v.slots, id), Step(c, v, FrameEvent(Wire(flags, id, payload)));
            |r.view.slots| == |v.slots| && r.view.slots[i].state == Closed && !Open(r.view.slots[i]) && r.took == payload
  {
    ParseWire(flags, id, payload);
    hide ParseFrame, Wire, HandedOn;
  }

  /** There is a slot that is not live, or one more may be used. */
  ghost predicate HasRoom(c: Config, v: View) {
    exists i: nat :: RoomAt(c, v, i)
  }

  predicate RoomAt(c: Config, v: View, i: nat) {
    i < c.backlog && i <= |v.slots| && (i < |v.slots| ==> !v.slots[i].alive)
  }

  lemma RoomMeansOpening(c: Config, v: View)
    ensures HasRoom(c, v) <==> Opening(c.backlog, v.slots).Some?
  {
    var i := FirstDead(v.slots);
    if Opening(c.backlog, v.slots).Some? { assert RoomAt(c, v, i); }
  }

  /** Without an open stream of its id a frame does nothing, unless it is a SYN (1) with an id of the other side and there is room. */
  lemma SynOpensIff(c: Config, v: View, flags: Byte, id: Byte, payload: Bytes)
    requires |payload| < 256 && id != 0 && FirstOpen(v.slots, id) == |v.slots|
    ensures var r := Step(c, v, FrameEvent(Wire(flags, id, payload)));
            if flags % 2 == 1 && id % 2 == (if c.amServer then 1 else 0) && HasRoom(c, v)
            then Live(r.view.slots) == Live(v.slots) + 1 && r.took == payload && r.rc == 0
            else r.view == v && r.took == []
  {
    hide ParseFrame, Wire, HasRoom, Opening, Started, Val, Decoded;
    ParseWire(flags, id, payload);
    RoomMeansOpening(c, v);
    var f := Frame(0, Data, flags, id, |payload|);
    StartedIff(c, v, f, payload);
    var w := Wire(flags, id, payload);
    WithoutOpen(c, v, w, f);
    assert w[HEADER_SIZE..] == payload && Step(c, v, FrameEvent(w)) == Decoded(c, v, w);
  }

  lemma WithoutOpen(c: Config, v: View, w: Bytes, f: Frame)
    requires |w| >= HEADER_SIZE && ParseFrame(w) == f && f.version == 0 && f.streamid != 0
    requires FirstOpen(v.slots, f.streamid) == |v.slots|
    ensures Decoded(c, v, w)
         == if f.flags % 2 == 0 then Nothing(v, -EPROTO, f.streamid)
            else if f.streamid % 2 != (if c.amServer then 1 else 0) then Nothing(v, 0, f.streamid)
            else Started(c, v, f, w[HEADER_SIZE..])
  {
    hide ParseFrame, Started, FirstOpen;
  }

  lemma StartedIff(c: Config, v: View, f: Frame, payload: Bytes)
    requires f.kind == Data && f.length == |payload|
    ensures var r := Started(c, v, f, payload);
            if Opening(c.backlog, v.slots).Some?
            then Live(r.view.slots) == Live(v.slots) + 1 && r.took == payload && r.rc == 0
            else r.view == v && r.took == []
  {
    hide Greeted, Live, HandedOn;
    var i := FirstDead(v.slots);
    if Opening(c.backlog, v.slots).Some? {
      LivePlaced(v.slots, i, Fresh(f.streamid));
      LiveGreeted(c.valid, Placed(v.slots, i, Fresh(f.streamid)), i, f, payload);
    }
  }

  lemma LiveGreeted(valid: Bytes -> bool, slots: seq<Held>, i: nat, f: Frame, payload: Bytes)
    requires i < |slots| && FirstWithId(slots, f.streamid) < |slots| && f.kind == Data
    ensures Live(Greeted(valid, slots, i, f, payload)) == Live(slots)
  {
    var k := FirstWithId(slots, f.streamid);
    var h := Processed(valid, slots[k].(state := SynRecv, window := 0), f, payload);
    var received := slots[k := h];
    LiveChange(slots, k, h);
    LiveChange(received, i, received[i].(channelState := SynRecv));
  }

  lemma ClientSends(c: Config)
    requires c.backlog > 0 && !c.amServer
    ensures var syn := Step(c, Step(c, Begin(c), OpenEvent).view, SendEvent(1));
            syn.rc == 1 && syn.view.slots == [Fresh(1).(channelState := SynSent, state := SynSent)]
  {
    assert Placed([], 0, Fresh(1)) == [Fresh(1)];
  }

  lemma ServerAnswers(d: Config)
    requires d.backlog > 0 && d.amServer
    ensures var ack := Step(d, Step(d, Begin(d), FrameEvent(Wire(1, 1, []))).view, SendEvent(1));
            ack.rc == 2 && ack.view.slots == [Held(true, 1, Est, 0, Est, false, [])]
  {
    ServerReceives(d);
    hide Wire;
    ServerAcks(d, Step(d, Begin(d), FrameEvent(Wire(1, 1, []))).view);
  }

  lemma ServerReceives(d: Config)
    requires d.backlog > 0 && d.amServer
    ensures Step(d, Begin(d), FrameEvent(Wire(1, 1, []))).view.slots == [Held(true, 1, SynRecv, 0, SynRecv, false, [])]
  {
    ParseWire(1, 1, []);
    hide ParseFrame, Wire;
    assert Placed([], 0, Fresh(1)) == [Fresh(1)];
  }

  lemma ServerAcks(d: Config, v: View)
    requires v.slots == [Held(true, 1, SynRecv, 0, SynRecv, false, [])]
    ensures var ack := Step(d, v, SendEvent(1));
            ack.rc == 2 && ack.view.slots == [Held(true, 1, Est, 0, Est, false, [])]
  {
  }

  /** Client and server: the flags that one side's sends return make the other side's frames, and both ends of stream 1 are established. */
  lemma SessionsConnect(c: Config, d: Config)
    requires c.backlog > 0 && d.backlog > 0 && !c.amServer && d.amServer
    ensures var syn := Step(c, Step(c, Begin(c), OpenEvent).view, SendEvent(1));
            var ack := Step(d, Step(d, Begin(d), FrameEvent(Wire(1, 1, []))).view, SendEvent(1));
            var answered := Step(c, syn.view, FrameEvent(Wire(2, 1, [])));
            && syn.rc == 1 && ack.rc == 2
            && |answered.view.slots| == 1 && answered.view.slots[0].state == Est
            && |ack.view.slots| == 1 && ack.view.slots[0].state == Est
  {
    hide Step, Wire;
    ClientSends(c);
    ServerAnswers(d);
    AckEstablishes(c, Step(c, Step(c, Begin(c), OpenEvent).view, SendEvent(1)).view, 1, []);
  }

  const TwoSlots: Config := Config(2, true, false, _ => false)

  lemma FirstSyn()
    ensures Step(TwoSlots, Begin(TwoSlots), FrameEvent(Wire(1, 1, []))).view == View([Held(true, 1, SynRecv, 0, SynRecv, false, [])], 2, false)
  {
    ParseWire(1, 1, []);
    var slots := [Fresh(1)];
    assert Placed([], 0, Fresh(1)) == slots;
    hide ParseFrame, Wire;
  }

  lemma ThenReset(v: View)
    requires v == View([Held(true, 1, SynRecv, 0, SynRecv, false, [])], 2, false)
    ensures Step(TwoSlots, v, FrameEvent(Wire(8, 1, []))).view == View([Held(true, 1, Closed, 0, SynRecv, false, [])], 2, false)
  {
    ParseWire(8, 1, []);
    hide ParseFrame, Wire;
  }

  lemma ThenSynAgain(v: View)
    requires v == View([Held(true, 1, Closed, 0, SynRecv, false, [])], 2, false)
    ensures Step(TwoSlots, v, FrameEvent(Wire(1, 1, [7]))).view.slots
         == [Held(true, 1, SynRecv, 0, SynRecv, false, [7]), Held(true, 1, Inited, DEFAULT_WINDOW, SynRecv, false, [])]
  {
    ParseWire(1, 1, [7]);
    assert FirstDead(v.slots) == 1;
    var slots := [v.slots[0], Fresh(1)];
    assert Placed(v.slots, 1, Fresh(1)) == slots && FirstWithId(slots, 1) == 0;
    hide ParseFrame, Wire;
    var f := Frame(0, Data, 1, 1, 1);
    assert Carried(f, [7]) == [7] && [] + [7 as Byte] == [7];
    assert Step(TwoSlots, v, FrameEvent(Wire(1, 1, [7]))) == Started(TwoSlots, v, f, [7]);
    assert Greeted(TwoSlots.valid, slots, 1, f, [7])
        == [slots[0].(state := SynRecv, waiting := [7]), slots[1].(channelState := SynRecv)];
  }

  /** A stream is opened, reset, and opened again under the same id: the second payload waits at the channel that was reset. */
  lemma ResetChannelIsReached()
    ensures var events := [FrameEvent(Wire(1, 1, [])), FrameEvent(Wire(8, 1, [])), FrameEvent(Wire(1, 1, [7]))];
            After(TwoSlots, events).slots
            == [Held(true, 1, SynRecv, 0, SynRecv, false, [7]), Held(true, 1, Inited, DEFAULT_WINDOW, SynRecv, false, [])]
  {
    hide Step, Wire;
    var e1, e2, e3 := FrameEvent(Wire(1, 1, [])), FrameEvent(Wire(8, 1, [])), FrameEvent(Wire(1, 1, [7]));
    FirstSyn();
    ThenReset(Step(TwoSlots, Begin(TwoSlots), e1).view);
    assert [e1, e2, e3][..2] == [e1, e2] && [e1, e2][..1] == [e1] && [e1][..0] == [];
    assert After(TwoSlots, [e1][..0]) == Begin(TwoSlots);
    assert After(TwoSlots, [e1]) == Step(TwoSlots, After(TwoSlots, [e1][..0]), e1).view;
    assert After(TwoSlots, [e1, e2]) == Step(TwoSlots, After(TwoSlots, [e1]), e2).view;
    ThenSynAgain(After(TwoSlots, [e1, e2]));
  }

  lemma {:induction false} LiveChange(slots: seq<Held>, i: nat, h: Held)
    requires i < |slots|
    ensures Live(slots[i := h]) == Live(slots) + (if h.alive then 1 else 0) - (if slots[i].alive then 1 else 0)
  {
    var init := slots[..|slots| - 1];
    if i == |slots| - 1 {
      assert slots[i := h][..|slots| - 1] == init;
    } else {
      LiveChange(init, i, h);
      assert slots[i := h][..|slots| - 1] == init[i := h];
    }
  }

  lemma LivePlaced(slots: seq<Held>, i: nat, h: Held)
    requires i <= |slots| && h.alive && (i < |slots| ==> !slots[i].alive)
    ensures Live(Placed(slots, i, h)) == Live(slots) + 1
  {
    if i == |slots| { assert Placed(slots, i, h)[..i] == slots; } else { LiveChange(slots, i, h); }
  }

  lemma LiveDropped(slots: seq<Held>)
    requires slots != []
    ensures Live(slots[..|slots| - 1]) == Live(slots) - if slots[|slots| - 1].alive then 1 else 0
  {
  }

  lemma FirstLiveIs(slots: seq<Held>, id: nat, i: nat)
    requires i <= |slots| && (i < |slots| ==> slots[i].alive && slots[i].id == id)
    requires forall k :: 0 <= k < i ==> !(slots[k].alive && slots[k].id == id)
    ensures FirstLive(slots, id) == i
  {
  }

  lemma FirstDeadIs(slots: seq<Held>, i: nat)
    requires i <= |slots| && (i < |slots| ==> !slots[i].alive) && forall k :: 0 <= k < i ==> slots[k].alive
    ensures FirstDead(slots) == i
  {
  }

  lemma FirstWithIdIs(slots: seq<Held>, id: nat, i: nat)
    requires i <= |slots| && (i < |slots| ==> slots[i].id == id) && forall k :: 0 <= k < i ==> slots[k].id != id
    ensures FirstWithId(slots, id) == i
  {
  }

  lemma FirstOpenIs(slots: seq<Held>, id: nat, i: nat)
    requires i <= |slots| && (i < |slots| ==> Open(slots[i]) && slots[i].id == id)
    requires forall k :: 0 <= k < i ==> !(Open(slots[k]) && slots[k].id == id)
    ensures FirstOpen(slots, id) == i
  {
  }

  /** The two steps of the code: the window first, then the bytes if there are any to take. */
  lemma ProcessedIs(valid: Bytes -> bool, h: Held, f: Frame, payload: Bytes)
    ensures var was, taken := h.(window := Widened(f, h.window)), f.kind == WindowUpdate || (f.kind == Data && |payload| == f.length);
            && Carried(f, payload) == (if taken then payload else [])
            && HandedOn(valid, h, Carried(f, payload)) == HandedOn(valid, was, Carried(f, payload))
            && (Carried(f, payload) == [] ==> Processed(valid, h, f, payload) == was && HandedOn(valid, h, []) == [])
            && (Carried(f, payload) != [] ==>
                  Processed(valid, h, f, payload) == was.(waiting := if HandedOn(valid, was, payload) != [] then [] else was.waiting + payload))
  {
    assert h.waiting + [] == h.waiting;
  }

  lemma Rewritten<T>(s: seq<T>, i: nat, x: T, y: T)
    requires i < |s|
    ensures s[i := x][i] == x && s[i := x][i := y] == s[i := y]
  {
  }

  // ----- the session

  datatype Stream = Stream(id: nat, state: State, window: nat, channelState: State, hasChild: bool, buffer: ThreadsafeBuffer)

  datatype Slot = Slot(alive: bool, stream: Option<Stream>)

  ghost function HeldBy(s: Slot): Held
    requires s.stream.Some?
    reads s.stream.value.buffer
  {
    var t := s.stream.value;
    Held(s.alive, t.id, t.state, t.window, t.channelState, t.hasChild, t.buffer.buffer)
  }

  /** The first `cap` slots have streams with queues of their own; the others are not live. */
  ghost predicate SlotsOk(slots: seq<Slot>, cap: nat) {
    && cap <= |slots|
    && (forall i :: 0 <= i < cap ==> slots[i].stream.Some?)
    && (forall i :: cap <= i < |slots| ==> !slots[i].alive)
    && (forall i, j :: 0 <= i < j < cap ==> slots[i].stream.value.buffer != slots[j].stream.value.buffer)
  }

  lemma OccupiedOk(slots: seq<Slot>, cap: nat, i: nat, slot: Slot)
    requires SlotsOk(slots, cap) && i <= cap && i < |slots| && slot.stream.Some?
    requires forall k :: 0 <= k < cap ==> slots[k].stream.value.buffer != slot.stream.value.buffer
    ensures SlotsOk(slots[i := slot], if i == cap then cap + 1 else cap)
  {
  }

  class Session {
    const amServer: bool
    const hasPong: bool
    const valid: Bytes -> bool         // is this a protocol that a handler understands?
    const streams: array<Slot>         // as many as `accept_backlog`
    var nextid: nat
    var numStreams: nat
    var capStreams: nat
    var closed: bool

    ghost predicate Shaped()
      reads this, streams
    {
      SlotsOk(streams[..], capStreams) && nextid < U32
    }

    /** The byte queues of the slots below `capStreams`. */
    ghost function Buffers(): (q: seq<ThreadsafeBuffer>)
      requires Shaped()
      reads this, streams
      ensures |q| == capStreams && forall i :: 0 <= i < capStreams ==> q[i] == streams[i].stream.value.buffer
    {
      FirstBuffers(capStreams)
    }

    ghost function FirstBuffers(n: nat): (q: seq<ThreadsafeBuffer>)
      requires Shaped() && n <= capStreams
      reads this, streams
      ensures |q| == n && forall i :: 0 <= i < n ==> q[i] == streams[i].stream.value.buffer
    {
      if n == 0 then [] else FirstBuffers(n - 1) + [streams[n - 1].stream.value.buffer]
    }

    ghost function FirstHeld(n: nat): (h: seq<Held>)
      requires Shaped() && n <= capStreams
      reads this, streams, Buffers()
      ensures |h| == n && forall i :: 0 <= i < n ==> h[i] == HeldBy(streams[i])
    {
      if n == 0 then [] else
        assert Buffers()[n - 1] == streams[n - 1].stream.value.buffer;
        FirstHeld(n - 1) + [HeldBy(streams[n - 1])]
    }

    ghost function Seen(): View
      requires Shaped()
      reads this, streams, Buffers()
    {
      View(FirstHeld(capStreams), nextid, closed)
    }

    ghost predicate Valid()
      reads this, streams, if Shaped() then Buffers() else []
    {
      Shaped() && numStreams == Live(Seen().slots)
    }

    ghost function Settings(): Config
    {
      Config(streams.Length, amServer, hasPong, valid)
    }

    /** `yamux_session_new`. */
    constructor (backlog: nat, amServer: bool, hasPong: bool, valid: Bytes -> bool)
      ensures Valid() && fresh(streams) && Buffers() == []
      ensures Settings() == Config(backlog, amServer, hasPong, valid) && Seen() == Begin(Settings())
    {
      this.amServer, this.hasPong, this.valid := amServer, hasPong, valid;
      streams := new Slot[backlog](_ => Slot(false, None));
      nextid := if amServer then 2 else 1;
      numStreams, capStreams, closed := 0, 0, false;
    }

    // Changes of one slot.

    /** Change the stream of slot `i` but not its queue. */
    method SetStream(i: nat, s: Stream)
      requires Valid() && i < capStreams && s.buffer == streams[i].stream.value.buffer
      modifies streams
      ensures Valid() && Buffers() == old(Buffers())
      ensures streams[i] == old(streams[i]).(stream := Some(s))
      ensures Seen() == old(Seen()).(slots := old(Seen()).slots[i := HeldBy(streams[i])])
    {
      hide Live;
      ghost var was := Seen().slots;
      streams[i] := streams[i].(stream := Some(s));
      assert Shaped();
      assert Buffers() == old(Buffers());
      LiveChange(was, i, HeldBy(streams[i]));
      assert Seen().slots == was[i := HeldBy(streams[i])];
    }

    /** Put a new stream into slot `i`. */
    method Occupy(i: nat, id: nat)
      requires Valid() && i <= capStreams && i < streams.Length && !streams[i].alive
      modifies this`numStreams, this`capStreams, streams
      ensures Valid() && i < capStreams && fresh(Buffers()[i])
      ensures Buffers() == if i == old(capStreams) then old(Buffers()) + [Buffers()[i]] else old(Buffers())[i := Buffers()[i]]
      ensures Seen() == old(Seen()).(slots := Placed(old(Seen()).slots, i, Fresh(id)))
    {
      hide Live, SlotsOk;
      ghost var was, queues, slots := Seen().slots, Buffers(), streams[..];
      StreamsThere();
      var buffer := new ThreadsafeBuffer();
      var slot := Slot(true, Some(Stream(id, Inited, DEFAULT_WINDOW, Inited, false, buffer)));
      assert i < |was| ==> was[i] == HeldBy(streams[i]);
      LivePlaced(was, i, Fresh(id));
      assert forall k :: 0 <= k < capStreams ==> queues[k] != buffer;
      OccupiedOk(slots, capStreams, i, slot);
      if i == capStreams { capStreams := capStreams + 1; }
      streams[i] := slot;
      numStreams := numStreams + 1;
      assert streams[..] == slots[i := slot];
      assert Shaped();
      StreamsThere();
      assert Buffers() == if i == |queues| then queues + [buffer] else queues[i := buffer];
      assert Seen().slots == Placed(was, i, Fresh(id));
    }

    lemma StreamsThere()
      requires Shaped()
      ensures capStreams <= streams.Length && forall k :: 0 <= k < capStreams ==> streams[k].stream.Some?
    {
    }

    /** `yamux_stream_free`. */
    method StreamFree(id: nat)
      requires Valid()
      modifies this`numStreams, this`capStreams, streams
      ensures Valid() && Buffers() <= old(Buffers())
      ensures Seen() == old(Seen()).(slots := Freed(old(Seen()).slots, id))
    {
      var i := 0;
      while i < capStreams && !(streams[i].alive && streams[i].stream.value.id == id)
        invariant 0 <= i <= capStreams
        invariant forall k :: 0 <= k < i ==> !(Seen().slots[k].alive && Seen().slots[k].id == id)
      {
        i := i + 1;
      }
      FirstLiveIs(Seen().slots, id, i);
      if i < capStreams { Release(i); }
    }

    /** Give slot `i` back. */
    method Release(i: nat)
      requires Valid() && i < capStreams && streams[i].alive
      modifies this`numStreams, this`capStreams, streams
      ensures Valid() && Buffers() <= old(Buffers())
      ensures var slots := old(Seen()).slots;
              Seen() == old(Seen()).(slots := if i == |slots| - 1 then slots[..i] else slots[i := slots[i].(alive := false)])
    {
      hide Live, SlotsOk;
      ghost var slots := Seen().slots;
      Kill(i);
      if i == capStreams - 1 {
        DropLast();
        assert slots[i := slots[i].(alive := false)][..i] == slots[..i];
      }
    }

    method Kill(i: nat)
      requires Valid() && i < capStreams && streams[i].alive
      modifies this`numStreams, streams
      ensures Valid() && Buffers() == old(Buffers())
      ensures Seen() == old(Seen()).(slots := old(Seen()).slots[i := old(Seen()).slots[i].(alive := false)])
    {
      hide Live;
      ghost var was, queues := Seen().slots, Buffers();
      assert was[i] == HeldBy(streams[i]);
      LiveChange(was, i, was[i].(alive := false));
      streams[i] := streams[i].(alive := false);
      numStreams := numStreams - 1;
      assert Shaped();
      assert Buffers() == queues;
      assert Seen().slots == was[i := was[i].(alive := false)];
    }

    method DropLast()
      requires Valid() && capStreams > 0 && !Seen().slots[capStreams - 1].alive
      modifies this`capStreams
      ensures Valid() && Buffers() <= old(Buffers())
      ensures Seen() == old(Seen()).(slots := old(Seen()).slots[..old(capStreams) - 1])
    {
      hide Live;
      ghost var was, queues := Seen().slots, Buffers();
      assert was[capStreams - 1] == HeldBy(streams[capStreams - 1]);
      LiveDropped(was);
      capStreams := capStreams - 1;
      assert Shaped();
      assert Buffers() == queues[..capStreams];
      assert Seen().slots == was[..capStreams];
    }

    /** What a session is after a change of the queue of slot `i` alone. */
    twostate lemma QueueChanged(i: nat)
      requires old(Valid()) && i < capStreams && unchanged(this) && unchanged(streams)
      requires forall k :: 0 <= k < capStreams && k != i ==> unchanged(streams[k].stream.value.buffer)
      ensures Valid() && Buffers() == old(Buffers())
      ensures var h := old(Seen()).slots[i].(waiting := streams[i].stream.value.buffer.buffer);
              Seen() == old(Seen()).(slots := old(Seen()).slots[i := h])
    {
      hide Live;
      assert Buffers() == old(Buffers());
      var was := old(Seen()).slots;
      var h := was[i].(waiting := streams[i].stream.value.buffer.buffer);
      assert was[i] == old(HeldBy(streams[i]));
      LiveChange(was, i, h);
      assert Seen().slots == was[i := h];
    }

    /** Take bytes from the queue of slot `i`. */
    method ReadFrom(i: nat, size: nat) returns (bytes: Bytes)
      requires Valid() && i < capStreams
      modifies Buffers()
      ensures Valid() && Buffers() == old(Buffers())
      ensures var h := old(Seen()).slots[i];
              && bytes == h.waiting[..Min(size, |h.waiting|)]
              && Seen() == old(Seen()).(slots := old(Seen()).slots[i := h.(waiting := h.waiting[Min(size, |h.waiting|)..])])
    {
      hide Live;
      assert Buffers()[i] == streams[i].stream.value.buffer && Seen().slots[i] == HeldBy(streams[i]);
      bytes := streams[i].stream.value.buffer.Read(size);
      QueueChanged(i);
    }

    /** Put bytes into the queue of slot `i`; a channel without a child stream hands a whole message on. */
    method Enqueue(i: nat, bytes: Bytes) returns (handed: Bytes)
      requires Valid() && i < capStreams && bytes != []
      modifies Buffers()
      ensures Valid() && Buffers() == old(Buffers())
      ensures var h := old(Seen()).slots[i];
              && handed == HandedOn(valid, h, bytes)
              && Seen() == old(Seen()).(slots := old(Seen()).slots[i := h.(waiting := if handed != [] then [] else h.waiting + bytes)])
    {
      hide Live;
      assert Buffers()[i] == streams[i].stream.value.buffer && Seen().slots[i] == HeldBy(streams[i]);
      var s := streams[i].stream.value;
      handed := [];
      var _ := s.buffer.Write(bytes);
      if !s.hasChild {
        var message := s.buffer.Peek(|s.buffer.buffer|);
        assert message == s.buffer.buffer;
        if valid(message) { handed := s.buffer.Read(|message|); }
      }
      QueueChanged(i);
    }

    // The operations.

    /** The first slot below `capStreams` that is not live. */
    method FindDead() returns (i: nat)
      requires Valid()
      ensures Valid() && Seen() == old(Seen()) && Buffers() == old(Buffers()) && i == FirstDead(Seen().slots)
    {
      i := 0;
      while i < capStreams && streams[i].alive
        invariant 0 <= i <= capStreams
        invariant forall k :: 0 <= k < i ==> Seen().slots[k].alive
      {
        i := i + 1;
      }
      FirstDeadIs(Seen().slots, i);
    }

    /** Where a new stream goes: a slot that is not live, or the next one if there is room. */
    method PickSlot() returns (slot: Option<nat>)
      requires Valid()
      ensures Valid() && Seen() == old(Seen()) && Buffers() == old(Buffers())
      ensures slot == Opening(streams.Length, Seen().slots)
      ensures slot.Some? ==> slot.value <= capStreams && slot.value < streams.Length && !streams[slot.value].alive
    {
      hide Live;
      AllLive(Seen().slots);
      assert forall k :: 0 <= k < capStreams ==> Seen().slots[k].alive == streams[k].alive;
      if numStreams != capStreams {
        var i := FindDead();
        return Some(i);
      }
      return if capStreams == streams.Length then None else Some(capStreams);
    }

    /** `yamux_channel_new`. */
    method ChannelNew(wanted: nat) returns (slot: Option<nat>)
      requires Valid()
      modifies this`nextid, this`numStreams, this`capStreams, streams
      ensures Valid() && (forall k :: 0 <= k < capStreams ==> Buffers()[k] in old(Buffers()) || fresh(Buffers()[k]))
      ensures slot == Opening(streams.Length, old(Seen()).slots)
      ensures Seen() == WithNew(old(Seen()), streams.Length, wanted)
    {
      hide Live, SlotsOk, Opening, Placed;
      var id := wanted;
      if id == 0 {
        id := nextid;
        SkipId();
      }
      slot := PlaceNew(id);
    }

    method PlaceNew(id: nat) returns (slot: Option<nat>)
      requires Valid()
      modifies this`numStreams, this`capStreams, streams
      ensures Valid() && (forall k :: 0 <= k < capStreams ==> Buffers()[k] in old(Buffers()) || fresh(Buffers()[k]))
      ensures slot == Opening(streams.Length, old(Seen()).slots)
      ensures Seen() == if slot.None? then old(Seen()) else old(Seen()).(slots := Placed(old(Seen()).slots, slot.value, Fresh(id)))
    {
      hide Live, SlotsOk, Opening, Placed;
      slot := PickSlot();
      if slot.Some? { Occupy(slot.value, id); }
    }

    method SkipId()
      requires Valid()
      modifies this`nextid
      ensures Valid() && Buffers() == old(Buffers()) && Seen() == old(Seen()).(nextid := (old(nextid) + 2) % U32)
    {
      hide Live;
      ghost var v, q := Seen(), Buffers();
      nextid := (nextid + 2) % U32;
      assert Shaped();
      assert Buffers() == q;
      assert Seen().slots == v.slots;
    }

    /** `yamux_get_session_stream`: the first slot with this id, live or not. */
    method GetSessionStream(id: nat) returns (i: nat)
      requires Valid()
      ensures Valid() && Seen() == old(Seen()) && Buffers() == old(Buffers()) && i == FirstWithId(Seen().slots, id)
    {
      i := 0;
      while i < capStreams && streams[i].stream.value.id != id
        invariant 0 <= i <= capStreams
        invariant forall k :: 0 <= k < i ==> Seen().slots[k].id != id
      {
        i := i + 1;
      }
      FirstWithIdIs(Seen().slots, id, i);
    }

    /** The search of `yamux_decode`: it skips streams that are not live or closed. */
    method FindOpen(id: nat) returns (i: nat)
      requires Valid()
      ensures Valid() && Seen() == old(Seen()) && Buffers() == old(Buffers()) && i == FirstOpen(Seen().slots, id)
    {
      i := 0;
      while i < capStreams && !(streams[i].alive && streams[i].stream.value.state != Closed && streams[i].stream.value.id == id)
        invariant 0 <= i <= capStreams
        invariant forall k :: 0 <= k < i ==> !(Open(Seen().slots[k]) && Seen().slots[k].id == id)
      {
        i := i + 1;
      }
      FirstOpenIs(Seen().slots, id, i);
    }

    /** `yamux_stream_process`. */
    method StreamProcess(i: nat, f: Frame, incoming: Bytes) returns (rc: int, handed: Bytes)
      requires Valid() && i < capStreams
      modifies streams, Buffers()
      ensures Valid() && Buffers() == old(Buffers())
      ensures var h := old(Seen()).slots[i];
              && Seen() == old(Seen()).(slots := old(Seen()).slots[i := Processed(valid, h, f, incoming)])
              && handed == HandedOn(valid, h, Carried(f, incoming))
      ensures rc == ProcessCode(f, incoming)
    {
      hide Live, SlotsOk, Widened, Processed, HandedOn, Carried;
      ghost var v := Seen();
      ghost var h := v.slots[i];
      ghost var h1 := h.(window := Widened(f, h.window));
      ProcessedIs(valid, h, f, incoming);
      var s := Look(i);
      Update(i, s.state, Widened(f, s.window), s.channelState, s.hasChild);
      assert Seen() == v.(slots := v.slots[i := h1]);
      if f.kind != WindowUpdate && f.kind != Data { return -EPROTO, []; }
      if |incoming| != f.length && f.kind == Data { return -1, []; }
      if |incoming| == 0 { return 0, []; }
      handed := Enqueue(i, incoming);
      rc := |incoming|;
      Rewritten(v.slots, i, h1, Processed(valid, h, f, incoming));
    }

    /** Change what is known of the stream in slot `i`, apart from its queue. */
    method Update(i: nat, state: State, window: nat, channelState: State, hasChild: bool)
      requires Valid() && i < capStreams
      modifies streams
      ensures Valid() && Buffers() == old(Buffers())
      ensures var h := old(Seen()).slots[i].(state := state, window := window, channelState := channelState, hasChild := hasChild);
              Seen() == old(Seen()).(slots := old(Seen()).slots[i := h])
    {
      hide Live;
      var s := streams[i].stream.value;
      SetStream(i, Stream(s.id, state, window, channelState, hasChild, s.buffer));
    }

    /** The stream in slot `i`, as it is seen. */
    method Look(i: nat) returns (s: Stream)
      requires Valid() && i < capStreams
      ensures Valid() && Seen() == old(Seen()) && Buffers() == old(Buffers())
      ensures var h := Seen().slots[i];
              s.id == h.id && s.state == h.state && s.window == h.window && s.channelState == h.channelState && s.hasChild == h.hasChild
    {
      assert HeldBy(streams[i]) == Seen().slots[i];
      s := streams[i].stream.value;
    }

    /** `get_flags`: the first frame sent on a channel opens it or acknowledges that it was opened. */
    method GetFlags(i: nat) returns (flags: nat)
      requires Valid() && i < capStreams
      modifies streams
      ensures Valid() && Buffers() == old(Buffers())
      ensures flags == FlagsFor(old(Seen()).slots[i].channelState)
      ensures Seen() == old(Seen()).(slots := Announced(old(Seen()).slots, i))
    {
      hide Live, SlotsOk, FirstWithId;
      ghost var v := Seen();
      var s := Look(i);
      var state := s.channelState;
      flags := 0;
      match s.channelState {
        case Inited => state, flags := SynSent, 1;
        case SynRecv => state, flags := Est, 2;
        case _ =>
      }
      if flags != 0 {
        Update(i, s.state, s.window, state, s.hasChild);
        ghost var slots := v.slots[i := v.slots[i].(channelState := state)];
        assert Seen() == v.(slots := slots);
        var k := GetSessionStream(s.id);
        if k < capStreams {
          var t := Look(k);
          Update(k, state, t.window, t.channelState, t.hasChild);
        }
      }
    }

    /** A frame that is not for a stream. */
    method DecodeControl(f: Frame) returns (rc: int)
      requires Valid()
      modifies `closed
      ensures Valid() && Buffers() == old(Buffers()) && Seen() == old(Seen()).(closed := old(closed) || f.kind == GoAway)
      ensures rc == ControlCode(hasPong, f)
    {
      hide Live;
      match f.kind {
        case Ping =>
          if Syn(f) { return 0; }
          if Ack(f) && hasPong { return 0; }
          return -EPROTO;
        case GoAway =>
          ghost var v, q := Seen(), Buffers();
          closed := true;
          assert Shaped();
          assert Buffers() == q;
          assert Seen().slots == v.slots;
          return 0;
        case _ => return -EPROTO;
      }
    }

    /** A frame for the open stream in slot `i`. */
    method Deliver(i: nat, f: Frame, payload: Bytes) returns (rc: int, handed: Bytes)
      requires Valid() && i < capStreams
      modifies streams, Buffers()
      ensures Valid() && Buffers() == old(Buffers())
      ensures var r := Delivered(Settings(), old(Seen()), i, f, payload);
              Seen() == r.view && rc == r.rc && handed == r.gave
    {
      hide Live, SlotsOk, Processed, HandedOn, Carried, Flagged;
      ghost var v := Seen();
      ghost var h := v.slots[i];
      var ok := TakeFlags(i, f);
      if !ok { return -EPROTO, []; }
      ghost var h1 := Seen().slots[i];
      assert Seen() == v.(slots := v.slots[i := h1]);
      var re;
      re, handed := StreamProcess(i, f, payload);
      rc := if re < 0 then re else re + HEADER_SIZE + |payload|;
      Rewritten(v.slots, i, h1, Processed(valid, h1, f, payload));
      SameHanding(valid, h, h1, Carried(f, payload));
    }

    /** The flags of a frame, tested in the order of the code. */
    method TakeFlags(i: nat, f: Frame) returns (ok: bool)
      requires Valid() && i < capStreams
      modifies streams
      ensures Valid() && Buffers() == old(Buffers())
      ensures var v := old(Seen());
              var state := Flagged(v.slots[i].state, f);
              && ok == state.Some?
              && Seen() == if ok then v.(slots := v.slots[i := v.slots[i].(state := state.value)]) else v
    {
      hide Live, SlotsOk;
      var s := Look(i);
      var state := s.state;
      if Rst(f) {
        state := Closed;
      } else if Fin(f) {
        state := Closed;
      } else if Ack(f) {
        if s.state != SynSent { return false; }
        state := Est;
      } else if f.flags != 0 {
        return false;
      }
      Update(i, state, s.window, s.channelState, s.hasChild);
      return true;
    }

    /** What follows when the new stream is in slot `i`: the frame itself, and an answer to a window update. */
    method Greet(i: nat, f: Frame, payload: Bytes) returns (handed: Bytes)
      requires Valid() && i < capStreams && Seen().slots[i].id == f.streamid
      modifies streams, Buffers()
      ensures Valid() && Buffers() == old(Buffers())
      ensures var slots := old(Seen()).slots;
              var k := FirstWithId(slots, f.streamid);
              && k < |slots| && Seen() == old(Seen()).(slots := Greeted(valid, slots, i, f, payload))
              && handed == HandedOn(valid, slots[k], Carried(f, payload))
    {
      hide Live, SlotsOk, Processed, HandedOn, Carried, Announced, FirstWithId;
      ghost var v := Seen();
      var k := GetSessionStream(f.streamid);
      var s := Look(k);
      ghost var h1 := v.slots[k].(state := SynRecv, window := 0);
      Update(k, SynRecv, 0, s.channelState, s.hasChild);
      assert Seen() == v.(slots := v.slots[k := h1]);
      var _, bytes := StreamProcess(k, f, payload);
      handed := bytes;
      Rewritten(v.slots, k, h1, Processed(valid, h1, f, payload));
      SameHanding(valid, v.slots[k], h1, Carried(f, payload));
      ghost var received := v.slots[k := Processed(valid, h1, f, payload)];
      assert Seen() == v.(slots := received);
      var t := Look(i);
      Update(i, t.state, t.window, SynRecv, t.hasChild);
      assert Seen() == v.(slots := received[i := received[i].(channelState := SynRecv)]);
      if f.kind == WindowUpdate {
        var _ := GetFlags(i);
      }
    }

    /** A frame that opens a stream from the other side. */
    method OpenInbound(f: Frame, payload: Bytes) returns (rc: int, handed: Bytes)
      requires Valid() && f.streamid != 0
      modifies this`nextid, this`numStreams, this`capStreams, streams, Buffers()
      ensures Valid() && (forall k :: 0 <= k < capStreams ==> Buffers()[k] in old(Buffers()) || fresh(Buffers()[k]))
      ensures var r := Started(Settings(), old(Seen()), f, payload);
              Seen() == r.view && rc == r.rc && handed == r.gave
    {
      hide Live, SlotsOk, HandedOn, Carried, Greeted, Opening;
      ghost var v := Seen();
      var found := ChannelNew(f.streamid);
      if found.None? { return -EPROTO, []; }
      ghost var slots := Placed(v.slots, found.value, Fresh(f.streamid));
      assert Seen() == v.(slots := slots);
      handed := Greet(found.value, f, payload);
      rc := 0;
    }

    /** `yamux_decode`. */
    method Decode(incoming: Bytes) returns (rc: int, handed: Bytes)
      requires Valid()
      modifies this`nextid, this`numStreams, this`capStreams, this`closed, streams, Buffers()
      ensures Valid() && (forall k :: 0 <= k < capStreams ==> Buffers()[k] in old(Buffers()) || fresh(Buffers()[k]))
      ensures var r := Decoded(Settings(), old(Seen()), incoming);
              Seen() == r.view && rc == r.rc && handed == r.gave
    {
      hide Live, SlotsOk, Delivered, Started, FirstOpen, ControlCode;
      handed := [];
      if |incoming| < HEADER_SIZE { return 0, []; }
      var f := ParseFrame(incoming);
      if f.version != 0 { return 0, []; }
      if f.streamid == 0 {
        rc := DecodeControl(f);
        return;
      }
      var payload := incoming[HEADER_SIZE..];
      var i := FindOpen(f.streamid);
      if i < capStreams {
        rc, handed := Deliver(i, f, payload);
        return;
      }
      if !Syn(f) { return -EPROTO, []; }
      if !FromRemote(amServer, f.streamid) { return 0, []; }
      rc, handed := OpenInbound(f, payload);
    }

    /** One event; the reply is what the operation returns and the bytes that it hands out. */
    method Handle(e: Event) returns (rc: int, bytes: Bytes)
      requires Valid()
      modifies this`nextid, this`numStreams, this`capStreams, this`closed, streams, Buffers()
      ensures Valid() && (forall k :: 0 <= k < capStreams ==> Buffers()[k] in old(Buffers()) || fresh(Buffers()[k]))
      ensures var r := Step(Settings(), old(Seen()), e);
              Seen() == r.view && rc == r.rc && bytes == r.gave
    {
      hide Live, SlotsOk, Decoded, OpenedHere, Freed, FirstWithId, Touched;
      rc, bytes := 0, [];
      match e {
        case OpenEvent => rc := OpenHere();
        case FrameEvent(incoming) => rc, bytes := Decode(incoming);
        case FreeEvent(id) => StreamFree(id);
        case _ => rc, bytes := ForChannel(e);
      }
    }

    method OpenHere() returns (rc: int)
      requires Valid()
      modifies this`nextid, this`numStreams, this`capStreams, streams
      ensures Valid() && (forall k :: 0 <= k < capStreams ==> Buffers()[k] in old(Buffers()) || fresh(Buffers()[k]))
      ensures var r := OpenedHere(Settings(), old(Seen()));
              Seen() == r.view && rc == r.rc && r.gave == []
    {
      hide Live, SlotsOk, Opening, Placed;
      var slot := ChannelNew(0);
      rc := if slot.Some? then slot.value else -1;
    }

    /** Find the channel by its id, as readers and senders do. */
    method ForChannel(e: Event) returns (rc: int, bytes: Bytes)
      requires Valid() && (e.ReadEvent? || e.SendEvent? || e.AttachEvent?)
      modifies streams, Buffers()
      ensures Valid() && Buffers() == old(Buffers())
      ensures var r := Step(Settings(), old(Seen()), e);
              Seen() == r.view && rc == r.rc && bytes == r.gave
    {
      hide Live, SlotsOk, FirstWithId, Touched;
      rc, bytes := 0, [];
      var i := GetSessionStream(e.id);
      if i < capStreams { rc, bytes := UseChannel(i, e); }
    }

    /** A reader, a sender or a new child stream works on the channel in slot `i`. */
    method UseChannel(i: nat, e: Event) returns (rc: int, bytes: Bytes)
      requires Valid() && i < capStreams && (e.ReadEvent? || e.SendEvent? || e.AttachEvent?)
      modifies streams, Buffers()
      ensures Valid() && Buffers() == old(Buffers())
      ensures var r := Touched(old(Seen()), i, e);
              Seen() == r.view && rc == r.rc && bytes == r.gave
    {
      hide Live, SlotsOk, Announced;
      rc, bytes := 0, [];
      match e {
        case ReadEvent(_, size) =>
          bytes := ReadFrom(i, size);
          rc := |bytes|;
        case SendEvent(_) => rc := GetFlags(i);
        case AttachEvent(_) =>
          var s := Look(i);
          Update(i, s.state, s.window, s.channelState, true);
      }
    }
  }

  // ----- the session's runs

  datatype Reply = Reply(rc: int, bytes: Bytes)

  /** What the operations of a run return. */
  function Replies(c: Config, events: seq<Event>): (r: seq<Reply>)
    ensures |r| == |events|
  {
    if events == [] then []
    else Replies(c, events[..|events| - 1]) + [Reply(Last(c, events).rc, Last(c, events).gave)]
  }

  /**
   Any run of a session goes as the functions above say, and if it uses no id twice, the bytes
   consumed from each channel and those that wait there are the payloads accepted for its id.
   */
  method Run(backlog: nat, amServer: bool, hasPong: bool, valid: Bytes -> bool, events: seq<Event>)
    returns (s: Session, replies: seq<Reply>)
    ensures var c := Config(backlog, amServer, hasPong, valid);
            && s.Valid() && s.Settings() == c
            && s.Seen() == After(c, events) && replies == Replies(c, events)
            && s.numStreams == Live(After(c, events).slots) && s.capStreams == |After(c, events).slots| <= backlog
            && (NoReuse(c, events) ==> Conserved(c, events))
  {
    hide Live, SlotsOk, Step, Conserved, NoReuse;
    ghost var c := Config(backlog, amServer, hasPong, valid);
    s := new Session(backlog, amServer, hasPong, valid);
    replies := [];
    for k := 0 to |events|
      invariant fresh(s) && fresh(s.streams) && s.Valid() && s.Settings() == c && (forall j :: 0 <= j < s.capStreams ==> fresh(s.Buffers()[j]))
      invariant s.Seen() == After(c, events[..k]) && replies == Replies(c, events[..k])
    {
      assert events[..k + 1][..k] == events[..k];
      var rc, bytes := s.Handle(events[k]);
      replies := replies + [Reply(rc, bytes)];
    }
    assert events[..|events|] == events;
    SlotsBounded(c, events);
    if NoReuse(c, events) { AccountsBalance(c, events); }
  }
}
