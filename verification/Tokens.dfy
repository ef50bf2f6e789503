/**
 The announce tokens of routing/dht.c: a token is a hash of the asker's address under a secret
 that is replaced from time to time, and the secret before the current one is still honoured.
 The hash is an uninterpreted function, random numbers are inputs.
 */
module Tokens {
  import opened Numbers
  import RT = RoutingTable

  const TOKEN_SIZE := 8

  type Secret = s: seq<Byte> | |s| == 8 witness seq(8, _ => 0)
  type Token = t: seq<Byte> | |t| == TOKEN_SIZE witness seq(8, _ => 0)

  /** What `rotate_secrets` draws: the next secret and the number for the next rotation time. */
  datatype Draw = Draw(secret: Secret, random: nat)

  /** The secret, the one before it, and when the next one is due. */
  datatype Pair = Pair(secret: Secret, oldsecret: Secret, due: int)

  /** `rotate_secrets`. */
  function Rotated(p: Pair, now: int, draw: Draw): Pair { Pair(draw.secret, p.secret, now + 900 + draw.random % 1800) }

  const NoSecret: Secret := [0, 0, 0, 0, 0, 0, 0, 0]

  class Secrets {
    const hash: (Secret, RT.Address) -> Token
    var secret: Secret
    var oldsecret: Secret
    var rotateSecretsTime: int

    function Now(): Pair
      reads this
    {
      Pair(secret, oldsecret, rotateSecretsTime)
    }

    constructor (hash: (Secret, RT.Address) -> Token, now: int, draw: Draw)
      ensures this.hash == hash && Now() == Rotated(Pair(NoSecret, NoSecret, 0), now, draw)
    {
      this.hash := hash;
      secret, oldsecret := NoSecret, NoSecret;
      rotateSecretsTime := 0;
      new;
      RotateSecrets(now, draw);
    }

    /** `rotate_secrets`. */
    method RotateSecrets(now: int, draw: Draw)
      modifies this
      ensures Now() == Rotated(old(Now()), now, draw)
      ensures secret == draw.secret && oldsecret == old(secret) && now + 900 <= rotateSecretsTime < now + 2700
    {
      rotateSecretsTime := now + 900 + draw.random % 1800;
      oldsecret := secret;
      secret := draw.secret;
    }

    /** `make_token`. */
    function MakeToken(addr: RT.Address, previous: bool): Token
      reads this
    {
      hash(if previous then oldsecret else secret, addr)
    }

    /** `token_match`: one of the two secrets makes this token for this address. */
    method TokenMatch(token: seq<Byte>, addr: RT.Address) returns (ok: bool)
      ensures ok <==> token == hash(secret, addr) || token == hash(oldsecret, addr)
    {
      if |token| != TOKEN_SIZE { return false; }
      var t := MakeToken(addr, false);
      if t == token { return true; }
      t := MakeToken(addr, true);
      return t == token;
    }

    /** The end of `dht_periodic`. */
    method Periodic(now: int, draw: Draw)
      modifies this
      ensures Now() == if now >= old(rotateSecretsTime) then Rotated(old(Now()), now, draw) else old(Now())
    {
      if now >= rotateSecretsTime { RotateSecrets(now, draw); }
    }
  }

  /** One call of `dht_periodic`: a get_peers, an announce_peer, or something else. */
  datatype Message =
    | GetPeers(addr: RT.Address)
    | AnnouncePeer(addr: RT.Address, token: seq<Byte>)
    | Other

  datatype Event = Event(now: int, message: Message, draw: Draw)

  datatype Reply = Issued(token: Token) | Verdict(ok: bool) | Nothing

  predicate Clock(start: int, events: seq<Event>) {
    && (forall i :: 0 <= i < |events| ==> start <= events[i].now)
    && (forall i, j :: 0 <= i < j < |events| ==> events[i].now <= events[j].now)
  }

  /** The secrets after a run. */
  function PairAfter(start: int, first: Draw, events: seq<Event>): Pair {
    if events == [] then Rotated(Pair(NoSecret, NoSecret, 0), start, first)
    else
      var p, e := PairAfter(start, first, events[..|events| - 1]), events[|events| - 1];
      if e.now >= p.due then Rotated(p, e.now, e.draw) else p
  }

  /** How a message is answered under the secrets of the moment. */
  function Answer(hash: (Secret, RT.Address) -> Token, p: Pair, m: Message): Reply {
    match m
    case GetPeers(addr) => Issued(hash(p.secret, addr))
    case AnnouncePeer(addr, token) => Verdict(token == hash(p.secret, addr) || token == hash(p.oldsecret, addr))
    case Other => Nothing
  }

  /** The replies of a run. */
  function Replies(hash: (Secret, RT.Address) -> Token, start: int, first: Draw, events: seq<Event>): (r: seq<Reply>)
    ensures |r| == |events|
  {
    if events == [] then []
    else
      var before := events[..|events| - 1];
      Replies(hash, start, first, before) + [Answer(hash, PairAfter(start, first, before), events[|events| - 1].message)]
  }

  lemma {:induction false} ReplyTo(hash: (Secret, RT.Address) -> Token, start: int, first: Draw, events: seq<Event>, i: nat)
    requires i < |events|
    ensures Replies(hash, start, first, events)[i] == Answer(hash, PairAfter(start, first, events[..i]), events[i].message)
  {
    var before := events[..|events| - 1];
    if i < |events| - 1 {
      ReplyTo(hash, start, first, before, i);
      assert before[..i] == events[..i];
    }
  }

  /**
   The secret at event `i` is the current one, or the one before it and then the next rotation is
   at least 900 seconds after that event, until so much time has passed.
   */
  lemma {:induction false} SecretStays(start: int, first: Draw, events: seq<Event>, i: nat, k: nat)
    requires Clock(start, events) && i < k <= |events|
    ensures var s, p := PairAfter(start, first, events[..i]).secret, PairAfter(start, first, events[..k]);
            p.secret == s || (p.oldsecret == s && p.due >= events[i].now + 900) || events[k - 1].now >= events[i].now + 900
  {
    assert events[..k][..k - 1] == events[..k - 1];
    if i < k - 1 { SecretStays(start, first, events, i, k - 1); }
  }

  /** At event `k` the secret is replaced by the one that is drawn there, and kept as the former one. */
  predicate ReplacedAt(start: int, first: Draw, events: seq<Event>, k: nat)
    requires k < |events|
  {
    var before, after := PairAfter(start, first, events[..k]), PairAfter(start, first, events[..k + 1]);
    after.secret == events[k].draw.secret && after.oldsecret == before.secret
  }

  /** Until the secret is replaced, it is due within 2700 seconds of event `i`. */
  lemma {:induction false} DueStays(start: int, first: Draw, events: seq<Event>, i: nat, k: nat)
    requires Clock(start, events) && i <= k < |events|
    requires forall j :: i < j <= k ==> !ReplacedAt(start, first, events, j)
    ensures PairAfter(start, first, events[..k + 1]).due < events[i].now + 2700
  {
    if k == i {
      DueSoon(start, first, events, i);
    } else {
      assert events[..k + 1][..k] == events[..k];
      assert !ReplacedAt(start, first, events, k);
      DueStays(start, first, events, i, k - 1);
    }
  }

  lemma {:induction false} DueSoon(start: int, first: Draw, events: seq<Event>, i: nat)
    requires Clock(start, events) && i < |events|
    ensures PairAfter(start, first, events[..i + 1]).due < events[i].now + 2700
  {
    assert events[..i + 1][..i] == events[..i];
    if i > 0 { DueSoon(start, first, events, i - 1); } else { assert events[..0] == []; }
  }

  /** Within 2700 seconds of any event the secret is replaced, at the next event at the latest. */
  lemma SecretIsReplaced(start: int, first: Draw, events: seq<Event>, i: nat, j: nat)
    requires Clock(start, events) && i < j < |events| && events[j].now >= events[i].now + 2700
    ensures exists k :: i < k <= j && ReplacedAt(start, first, events, k)
  {
    if forall k :: i < k <= j ==> !ReplacedAt(start, first, events, k) {
      DueStays(start, first, events, i, j - 1);
      assert events[..j + 1][..j] == events[..j];
      assert ReplacedAt(start, first, events, j);
    }
  }

  /** A token issued at event `i` is accepted from its address at every later event within 900 seconds. */
  lemma TokenIsHonoured(hash: (Secret, RT.Address) -> Token, start: int, first: Draw, events: seq<Event>, i: nat, j: nat)
    requires Clock(start, events) && i < j < |events| && events[i].message.GetPeers?
    requires Replies(hash, start, first, events)[i].Issued?
    requires events[j].message == AnnouncePeer(events[i].message.addr, Replies(hash, start, first, events)[i].token)
    requires events[j].now < events[i].now + 900
    ensures Replies(hash, start, first, events)[j] == Verdict(true)
  {
    ReplyTo(hash, start, first, events, i);
    ReplyTo(hash, start, first, events, j);
    SecretStays(start, first, events, i, j);
  }

  /** An announcement is accepted only if one of the last two secrets makes its token for its address. */
  lemma AcceptedTokenIsOurs(hash: (Secret, RT.Address) -> Token, start: int, first: Draw, events: seq<Event>, j: nat)
    requires j < |events| && events[j].message.AnnouncePeer?
    ensures var p, m := PairAfter(start, first, events[..j]), events[j].message;
            Replies(hash, start, first, events)[j] == Verdict(true)
            <==> m.token == hash(p.secret, m.addr) || m.token == hash(p.oldsecret, m.addr)
  {
    ReplyTo(hash, start, first, events, j);
  }

  /** Every run of messages is answered as the functions above say. */
  method Run(hash: (Secret, RT.Address) -> Token, start: int, first: Draw, events: seq<Event>) returns (replies: seq<Reply>)
    ensures replies == Replies(hash, start, first, events)
  {
    var s := new Secrets(hash, start, first);
    replies := [];
    for k := 0 to |events|
      invariant fresh(s) && s.hash == hash && s.Now() == PairAfter(start, first, events[..k])
      invariant replies == Replies(hash, start, first, events[..k])
    {
      assert events[..k + 1][..k] == events[..k];
      var reply := Handle(s, events[k]);
      replies := replies + [reply];
    }
    assert events[..|events|] == events;
  }

  /** The next event: answer it, and replace the secret if it is time. */
  method Handle(s: Secrets, e: Event) returns (reply: Reply)
    modifies s
    ensures reply == Answer(s.hash, old(s.Now()), e.message)
    ensures s.Now() == if e.now >= old(s.rotateSecretsTime) then Rotated(old(s.Now()), e.now, e.draw) else old(s.Now())
  {
    reply := Nothing;
    match e.message {
      case GetPeers(addr) => reply := Issued(s.MakeToken(addr, false));
      case AnnouncePeer(addr, token) =>
        var ok := s.TokenMatch(token, addr);
        reply := Verdict(ok);
      case Other =>
    }
    s.Periodic(e.now, e.draw);
  }
}
