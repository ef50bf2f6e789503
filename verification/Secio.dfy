/**
 The negotiation of secio/secio.c.  Two parties exchange proposals and each computes alone who
 leads, what to use, what to sign and which keys to take.  Hashes, signatures, key agreement and
 the encoding of messages are uninterpreted functions.
 */
module Secio {
  import opened Options
  import opened Numbers

  type Bytes = seq<Byte>
  type Digest = d: seq<Byte> | |d| == 32 witness seq(32, _ => 0)

  datatype Propose = Propose(rand: Bytes, publicKey: Bytes, exchanges: string, ciphers: string, hashes: string)

  // ----- who leads

  /** -1, 0 or 1 as `x` is below, equal to or above `y`. */
  function Sign(x: int, y: int): int { if x < y then -1 else if x > y then 1 else 0 }

  /** `libp2p_secio_bytes_compare`: strings of one length compare like the numbers they spell. */
  method BytesCompare(a: Bytes, b: Bytes) returns (r: int)
    requires |a| == |b|
    ensures r == Sign(Val(256, a), Val(256, b))
    ensures r == 0 <==> a == b
  {
    for i := 0 to |a|
      invariant a[..i] == b[..i]
    {
      if b[i] > a[i] {
        ValCompare(256, a, b, i);
        return -1;
      }
      if a[i] > b[i] {
        ValCompare(256, b, a, i);
        return 1;
      }
    }
    assert a == a[..|a|] && b == b[..|b|];
    return 0;
  }

  /** What a side hashes to find its place: one side's key with the other side's nonce. */
  function OrderHash(sha256: Bytes -> Digest, key: Propose, nonce: Propose): Digest {
    sha256(key.publicKey + nonce.rand)
  }

  function Order(sha256: Bytes -> Digest, remote: Propose, local: Propose): int {
    Sign(Val(256, OrderHash(sha256, remote, local)), Val(256, OrderHash(sha256, local, remote)))
  }

  /** `libp2p_secio_determine_order`. */
  method DetermineOrder(sha256: Bytes -> Digest, remote: Propose, local: Propose) returns (order: int)
    ensures order == Order(sha256, remote, local)
    ensures order == 0 <==> OrderHash(sha256, remote, local) == OrderHash(sha256, local, remote)
    ensures order == if sha256(remote.publicKey + local.rand) == sha256(local.publicKey + remote.rand) then 0
                     else if Val(256, sha256(remote.publicKey + local.rand)) > Val(256, sha256(local.publicKey + remote.rand)) then 1
                     else -1
  {
    var hash1 := sha256(remote.publicKey + local.rand);
    var hash2 := sha256(local.publicKey + remote.rand);
    order := BytesCompare(hash1, hash2);
  }

  /** The two sides get opposite orders, and nobody leads exactly if the hashes collide. */
  lemma OrdersAreOpposite(sha256: Bytes -> Digest, x: Propose, y: Propose)
    ensures Order(sha256, x, y) == -Order(sha256, y, x)
    ensures Order(sha256, x, y) == 0 <==> OrderHash(sha256, x, y) == OrderHash(sha256, y, x)
  {
    var h1, h2 := OrderHash(sha256, x, y), OrderHash(sha256, y, x);
    if Val(256, h1) == Val(256, h2) { ValInjective(256, h1, h2); }
  }

  /** A hash without collisions. */
  ghost predicate Collisionless(sha256: Bytes -> Digest) {
    forall m, m' :: sha256(m) == sha256(m') ==> m == m'
  }

  /** Then what a side hashes tells the key and the nonce. */
  lemma OrderHashTells(sha256: Bytes -> Digest, key: Propose, nonce: Propose, key': Propose, nonce': Propose)
    requires Collisionless(sha256) && |nonce.rand| == |nonce'.rand|
    ensures OrderHash(sha256, key, nonce) == OrderHash(sha256, key', nonce')
       <==> key.publicKey == key'.publicKey && nonce.rand == nonce'.rand
  {
    var m, m' := key.publicKey + nonce.rand, key'.publicKey + nonce'.rand;
    if sha256(m) == sha256(m') {
      assert |key.publicKey| == |key'.publicKey|;
      assert m[..|key.publicKey|] == key.publicKey && m'[..|key.publicKey|] == key'.publicKey;
      assert m[|key.publicKey|..] == nonce.rand && m'[|key.publicKey|..] == nonce'.rand;
    }
  }

  /** And nobody leads exactly if one side's key and nonce came back to it. */
  lemma NobodyLeadsIff(sha256: Bytes -> Digest, x: Propose, y: Propose)
    requires Collisionless(sha256) && |x.rand| == |y.rand|
    ensures Order(sha256, x, y) == 0 <==> x.publicKey == y.publicKey && x.rand == y.rand
  {
    OrdersAreOpposite(sha256, x, y);
    OrderHashTells(sha256, x, y, y, x);
  }

  // ----- lists of names

  /** The part of a buffer that C sees as a string. */
  function CString(s: string): string {
    if s == [] || s[0] == '\0' then [] else [s[0]] + CString(s[1..])
  }

  function TokenLength(s: string): (n: nat)
    ensures n <= |s| && ',' !in s[..n] && (n < |s| ==> s[n] == ',')
  {
    if s == [] || s[0] == ',' then 0
    else
      var n := TokenLength(s[1..]);
      assert s[..n + 1] == [s[0]] + s[1..][..n];
      n + 1
  }

  /** The non-empty parts between commas. */
  function Tokens(s: string): (r: seq<string>)
    ensures forall t :: t in r ==> t != [] && ',' !in t
    decreases |s|
  {
    if s == [] then []
    else if s[0] == ',' then Tokens(s[1..])
    else [s[..TokenLength(s)]] + Tokens(s[TokenLength(s)..])
  }

  function Names(list: string): seq<string> { Tokens(CString(list)) }

  /** Names separated by commas. */
  function Joined(names: seq<string>): string {
    if names == [] then [] else if |names| == 1 then names[0] else names[0] + "," + Joined(names[1..])
  }

  predicate Plain(name: string) { name != [] && ',' !in name && '\0' !in name }

  /** Splitting undoes joining. */
  lemma {:induction false} SplitJoined(names: seq<string>)
    requires forall k :: 0 <= k < |names| ==> Plain(names[k])
    ensures Names(Joined(names)) == names
  {
    JoinedIsString(names);
    TokensOfJoined(names);
  }

  lemma {:induction false} JoinedIsString(names: seq<string>)
    requires forall k :: 0 <= k < |names| ==> Plain(names[k])
    ensures CString(Joined(names)) == Joined(names)
  {
    JoinedHasNoEnd(names);
    NoEnd(Joined(names));
  }

  lemma {:induction false} JoinedHasNoEnd(names: seq<string>)
    requires forall k :: 0 <= k < |names| ==> Plain(names[k])
    ensures '\0' !in Joined(names)
  {
    if names != [] { assert Plain(names[0]); }
    if |names| > 1 { JoinedHasNoEnd(names[1..]); }
  }

  lemma {:induction false} NoEnd(s: string)
    requires '\0' !in s
    ensures CString(s) == s
  {
    if s != [] { NoEnd(s[1..]); }
  }

  lemma {:induction false} TokensOfJoined(names: seq<string>)
    requires forall k :: 0 <= k < |names| ==> Plain(names[k])
    ensures Tokens(Joined(names)) == names
  {
    if |names| == 1 {
      TokenIs(names[0], []);
      assert names[0] + [] == names[0];
    } else if |names| > 1 {
      var rest := "," + Joined(names[1..]);
      TokenIs(names[0], rest);
      assert names[0] + "," + Joined(names[1..]) == names[0] + rest;
      assert rest[1..] == Joined(names[1..]);
      TokensOfJoined(names[1..]);
    }
  }

  lemma TokenIs(t: string, rest: string)
    requires t != [] && ',' !in t && (rest == [] || rest[0] == ',')
    ensures Tokens(t + rest) == [t] + Tokens(rest)
  {
    var s := t + rest;
    LengthIs(t, rest);
    assert s[0] == t[0] && s[..|t|] == t && s[|t|..] == rest;
  }

  lemma {:induction false} LengthIs(t: string, rest: string)
    requires ',' !in t && (rest == [] || rest[0] == ',')
    ensures TokenLength(t + rest) == |t|
  {
    if t == [] {
      assert t + rest == rest;
    } else {
      assert (t + rest)[1..] == t[1..] + rest;
      LengthIs(t[1..], rest);
    }
  }

  /** `strtok` with a comma: skip commas, take what comes before the next one. */
  method NextToken(s: string, from: nat) returns (token: Option<string>, next: nat)
    requires from <= |s|
    ensures from <= next <= |s|
    ensures if token.None? then Tokens(s[from..]) == [] else from < next && Tokens(s[from..]) == [token.value] + Tokens(s[next..])
  {
    hide Tokens;
    NoTokens();
    assert s[|s|..] == [];
    var i := from;
    while i < |s| && s[i] == ','
      invariant from <= i <= |s| && Tokens(s[from..]) == Tokens(s[i..])
    {
      SkipComma(s, i);
      i := i + 1;
    }
    if i == |s| { return None, i; }
    var j := i;
    while j < |s| && s[j] != ','
      invariant i <= j <= |s| && forall k :: i <= k < j ==> s[k] != ','
    {
      j := j + 1;
    }
    TakeToken(s, i, j);
    return Some(s[i..j]), j;
  }

  lemma NoTokens()
    ensures Tokens([]) == []
  {
  }

  lemma SkipComma(s: string, i: nat)
    requires i < |s| && s[i] == ','
    ensures Tokens(s[i..]) == Tokens(s[i + 1..])
  {
    assert s[i..][1..] == s[i + 1..];
  }

  lemma TakeToken(s: string, i: nat, j: nat)
    requires i < j <= |s| && (forall k :: i <= k < j ==> s[k] != ',') && (j < |s| ==> s[j] == ',')
    ensures Tokens(s[i..]) == [s[i..j]] + Tokens(s[j..])
  {
    TokenIs(s[i..j], s[j..]);
    assert s[i..] == s[i..j] + s[j..];
  }

  /** `libp2p_secio_split_list`. */
  method SplitList(list: string) returns (names: seq<string>)
    ensures names == Names(list)
  {
    var copy := CString(list);
    assert copy[0..] == copy;
    names := [];
    var token, next := NextToken(copy, 0);
    while token.Some?
      invariant next <= |copy|
      invariant Tokens(copy) == names + (if token.Some? then [token.value] + Tokens(copy[next..]) else [])
      decreases |copy| - next, token.Some?
    {
      names := names + [token.value];
      token, next := NextToken(copy, next);
    }
  }

  // ----- what to use

  /** The first of `lead` that `follower` has. */
  function FirstCommon(lead: seq<string>, follower: seq<string>): (r: Option<string>)
    ensures r.None? <==> forall i :: 0 <= i < |lead| ==> lead[i] !in follower
    ensures r.Some? ==> r.value in follower && exists i :: 0 <= i < |lead| && lead[i] == r.value && forall j :: 0 <= j < i ==> lead[j] !in follower
  {
    if lead == [] then None
    else if lead[0] in follower then Some(lead[0])
    else FirstCommon(lead[1..], follower)
  }

  lemma {:induction false} FirstCommonIs(lead: seq<string>, follower: seq<string>, i: nat)
    requires i < |lead| && lead[i] in follower && forall k :: 0 <= k < i ==> lead[k] !in follower
    ensures FirstCommon(lead, follower) == Some(lead[i])
  {
    if i > 0 { FirstCommonIs(lead[1..], follower, i - 1); }
  }

  /** What a side selects from its own and the other side's list. */
  function Selected(order: int, local: string, remote: string): Option<string>
    requires order == 0 ==> Names(local) != []
  {
    if order == 0 then Some(Names(local)[0])
    else if order > 0 then FirstCommon(Names(local), Names(remote))
    else FirstCommon(Names(remote), Names(local))
  }

  /** `libp2p_secio_select_best`; with order 0 it reads the first name without asking whether there is one. */
  method SelectBest(order: int, local: string, remote: string) returns (result: Option<string>)
    requires order == 0 ==> Names(local) != []
    ensures result == Selected(order, local, remote)
  {
    var leads := SplitList(local);
    if order == 0 { return Some(leads[0]); }
    var followers: seq<string>;
    if order > 0 {
      followers := SplitList(remote);
    } else {
      followers := leads;
      leads := SplitList(remote);
    }
    var i := 0;
    while i < |leads|
      invariant 0 <= i <= |leads| && forall k :: 0 <= k < i ==> leads[k] !in followers
    {
      var j := 0;
      while j < |followers|
        invariant 0 <= j <= |followers| && leads[i] !in followers[..j]
      {
        if leads[i] == followers[j] {
          FirstCommonIs(leads, followers, i);
          return Some(leads[i]);
        }
        j := j + 1;
      }
      assert followers[..|followers|] == followers;
      i := i + 1;
    }
    return None;
  }

  /** Opposite sides select the same name, or neither finds one. */
  lemma SelectionsAgree(order: int, x: string, y: string)
    requires order != 0
    ensures Selected(order, x, y) == Selected(-order, y, x)
  {
  }

  /** Without a leader each side takes its own first name, so they agree exactly if those are the same. */
  lemma LeaderlessSelection(x: string, y: string)
    requires Names(x) != [] && Names(y) != []
    ensures Selected(0, x, y) == Selected(0, y, x) <==> Names(x)[0] == Names(y)[0]
  {
  }

  lemma LeaderlessCanDisagree()
    ensures Names("A,B") == ["A", "B"] && Names("B,A") == ["B", "A"]
    ensures Selected(0, "A,B", "B,A") == Some("A") && Selected(0, "B,A", "A,B") == Some("B")
  {
    SplitJoined(["A", "B"]);
    SplitJoined(["B", "A"]);
    assert Joined(["A", "B"]) == "A,B" && Joined(["B", "A"]) == "B,A";
  }

  // ----- keys

  datatype StretchedKey = StretchedKey(iv: Bytes, cipherKey: Bytes, macKey: Bytes)

  datatype Sizes = Sizes(iv: nat, cipher: nat)

  const HMAC_SIZE := 20

  function SizesFor(cipher: string): Option<Sizes> {
    if cipher == "AES-128" then Some(Sizes(16, 16))
    else if cipher == "AES-256" then Some(Sizes(16, 32))
    else if cipher == "Blowfish" then Some(Sizes(8, 32))
    else None
  }

  /** The running hash after `n` rounds: A(0) = hmac(seed), A(n+1) = hmac(A(n)). */
  function RunningHash(hmac: (Bytes, Bytes) -> Digest, secret: Bytes, seed: Bytes, n: nat): Digest {
    hmac(secret, if n == 0 then seed else RunningHash(hmac, secret, seed, n - 1))
  }

  /** The key stream: the blocks hmac(A(k) + seed), one after the other. */
  function KeyStream(hmac: (Bytes, Bytes) -> Digest, secret: Bytes, seed: Bytes, n: nat): (r: Bytes)
    ensures |r| == 32 * n
  {
    if n == 0 then []
    else KeyStream(hmac, secret, seed, n - 1) + hmac(secret, RunningHash(hmac, secret, seed, n - 1) + seed)
  }

  /** The six parts of the key stream, in the order in which they are cut off. */
  function Parts(k1: StretchedKey, k2: StretchedKey): Bytes {
    k1.iv + k1.cipherKey + k1.macKey + k2.iv + k2.cipherKey + k2.macKey
  }

  predicate Fits(k: StretchedKey, z: Sizes) { |k.iv| == z.iv && |k.cipherKey| == z.cipher && |k.macKey| == HMAC_SIZE }

  /** The two keys are consecutive parts of the key stream. */
  ghost predicate CutFrom(k1: StretchedKey, k2: StretchedKey, z: Sizes, hmac: (Bytes, Bytes) -> Digest, secret: Bytes, seed: Bytes) {
    && Fits(k1, z) && Fits(k2, z)
    && exists n: nat :: Parts(k1, k2) <= KeyStream(hmac, secret, seed, n)
  }

  const SEED: Bytes := [107, 101, 121, 32, 101, 120, 112, 97, 110, 115, 105, 111, 110]  // "key expansion"

  /** The seed spells the words that it stands for. */
  lemma SeedSpells()
    ensures |SEED| == |"key expansion"| && forall k :: 0 <= k < |SEED| ==> SEED[k] == "key expansion"[k] as int
  {
  }

  lemma {:induction false} StreamGrows(hmac: (Bytes, Bytes) -> Digest, secret: Bytes, seed: Bytes, m: nat, n: nat)
    requires m <= n
    ensures KeyStream(hmac, secret, seed, m) <= KeyStream(hmac, secret, seed, n)
  {
    if m < n { StreamGrows(hmac, secret, seed, m, n - 1); }
  }

  /** The cut is determined by the cipher and the secret alone. */
  lemma CutIsUnique(x1: StretchedKey, x2: StretchedKey, y1: StretchedKey, y2: StretchedKey, z: Sizes,
                    hmac: (Bytes, Bytes) -> Digest, secret: Bytes, seed: Bytes)
    requires CutFrom(x1, x2, z, hmac, secret, seed) && CutFrom(y1, y2, z, hmac, secret, seed)
    ensures x1 == y1 && x2 == y2
  {
    hide KeyStream;
    var m: nat :| Parts(x1, x2) <= KeyStream(hmac, secret, seed, m);
    var n: nat :| Parts(y1, y2) <= KeyStream(hmac, secret, seed, n);
    var big := if m <= n then n else m;
    StreamGrows(hmac, secret, seed, m, big);
    StreamGrows(hmac, secret, seed, n, big);
    SamePrefix(Parts(x1, x2), Parts(y1, y2), KeyStream(hmac, secret, seed, big));
    SameParts(x1, x2, y1, y2, z);
  }

  /** Block `k` of the key stream is the hash of the running hash and then the seed; each running hash is that of the one before. */
  lemma {:induction false} StreamBlock(hmac: (Bytes, Bytes) -> Digest, secret: Bytes, seed: Bytes, n: nat, k: nat)
    requires k < n
    ensures RunningHash(hmac, secret, seed, 0) == hmac(secret, seed)
    ensures RunningHash(hmac, secret, seed, k + 1) == hmac(secret, RunningHash(hmac, secret, seed, k))
    ensures KeyStream(hmac, secret, seed, n)[32 * k..32 * (k + 1)] == hmac(secret, RunningHash(hmac, secret, seed, k) + seed)
  {
    var s := KeyStream(hmac, secret, seed, n - 1);
    if k == n - 1 {
      assert KeyStream(hmac, secret, seed, n)[32 * k..] == hmac(secret, RunningHash(hmac, secret, seed, k) + seed);
    } else {
      StreamBlock(hmac, secret, seed, n - 1, k);
      assert KeyStream(hmac, secret, seed, n)[32 * k..32 * (k + 1)] == s[32 * k..32 * (k + 1)];
    }
  }

  /** Where in the key stream each part of the two keys lies: initial vector, cipher key and MAC key, one key after the other. */
  lemma KeysAt(k1: StretchedKey, k2: StretchedKey, z: Sizes, hmac: (Bytes, Bytes) -> Digest, secret: Bytes)
    requires CutFrom(k1, k2, z, hmac, secret, SEED)
    ensures exists n: nat :: var s := KeyStream(hmac, secret, SEED, n);
              var key := z.iv + z.cipher + 20;
              && |s| >= 2 * key
              && k1 == StretchedKey(s[..z.iv], s[z.iv..z.iv + z.cipher], s[z.iv + z.cipher..key])
              && k2 == StretchedKey(s[key..key + z.iv], s[key + z.iv..key + z.iv + z.cipher], s[key + z.iv + z.cipher..2 * key])
  {
    hide KeyStream;
    var n: nat :| Parts(k1, k2) <= KeyStream(hmac, secret, SEED, n);
    PartsAt(k1, k2, z, KeyStream(hmac, secret, SEED, n));
  }

  lemma PartsAt(k1: StretchedKey, k2: StretchedKey, z: Sizes, s: Bytes)
    requires Fits(k1, z) && Fits(k2, z) && Parts(k1, k2) <= s
    ensures var key := z.iv + z.cipher + 20;
            && |s| >= 2 * key
            && k1 == StretchedKey(s[..z.iv], s[z.iv..z.iv + z.cipher], s[z.iv + z.cipher..key])
            && k2 == StretchedKey(s[key..key + z.iv], s[key + z.iv..key + z.iv + z.cipher], s[key + z.iv + z.cipher..2 * key])
  {
    var b1, b2 := k1.iv + k1.cipherKey + k1.macKey, k2.iv + k2.cipherKey + k2.macKey;
    var key := z.iv + z.cipher + 20;
    assert Parts(k1, k2) == b1 + b2;
    hide Parts;
    hide Fits;
    assert |b1| == key == |b2| by { KeyLength(k1, z); KeyLength(k2, z); }
    TwoHalves(b1, b2, s);
    OneKeyAt(k1, z, s, 0);
    OneKeyAt(k2, z, s, key);
  }

  lemma KeyLength(k: StretchedKey, z: Sizes)
    requires Fits(k, z)
    ensures |k.iv + k.cipherKey + k.macKey| == z.iv + z.cipher + 20
  {
  }

  lemma TwoHalves(x: Bytes, y: Bytes, s: Bytes)
    requires x + y <= s
    ensures x == s[..|x|] && y == s[|x|..|x| + |y|]
  {
    assert x == (x + y)[..|x|] && y == (x + y)[|x|..];
  }

  lemma OneKeyAt(k: StretchedKey, z: Sizes, s: Bytes, at: nat)
    requires Fits(k, z) && at + z.iv + z.cipher + 20 <= |s|
    requires k.iv + k.cipherKey + k.macKey == s[at..at + z.iv + z.cipher + 20]
    ensures k == StretchedKey(s[at..at + z.iv], s[at + z.iv..at + z.iv + z.cipher], s[at + z.iv + z.cipher..at + z.iv + z.cipher + 20])
  {
    var t := s[at..];
    assert k.iv + k.cipherKey + k.macKey <= t;
    TwoHalves(k.iv + k.cipherKey, k.macKey, t);
    TwoHalves(k.iv, k.cipherKey, t);
  }

  lemma SamePrefix(x: Bytes, y: Bytes, s: Bytes)
    requires x <= s && y <= s && |x| == |y|
    ensures x == y
  {
    assert x == s[..|x|] && y == s[..|y|];
  }

  lemma SplitConcat(a: Bytes, x: Bytes, b: Bytes, y: Bytes)
    requires |a| == |b| && a + x == b + y
    ensures a == b && x == y
  {
    assert a == (a + x)[..|a|] && b == (b + y)[..|b|];
    assert x == (a + x)[|a|..] && y == (b + y)[|b|..];
  }

  lemma SameParts(x1: StretchedKey, x2: StretchedKey, y1: StretchedKey, y2: StretchedKey, z: Sizes)
    requires Fits(x1, z) && Fits(x2, z) && Fits(y1, z) && Fits(y2, z) && Parts(x1, x2) == Parts(y1, y2)
    ensures x1 == y1 && x2 == y2
  {
    SplitConcat(x1.iv + x1.cipherKey + x1.macKey + x2.iv + x2.cipherKey, x2.macKey, y1.iv + y1.cipherKey + y1.macKey + y2.iv + y2.cipherKey, y2.macKey);
    SplitConcat(x1.iv + x1.cipherKey + x1.macKey + x2.iv, x2.cipherKey, y1.iv + y1.cipherKey + y1.macKey + y2.iv, y2.cipherKey);
    SplitConcat(x1.iv + x1.cipherKey + x1.macKey, x2.iv, y1.iv + y1.cipherKey + y1.macKey, y2.iv);
    SplitConcat(x1.iv + x1.cipherKey, x1.macKey, y1.iv + y1.cipherKey, y1.macKey);
    SplitConcat(x1.iv, x1.cipherKey, y1.iv, y1.cipherKey);
  }

  /** The loop of `libp2p_secio_stretch_keys` that fills the buffer. */
  method FillStream(hmac: (Bytes, Bytes) -> Digest, secret: Bytes, size: nat) returns (result: Bytes)
    ensures |result| == size && exists n: nat :: result <= KeyStream(hmac, secret, SEED, n)
  {
    var a := hmac(secret, SEED);
    result := [];
    ghost var n: nat := 0;
    while |result| < size
      invariant |result| <= size && a == RunningHash(hmac, secret, SEED, n)
      invariant result <= KeyStream(hmac, secret, SEED, n) && (|result| < size ==> |result| == 32 * n)
      decreases size - |result|
    {
      var b := hmac(secret, a + SEED);
      var todo := 32;
      if todo + |result| > size { todo := size - |result|; }
      result := result + b[..todo];
      n := n + 1;
      assert KeyStream(hmac, secret, SEED, n) == KeyStream(hmac, secret, SEED, n - 1) + b;
      a := hmac(secret, a);
    }
  }

  lemma PrefixOfPrefix(s: Bytes, k: nat, t: Bytes)
    requires k <= |s| && s <= t
    ensures s[..k] <= t
  {
  }

  lemma CutParts(s: Bytes, iv: nat, size: nat)
    requires 2 * (iv + size + HMAC_SIZE) <= |s|
    ensures var key := iv + size + HMAC_SIZE; var t := s[key..];
            Parts(StretchedKey(s[..iv], s[iv..iv + size], s[iv + size..key]), StretchedKey(t[..iv], t[iv..iv + size], t[iv + size..key])) == s[..2 * key]
  {
    var key := iv + size + HMAC_SIZE;
    var t := s[key..];
    assert s[..iv] + s[iv..iv + size] == s[..iv + size];
    assert s[..iv + size] + s[iv + size..key] == s[..key];
    assert t[..iv] + t[iv..iv + size] == t[..iv + size];
    assert t[..iv + size] + t[iv + size..key] == t[..key];
    assert s[..key] + t[..key] == s[..2 * key];
  }

  /** `libp2p_secio_stretch_keys`. */
  method StretchKeys(hmac: (Bytes, Bytes) -> Digest, cipher: string, secret: Bytes) returns (keys: Option<(StretchedKey, StretchedKey)>)
    ensures keys.Some? <==> SizesFor(cipher).Some?
    ensures keys.Some? <==> cipher in ["AES-128", "AES-256", "Blowfish"]
    ensures keys.Some? ==> forall k :: k in [keys.value.0, keys.value.1] ==>
      && |k.iv| == (if cipher == "Blowfish" then 8 else 16)
      && |k.cipherKey| == (if cipher == "AES-128" then 16 else 32)
      && |k.macKey| == 20
    ensures keys.Some? ==> CutFrom(keys.value.0, keys.value.1, SizesFor(cipher).value, hmac, secret, SEED)
  {
    hide KeyStream, Parts;
    var sizes := SizesFor(cipher);
    if sizes.None? { return None; }
    var iv, size := sizes.value.iv, sizes.value.cipher;
    var s := FillStream(hmac, secret, 2 * (iv + size * HMAC_SIZE));
    var key := iv + size + HMAC_SIZE;
    var k1 := StretchedKey(s[..iv], s[iv..iv + size], s[iv + size..key]);
    var t := s[key..];
    var k2 := StretchedKey(t[..iv], t[iv..iv + size], t[iv + size..key]);
    CutParts(s, iv, size);
    ghost var n: nat :| s <= KeyStream(hmac, secret, SEED, n);
    PrefixOfPrefix(s, 2 * key, KeyStream(hmac, secret, SEED, n));
    return Some((k1, k2));
  }

  // ----- the handshake

  /** The functions of the cryptographic library that the handshake calls. */
  datatype Crypto = Crypto(
    sha256: Bytes -> Digest,
    hmac: (Bytes, Bytes) -> Digest,
    sign: (Bytes, Bytes) -> Bytes,                  // private key, message
    verify: (Bytes, Bytes, Bytes) -> bool,          // public key, message, signature
    encode: Propose -> Bytes,
    sharedSecret: (Bytes, Bytes) -> Option<Bytes>)  // ephemeral private key, remote ephemeral public key

  /** One side's lasting and ephemeral keys; the first byte of an ephemeral public key is not sent. */
  datatype Keys = Keys(privateKey: Bytes, ephemeralPrivate: Bytes, ephemeralPublic: Bytes)

  datatype Exchange = Exchange(epubkey: Bytes, signature: Bytes)

  datatype Choice = Choice(curve: string, cipher: string, hash: string)

  /** Names to fall back on when nobody leads. */
  predicate HasNames(p: Propose) { Names(p.exchanges) != [] && Names(p.ciphers) != [] && Names(p.hashes) != [] }

  function Choose(order: int, local: Propose, remote: Propose): Option<Choice>
    requires order == 0 ==> HasNames(local)
  {
    var curve := Selected(order, local.exchanges, remote.exchanges);
    var cipher := Selected(order, local.ciphers, remote.ciphers);
    var hash := Selected(order, local.hashes, remote.hashes);
    if curve.Some? && cipher.Some? && hash.Some? then Some(Choice(curve.value, cipher.value, hash.value)) else None
  }

  /** Both sides choose alike. */
  lemma ChoicesAgree(sha256: Bytes -> Digest, x: Propose, y: Propose)
    requires OrderHash(sha256, x, y) != OrderHash(sha256, y, x)
    ensures Order(sha256, y, x) != 0
    ensures Choose(Order(sha256, y, x), x, y) == Choose(Order(sha256, x, y), y, x)
  {
    OrdersAreOpposite(sha256, x, y);
  }

  predicate KnownHash(hash: string) { hash == "SHA1" || hash == "SHA512" || hash == "SHA256" }

  /** The received key with its first byte put back: its length, cut to a byte. */
  function Framed(epubkey: Bytes): Bytes { [|epubkey| % 256] + epubkey }

  /** What the signer signs: its own proposal, the other one and its ephemeral key as it is sent. */
  function SignedBytes(crypto: Crypto, signer: Propose, other: Propose, epubkey: Bytes): Bytes {
    crypto.encode(signer) + crypto.encode(other) + epubkey
  }

  class Session {
    const crypto: Crypto
    const keys: Keys
    const local: Propose
    var order: int
    var remoteNonce: Bytes
    var choice: Choice
    var remoteEphemeral: Bytes
    var localStretchedKey: Option<StretchedKey>
    var remoteStretchedKey: Option<StretchedKey>

    constructor (crypto: Crypto, keys: Keys, local: Propose)
      ensures this.crypto == crypto && this.keys == keys && this.local == local
    {
      this.crypto, this.keys, this.local := crypto, keys, local;
      order, remoteNonce, choice, remoteEphemeral := 0, [], Choice("", "", ""), [];
      localStretchedKey, remoteStretchedKey := None, None;
    }

    /** From the received proposal to the choice of curve, cipher and hash. */
    method Negotiate(remote: Propose) returns (ok: bool)
      requires Order(crypto.sha256, remote, local) == 0 ==> HasNames(local)
      modifies `order, `remoteNonce, `choice
      ensures ok <==> |remote.rand| == 16 && Choose(Order(crypto.sha256, remote, local), local, remote).Some?
      ensures ok ==> order == Order(crypto.sha256, remote, local) && remoteNonce == remote.rand
      ensures ok ==> Choose(order, local, remote) == Some(choice)
    {
      if |remote.rand| != 16 { return false; }
      remoteNonce := remote.rand;
      order := DetermineOrder(crypto.sha256, remote, local);
      var curve := SelectBest(order, local.exchanges, remote.exchanges);
      if curve.None? { return false; }
      choice := choice.(curve := curve.value);
      var cipher := SelectBest(order, local.ciphers, remote.ciphers);
      if cipher.None? { return false; }
      choice := choice.(cipher := cipher.value);
      var hash := SelectBest(order, local.hashes, remote.hashes);
      if hash.None? { return false; }
      choice := choice.(hash := hash.value);
      return true;
    }

    /** The exchange packet: sign both proposals, ours first, and our ephemeral key. */
    method MakeExchange(remote: Propose) returns (packet: Exchange)
      requires keys.ephemeralPublic != []
      ensures packet.epubkey == keys.ephemeralPublic[1..]
      ensures packet.signature == crypto.sign(keys.privateKey, SignedBytes(crypto, local, remote, packet.epubkey))
      ensures packet.signature == crypto.sign(keys.privateKey, crypto.encode(local) + crypto.encode(remote) + keys.ephemeralPublic[1..])
    {
      var buffer := crypto.encode(local) + crypto.encode(remote) + keys.ephemeralPublic[1..];
      return Exchange(keys.ephemeralPublic[1..], crypto.sign(keys.privateKey, buffer));
    }

    /** From the received exchange packet to the keys. */
    method Conclude(remote: Propose, packet: Exchange) returns (ok: bool)
      modifies `remoteEphemeral, `localStretchedKey, `remoteStretchedKey
      ensures remoteEphemeral == Framed(packet.epubkey)
      ensures |remoteEphemeral| == |packet.epubkey| + 1 && remoteEphemeral[0] == |packet.epubkey| % 256 && remoteEphemeral[1..] == packet.epubkey
      ensures ok <==> Concludes(remote, packet)
      ensures ok <==>
        && crypto.verify(remote.publicKey, crypto.encode(remote) + crypto.encode(local) + packet.epubkey, packet.signature)
        && crypto.sharedSecret(keys.ephemeralPrivate, remoteEphemeral).Some?
        && choice.cipher in ["AES-128", "AES-256", "Blowfish"] && choice.hash in ["SHA1", "SHA256", "SHA512"]
      ensures ok ==> localStretchedKey.Some? && remoteStretchedKey.Some?
                     && var secret := crypto.sharedSecret(keys.ephemeralPrivate, remoteEphemeral).value;
                        var z := SizesFor(choice.cipher).value;
                        HoldsKeys(this, z, crypto.hmac, secret)
    {
      hide CutFrom;
      remoteEphemeral := Framed(packet.epubkey);
      var buffer := crypto.encode(remote) + crypto.encode(local) + remoteEphemeral[1..];
      assert remoteEphemeral[1..] == packet.epubkey;
      ok := crypto.verify(remote.publicKey, buffer, packet.signature);
      if !ok { return false; }
      var secret := crypto.sharedSecret(keys.ephemeralPrivate, remoteEphemeral);
      if secret.None? { return false; }
      var stretched := StretchKeys(crypto.hmac, choice.cipher, secret.value);
      if stretched.None? { return false; }
      if order > 0 {
        localStretchedKey, remoteStretchedKey := Some(stretched.value.0), Some(stretched.value.1);
      } else {
        localStretchedKey, remoteStretchedKey := Some(stretched.value.1), Some(stretched.value.0);
      }
      return KnownHash(choice.hash);
    }

    /** When the second half of the handshake succeeds. */
    ghost predicate Concludes(remote: Propose, packet: Exchange)
      reads `choice
    {
      && crypto.verify(remote.publicKey, SignedBytes(crypto, remote, local, packet.epubkey), packet.signature)
      && crypto.sharedSecret(keys.ephemeralPrivate, Framed(packet.epubkey)).Some?
      && SizesFor(choice.cipher).Some?
      && KnownHash(choice.hash)
    }
  }

  /** What the library promises of a key pair. */
  ghost predicate Signs(crypto: Crypto, privateKey: Bytes, publicKey: Bytes) {
    forall m :: crypto.verify(publicKey, m, crypto.sign(privateKey, m))
  }

  /** A signature is accepted for the signed message alone. */
  ghost predicate SignsOnly(crypto: Crypto, privateKey: Bytes, publicKey: Bytes) {
    forall m, m' :: crypto.verify(publicKey, m, crypto.sign(privateKey, m')) <==> m == m'
  }

  /** Each proposal and the ephemeral key have their own place in what is signed. */
  lemma SignedParts(crypto: Crypto, signer: Propose, other: Propose, epubkey: Bytes)
    ensures var s, m, n := SignedBytes(crypto, signer, other, epubkey), |crypto.encode(signer)|, |crypto.encode(other)|;
            && |s| == m + n + |epubkey|
            && s[..m] == crypto.encode(signer) && s[m..m + n] == crypto.encode(other) && s[m + n..] == epubkey
  {
  }

  /** A packet is accepted with no other ephemeral key than the one that its sender signed. */
  lemma OtherKeyIsRejected(s: Session, remote: Propose, remoteKeys: Keys, epubkey: Bytes)
    requires remoteKeys.ephemeralPublic != [] && SignsOnly(s.crypto, remoteKeys.privateKey, remote.publicKey)
    requires s.Concludes(remote, PacketOf(s.crypto, remoteKeys, remote, s.local).(epubkey := epubkey))
    ensures epubkey == remoteKeys.ephemeralPublic[1..]
  {
    hide SignedBytes;
    SignedParts(s.crypto, remote, s.local, epubkey);
    SignedParts(s.crypto, remote, s.local, remoteKeys.ephemeralPublic[1..]);
  }

  /**
   The sender signed its proposal `y`, the one that it received, `x`, and its key; this side got the
   proposal `remote` and `epubkey`, and has sent `s.local`.  If the packet is accepted, the two
   views agree as bytes; and if the proposals are as long as they were sent, they agree throughout.
   */
  lemma BothSawTheSame(s: Session, remote: Propose, epubkey: Bytes, x: Propose, y: Propose, yk: Keys)
    requires yk.ephemeralPublic != [] && remote.publicKey == y.publicKey && SignsOnly(s.crypto, yk.privateKey, y.publicKey)
    requires s.Concludes(remote, PacketOf(s.crypto, yk, y, x).(epubkey := epubkey))
    ensures var e := s.crypto.encode;
            && e(remote) + e(s.local) + epubkey == e(y) + e(x) + yk.ephemeralPublic[1..]
            && (|e(remote)| == |e(y)| && |e(s.local)| == |e(x)| ==>
                  e(remote) == e(y) && e(s.local) == e(x) && epubkey == yk.ephemeralPublic[1..])
  {
    SignedParts(s.crypto, remote, s.local, epubkey);
    SignedParts(s.crypto, y, x, yk.ephemeralPublic[1..]);
  }

  /** What the library promises of two ephemeral key pairs. */
  predicate SharesSecret(crypto: Crypto, x: Keys, y: Keys)
    requires x.ephemeralPublic != [] && y.ephemeralPublic != []
  {
    crypto.sharedSecret(x.ephemeralPrivate, Framed(y.ephemeralPublic[1..]))
    == crypto.sharedSecret(y.ephemeralPrivate, Framed(x.ephemeralPublic[1..]))
  }

  /** The first name of the leader's list that the follower has, for each of the three lists. */
  ghost predicate LeadersChoice(c: Choice, lead: Propose, follower: Propose) {
    && FirstCommon(Names(lead.exchanges), Names(follower.exchanges)) == Some(c.curve)
    && FirstCommon(Names(lead.ciphers), Names(follower.ciphers)) == Some(c.cipher)
    && FirstCommon(Names(lead.hashes), Names(follower.hashes)) == Some(c.hash)
  }

  /** Two sessions that fit together: opposite roles, one choice, keys crossed over. */
  ghost predicate Paired(a: Session, b: Session)
    reads a, b
  {
    && a.order == -b.order && a.order != 0
    && a.choice == b.choice
    && (if a.order > 0 then LeadersChoice(a.choice, a.local, b.local) else LeadersChoice(a.choice, b.local, a.local))
    && a.localStretchedKey.Some? && b.localStretchedKey.Some?
    && a.localStretchedKey == b.remoteStretchedKey
    && a.remoteStretchedKey == b.localStretchedKey
    && a.remoteNonce == b.local.rand && b.remoteNonce == a.local.rand
  }

  /** One side's packet as the other side gets it. */
  function PacketOf(crypto: Crypto, keys: Keys, signer: Propose, other: Propose): Exchange
    requires keys.ephemeralPublic != []
  {
    var epubkey := keys.ephemeralPublic[1..];
    Exchange(epubkey, crypto.sign(keys.privateKey, SignedBytes(crypto, signer, other, epubkey)))
  }

  /** The side has verified the other one's packet, and its keys are cut from their common secret. */
  ghost predicate Settled(s: Session, remote: Propose, remoteKeys: Keys)
    requires remoteKeys.ephemeralPublic != []
    reads s
  {
    && s.Concludes(remote, PacketOf(s.crypto, remoteKeys, remote, s.local))
    && s.localStretchedKey.Some? && s.remoteStretchedKey.Some?
    && HoldsKeys(s, SizesFor(s.choice.cipher).value, s.crypto.hmac,
                 s.crypto.sharedSecret(s.keys.ephemeralPrivate, Framed(remoteKeys.ephemeralPublic[1..])).value)
  }

  /** One choice, and what one side sends with the other receives with. */
  ghost predicate Compatible(a: Session, b: Session)
    reads a, b
  {
    && a.choice == b.choice
    && a.localStretchedKey == b.remoteStretchedKey
    && a.remoteStretchedKey == b.localStretchedKey
  }

  predicate SameFirstNames(x: Propose, y: Propose)
    requires HasNames(x) && HasNames(y)
  {
    && Names(x.exchanges)[0] == Names(y.exchanges)[0]
    && Names(x.ciphers)[0] == Names(y.ciphers)[0]
    && Names(x.hashes)[0] == Names(y.hashes)[0]
  }

  /** The two keys that are cut from the secret are the same. */
  ghost predicate HalvesCoincide(z: Sizes, hmac: (Bytes, Bytes) -> Digest, secret: Bytes) {
    exists k :: CutFrom(k, k, z, hmac, secret, SEED)
  }

  /** Both sides get past the choice of algorithms. */
  predicate Negotiable(sha256: Bytes -> Digest, x: Propose, y: Propose)
    requires Order(sha256, y, x) == 0 ==> HasNames(x)
    requires Order(sha256, x, y) == 0 ==> HasNames(y)
  {
    && |x.rand| == 16 && |y.rand| == 16
    && Choose(Order(sha256, y, x), x, y).Some? && Choose(Order(sha256, x, y), y, x).Some?
  }

  /**
   A handshake between two honest parties.  With a leader both succeed or both fail, and then they
   fit together; without one they fit together only if their first names are the same and the
   two keys happen to coincide.
   */
  method Handshake(crypto: Crypto, x: Propose, xk: Keys, y: Propose, yk: Keys) returns (a: Session, b: Session, okA: bool, okB: bool)
    requires xk.ephemeralPublic != [] && yk.ephemeralPublic != []
    requires Order(crypto.sha256, y, x) == 0 ==> HasNames(x)
    requires Order(crypto.sha256, x, y) == 0 ==> HasNames(y)
    requires Signs(crypto, xk.privateKey, x.publicKey) && Signs(crypto, yk.privateKey, y.publicKey)
    requires SharesSecret(crypto, xk, yk)
    ensures a.crypto == b.crypto == crypto && a.keys == xk && b.keys == yk && a.local == x && b.local == y
    ensures okA <==> Negotiable(crypto.sha256, x, y) && Succeeds(crypto, Choose(Order(crypto.sha256, y, x), x, y), xk, yk)
    ensures okB <==> Negotiable(crypto.sha256, x, y) && Succeeds(crypto, Choose(Order(crypto.sha256, x, y), y, x), yk, xk)
    ensures okA ==> Settled(a, y, yk)
    ensures okB ==> Settled(b, x, xk)
    ensures Order(crypto.sha256, y, x) != 0 ==> okA == okB && (okA ==> Paired(a, b))
    ensures okA && okB && Order(crypto.sha256, y, x) == 0 ==>
      (Compatible(a, b) <==> SameFirstNames(x, y) && HalvesCoincide(SizesFor(a.choice.cipher).value, crypto.hmac, SecretOf(crypto, xk, yk)))
  {
    hide CutFrom, FirstCommon, Names, Order, SignedBytes, SameFirstNames, HalvesCoincide;
    OrdersAreOpposite(crypto.sha256, x, y);
    a := new Session(crypto, xk, x);
    b := new Session(crypto, yk, y);
    okA := a.Negotiate(y);
    okB := b.Negotiate(x);
    if !okA || !okB { return a, b, false, false; }
    var packetA := a.MakeExchange(y);
    var packetB := b.MakeExchange(x);
    okA := a.Conclude(y, packetB);
    okB := b.Conclude(x, packetA);
    if a.order != 0 {
      SelectionsAlike(a.order, x, y);
      if okA { KeysCross(a, b, SecretOf(crypto, xk, yk)); }
    } else if okA && okB {
      LeaderlessChoice(x, y);
      LeaderlessKeys(a, b, SecretOf(crypto, xk, yk));
    }
  }

  function SecretOf(crypto: Crypto, local: Keys, remote: Keys): Bytes
    requires remote.ephemeralPublic != []
  {
    var s := crypto.sharedSecret(local.ephemeralPrivate, Framed(remote.ephemeralPublic[1..]));
    if s.Some? then s.value else []
  }

  lemma SelectionsAlike(order: int, x: Propose, y: Propose)
    requires order != 0
    ensures Choose(order, x, y) == Choose(-order, y, x)
    ensures Choose(order, x, y).Some? ==>
      if order > 0 then LeadersChoice(Choose(order, x, y).value, x, y) else LeadersChoice(Choose(order, x, y).value, y, x)
  {
    hide FirstCommon, Names;
  }

  lemma LeaderlessChoice(x: Propose, y: Propose)
    requires HasNames(x) && HasNames(y)
    ensures Choose(0, x, y) == Choose(0, y, x) <==> SameFirstNames(x, y)
  {
    hide Names;
  }

  /** Without a leader both sides take the second key as their own, so the keys cross only if there is one key. */
  lemma LeaderlessKeys(a: Session, b: Session, secret: Bytes)
    requires a.order == 0 && b.order == 0 && SizesFor(a.choice.cipher).Some? && SizesFor(b.choice.cipher).Some?
    requires a.localStretchedKey.Some? && a.remoteStretchedKey.Some? && b.localStretchedKey.Some? && b.remoteStretchedKey.Some?
    requires HoldsKeys(a, SizesFor(a.choice.cipher).value, a.crypto.hmac, secret)
    requires HoldsKeys(b, SizesFor(b.choice.cipher).value, a.crypto.hmac, secret)
    ensures Compatible(a, b) <==> a.choice == b.choice && HalvesCoincide(SizesFor(a.choice.cipher).value, a.crypto.hmac, secret)
    ensures a.choice == b.choice ==> a.localStretchedKey == b.localStretchedKey && a.remoteStretchedKey == b.remoteStretchedKey
  {
    hide CutFrom;
    var z, h := SizesFor(a.choice.cipher).value, a.crypto.hmac;
    var al, ar, bl, br := a.localStretchedKey.value, a.remoteStretchedKey.value, b.localStretchedKey.value, b.remoteStretchedKey.value;
    if a.choice == b.choice {
      CutIsUnique(ar, al, br, bl, z, h, secret, SEED);
      if HalvesCoincide(z, h, secret) {
        var k :| CutFrom(k, k, z, h, secret, SEED);
        CutIsUnique(ar, al, k, k, z, h, secret, SEED);
      }
    }
  }

  // ----- nobody leads

  /** A proposal sent back to its sender leaves nobody to lead, without any collision of hashes. */
  lemma EchoHasNoLeader(sha256: Bytes -> Digest, x: Propose)
    ensures Order(sha256, x, x) == 0
  {
  }

  lemma {:induction false} ConstantStream(d: Digest, secret: Bytes, seed: Bytes, n: nat, j: nat)
    requires j < 32 * n
    ensures KeyStream((_, _) => d, secret, seed, n)[j] == d[j % 32]
  {
    if j < 32 * (n - 1) {
      ConstantStream(d, secret, seed, n - 1, j);
    } else {
      assert j % 32 == j - 32 * (n - 1);
    }
  }

  /** Keys cut from a stream that repeats one block differ if bytes 0 and 52 of the stream do. */
  lemma RepeatedBlockKeysDiffer(d: Digest, secret: Bytes)
    requires d[0] != d[20]
    ensures !HalvesCoincide(Sizes(16, 16), (_, _) => d, secret)
  {
    hide KeyStream;
    var h: (Bytes, Bytes) -> Digest := (_, _) => d;
    if HalvesCoincide(Sizes(16, 16), h, secret) {
      var k :| CutFrom(k, k, Sizes(16, 16), h, secret, SEED);
      var n: nat :| Parts(k, k) <= KeyStream(h, secret, SEED, n);
      var s := KeyStream(h, secret, SEED, n);
      FirstOfParts(k);
      ConstantStream(d, secret, SEED, n, 0);
      ConstantStream(d, secret, SEED, n, 52);
      assert false;
    }
  }

  lemma FirstOfParts(k: StretchedKey)
    requires Fits(k, Sizes(16, 16))
    ensures |Parts(k, k)| == 104 && Parts(k, k)[0] == Parts(k, k)[52]
  {
    assert Parts(k, k)[0] == k.iv[0] && Parts(k, k)[52] == k.iv[0];
  }

  function OneThenZeros(): Digest { [1] + seq(31, _ => 0) }

  /** An input for which the keys of an echoed proposal do not cross. */
  lemma EchoKeysDiffer(secret: Bytes)
    ensures SizesFor("AES-128") == Some(Sizes(16, 16))
    ensures !HalvesCoincide(Sizes(16, 16), (_, _) => OneThenZeros(), secret)
  {
    RepeatedBlockKeysDiffer(OneThenZeros(), secret);
  }

  ghost predicate Succeeds(crypto: Crypto, choice: Option<Choice>, xk: Keys, yk: Keys)
    requires yk.ephemeralPublic != []
  {
    && choice.Some? && SizesFor(choice.value.cipher).Some? && KnownHash(choice.value.hash)
    && crypto.sharedSecret(xk.ephemeralPrivate, Framed(yk.ephemeralPublic[1..])).Some?
  }

  /** Cut from one secret, the keys of opposite sides cross over. */
  lemma KeysCross(a: Session, b: Session, secret: Bytes)
    requires a.order == -b.order && a.order != 0 && SizesFor(a.choice.cipher).Some?
    requires a.localStretchedKey.Some? && a.remoteStretchedKey.Some? && b.localStretchedKey.Some? && b.remoteStretchedKey.Some?
    requires HoldsKeys(a, SizesFor(a.choice.cipher).value, a.crypto.hmac, secret)
    requires HoldsKeys(b, SizesFor(a.choice.cipher).value, a.crypto.hmac, secret)
    ensures a.localStretchedKey == b.remoteStretchedKey && a.remoteStretchedKey == b.localStretchedKey
  {
    var z, h := SizesFor(a.choice.cipher).value, a.crypto.hmac;
    var al, ar, bl, br := a.localStretchedKey.value, a.remoteStretchedKey.value, b.localStretchedKey.value, b.remoteStretchedKey.value;
    if a.order > 0 { CutIsUnique(al, ar, br, bl, z, h, secret, SEED); } else { CutIsUnique(ar, al, bl, br, z, h, secret, SEED); }
  }

  ghost predicate HoldsKeys(s: Session, z: Sizes, hmac: (Bytes, Bytes) -> Digest, secret: Bytes)
    requires s.localStretchedKey.Some? && s.remoteStretchedKey.Some?
    reads s
  {
    if s.order > 0 then CutFrom(s.localStretchedKey.value, s.remoteStretchedKey.value, z, hmac, secret, SEED)
    else CutFrom(s.remoteStretchedKey.value, s.localStretchedKey.value, z, hmac, secret, SEED)
  }
}
