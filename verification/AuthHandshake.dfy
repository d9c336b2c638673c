/** One request with its bearer handshake (client.go, do), against any registry and token service. */
module AuthHandshake {
  import opened Options
  import opened Client
  import opened Tokens
  import opened HeaderParams
  import opened ChallengeRoundTrip
  import opened BearerOffer

  const MAX_CHALLENGES := 512
  const UNAUTHORIZED := 401

  /** What a send comes back with, `headers` being the values of its WWW-Authenticate headers. */
  datatype Reply = Broken(error: Error) | Replied(status: int, headers: seq<string>)

  /** The world of one call: the k-th send, the k-th use of the token cache, its clock readings, and which
      realms are http or https URLs. */
  datatype World = World(registry: nat -> Reply, service: nat -> Service, times: nat -> TokenTimes, usable: string -> bool)

  /** The Bearer challenge that the k-th send was answered with, if any. */
  function Offered(w: World, id: nat): Option<Challenged> {
    if w.registry(id).Replied? then Offer(w.registry(id).headers, w.usable) else None
  }

  /** A response whose body is still open: the number of the send that opened it, and its status. */
  datatype Response = Response(id: nat, status: int)

  /** A send carries a bearer token, or "" for the static credentials. */
  datatype Event = Send(id: nat, bearer: string, answered: bool) | TokenRequest | Drain(id: nat)

  // ---------- the handshake as a function of its world ----------

  type TokenMap = map<string, CachedToken>
  type ChallengeMap = map<string, Challenged>

  datatype Outcome = Outcome(result: Result<Response>, trace: seq<Event>, tokens: TokenMap, challenges: ChallengeMap)

  datatype Grant = Grant(token: Result<string>, tokens: TokenMap, trace: seq<Event>)

  /** tokenCache.token as specified in Tokens. */
  function GetToken(w: World, n: nat, tokens: TokenMap, c: Challenged): Grant {
    var key, t := TokenKey(c), w.times(n);
    if Usable(tokens, key, t.look) then Grant(Ok(tokens[key].value), tokens, [])
    else
      var r := Requested(c, w.service(n));
      var trace := if c.realm == "" || !c.usable then [] else [TokenRequest];
      if r.Err? then Grant(r, tokens, trace)
      else Grant(r, Stored(tokens, key, r.value, Lifetime(w.service(n).doc, t.decode), t.prune, t.store), trace)
  }

  function Put(m: ChallengeMap, key: string, c: Challenged): ChallengeMap {
    (if |m| >= MAX_CHALLENGES then map[] else m)[key := c]
  }

  function SendEvent(w: World, id: nat, bearer: string): Event { Send(id, bearer, w.registry(id).Replied?) }

  function Answer(w: World, id: nat): Result<Response> {
    match w.registry(id)
    case Broken(error) => Err(error)
    case Replied(status, _) => Ok(Response(id, status))
  }

  predicate Refused(w: World, id: nat) { w.registry(id).Replied? && w.registry(id).status == UNAUTHORIZED }

  /** From scratch: send without a token, and on a Bearer challenge negotiate one and retry once. */
  function Negotiate(w: World, id: nat, n: nat, tokens: TokenMap, challenges: ChallengeMap, key: string): Outcome {
    var first := [SendEvent(w, id, "")];
    if !Refused(w, id) || Offered(w, id).None? then Outcome(Answer(w, id), first, tokens, challenges)
    else
      var c := Offered(w, id).value;
      var g := GetToken(w, n, tokens, c);
      var trace := first + [Drain(id)] + g.trace;
      if g.token.Err? then Outcome(Err(g.token.error), trace, g.tokens, Put(challenges, key, c))
      else Outcome(Answer(w, id + 1), trace + [SendEvent(w, id + 1, g.token.value)], g.tokens, Put(challenges, key, c))
  }

  /** A remembered challenge first presents a token; only a 401 to it falls back to negotiating. */
  function Handshake(w: World, tokens: TokenMap, challenges: ChallengeMap, key: string): Outcome {
    if key !in challenges then Negotiate(w, 0, 0, tokens, challenges, key)
    else
      var g := GetToken(w, 0, tokens, challenges[key]);
      if g.token.Err? then
        var o := Negotiate(w, 0, 1, g.tokens, challenges, key);
        o.(trace := g.trace + o.trace)
      else
        var sent := g.trace + [SendEvent(w, 0, g.token.value)];
        if !Refused(w, 0) then Outcome(Answer(w, 0), sent, g.tokens, challenges)
        else
          var o := Negotiate(w, 1, 1, g.tokens, challenges, key);
          o.(trace := sent + [Drain(0)] + o.trace)
  }

  // ---------- the method ----------

  class AuthClient {
    const tokens: TokenCache
    var challenges: ChallengeMap
    ghost var trace: seq<Event>

    /** Both memories are bounded, and no token in hand is blank. */
    ghost predicate Valid()
      reads this, tokens
    {
      InBounds(tokens.tokens, challenges)
    }

    constructor ()
      ensures Valid() && fresh(tokens) && tokens.tokens == map[] && challenges == map[] && trace == []
    {
      tokens := new TokenCache();
      challenges, trace := map[], [];
    }

    method Remember(key: string, c: Challenged)
      modifies this`challenges
      ensures challenges == Put(old(challenges), key, c)
    {
      if |challenges| >= MAX_CHALLENGES { challenges := map[]; }
      challenges := challenges[key := c];
    }

    method SendOnce(w: World, id: nat, bearer: string) returns (reply: Reply)
      modifies this`trace
      ensures reply == w.registry(id) && trace == old(trace) + [SendEvent(w, id, bearer)]
    {
      reply := w.registry(id);
      trace := trace + [SendEvent(w, id, bearer)];
    }

    method Obtain(w: World, n: nat, c: Challenged) returns (token: Result<string>)
      requires |tokens.tokens| <= MAX_TOKENS && InOrder(w.times(n))
      modifies this`trace, tokens
      ensures |tokens.tokens| <= MAX_TOKENS
      ensures var g := GetToken(w, n, old(tokens.tokens), c);
              token == g.token && tokens.tokens == g.tokens && trace == old(trace) + g.trace
    {
      hide Lifetime, Stored, Requested;
      ghost var requests;
      token, requests := tokens.Token(c, w.service(n), w.times(n));
      trace := trace + if requests == 1 then [TokenRequest] else [];
    }

    /** The part of do from the unauthenticated send on. */
    method Renegotiate(w: World, id: nat, n: nat, key: string) returns (result: Result<Response>)
      requires |tokens.tokens| <= MAX_TOKENS && InOrder(w.times(n))
      modifies this, tokens
      ensures |tokens.tokens| <= MAX_TOKENS
      ensures var o := Negotiate(w, id, n, old(tokens.tokens), old(challenges), key);
              && result == o.result && trace == old(trace) + o.trace
              && tokens.tokens == o.tokens && challenges == o.challenges
    {
      hide GetToken, Offer, Put;
      var reply := SendOnce(w, id, "");
      if reply.Broken? { return Err(reply.error); }
      if reply.status != UNAUTHORIZED { return Ok(Response(id, reply.status)); }
      var offer := ReadOffer(reply.headers, w.usable);
      if offer.None? { return Ok(Response(id, reply.status)); }
      trace := trace + [Drain(id)];
      Remember(key, offer.value);
      var token := Obtain(w, n, offer.value);
      if token.Err? { return Err(token.error); }
      reply := SendOnce(w, id + 1, token.value);
      if reply.Broken? { return Err(reply.error); }
      return Ok(Response(id + 1, reply.status));
    }

    method Do(w: World, key: string) returns (result: Result<Response>)
      requires Valid() && forall n: nat :: InOrder(w.times(n))
      modifies this, tokens
      ensures Valid()
      ensures var o := Handshake(w, old(tokens.tokens), old(challenges), key);
              && result == o.result && trace == old(trace) + o.trace
              && tokens.tokens == o.tokens && challenges == o.challenges
    {
      hide GetToken, Negotiate, NoBlankToken;
      HandshakeKeepsBounds(w, tokens.tokens, challenges, key);
      if key in challenges {
        var token := Obtain(w, 0, challenges[key]);
        if token.Ok? {
          var reply := SendOnce(w, 0, token.value);
          if reply.Broken? { return Err(reply.error); }
          if reply.status != UNAUTHORIZED { return Ok(Response(0, reply.status)); }
          trace := trace + [Drain(0)];
          result := Renegotiate(w, 1, 1, key);
        } else {
          result := Renegotiate(w, 0, 1, key);
        }
      } else {
        result := Renegotiate(w, 0, 0, key);
      }
    }
  }

  // ---------- what every call keeps ----------

  function Sends(trace: seq<Event>): nat {
    if trace == [] then 0 else (if trace[0].Send? then 1 else 0) + Sends(trace[1..])
  }

  function TokenRequests(trace: seq<Event>): nat {
    if trace == [] then 0 else (if trace[0].TokenRequest? then 1 else 0) + TokenRequests(trace[1..])
  }

  function Opened(trace: seq<Event>): multiset<nat> {
    if trace == [] then multiset{}
    else (if trace[0].Send? && trace[0].answered then multiset{trace[0].id} else multiset{}) + Opened(trace[1..])
  }

  function Drained(trace: seq<Event>): multiset<nat> {
    if trace == [] then multiset{}
    else (if trace[0].Drain? then multiset{trace[0].id} else multiset{}) + Drained(trace[1..])
  }

  lemma {:induction false} Appends(a: seq<Event>, b: seq<Event>)
    ensures Sends(a + b) == Sends(a) + Sends(b) && TokenRequests(a + b) == TokenRequests(a) + TokenRequests(b)
    ensures Opened(a + b) == Opened(a) + Opened(b) && Drained(a + b) == Drained(a) + Drained(b)
    decreases |a|
  {
    if a == [] {
      assert a + b == b;
    } else {
      assert (a + b)[1..] == a[1..] + b;
      Appends(a[1..], b);
    }
  }

  lemma {:induction false} One(e: Event)
    ensures Sends([e]) == (if e.Send? then 1 else 0) && TokenRequests([e]) == (if e.TokenRequest? then 1 else 0)
    ensures Opened([e]) == (if e.Send? && e.answered then multiset{e.id} else multiset{})
    ensures Drained([e]) == (if e.Drain? then multiset{e.id} else multiset{})
  {
    assert [e][1..] == [];
  }

  /** The one response left open: the one returned. */
  function Open(result: Result<Response>): multiset<nat> {
    if result.Ok? then multiset{result.value.id} else multiset{}
  }

  lemma {:induction false} GrantTrace(w: World, n: nat, tokens: TokenMap, c: Challenged)
    ensures var t := GetToken(w, n, tokens, c).trace;
            Sends(t) == 0 && TokenRequests(t) <= 1 && Opened(t) == multiset{} == Drained(t)
    ensures var key := TokenKey(c); Usable(tokens, key, w.times(n).look) ==> TokenRequests(GetToken(w, n, tokens, c).trace) == 0
  {
    hide Lifetime, Stored, Requested;
    One(TokenRequest);
  }

  /** At most this many sends and token requests, and every response opened is drained once, except the
      one returned. */
  ghost predicate Bounded(trace: seq<Event>, result: Result<Response>, sends: nat, requests: nat) {
    && Sends(trace) <= sends && TokenRequests(trace) <= requests
    && Opened(trace) == Drained(trace) + Open(result)
  }

  lemma {:induction false} NegotiateKeeps(w: World, id: nat, n: nat, tokens: TokenMap, challenges: ChallengeMap, key: string)
    ensures var o := Negotiate(w, id, n, tokens, challenges, key); Bounded(o.trace, o.result, 2, 1)
  {
    hide GetToken, Put, Offer, Sends, TokenRequests, Opened, Drained;
    var first := SendEvent(w, id, "");
    One(first);
    if Refused(w, id) && Offered(w, id).Some? {
      var g := GetToken(w, n, tokens, Offered(w, id).value);
      var retry := SendEvent(w, id + 1, if g.token.Ok? then g.token.value else "");
      GrantTrace(w, n, tokens, Offered(w, id).value);
      One(Drain(id));
      One(retry);
      Appends([first], [Drain(id)]);
      Appends([first] + [Drain(id)], g.trace);
      Appends([first] + [Drain(id)] + g.trace, [retry]);
    }
  }

  /** A prefix that asked for a token at most once, sent at most once, and drained what it opened. */
  lemma {:induction false} BoundedAfter(prefix: seq<Event>, trace: seq<Event>, result: Result<Response>)
    requires Sends(prefix) <= 1 && TokenRequests(prefix) <= 1 && Opened(prefix) == Drained(prefix)
    requires Bounded(trace, result, 2, 1)
    ensures Bounded(prefix + trace, result, 3, 2)
  {
    hide Sends, TokenRequests, Opened, Drained;
    Appends(prefix, trace);
  }

  lemma {:induction false} SentTrace(w: World, g: Grant, bearer: string)
    requires Sends(g.trace) == 0 && TokenRequests(g.trace) <= 1 && Opened(g.trace) == multiset{} == Drained(g.trace)
    ensures var sent := g.trace + [SendEvent(w, 0, bearer)];
            && Bounded(sent, Answer(w, 0), 3, 2)
            && (Refused(w, 0) ==> var t := sent + [Drain(0)];
                  Sends(t) <= 1 && TokenRequests(t) <= 1 && Opened(t) == Drained(t))
  {
    hide Sends, TokenRequests, Opened, Drained;
    One(SendEvent(w, 0, bearer));
    One(Drain(0));
    Appends(g.trace, [SendEvent(w, 0, bearer)]);
    Appends(g.trace + [SendEvent(w, 0, bearer)], [Drain(0)]);
  }

  /** One call makes at most 3 sends and 2 token requests, or 2 and 1 when no challenge is remembered;
      and every response opened is drained once, except the one returned, which is not drained. */
  lemma {:induction false} HandshakeIsBounded(w: World, tokens: TokenMap, challenges: ChallengeMap, key: string)
    ensures var o := Handshake(w, tokens, challenges, key);
            Bounded(o.trace, o.result, if key in challenges then 3 else 2, if key in challenges then 2 else 1)
  {
    hide GetToken, Negotiate, Bounded, Answer;
    if key !in challenges {
      NegotiateKeeps(w, 0, 0, tokens, challenges, key);
    } else {
      var g := GetToken(w, 0, tokens, challenges[key]);
      GrantTrace(w, 0, tokens, challenges[key]);
      if g.token.Err? {
        NegotiateKeeps(w, 0, 1, g.tokens, challenges, key);
        var o := Negotiate(w, 0, 1, g.tokens, challenges, key);
        BoundedAfter(g.trace, o.trace, o.result);
      } else {
        SentTrace(w, g, g.token.value);
        NegotiateKeeps(w, 1, 1, g.tokens, challenges, key);
        if Refused(w, 0) {
          var o := Negotiate(w, 1, 1, g.tokens, challenges, key);
          BoundedAfter(g.trace + [SendEvent(w, 0, g.token.value)] + [Drain(0)], o.trace, o.result);
        }
      }
    }
  }

  function Last(trace: seq<Event>): Event
    requires trace != []
  {
    trace[|trace| - 1]
  }

  /** Every token in hand is non-empty, as requestToken sees to. */
  predicate NoBlankToken(tokens: TokenMap) { forall k :: k in tokens ==> tokens[k].value != "" }

  lemma {:induction false} GrantedIsNotBlank(w: World, n: nat, tokens: TokenMap, c: Challenged)
    requires NoBlankToken(tokens)
    ensures var g := GetToken(w, n, tokens, c); NoBlankToken(g.tokens) && (g.token.Ok? ==> g.token.value != "")
  {
    hide Lifetime;
  }

  // ---------- both memories stay bounded ----------

  predicate InBounds(tokens: TokenMap, challenges: ChallengeMap) {
    |tokens| <= 256 && |challenges| <= 512 && NoBlankToken(tokens)
  }

  /** A challenge just put is remembered, nothing is remembered that was not before, and the map never
      grows past its bound. */
  lemma {:induction false} PutIsBounded(m: ChallengeMap, key: string, c: Challenged)
    requires |m| <= 512
    ensures var m' := Put(m, key, c);
            && |m'| <= 512 && key in m' && m'[key] == c
            && (forall k :: k in m' && k != key ==> k in m && m'[k] == m[k])
            && (|m| < 512 ==> m' == m[key := c])
  {
    var rest: ChallengeMap := if |m| >= MAX_CHALLENGES then map[] else m;
    assert rest[key := c].Keys == rest.Keys + {key};
  }

  lemma {:induction false} GrantIsBounded(w: World, n: nat, tokens: TokenMap, c: Challenged)
    requires |tokens| <= MAX_TOKENS
    ensures |GetToken(w, n, tokens, c).tokens| <= MAX_TOKENS
  {
    hide Stored, Lifetime;
    var key, t := TokenKey(c), w.times(n);
    var r := Requested(c, w.service(n));
    if !Usable(tokens, key, t.look) && r.Ok? {
      StoredIsBounded(tokens, key, r.value, Lifetime(w.service(n).doc, t.decode), t.prune, t.store);
    }
  }

  lemma {:induction false} NegotiateKeepsBounds(w: World, id: nat, n: nat, tokens: TokenMap, challenges: ChallengeMap, key: string)
    requires InBounds(tokens, challenges)
    ensures var o := Negotiate(w, id, n, tokens, challenges, key); InBounds(o.tokens, o.challenges)
  {
    hide GetToken, Put, NoBlankToken;
    if Refused(w, id) && Offered(w, id).Some? {
      var c := Offered(w, id).value;
      PutIsBounded(challenges, key, c);
      GrantIsBounded(w, n, tokens, c);
      GrantedIsNotBlank(w, n, tokens, c);
    }
  }

  /** Whatever the registry and the token service answer, a call leaves at most 512 challenges and 256
      tokens remembered, none of them blank. */
  lemma {:induction false} HandshakeKeepsBounds(w: World, tokens: TokenMap, challenges: ChallengeMap, key: string)
    requires InBounds(tokens, challenges)
    ensures var o := Handshake(w, tokens, challenges, key); InBounds(o.tokens, o.challenges)
  {
    hide GetToken, Negotiate, NoBlankToken;
    if key !in challenges {
      NegotiateKeepsBounds(w, 0, 0, tokens, challenges, key);
    } else {
      var g := GetToken(w, 0, tokens, challenges[key]);
      GrantIsBounded(w, 0, tokens, challenges[key]);
      GrantedIsNotBlank(w, 0, tokens, challenges[key]);
      NegotiateKeepsBounds(w, 0, 1, g.tokens, challenges, key);
      NegotiateKeepsBounds(w, 1, 1, g.tokens, challenges, key);
    }
  }

  // ---------- what a returned 401 means ----------

  /** If the result is a 401, it answers the last event: either a send without a token whose answer
      offered no Bearer challenge, or the retry with the very token granted, from these tokens, for the
      challenge of the send just before, which was drained. */
  ghost predicate RefusalExplained(w: World, trace: seq<Event>, result: Result<Response>, n: nat, tokens: TokenMap) {
    result.Ok? && result.value.status == UNAUTHORIZED ==>
      && trace != [] && Last(trace).Send? && Last(trace).id == result.value.id
      && if Last(trace).bearer == "" then w.registry(result.value.id).Replied? && Offered(w, result.value.id).None?
         else GrantedFor(w, trace, result.value.id, Last(trace).bearer, n, tokens)
  }

  ghost predicate GrantedFor(w: World, trace: seq<Event>, id: nat, bearer: string, n: nat, tokens: TokenMap) {
    && id > 0 && Drain(id - 1) in trace && Refused(w, id - 1) && Offered(w, id - 1).Some?
    && GetToken(w, n, tokens, Offered(w, id - 1).value).token == Ok(bearer)
  }

  lemma {:induction false} NegotiatedRefusal(w: World, id: nat, n: nat, tokens: TokenMap, challenges: ChallengeMap, key: string)
    requires NoBlankToken(tokens)
    ensures var o := Negotiate(w, id, n, tokens, challenges, key);
            o.trace != [] && RefusalExplained(w, o.trace, o.result, n, tokens)
  {
    hide GetToken, Put, NoBlankToken;
    if Refused(w, id) && Offered(w, id).Some? {
      var c := Offered(w, id).value;
      var g := GetToken(w, n, tokens, c);
      GrantedIsNotBlank(w, n, tokens, c);
      assert ([SendEvent(w, id, "")] + [Drain(id)] + g.trace)[1] == Drain(id);
    }
  }

  lemma {:induction false} ExplainedAfter(w: World, prefix: seq<Event>, trace: seq<Event>, result: Result<Response>,
                                          n: nat, tokens: TokenMap)
    requires trace != [] && RefusalExplained(w, trace, result, n, tokens)
    ensures RefusalExplained(w, prefix + trace, result, n, tokens)
  {
    hide GetToken;
    assert Last(prefix + trace) == Last(trace);
  }

  /** The tokens in hand when the negotiation of a call starts: those of before, and what presenting a
      token for a remembered challenge may have brought. */
  function TokensToNegotiate(w: World, tokens: TokenMap, challenges: ChallengeMap, key: string): TokenMap {
    if key in challenges then GetToken(w, 0, tokens, challenges[key]).tokens else tokens
  }

  /** A 401 is only ever returned as the answer to the one retry with the token negotiated for the
      challenge just met, or because it offered no Bearer challenge. */
  lemma {:induction false} RefusalIsFinal(w: World, tokens: TokenMap, challenges: ChallengeMap, key: string)
    requires NoBlankToken(tokens)
    ensures var o := Handshake(w, tokens, challenges, key);
            RefusalExplained(w, o.trace, o.result, if key in challenges then 1 else 0,
                             TokensToNegotiate(w, tokens, challenges, key))
  {
    hide GetToken, Negotiate, GrantedFor, NoBlankToken;
    if key !in challenges {
      NegotiatedRefusal(w, 0, 0, tokens, challenges, key);
    } else {
      var g := GetToken(w, 0, tokens, challenges[key]);
      GrantedIsNotBlank(w, 0, tokens, challenges[key]);
      if g.token.Err? {
        NegotiatedRefusal(w, 0, 1, g.tokens, challenges, key);
        var o := Negotiate(w, 0, 1, g.tokens, challenges, key);
        ExplainedAfter(w, g.trace, o.trace, o.result, 1, g.tokens);
      } else if Refused(w, 0) {
        NegotiatedRefusal(w, 1, 1, g.tokens, challenges, key);
        var o := Negotiate(w, 1, 1, g.tokens, challenges, key);
        ExplainedAfter(w, g.trace + [SendEvent(w, 0, g.token.value)] + [Drain(0)], o.trace, o.result, 1, g.tokens);
      }
    }
  }

  // ---------- what is returned is what was answered ----------

  /** No token comes of a challenge, for this reason: it has no usable realm, the token service refuses, or
      its document holds no token. */
  predicate TokenRefused(w: World, n: nat, tokens: TokenMap, c: Challenged, e: Error) {
    && !Usable(tokens, TokenKey(c), w.times(n).look)
    && if c.realm == "" || !c.usable then e == Upstream(401)
       else match w.service(n)
         case Unavailable(error) => e == error
         case Granted(doc) => doc.token == "" && doc.accessToken == "" && e == Upstream(401)
  }

  /** The trace ends with the drain of a refusal, and a request to the token service if it could be made. */
  predicate EndsDraining(w: World, trace: seq<Event>, id: nat, c: Challenged) {
    && |trace| > 1 && w.registry(id).Replied? && w.registry(id).status == 401 && Offered(w, id) == Some(c)
    && if c.realm == "" || !c.usable then Last(trace) == Drain(id)
       else Last(trace) == TokenRequest && trace[|trace| - 2] == Drain(id)
  }

  /** A response is the answer to the last send, with its status; an error is that of the last send, which
      broke, or the refusal of a token for the challenge just drained. */
  ghost predicate ResultExplained(w: World, trace: seq<Event>, result: Result<Response>, n: nat, tokens: TokenMap) {
    && trace != []
    && match result
       case Ok(r) =>
         && Last(trace).Send? && Last(trace).id == r.id
         && w.registry(r.id).Replied? && w.registry(r.id).status == r.status
       case Err(e) =>
         || (Last(trace).Send? && w.registry(Last(trace).id) == Broken(e))
         || exists id: nat, c: Challenged :: EndsDraining(w, trace, id, c) && TokenRefused(w, n, tokens, c, e)
  }

  lemma {:induction false} GrantRefused(w: World, n: nat, tokens: TokenMap, c: Challenged)
    requires GetToken(w, n, tokens, c).token.Err?
    ensures TokenRefused(w, n, tokens, c, GetToken(w, n, tokens, c).token.error)
    ensures GetToken(w, n, tokens, c).trace == if c.realm == "" || !c.usable then [] else [TokenRequest]
  {
    hide Stored, Lifetime;
  }

  lemma {:induction false} NegotiatedResult(w: World, id: nat, n: nat, tokens: TokenMap, challenges: ChallengeMap, key: string)
    ensures var o := Negotiate(w, id, n, tokens, challenges, key); ResultExplained(w, o.trace, o.result, n, tokens)
  {
    hide GetToken, Put, TokenRefused, Offered;
    var o := Negotiate(w, id, n, tokens, challenges, key);
    if Refused(w, id) && Offered(w, id).Some? {
      var c := Offered(w, id).value;
      if GetToken(w, n, tokens, c).token.Err? {
        GrantRefused(w, n, tokens, c);
        assert EndsDraining(w, o.trace, id, c);
      }
    }
  }

  lemma {:induction false} ResultAfter(w: World, prefix: seq<Event>, trace: seq<Event>, result: Result<Response>, n: nat,
                                       tokens: TokenMap)
    requires ResultExplained(w, trace, result, n, tokens)
    ensures ResultExplained(w, prefix + trace, result, n, tokens)
  {
    hide TokenRefused, Offered;
    assert Last(prefix + trace) == Last(trace);
    if result.Err? && !(Last(trace).Send? && w.registry(Last(trace).id) == Broken(result.error)) {
      var id: nat, c: Challenged :| EndsDraining(w, trace, id, c) && TokenRefused(w, n, tokens, c, result.error);
      assert (prefix + trace)[|prefix + trace| - 2] == trace[|trace| - 2];
      assert EndsDraining(w, prefix + trace, id, c);
    }
  }

  /** Of every call, whichever way it went: the response returned is the last one the registry gave, and an
      error is the one that was met. */
  lemma {:induction false} ResultIsAnswer(w: World, tokens: TokenMap, challenges: ChallengeMap, key: string)
    ensures var o := Handshake(w, tokens, challenges, key);
            ResultExplained(w, o.trace, o.result, if key in challenges then 1 else 0,
                            TokensToNegotiate(w, tokens, challenges, key))
  {
    hide GetToken, Negotiate, EndsDraining, TokenRefused;
    if key !in challenges {
      NegotiatedResult(w, 0, 0, tokens, challenges, key);
    } else {
      var g := GetToken(w, 0, tokens, challenges[key]);
      if g.token.Err? {
        NegotiatedResult(w, 0, 1, g.tokens, challenges, key);
        var o := Negotiate(w, 0, 1, g.tokens, challenges, key);
        ResultAfter(w, g.trace, o.trace, o.result, 1, g.tokens);
      } else if Refused(w, 0) {
        NegotiatedResult(w, 1, 1, g.tokens, challenges, key);
        var o := Negotiate(w, 1, 1, g.tokens, challenges, key);
        ResultAfter(w, g.trace + [SendEvent(w, 0, g.token.value)] + [Drain(0)], o.trace, o.result, 1, g.tokens);
      }
    }
  }

  // ---------- what is sent ----------

  /** The token for the remembered challenge, when there is one to be had. */
  function Upfront(w: World, tokens: TokenMap, challenges: ChallengeMap, key: string): Option<string> {
    if key !in challenges then None
    else
      var token := GetToken(w, 0, tokens, challenges[key]).token;
      if token.Ok? then Some(token.value) else None
  }

  /** Only a 401 is drained, and a send carries a token granted for the 401 drained just before, or no
      token at all. */
  ghost predicate SentRight(w: World, trace: seq<Event>, n: nat, tokens: TokenMap) {
    forall e :: e in trace ==>
      match e
      case Send(id, bearer, answered) =>
        && (answered <==> w.registry(id).Replied?)
        && (bearer == "" || GrantedFor(w, trace, id, bearer, n, tokens))
      case Drain(id) => w.registry(id).Replied? && w.registry(id).status == 401
      case TokenRequest => true
  }

  /** A call starts with what asking for the remembered challenge's token takes, and presents that token
      first; without one, it first sends none. */
  ghost predicate StartsRight(w: World, trace: seq<Event>, tokens: TokenMap, challenges: ChallengeMap, key: string) {
    var asked := if key in challenges then GetToken(w, 0, tokens, challenges[key]).trace else [];
    var bearer := if Upfront(w, tokens, challenges, key).Some? then Upfront(w, tokens, challenges, key).value else "";
    asked + [Send(0, bearer, w.registry(0).Replied?)] <= trace
  }

  lemma {:induction false} NegotiatedSends(w: World, id: nat, n: nat, tokens: TokenMap, challenges: ChallengeMap, key: string)
    ensures var o := Negotiate(w, id, n, tokens, challenges, key);
            SentRight(w, o.trace, n, tokens) && o.trace != [] && o.trace[0] == SendEvent(w, id, "")
  {
    hide GetToken, Put, Offered;
    var o := Negotiate(w, id, n, tokens, challenges, key);
    if Refused(w, id) && Offered(w, id).Some? {
      var g := GetToken(w, n, tokens, Offered(w, id).value);
      OnlyTokenRequests(w, n, tokens, Offered(w, id).value);
      assert o.trace[1] == Drain(id);
    }
  }

  lemma {:induction false} OnlyTokenRequests(w: World, n: nat, tokens: TokenMap, c: Challenged)
    ensures forall e :: e in GetToken(w, n, tokens, c).trace ==> e == TokenRequest
  {
    hide Stored, Lifetime, Requested;
  }

  lemma {:induction false} SentAfter(w: World, prefix: seq<Event>, trace: seq<Event>, n: nat, tokens: TokenMap)
    requires SentRight(w, trace, n, tokens)
    ensures forall e :: e in trace && e.Send? ==>
              (e.answered <==> w.registry(e.id).Replied?)
              && (e.bearer == "" || GrantedFor(w, prefix + trace, e.id, e.bearer, n, tokens))
    ensures forall e :: e in trace && e.Drain? ==> w.registry(e.id).Replied? && w.registry(e.id).status == 401
  {
    hide GetToken, Offered;
  }

  /** Of every call: it starts by presenting a token for the remembered challenge, if there is one to be
      had; after that every token sent is one granted for the 401 drained just before; and nothing but a
      401 is ever drained. */
  lemma {:induction false} SendsCarryGranted(w: World, tokens: TokenMap, challenges: ChallengeMap, key: string)
    ensures var o := Handshake(w, tokens, challenges, key);
            var n := if key in challenges then 1 else 0;
            && StartsRight(w, o.trace, tokens, challenges, key)
            && forall e :: e in o.trace ==>
                 match e
                 case Send(id, bearer, answered) =>
                   && (answered <==> w.registry(id).Replied?)
                   && (|| bearer == "" || (id == 0 && Upfront(w, tokens, challenges, key) == Some(bearer))
                       || GrantedFor(w, o.trace, id, bearer, n, TokensToNegotiate(w, tokens, challenges, key)))
                 case Drain(id) => w.registry(id).Replied? && w.registry(id).status == 401
                 case TokenRequest => true
  {
    hide GetToken, Negotiate, GrantedFor;
    if key !in challenges {
      NegotiatedSends(w, 0, 0, tokens, challenges, key);
    } else {
      var g := GetToken(w, 0, tokens, challenges[key]);
      OnlyTokenRequests(w, 0, tokens, challenges[key]);
      if g.token.Err? {
        NegotiatedSends(w, 0, 1, g.tokens, challenges, key);
        SentAfter(w, g.trace, Negotiate(w, 0, 1, g.tokens, challenges, key).trace, 1, g.tokens);
      } else if Refused(w, 0) {
        var sent := g.trace + [SendEvent(w, 0, g.token.value)] + [Drain(0)];
        NegotiatedSends(w, 1, 1, g.tokens, challenges, key);
        SentAfter(w, sent, Negotiate(w, 1, 1, g.tokens, challenges, key).trace, 1, g.tokens);
      }
    }
  }

  /** A 401 to a remembered token need not bring a fresh one: while the registry names the same realm,
      service and scope and the token has not expired, the retry presents that very token again,
      without asking the token service. */
  lemma {:induction false} SameTokenIsRetried(w: World, tokens: TokenMap, challenges: ChallengeMap, key: string)
    requires key in challenges && Refused(w, 0) && Refused(w, 1) && Offered(w, 1).Some?
    requires var k := TokenKey(challenges[key]);
             && TokenKey(Offered(w, 1).value) == k
             && Usable(tokens, k, w.times(0).look) && Usable(tokens, k, w.times(1).look)
    ensures var o, token := Handshake(w, tokens, challenges, key), tokens[TokenKey(challenges[key])].value;
            o.trace == [SendEvent(w, 0, token), Drain(0), SendEvent(w, 1, ""), Drain(1), SendEvent(w, 2, token)]
  {
    hide Lifetime, Stored, Requested, Put;
    var c := Offered(w, 1).value;
    assert GetToken(w, 0, tokens, challenges[key]).trace == [];
    assert GetToken(w, 1, tokens, c).trace == [];
  }

  lemma {:induction false} NegotiationAsks(w: World, id: nat, n: nat, tokens: TokenMap, challenges: ChallengeMap, key: string)
    requires Refused(w, id) && Offered(w, id).Some?
    ensures var o, c := Negotiate(w, id, n, tokens, challenges, key), Offered(w, id).value;
            TokenRequests(o.trace) == TokenRequests(GetToken(w, n, tokens, c).trace)
  {
    hide GetToken, Put, Sends, TokenRequests, Opened, Drained;
    var g := GetToken(w, n, tokens, Offered(w, id).value);
    var first, retry := SendEvent(w, id, ""), SendEvent(w, id + 1, if g.token.Ok? then g.token.value else "");
    One(first);
    One(Drain(id));
    One(retry);
    Appends([first], [Drain(id)]);
    Appends([first] + [Drain(id)], g.trace);
    Appends([first] + [Drain(id)] + g.trace, [retry]);
  }

  lemma {:induction false} GrantAsksIff(w: World, n: nat, tokens: TokenMap, c: Challenged)
    ensures TokenRequests(GetToken(w, n, tokens, c).trace) > 0 <==>
              !Usable(tokens, TokenKey(c), w.times(n).look) && c.realm != "" && c.usable
    ensures Usable(tokens, TokenKey(c), w.times(n).look) ==>
              GetToken(w, n, tokens, c) == Grant(Ok(tokens[TokenKey(c)].value), tokens, [])
  {
    hide Lifetime, Stored, Requested;
    One(TokenRequest);
  }

  /** After a 401 to a cached token the token service is asked again if and only if the cache holds no
      unexpired token for the new challenge and that has a usable realm. */
  lemma {:induction false} RenegotiationAsksIff(w: World, tokens: TokenMap, challenges: ChallengeMap, key: string)
    requires key in challenges && Usable(tokens, TokenKey(challenges[key]), w.times(0).look)
    requires Refused(w, 0) && Refused(w, 1) && Offered(w, 1).Some?
    ensures var o, c := Handshake(w, tokens, challenges, key), Offered(w, 1).value;
            TokenRequests(o.trace) > 0 <==> !Usable(tokens, TokenKey(c), w.times(1).look) && c.realm != "" && c.usable
  {
    hide GetToken, Negotiate, Put, Sends, TokenRequests, Opened, Drained;
    var c := Offered(w, 1).value;
    var g := GetToken(w, 0, tokens, challenges[key]);
    GrantAsksIff(w, 0, tokens, challenges[key]);
    NegotiationAsks(w, 1, 1, tokens, challenges, key);
    GrantAsksIff(w, 1, tokens, c);
    var sent := [SendEvent(w, 0, g.token.value)];
    One(sent[0]);
    One(Drain(0));
    Appends(sent, [Drain(0)]);
    assert [] + sent == sent;
    Appends(sent + [Drain(0)], Negotiate(w, 1, 1, tokens, challenges, key).trace);
  }

  /** What a registry writes is what is asked for: a refusal whose first header value is the printed
      challenges cs leads to the token service being asked for the realm, service and scope of the first
      Bearer one, unless an unexpired token for just these is cached. */
  lemma {:induction false} AsksForWhatIsWritten(w: World, id: nat, n: nat, tokens: TokenMap, challenges: ChallengeMap,
                                                key: string, cs: seq<Written>, more: seq<string>)
    requires Refused(w, id) && w.registry(id).headers == [Print(cs)] + more && FirstWritten(cs).Some?
    requires forall i :: 0 <= i < |cs| ==> IsChallenge(cs[i])
    ensures var params := Readings(FirstWritten(cs).value.params);
            var realm := ValueOf(params, "realm");
            var c := Challenged(realm, ValueOf(params, "service"), ValueOf(params, "scope"), w.usable(realm));
            var o, g := Negotiate(w, id, n, tokens, challenges, key), GetToken(w, n, tokens, c);
            && o.challenges == Put(challenges, key, c) && o.tokens == g.tokens
            && (TokenRequests(o.trace) > 0 <==> !Usable(tokens, TokenKey(c), w.times(n).look) && realm != "" && w.usable(realm))
            && (g.token.Ok? ==> Last(o.trace) == SendEvent(w, id + 1, g.token.value))
            && (g.token.Err? ==> o.result == Err(g.token.error))
  {
    hide GetToken, Put, TokenRequests, Offer, Print, IsChallenge, FirstWritten, ValueOf, Readings;
    OffersWhatIsWritten(cs, more, w.usable);
    var c := Offered(w, id).value;
    NegotiationAsks(w, id, n, tokens, challenges, key);
    GrantAsksIff(w, n, tokens, c);
  }
}
