/** Bearer tokens: how long they may be cached, and the bounded cache that holds them (auth.go,
    requestToken, tokenCache). Instants and durations are in nanoseconds. */
module Tokens {
  import opened Options
  import opened Client

  const SAFETY_MARGIN := 10 * SECOND
  const DEFAULT_LIFETIME := 60 * SECOND
  const MAX_TOKENS := 256

  /** The decoded token response; issuedAt is None when absent or unreadable. */
  datatype TokenDoc = TokenDoc(token: string, accessToken: string, expiresIn: int, issuedAt: Option<int>)

  function TokenValue(doc: TokenDoc): string { if doc.token == "" then doc.accessToken else doc.token }

  /** The advertised lifetime, or the minute the token spec prescribes when there is none. */
  function Advertised(doc: TokenDoc): int {
    if doc.expiresIn * SECOND <= 0 then DEFAULT_LIFETIME else doc.expiresIn * SECOND
  }

  /** When the advertised lifetime starts to run: at issue, but never after the response was decoded. */
  function Base(doc: TokenDoc, decoded: int): int {
    if doc.issuedAt.Some? && doc.issuedAt.value < decoded then doc.issuedAt.value else decoded
  }

  /** How long the token may be cached, computed in the order the source computes it. */
  method CacheableLifetime(doc: TokenDoc, decoded: int) returns (lifetime: int)
    ensures lifetime == Lifetime(doc, decoded)
  {
    lifetime := doc.expiresIn * SECOND;
    if lifetime <= 0 { lifetime := DEFAULT_LIFETIME; }
    if doc.issuedAt.Some? {
      var remaining := doc.issuedAt.value + lifetime - decoded;
      if remaining < lifetime { lifetime := remaining; }
    }
    lifetime := lifetime - SAFETY_MARGIN;
    if lifetime < 0 { lifetime := 0; }
  }

  /** What is left, at decoding, of the advertised lifetime less the margin; never negative. */
  function Lifetime(doc: TokenDoc, decoded: int): int {
    var left := Base(doc, decoded) + Advertised(doc) - SAFETY_MARGIN - decoded;
    if left < 0 then 0 else left
  }

  /** The instant a token expires by its own document: expires_in seconds, or 60 when that is not positive,
      after it was issued, or after it was decoded when it tells no earlier time of issue. */
  function Expiry(doc: TokenDoc, decoded: int): int {
    var lasts := if doc.expiresIn > 0 then doc.expiresIn * 1_000_000_000 else 60_000_000_000;
    match doc.issuedAt
    case Some(issued) => (if issued < decoded then issued else decoded) + lasts
    case None => decoded + lasts
  }

  /** A token is cached until ten seconds before it expires, and not at all when those have begun. */
  lemma {:induction false} LifetimeEndsBeforeExpiry(doc: TokenDoc, decoded: int)
    ensures Lifetime(doc, decoded) > 0 <==> decoded < Expiry(doc, decoded) - 10_000_000_000
    ensures Lifetime(doc, decoded) > 0 ==> decoded + Lifetime(doc, decoded) == Expiry(doc, decoded) - 10_000_000_000
  {}

  // ---------- the cache ----------

  datatype CachedToken = CachedToken(value: string, expires: int)

  predicate Usable(m: map<string, CachedToken>, key: string, now: int) { key in m && now < m[key].expires }

  function Unexpired(m: map<string, CachedToken>, now: int): map<string, CachedToken> {
    map k | k in m && now < m[k].expires :: m[k]
  }

  /** The backstop of pruning: even without the expired tokens the cache is full. */
  predicate Resets(m: map<string, CachedToken>, now: int) {
    |m| >= MAX_TOKENS && |Unexpired(m, now)| >= MAX_TOKENS
  }

  function Pruned(m: map<string, CachedToken>, now: int): map<string, CachedToken> {
    if |m| < MAX_TOKENS then m else if Resets(m, now) then map[] else Unexpired(m, now)
  }

  function Stored(m: map<string, CachedToken>, key: string, value: string, lifetime: int, prune: int, store: int)
    : map<string, CachedToken>
  {
    if lifetime > 0 then Pruned(m, prune)[key := CachedToken(value, store + lifetime)] else m
  }

  lemma {:induction false} PrunedHasRoom(m: map<string, CachedToken>, now: int)
    ensures |Pruned(m, now)| < MAX_TOKENS
  {}

  lemma {:induction false} StoredIsBounded(m: map<string, CachedToken>, key: string, value: string, lifetime: int,
                                           prune: int, store: int)
    requires |m| <= 256
    ensures |Stored(m, key, value, lifetime, prune, store)| <= 256
  {
    hide Pruned;
    PrunedHasRoom(m, prune);
    var p := Pruned(m, prune);
    assert p[key := CachedToken(value, store + lifetime)].Keys == p.Keys + {key};
  }

  /** What the token endpoint does with a request: any refusal, transport error or unreadable body, or
      a document. */
  datatype Service = Unavailable(error: Error) | Granted(doc: TokenDoc)

  /** Clock readings of one call, in order. */
  datatype TokenTimes = TokenTimes(look: int, decode: int, prune: int, store: int)

  predicate InOrder(t: TokenTimes) { t.look <= t.decode <= t.prune <= t.store }

  datatype Challenged = Challenged(realm: string, service: string, scope: string, usable: bool)

  /** The key of a challenge in the token cache. */
  function TokenKey(c: Challenged): string { c.realm + "\0" + c.service + "\0" + c.scope }

  predicate NoNul(s: string) { forall i :: 0 <= i < |s| ==> s[i] != '\0' }

  lemma {:induction false} SameUpToNul(a: string, x: string, b: string, y: string)
    requires NoNul(a) && NoNul(b) && a + "\0" + x == b + "\0" + y
    ensures a == b && x == y
  {
    var s := a + "\0" + x;
    assert forall i :: 0 <= i < |a| ==> s[i] == a[i];
    assert forall i :: 0 <= i < |b| ==> s[i] == b[i];
    assert s[|a|] == '\0' == s[|b|];
    assert a == s[..|a|] && b == s[..|b|] && x == s[|a| + 1..] && y == s[|b| + 1..];
  }

  /** A cached token is only ever presented for the realm, service and scope it was granted for. */
  lemma {:induction false} TokenKeyIsInjective(c: Challenged, d: Challenged)
    requires NoNul(c.realm) && NoNul(d.realm) && NoNul(c.service) && NoNul(d.service)
    ensures TokenKey(c) == TokenKey(d) <==> c.realm == d.realm && c.service == d.service && c.scope == d.scope
  {
    if TokenKey(c) == TokenKey(d) {
      assert TokenKey(c) == c.realm + "\0" + (c.service + "\0" + c.scope);
      assert TokenKey(d) == d.realm + "\0" + (d.service + "\0" + d.scope);
      SameUpToNul(c.realm, c.service + "\0" + c.scope, d.realm, d.service + "\0" + d.scope);
      SameUpToNul(c.service, c.scope, d.service, d.scope);
    }
  }

  /** What requestToken returns: no request is sent without a usable realm. */
  function Requested(c: Challenged, service: Service): Result<string> {
    if c.realm == "" || !c.usable then Err(Upstream(401))
    else match service
      case Unavailable(error) => Err(error)
      case Granted(doc) => if TokenValue(doc) == "" then Err(Upstream(401)) else Ok(TokenValue(doc))
  }

  /** A token is had if and only if the realm is usable and the service sends a document with a token, under
      that name or, failing it, as an access token. */
  lemma {:induction false} RequestedIff(c: Challenged, service: Service, value: string)
    ensures Requested(c, service) == Ok(value) <==>
              && c.realm != "" && c.usable && value != "" && service.Granted?
              && (value == service.doc.token || (service.doc.token == "" && value == service.doc.accessToken))
    ensures Requested(c, service).Err? && c.realm != "" && c.usable && service.Unavailable? ==>
              Requested(c, service).error == service.error
  {}

  class TokenCache {
    var tokens: map<string, CachedToken>

    constructor ()
      ensures tokens == map[]
    {
      tokens := map[];
    }

    /** token, under its mutex: an unexpired token is returned as it is; otherwise one request is sent. */
    method Token(c: Challenged, service: Service, t: TokenTimes) returns (result: Result<string>, ghost requests: nat)
      requires |tokens| <= MAX_TOKENS && InOrder(t)
      modifies this
      ensures |tokens| <= MAX_TOKENS
      ensures var key := TokenKey(c);
              if Usable(old(tokens), key, t.look) then
                result == Ok(old(tokens)[key].value) && requests == 0 && tokens == old(tokens)
              else
                && result == Requested(c, service)
                && requests == (if c.realm == "" || !c.usable then 0 else 1)
                && tokens == (if result.Ok? then Stored(old(tokens), key, result.value, Lifetime(service.doc, t.decode), t.prune, t.store)
                              else old(tokens))
    {
      hide Lifetime, Pruned;
      var key := TokenKey(c);
      requests := 0;
      if key in tokens && t.look < tokens[key].expires { return Ok(tokens[key].value), requests; }
      if c.realm == "" || !c.usable { return Err(Upstream(401)), requests; }
      requests := 1;
      if service.Unavailable? { return Err(service.error), requests; }
      var value := service.doc.token;
      if value == "" { value := service.doc.accessToken; }
      if value == "" { return Err(Upstream(401)), requests; }
      var lifetime := CacheableLifetime(service.doc, t.decode);
      StoredIsBounded(tokens, key, value, lifetime, t.prune, t.store);
      if lifetime > 0 {
        Prune(t.prune);
        tokens := tokens[key := CachedToken(value, t.store + lifetime)];
      }
      return Ok(value), requests;
    }

    method Prune(now: int)
      modifies this
      ensures tokens == Pruned(old(tokens), now)
    {
      if |tokens| < MAX_TOKENS { return; }
      var todo := tokens.Keys;
      ghost var m := tokens;
      while todo != {}
        invariant todo <= m.Keys
        invariant forall k :: k in tokens ==> k in m && tokens[k] == m[k]
        invariant forall k :: k in m ==> (k in tokens <==> k in todo || now < m[k].expires)
        decreases |todo|
      {
        var k :| k in todo;
        if !(now < tokens[k].expires) { tokens := tokens - {k}; }
        todo := todo - {k};
      }
      assert tokens == Unexpired(m, now);
      if |tokens| >= MAX_TOKENS { tokens := map[]; }
    }
  }
}
