/** What a refused request is offered: the Bearer challenge of its WWW-Authenticate headers (auth.go,
    bearerChallenge, param). */
module BearerOffer {
  import opened Options
  import opened Text
  import opened HeaderParams
  import opened Challenges
  import opened ChallengeRoundTrip
  import opened Tokens

  predicate IsBearer(c: Challenge) { EqualFold(c.scheme, "bearer") }

  predicate NoBearer(cs: seq<Challenge>) { forall j :: 0 <= j < |cs| ==> !IsBearer(cs[j]) }

  predicate FirstBearer(cs: seq<Challenge>, j: nat) { j < |cs| && IsBearer(cs[j]) && NoBearer(cs[..j]) }

  function BearerIn(cs: seq<Challenge>): Option<Challenge> {
    if cs == [] then None else if IsBearer(cs[0]) then Some(cs[0]) else BearerIn(cs[1..])
  }

  /** The Bearer challenge that counts, over all header values in order. */
  function BearerOf(values: seq<string>): Option<Challenge> {
    if values == [] then None
    else if BearerIn(Scan(values[0], 0)).Some? then BearerIn(Scan(values[0], 0))
    else BearerOf(values[1..])
  }

  lemma {:induction false} BearerInIsFirst(cs: seq<Challenge>)
    ensures BearerIn(cs).None? <==> NoBearer(cs)
    ensures forall j: nat :: FirstBearer(cs, j) ==> BearerIn(cs) == Some(cs[j])
  {
    hide IsBearer;
    if cs != [] {
      BearerInIsFirst(cs[1..]);
      assert forall j :: 0 < j < |cs| ==> cs[j] == cs[1..][j - 1];
      forall j: nat | FirstBearer(cs, j) ensures BearerIn(cs) == Some(cs[j]) {
        if j > 0 {
          assert cs[..j][0] == cs[0];
          assert cs[1..][..j - 1] == cs[..j][1..];
          assert FirstBearer(cs[1..], j - 1);
        }
      }
    }
  }

  lemma {:induction false} NoneOffered(values: seq<string>, i: nat)
    requires i <= |values| && forall k :: 0 <= k < i ==> NoBearer(Scan(values[k], 0))
    ensures BearerOf(values) == BearerOf(values[i..])
    decreases i
  {
    hide Scan, NoBearer, BearerIn;
    if i == 0 {
      assert values[0..] == values;
    } else {
      BearerInIsFirst(Scan(values[0], 0));
      assert NoBearer(Scan(values[0], 0));
      NoneOffered(values[1..], i - 1);
      assert values[1..][i - 1..] == values[i..];
    }
  }

  /** bearerChallenge: the first Bearer challenge of the first header value that has one. */
  method BearerChallenge(values: seq<string>) returns (found: Option<Challenge>)
    ensures found == BearerOf(values)
    ensures found.Some? ==> exists i: nat, j: nat ::
              && i < |values| && FirstBearer(Scan(values[i], 0), j) && found.value == Scan(values[i], 0)[j]
              && (forall k :: 0 <= k < i ==> NoBearer(Scan(values[k], 0)))
    ensures found.None? ==> forall i :: 0 <= i < |values| ==> NoBearer(Scan(values[i], 0))
  {
    hide Scan, IsBearer, NoBearer, BearerIn;
    for i := 0 to |values|
      invariant forall k :: 0 <= k < i ==> NoBearer(Scan(values[k], 0))
    {
      var challenges := ParseChallenges(values[i]);
      var j := FindBearer(challenges);
      BearerInIsFirst(challenges);
      NoneOffered(values, i);
      if j < |challenges| { return Some(challenges[j]); }
    }
    NoneOffered(values, |values|);
    return None;
  }

  method FindBearer(cs: seq<Challenge>) returns (j: nat)
    ensures FirstBearer(cs, j) || (j == |cs| && NoBearer(cs))
  {
    j := 0;
    while j < |cs| && !IsBearer(cs[j])
      invariant j <= |cs| && NoBearer(cs[..j])
    {
      j := j + 1;
    }
    assert cs[..|cs|] == cs;
  }

  // ---------- the challenge as the token cache takes it ----------

  /** realm, service and scope of a challenge, "" where it has none; whether a realm is an http or https
      URL is told by `usable`. */
  function Asked(params: map<string, string>, usable: string -> bool): Challenged {
    Challenged(Lookup(params, "realm"), Lookup(params, "service"), Lookup(params, "scope"), usable(Lookup(params, "realm")))
  }

  function Offer(values: seq<string>, usable: string -> bool): Option<Challenged> {
    var found := BearerOf(values);
    if found.None? then None else Some(Asked(found.value.params, usable))
  }

  method ReadOffer(values: seq<string>, usable: string -> bool) returns (offer: Option<Challenged>)
    ensures offer == Offer(values, usable)
  {
    var found := BearerChallenge(values);
    if found.None? { return None; }
    return Some(Asked(found.value.params, usable));
  }

  // ---------- what a registry writes is what it offers ----------

  predicate IsBearerWritten(w: Written) { EqualFold(w.scheme, "bearer") }

  /** The first of the written challenges that is a Bearer one. */
  function FirstWritten(cs: seq<Written>): Option<Written> {
    if cs == [] then None else if IsBearerWritten(cs[0]) then Some(cs[0]) else FirstWritten(cs[1..])
  }

  lemma {:induction false} ReadsFirstWritten(read: seq<Challenge>, cs: seq<Written>)
    requires |read| == |cs| && forall i :: 0 <= i < |cs| ==> Recovers(read[i], cs[i])
    ensures BearerIn(read).Some? <==> FirstWritten(cs).Some?
    ensures FirstWritten(cs).Some? ==> HoldsExactly(BearerIn(read).value.params, Readings(FirstWritten(cs).value.params))
    decreases |cs|
  {
    hide HoldsExactly, Readings;
    if cs != [] { ReadsFirstWritten(read[1..], cs[1..]); }
  }

  /** Challenges printed into the first header value: the first Bearer one is offered with its realm,
      service and scope as written, whatever follows; and if there is none, the other values decide. */
  lemma {:induction false} OffersWhatIsWritten(cs: seq<Written>, more: seq<string>, usable: string -> bool)
    requires forall i :: 0 <= i < |cs| ==> IsChallenge(cs[i])
    ensures var offer, w := Offer([Print(cs)] + more, usable), FirstWritten(cs);
            if w.None? then offer == Offer(more, usable)
            else
              var params := Readings(w.value.params);
              var realm := ValueOf(params, "realm");
              offer == Some(Challenged(realm, ValueOf(params, "service"), ValueOf(params, "scope"), usable(realm)))
  {
    hide Scan, Print, IsChallenge, Recovers, HoldsExactly, Readings, ValueOf, Lookup, BearerIn, FirstWritten;
    RoundTrip(cs);
    ReadsFirstWritten(Scan(Print(cs), 0), cs);
    var values := [Print(cs)] + more;
    assert values[0] == Print(cs) && values[1..] == more;
    if FirstWritten(cs).Some? {
      var params, written := BearerIn(Scan(Print(cs), 0)).value.params, Readings(FirstWritten(cs).value.params);
      ReadsWrittenValue(params, written, "realm");
      ReadsWrittenValue(params, written, "service");
      ReadsWrittenValue(params, written, "scope");
    }
  }
}
