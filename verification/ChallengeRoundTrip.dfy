/** Printing challenges as RFC 7235, section 2.1, has them, each value as a token or a quoted string, and
    scanning them back. */
module ChallengeRoundTrip {
  import opened Text
  import opened Challenges
  import opened HeaderParams

  datatype Written = Written(scheme: string, params: seq<Spelled>)

  // ---------- the printer ----------

  function Escape(v: string): string {
    if v == "" then ""
    else (if v[0] == '"' || v[0] == '\\' then ['\\', v[0]] else [v[0]]) + Escape(v[1..])
  }

  function PrintValue(p: Spelled): string { if p.bare then p.value else "\"" + (Escape(p.value) + "\"") }

  function PrintParam(p: Spelled): string { p.key + ("=" + PrintValue(p)) }

  function PrintParams(ps: seq<Spelled>): string
    requires ps != []
  {
    PrintParam(ps[0]) + if |ps| == 1 then "" else ", " + PrintParams(ps[1..])
  }

  function PrintChallenge(c: Written): string {
    c.scheme + if c.params == [] then "" else " " + PrintParams(c.params)
  }

  function Print(cs: seq<Written>): string {
    if cs == [] then ""
    else PrintChallenge(cs[0]) + if |cs| == 1 then "" else ", " + Print(cs[1..])
  }

  // ---------- what may be printed ----------

  predicate IsToken(s: string) { s != "" && forall i :: 0 <= i < |s| ==> IsTokenChar(s[i]) }

  predicate IsParam(p: Spelled) { IsToken(p.key) && (p.bare ==> IsToken(p.value)) }

  predicate IsChallenge(c: Written) {
    && IsToken(c.scheme)
    && (forall i :: 0 <= i < |c.params| ==> IsParam(c.params[i]))
    && DistinctKeys(Readings(c.params))
  }

  predicate Recovers(c: Challenge, w: Written) { c.scheme == w.scheme && HoldsExactly(c.params, Readings(w.params)) }

  // ---------- reading printed pieces back ----------

  /** x stands in s from position p on. */
  ghost predicate At(s: string, p: nat, x: string) {
    p + |x| <= |s| && forall i {:trigger x[i]} :: 0 <= i < |x| ==> s[p + i] == x[i]
  }

  lemma {:induction false} AtSplit(s: string, p: nat, x: string, y: string)
    requires At(s, p, x + y)
    ensures At(s, p, x) && At(s, p + |x|, y)
  {
    var z := x + y;
    forall i {:trigger x[i]} | 0 <= i < |x| ensures s[p + i] == x[i] {
      assert z[i] == x[i];
    }
    forall i {:trigger y[i]} | 0 <= i < |y| ensures s[p + |x| + i] == y[i] {
      assert z[|x| + i] == y[i];
    }
  }

  lemma {:induction false} AtFirst(s: string, p: nat, x: string)
    requires At(s, p, x) && x != ""
    ensures p < |s| && s[p] == x[0] && p + |x| <= |s|
  {
    assert s[p + 0] == x[0];
  }

  lemma {:induction false} AtSlice(s: string, p: nat, x: string)
    requires At(s, p, x)
    ensures s[p..p + |x|] == x
  {}

  lemma {:induction false} TokenRead(s: string, p: nat, x: string)
    requires At(s, p, x) && (forall i :: 0 <= i < |x| ==> IsTokenChar(x[i]))
    requires p + |x| == |s| || !IsTokenChar(s[p + |x|])
    ensures TokenEnd(s, p) == p + |x|
    decreases |x|
  {
    if x != "" {
      assert x == [x[0]] + x[1..];
      AtSplit(s, p, [x[0]], x[1..]);
      assert s[p + 0] == x[0];
      TokenRead(s, p + 1, x[1..]);
    }
  }

  lemma {:induction false} QuotedRead(s: string, p: nat, v: string)
    requires At(s, p, Escape(v) + "\"")
    ensures Quoted(s, p) == Lexeme(v, p + |Escape(v)| + 1)
    decreases |v|
  {
    var x := Escape(v) + "\"";
    if v == "" {
      assert x[0] == '"' && s[p + 0] == x[0];
    } else {
      var head := if v[0] == '"' || v[0] == '\\' then ['\\', v[0]] else [v[0]];
      var rest := Escape(v[1..]) + "\"";
      assert x == head + rest;
      AtSplit(s, p, head, rest);
      assert s[p + 0] == head[0];
      assert |head| == 2 ==> s[p + 1] == head[1];
      QuotedRead(s, p + |head|, v[1..]);
      assert v == [v[0]] + v[1..];
    }
  }

  // ---------- the layout of a printed header, position by position ----------

  ghost predicate ParamAt(s: string, p: nat, x: Spelled, e: nat) {
    var q := p + |x.key|;
    At(s, p, x.key) && q < |s| && s[q] == '=' && ParamValue(s, SkipBlanks(s, q + 1)) == Lexeme(x.value, e)
  }

  /** What follows is no part of a token. */
  predicate TokenOver(s: string, e: nat) { e == |s| || (e < |s| && !IsTokenChar(s[e])) }

  ghost predicate CommaAt(s: string, e: nat) { e + 2 <= |s| && s[e] == ',' && s[e + 1] == ' ' }

  ghost predicate ParamsAt(s: string, p: nat, ps: seq<Spelled>, e: nat)
    requires ps != []
    decreases |ps|
  {
    if |ps| == 1 then ParamAt(s, p, ps[0], e)
    else exists m: nat :: ParamAt(s, p, ps[0], m) && CommaAt(s, m) && ParamsAt(s, m + 2, ps[1..], e)
  }

  ghost predicate ChallengeAt(s: string, p: nat, c: Written, e: nat) {
    var q := p + |c.scheme|;
    && At(s, p, c.scheme)
    && if c.params == [] then e == q else q < |s| && s[q] == ' ' && ParamsAt(s, q + 1, c.params, e)
  }

  ghost predicate ChallengesAt(s: string, p: nat, cs: seq<Written>)
    requires cs != []
    decreases |cs|
  {
    if |cs| == 1 then ChallengeAt(s, p, cs[0], |s|)
    else exists e: nat :: ChallengeAt(s, p, cs[0], e) && CommaAt(s, e) && ChallengesAt(s, e + 2, cs[1..])
  }

  // ---------- printing lays the header out ----------

  lemma {:induction false} ValueRead(s: string, q: nat, x: Spelled)
    requires At(s, q, PrintValue(x)) && IsParam(x) && TokenOver(s, q + |PrintValue(x)|)
    ensures ParamValue(s, SkipBlanks(s, q)) == Lexeme(x.value, q + |PrintValue(x)|)
  {
    if x.bare {
      StartsWithToken(s, q, x.value);
      TokenRead(s, q, x.value);
      AtSlice(s, q, x.value);
    } else {
      var rest := Escape(x.value) + "\"";
      AtSplit(s, q, "\"", rest);
      assert s[q + 0] == "\""[0];
      QuotedRead(s, q + 1, x.value);
    }
  }

  lemma {:induction false} PrintLaysParam(s: string, p: nat, x: Spelled)
    requires At(s, p, PrintParam(x)) && IsParam(x) && TokenOver(s, p + |PrintParam(x)|)
    ensures ParamAt(s, p, x, p + |PrintParam(x)|)
  {
    hide PrintValue, ParamValue, IsTokenChar, SkipBlanks;
    var q := p + |x.key|;
    AtSplit(s, p, x.key, "=" + PrintValue(x));
    AtSplit(s, q, "=", PrintValue(x));
    assert s[q + 0] == "="[0];
    ValueRead(s, q + 1, x);
  }

  lemma {:induction false} PrintLaysComma(s: string, e: nat, x: string)
    requires At(s, e, ", " + x)
    ensures CommaAt(s, e) && At(s, e + 2, x)
  {
    AtSplit(s, e, ", ", x);
    assert s[e + 0] == ", "[0] && s[e + 1] == ", "[1];
  }

  lemma {:induction false} PrintLaysParams(s: string, p: nat, ps: seq<Spelled>)
    requires ps != [] && At(s, p, PrintParams(ps)) && TokenOver(s, p + |PrintParams(ps)|)
    requires forall i :: 0 <= i < |ps| ==> IsParam(ps[i])
    ensures ParamsAt(s, p, ps, p + |PrintParams(ps)|)
    decreases |ps|
  {
    hide PrintParam, ParamAt, At, IsParam;
    var head := PrintParam(ps[0]);
    if |ps| == 1 {
      assert PrintParams(ps) == head;
      PrintLaysParam(s, p, ps[0]);
    } else {
      var m, rest := p + |head|, PrintParams(ps[1..]);
      assert PrintParams(ps) == head + (", " + rest);
      AtSplit(s, p, head, ", " + rest);
      PrintLaysComma(s, m, rest);
      PrintLaysParam(s, p, ps[0]);
      PrintLaysParams(s, m + 2, ps[1..]);
    }
  }

  lemma {:induction false} PrintLaysChallenge(s: string, p: nat, c: Written)
    requires At(s, p, PrintChallenge(c)) && IsChallenge(c) && TokenOver(s, p + |PrintChallenge(c)|)
    ensures ChallengeAt(s, p, c, p + |PrintChallenge(c)|)
  {
    hide ParamsAt, PrintParams, IsParam, TokenOver, IsToken, DistinctKeys, At;
    if c.params == [] {
      assert PrintChallenge(c) == c.scheme;
    } else {
      var q, body := p + |c.scheme|, PrintParams(c.params);
      AtSplit(s, p, c.scheme, " " + body);
      AtSplit(s, q, " ", body);
      AtFirst(s, q, " ");
      PrintLaysParams(s, q + 1, c.params);
    }
  }

  lemma {:induction false} PrintLaysChallenges(s: string, p: nat, cs: seq<Written>)
    requires cs != [] && At(s, p, Print(cs)) && p + |Print(cs)| == |s|
    requires forall i :: 0 <= i < |cs| ==> IsChallenge(cs[i])
    ensures ChallengesAt(s, p, cs)
    decreases |cs|
  {
    hide PrintChallenge, ChallengeAt, At, IsChallenge;
    var head := PrintChallenge(cs[0]);
    if |cs| == 1 {
      assert Print(cs) == head;
      PrintLaysChallenge(s, p, cs[0]);
    } else {
      var e, rest := p + |head|, Print(cs[1..]);
      assert Print(cs) == head + (", " + rest);
      AtSplit(s, p, head, ", " + rest);
      PrintLaysComma(s, e, rest);
      PrintLaysChallenge(s, p, cs[0]);
      PrintLaysChallenges(s, e + 2, cs[1..]);
    }
  }

  // ---------- the scanner reads a laid-out header ----------

  lemma {:induction false} TurnReadsParam(s: string, start: nat, p: nat, x: Spelled, e: nat)
    requires start <= |s| && SkipSeparators(s, start) == p && IsParam(x) && ParamAt(s, p, x, e)
    ensures NextParam(s, start) == Next(ToLower(x.key), x.value, e)
  {
    TokenRead(s, p, x.key);
    AtSlice(s, p, x.key);
  }

  lemma {:induction false} SkipComma(s: string, e: nat)
    requires CommaAt(s, e) && e + 2 < |s| && IsTokenChar(s[e + 2])
    ensures SkipSeparators(s, e) == e + 2
  {
    assert SkipSeparators(s, e + 1) == SkipSeparators(s, e + 2) == e + 2;
  }

  lemma {:induction false} StartsWithToken(s: string, p: nat, x: string)
    requires At(s, p, x) && IsToken(x)
    ensures p < |s| && IsTokenChar(s[p])
  {
    assert s[p + 0] == x[0];
  }

  /** From start the scanner reads exactly ps, and stands at e. */
  ghost predicate Reads(s: string, start: nat, ps: seq<Spelled>, e: nat)
    decreases |ps|
  {
    if ps == [] then start == e
    else
      && start <= |s|
      && exists m: nat :: NextParam(s, start) == Next(ToLower(ps[0].key), ps[0].value, m) && Reads(s, m, ps[1..], e)
  }

  lemma {:induction false} ParamsStart(s: string, p: nat, ps: seq<Spelled>, e: nat)
    requires ps != [] && IsParam(ps[0]) && ParamsAt(s, p, ps, e)
    ensures p < |s| && IsTokenChar(s[p])
  {
    StartsWithToken(s, p, ps[0].key);
  }

  lemma {:induction false} ScanReadsParams(s: string, start: nat, p: nat, ps: seq<Spelled>, e: nat)
    requires start <= |s| && SkipSeparators(s, start) == p
    requires ps != [] && (forall i :: 0 <= i < |ps| ==> IsParam(ps[i])) && ParamsAt(s, p, ps, e)
    ensures Reads(s, start, ps, e) && e <= |s|
    decreases |ps|
  {
    hide ParamAt, NextParam, IsTokenChar, SkipSeparators;
    if |ps| == 1 {
      TurnReadsParam(s, start, p, ps[0], e);
      assert Reads(s, e, ps[1..], e);
    } else {
      var m: nat :| ParamAt(s, p, ps[0], m) && CommaAt(s, m) && ParamsAt(s, m + 2, ps[1..], e);
      TurnReadsParam(s, start, p, ps[0], m);
      ParamsStart(s, m + 2, ps[1..], e);
      SkipComma(s, m);
      ScanReadsParams(s, m, m + 2, ps[1..], e);
    }
  }

  lemma {:induction false} ReadsThenScans(s: string, start: nat, ps: seq<Spelled>, e: nat, m: map<string, string>)
    requires Reads(s, start, ps, e) && e <= |s| && NextParam(s, e) == Stop(e)
    ensures start <= |s| && ScanParams(s, start, m) == Scanned(Store(m, Readings(ps)), e)
    decreases |ps|
  {
    if ps != [] {
      ReadsThenScans(s, NextParam(s, start).end, ps[1..], e, m[ToLower(ps[0].key) := ps[0].value]);
    }
  }

  /** What may follow a scheme: the end, its parameters, or the next challenge. */
  ghost predicate SchemeFollow(s: string, e: nat) {
    && e <= |s|
    && (e < |s| ==> s[e] == ',' || (s[e] == ' ' && e + 1 < |s| && IsTokenChar(s[e + 1])))
  }

  /** A scheme is read as a token, and never taken for the key of a parameter. */
  lemma {:induction false} SchemeRead(s: string, p: nat, scheme: string)
    requires At(s, p, scheme) && IsToken(scheme) && SchemeFollow(s, p + |scheme|)
    ensures var e := p + |scheme|;
            && p < |s| && IsTokenChar(s[p]) && TokenEnd(s, p) == e && s[p..e] == scheme
            && (SkipBlanks(s, e) < |s| ==> s[SkipBlanks(s, e)] != '=')
  {
    StartsWithToken(s, p, scheme);
    TokenRead(s, p, scheme);
    AtSlice(s, p, scheme);
    var e := p + |scheme|;
    if e < |s| && s[e] == ' ' {
      assert SkipBlanks(s, e + 1) == e + 1;
    }
  }

  lemma {:induction false} SkipOneBlank(s: string, q: nat)
    requires q + 1 < |s| && s[q] == ' ' && IsTokenChar(s[q + 1])
    ensures SkipSeparators(s, q) == q + 1
  {
    assert SkipSeparators(s, q + 1) == q + 1;
  }

  lemma {:induction false} OneFollow(s: string, p: nat, c: Written, e: nat)
    requires IsChallenge(c) && ChallengeAt(s, p, c, e) && (e == |s| || CommaAt(s, e))
    ensures At(s, p, c.scheme) && SchemeFollow(s, p + |c.scheme|)
    ensures c.params != [] ==> var q := p + |c.scheme|; q < |s| && SkipSeparators(s, q) == q + 1
  {
    hide ParamsAt, At, IsToken, IsParam, DistinctKeys, IsTokenChar, SkipSeparators;
    if c.params != [] {
      var q := p + |c.scheme|;
      ParamsStart(s, q + 1, c.params, e);
      SkipOneBlank(s, q);
    }
  }

  lemma {:induction false} ChallengeFollow(s: string, p: nat, cs: seq<Written>)
    requires cs != [] && IsChallenge(cs[0]) && ChallengesAt(s, p, cs)
    ensures At(s, p, cs[0].scheme) && SchemeFollow(s, p + |cs[0].scheme|)
    ensures cs[0].params != [] ==> var q := p + |cs[0].scheme|; q < |s| && SkipSeparators(s, q) == q + 1
  {
    hide ChallengeAt, CommaAt, At, IsChallenge, SchemeFollow, SkipSeparators;
    if |cs| == 1 {
      OneFollow(s, p, cs[0], |s|);
    } else {
      var e: nat :| ChallengeAt(s, p, cs[0], e) && CommaAt(s, e) && ChallengesAt(s, e + 2, cs[1..]);
      OneFollow(s, p, cs[0], e);
    }
  }

  /** Scanning parameters stops, and backs up, at the end of the input or before the next challenge. */
  lemma {:induction false} ParamsEnd(s: string, e: nat, cs: seq<Written>)
    requires if cs == [] then e == |s| else IsChallenge(cs[0]) && CommaAt(s, e) && ChallengesAt(s, e + 2, cs)
    ensures NextParam(s, e) == Stop(e)
  {
    if cs != [] {
      ChallengeFollow(s, e + 2, cs);
      SchemeRead(s, e + 2, cs[0].scheme);
      SkipComma(s, e);
    }
  }

  function Parsed(cs: seq<Written>): seq<Challenge> {
    if cs == [] then [] else [Challenge(cs[0].scheme, Store(map[], Readings(cs[0].params)))] + Parsed(cs[1..])
  }

  lemma {:induction false} ScanStep(s: string, start: nat, p: nat, q: nat, params: map<string, string>, e: nat)
    requires start <= |s| && SkipSeparators(s, start) == p && p < q <= |s| && TokenEnd(s, p) == q
    requires e <= |s| && ScanParams(s, q, map[]) == Scanned(params, e)
    ensures Scan(s, start) == [Challenge(s[p..q], params)] + Scan(s, e)
  {}

  /** One challenge is read whole: its scheme, its parameters, and the position after them. */
  lemma {:induction false} ScanReadsChallenge(s: string, start: nat, p: nat, cs: seq<Written>, e: nat)
    requires cs != [] && IsChallenge(cs[0]) && ChallengesAt(s, p, cs) && ChallengeAt(s, p, cs[0], e)
    requires start <= |s| && SkipSeparators(s, start) == p && e <= |s| && NextParam(s, e) == Stop(e)
    ensures Scan(s, start) == [Challenge(cs[0].scheme, Store(map[], Readings(cs[0].params)))] + Scan(s, e)
  {
    hide ChallengesAt, ParamsAt, At, IsParam, DistinctKeys, IsTokenChar, SkipSeparators, SchemeFollow, NextParam,
         TokenEnd, SkipBlanks, ScanParams, Scan, Store, Readings;
    var c, q := cs[0], p + |cs[0].scheme|;
    ChallengeFollow(s, p, cs);
    SchemeRead(s, p, c.scheme);
    if c.params != [] { ScanReadsParams(s, q, q + 1, c.params, e); }
    ReadsThenScans(s, q, c.params, e, map[]);
    ScanStep(s, start, p, q, Store(map[], Readings(c.params)), e);
  }

  lemma {:induction false} ScanEnds(s: string)
    ensures Scan(s, |s|) == []
  {}

  lemma {:induction false} SkipToChallenge(s: string, e: nat, cs: seq<Written>)
    requires cs != [] && IsChallenge(cs[0]) && CommaAt(s, e) && ChallengesAt(s, e + 2, cs)
    ensures SkipSeparators(s, e) == e + 2
  {
    StartsWithToken(s, e + 2, cs[0].scheme);
    SkipComma(s, e);
  }

  lemma {:induction false} ScanReadsChallenges(s: string, start: nat, p: nat, cs: seq<Written>)
    requires start <= |s| && SkipSeparators(s, start) == p
    requires cs != [] && (forall i :: 0 <= i < |cs| ==> IsChallenge(cs[i])) && ChallengesAt(s, p, cs)
    ensures Scan(s, start) == Parsed(cs)
    decreases |cs|
  {
    hide ChallengeAt, CommaAt, NextParam, SkipSeparators, IsChallenge, Scan, At;
    if |cs| == 1 {
      ParamsEnd(s, |s|, []);
      ScanReadsChallenge(s, start, p, cs, |s|);
      ScanEnds(s);
    } else {
      var e: nat :| ChallengeAt(s, p, cs[0], e) && CommaAt(s, e) && ChallengesAt(s, e + 2, cs[1..]);
      ParamsEnd(s, e, cs[1..]);
      ScanReadsChallenge(s, start, p, cs, e);
      SkipToChallenge(s, e, cs[1..]);
      ScanReadsChallenges(s, e, e + 2, cs[1..]);
    }
  }

  lemma {:induction false} ParsedRecovers(cs: seq<Written>)
    requires forall i :: 0 <= i < |cs| ==> IsChallenge(cs[i])
    ensures |Parsed(cs)| == |cs| && forall i :: 0 <= i < |cs| ==> Recovers(Parsed(cs)[i], cs[i])
  {
    if cs != [] {
      StoreHoldsExactly(Readings(cs[0].params));
      ParsedRecovers(cs[1..]);
    }
  }

  lemma {:induction false} PrintStarts(s: string, cs: seq<Written>)
    requires cs != [] && IsChallenge(cs[0]) && ChallengesAt(s, 0, cs)
    ensures SkipSeparators(s, 0) == 0
  {
    StartsWithToken(s, 0, cs[0].scheme);
  }

  lemma {:induction false} AtStart(s: string)
    ensures At(s, 0, s)
  {}

  lemma {:induction false} NothingToScan()
    ensures Scan(Print([]), 0) == Parsed([])
  {}

  /** Print then scan recovers every challenge, in order, with exactly its parameters: values quoted,
      with commas, quotes and backslashes inside, or bare; keys in any case. */
  lemma {:induction false} RoundTrip(cs: seq<Written>)
    requires forall i :: 0 <= i < |cs| ==> IsChallenge(cs[i])
    ensures var out := Scan(Print(cs), 0);
            |out| == |cs| && forall i :: 0 <= i < |cs| ==> Recovers(out[i], cs[i])
  {
    hide Recovers, IsChallenge, ChallengesAt, Scan, Parsed, Print, SkipSeparators, At;
    ParsedRecovers(cs);
    if cs == [] {
      NothingToScan();
    } else {
      var s := Print(cs);
      AtStart(s);
      PrintLaysChallenges(s, 0, cs);
      PrintStarts(s, cs);
      ScanReadsChallenges(s, 0, 0, cs);
    }
  }
}
