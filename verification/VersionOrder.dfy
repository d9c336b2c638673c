/** What the order of tags means for a reader: which of two tags is shown first, told by the place where they
    differ (client.go, sortTags, naturalCompare). */
module VersionOrder {
  import opened Text
  import opened Sorting
  import opened NaturalOrder

  /** No digit run straddles the place where the two are joined. */
  predicate Apart(x: string, y: string) { x != "" && y != "" ==> !IsDigit(x[|x| - 1]) || !IsDigit(y[0]) }

  predicate IsRun(s: string) { s != "" && AllDigits(s) }

  /** A string read up to the end of its first token: a maximal run, or one byte. */
  lemma {:induction false} FirstToken(x: string) returns (head: string, rest: string)
    requires x != ""
    ensures x == head + rest && head != "" && Apart(head, rest)
    ensures AllDigits(head) || (|head| == 1 && !IsDigit(head[0]))
  {
    var n := DigitRun(x);
    if n > 0 { head, rest := x[..n], x[n..]; } else { head, rest := x[..1], x[1..]; }
  }

  lemma {:induction false} TokensOfHead(head: string, rest: string)
    requires head != "" && Apart(head, rest)
    requires AllDigits(head) || (|head| == 1 && !IsDigit(head[0]))
    ensures Tokens(head + rest) == [if AllDigits(head) then Number(Value(head)) else Byte(head[0])] + Tokens(rest)
  {
    hide Value, Tokens;
    if AllDigits(head) {
      TokensOfRun(head, rest);
    } else {
      assert head == [head[0]];
      TokensOfByte(head[0], rest);
    }
  }

  lemma {:induction false} TokensJoin(x: string, y: string)
    requires Apart(x, y)
    ensures Tokens(x + y) == Tokens(x) + Tokens(y)
    decreases |x|
  {
    hide Tokens, AllDigits, IsDigit, Value;
    if x == "" {
      assert x + y == y;
      NoTokens();
    } else {
      var head, rest := FirstToken(x);
      assert x + y == head + (rest + y);
      ApartRest(head, rest, y);
      TokensOfHead(head, rest);
      TokensOfHead(head, rest + y);
      TokensJoin(rest, y);
    }
  }

  lemma {:induction false} NoTokens()
    ensures Tokens("") == []
  {}

  lemma {:induction false} ApartRest(head: string, rest: string, y: string)
    requires head != "" && Apart(head, rest) && Apart(head + rest, y)
    ensures Apart(head, rest + y) && Apart(rest, y)
  {
    var x := head + rest;
    if rest == "" {
      assert rest + y == y && x == head;
    } else {
      assert x[|x| - 1] == rest[|rest| - 1] && (rest + y)[0] == rest[0];
    }
  }

  lemma {:induction false} SamePrefix(ts: seq<Token>, xs: seq<Token>, ys: seq<Token>)
    ensures CompareTokens(ts + xs, ts + ys) == CompareTokens(xs, ys)
  {
    if ts == [] {
      assert ts + xs == xs && ts + ys == ys;
    } else {
      assert (ts + xs)[1..] == ts[1..] + xs && (ts + ys)[1..] == ts[1..] + ys;
      assert (ts + xs)[0] == ts[0] == (ts + ys)[0];
      assert CompareToken(ts[0], ts[0]) == 0;
      SamePrefix(ts[1..], xs, ys);
    }
  }

  /** After a common prefix, the larger number decides, however long the rest and whatever zeros lead. */
  lemma {:induction false} NumbersDecide(x: string, p: string, s: string, q: string, t: string)
    requires IsRun(p) && IsRun(q) && Apart(x, p) && Apart(x, q) && Apart(p, s) && Apart(q, t)
    requires Value(p) != Value(q)
    ensures Natural(x + p + s, x + q + t) == if Value(p) < Value(q) then -1 else 1
  {
    hide Value, Tokens, CompareTokens;
    assert x + p + s == x + (p + s) && x + q + t == x + (q + t);
    TokensJoin(x, p + s);
    TokensJoin(x, q + t);
    SamePrefix(Tokens(x), Tokens(p + s), Tokens(q + t));
    TokensOfRun(p, s);
    TokensOfRun(q, t);
    HeadsDecide(Number(Value(p)), Tokens(s), Number(Value(q)), Tokens(t));
  }

  lemma {:induction false} HeadsDecide(a: Token, xs: seq<Token>, b: Token, ys: seq<Token>)
    requires CompareToken(a, b) != 0
    ensures CompareTokens([a] + xs, [b] + ys) == CompareToken(a, b)
  {}

  /** After a common prefix, the larger of two bytes that are not both digits decides. */
  lemma {:induction false} BytesDecide(x: string, c: char, s: string, d: char, t: string)
    requires c != d && !(IsDigit(c) && IsDigit(d)) && Apart(x, [c]) && Apart(x, [d])
    ensures Natural(x + [c] + s, x + [d] + t) == if c < d then -1 else 1
  {
    hide CompareTokens, Value;
    assert x + [c] + s == x + ([c] + s) && x + [d] + t == x + ([d] + t);
    TokensJoin(x, [c] + s);
    TokensJoin(x, [d] + t);
    SamePrefix(Tokens(x), Tokens([c] + s), Tokens([d] + t));
    var xs, ys := Tokens([c] + s), Tokens([d] + t);
    assert xs[0] == Byte(c) || (IsDigit(c) && xs[0].Number?);
    assert ys[0] == Byte(d) || (IsDigit(d) && ys[0].Number?);
    assert xs == [xs[0]] + xs[1..] && ys == [ys[0]] + ys[1..];
    HeadsDecide(xs[0], xs[1..], ys[0], ys[1..]);
  }

  /** A string comes before what continues it. */
  lemma {:induction false} PrefixIsLess(x: string, y: string)
    requires y != "" && Apart(x, y)
    ensures Natural(x, x + y) == -1
  {
    TokensJoin(x, y);
    SamePrefix(Tokens(x), [], Tokens(y));
    assert Tokens(x) + [] == Tokens(x);
  }

  // ---------- pages of tags ----------

  /** "latest" comes first; of two other tags the newer comes first, and of two that only differ in
      leading zeros the larger string. */
  lemma {:induction false} NewestFirst(tags: seq<string>, i: nat, j: nat)
    requires Displayed(tags) && i < j < |tags|
    ensures tags[j] == "latest" ==> tags[i] == "latest"
    ensures tags[i] != "latest" && tags[j] != "latest" ==>
              && Natural(tags[i], tags[j]) >= 0
              && (Natural(tags[i], tags[j]) == 0 ==> Compare(tags[i], tags[j]) >= 0)
  {
    hide Natural;
    assert TagOrder(tags[i], tags[j]) <= 0;
    NaturalIsTotalPreorder(tags[i], tags[i], tags[i]);
    CompareAntisymmetric(tags[i], tags[j]);
  }

  /** Of two tags alike up to a number, the one with the larger number is shown first: 1.10.0 before
      1.9.0. */
  lemma {:induction false} HigherNumberIsShownFirst(tags: seq<string>, i: nat, j: nat, x: string, p: string, s: string,
                                                    q: string, t: string)
    requires Displayed(tags) && i < |tags| && j < |tags| && tags[i] == x + p + s && tags[j] == x + q + t
    requires IsRun(p) && IsRun(q) && Apart(x, p) && Apart(x, q) && Apart(p, s) && Apart(q, t)
    requires Value(p) > Value(q) && tags[i] != "latest" && tags[j] != "latest"
    ensures i < j
  {
    hide Natural, Value;
    NumbersDecide(x, p, s, q, t);
    NumbersDecide(x, q, t, p, s);
    if j < i { NewestFirst(tags, j, i); }
  }
}
