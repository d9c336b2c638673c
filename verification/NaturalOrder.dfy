/** Natural ordering of tags: digit runs compare as numbers (client.go, sortTags and naturalCompare). */
module NaturalOrder {
  import opened Text
  import opened Sorting

  predicate IsDigit(c: char) { '0' <= c <= '9' }

  predicate AllDigits(s: string) { forall i :: 0 <= i < |s| ==> IsDigit(s[i]) }

  /** Length of the maximal run of digits at the front of s. */
  function DigitRun(s: string): (n: nat)
    ensures n <= |s| && AllDigits(s[..n])
    ensures n < |s| ==> !IsDigit(s[n])
  {
    if s != "" && IsDigit(s[0]) then
      assert s[..1 + DigitRun(s[1..])] == [s[0]] + s[1..][..DigitRun(s[1..])];
      1 + DigitRun(s[1..])
    else 0
  }

  /** strings.TrimLeft(s, "0") */
  function TrimZeros(s: string): (r: string)
    ensures |r| <= |s| && r == s[|s| - |r|..]
    ensures r != "" ==> r[0] != '0'
  {
    if s != "" && s[0] == '0' then TrimZeros(s[1..]) else s
  }

  /** The number a run of decimal digits denotes. */
  function Value(digits: string): nat
    requires AllDigits(digits)
  {
    if digits == "" then 0
    else 10 * Value(digits[..|digits| - 1]) + (digits[|digits| - 1] as int - '0' as int)
  }

  // ---------- the specification: strings as sequences of number and byte tokens ----------

  datatype Token = Number(value: nat) | Byte(c: char)

  function Tokens(s: string): seq<Token>
    decreases |s|
  {
    if s == "" then []
    else
      var n := DigitRun(s);
      if n > 0 then [Number(Value(s[..n]))] + Tokens(s[n..])
      else [Byte(s[0])] + Tokens(s[1..])
  }

  function Sign(x: int, y: int): int {
    if x < y then -1 else if x > y then 1 else 0
  }

  /** Numbers by value, bytes by code; a number sorts among the bytes where the digits are. */
  function CompareToken(x: Token, y: Token): int {
    match (x, y)
    case (Number(v), Number(w)) => Sign(v, w)
    case (Byte(c), Byte(d)) => Sign(c as int, d as int)
    case (Number(_), Byte(d)) => if d < '0' then 1 else -1
    case (Byte(c), Number(_)) => if c < '0' then -1 else 1
  }

  /** Lexicographic, a proper prefix first. */
  function CompareTokens(xs: seq<Token>, ys: seq<Token>): int {
    if xs == [] then (if ys == [] then 0 else -1)
    else if ys == [] then 1
    else if CompareToken(xs[0], ys[0]) != 0 then CompareToken(xs[0], ys[0])
    else CompareTokens(xs[1..], ys[1..])
  }

  function Natural(a: string, b: string): int { CompareTokens(Tokens(a), Tokens(b)) }

  // ---------- length-then-lexicographic comparison of stripped runs is numeric order ----------

  lemma {:induction false} ValuePrependZero(s: string)
    requires AllDigits(s)
    ensures Value("0" + s) == Value(s)
  {
    if s != "" {
      var t := "0" + s;
      assert t[..|t| - 1] == "0" + s[..|s| - 1];
      ValuePrependZero(s[..|s| - 1]);
    }
  }

  lemma {:induction false} TrimZerosKeepsValue(s: string)
    requires AllDigits(s)
    ensures AllDigits(TrimZeros(s)) && Value(TrimZeros(s)) == Value(s)
  {
    if s != "" && s[0] == '0' {
      assert s == "0" + s[1..];
      ValuePrependZero(s[1..]);
      TrimZerosKeepsValue(s[1..]);
    }
  }

  /** A longer run without a leading zero is the larger number. */
  lemma {:induction false} LongerIsLarger(x: string, y: string)
    requires AllDigits(x) && AllDigits(y)
    requires |x| < |y| && y[0] != '0'
    ensures Value(x) < Value(y)
  {
    var y' := y[..|y| - 1];
    if x != "" {
      LongerIsLarger(x[..|x| - 1], y');
    } else if y' != "" {
      LongerIsLarger("", y');
    }
  }

  lemma {:induction false} CompareSnoc(x: string, y: string, c: char, d: char)
    requires |x| == |y|
    ensures Compare(x + [c], y + [d]) == if Compare(x, y) != 0 then Compare(x, y) else Sign(c as int, d as int)
  {
    if x != "" {
      assert (x + [c])[1..] == x[1..] + [c] && (y + [d])[1..] == y[1..] + [d];
      CompareSnoc(x[1..], y[1..], c, d);
    }
  }

  lemma {:induction false} SameLengthOrder(x: string, y: string)
    requires AllDigits(x) && AllDigits(y) && |x| == |y|
    ensures Compare(x, y) == Sign(Value(x), Value(y))
  {
    if x != "" {
      var n := |x| - 1;
      assert x == x[..n] + [x[n]] && y == y[..n] + [y[n]];
      CompareSnoc(x[..n], y[..n], x[n], y[n]);
      SameLengthOrder(x[..n], y[..n]);
    }
  }

  /** What the source does with two digit runs: strip zeros, compare lengths, then bytes. */
  function CompareRuns(x: string, y: string): int {
    var p, q := TrimZeros(x), TrimZeros(y);
    if |p| != |q| then Sign(|p|, |q|) else Compare(p, q)
  }

  lemma {:induction false} RunsCompareAsNumbers(x: string, y: string)
    requires AllDigits(x) && AllDigits(y)
    ensures CompareRuns(x, y) == Sign(Value(x), Value(y))
    ensures Value(x) == Value(y) <==> TrimZeros(x) == TrimZeros(y)
  {
    var p, q := TrimZeros(x), TrimZeros(y);
    TrimZerosKeepsValue(x);
    TrimZerosKeepsValue(y);
    if |p| < |q| {
      LongerIsLarger(p, q);
    } else if |p| > |q| {
      LongerIsLarger(q, p);
    } else {
      SameLengthOrder(p, q);
      CompareAntisymmetric(p, q);
    }
  }

  // ---------- the source's loop meets the specification ----------

  /** Both suffixes start with a digit: the runs decide, or the comparison moves past them. */
  lemma {:induction false} RunStep(x: string, y: string, p: string, q: string, x': string, y': string)
    requires x != "" && y != "" && IsDigit(x[0]) && IsDigit(y[0])
    requires p == x[..DigitRun(x)] && x' == x[DigitRun(x)..]
    requires q == y[..DigitRun(y)] && y' == y[DigitRun(y)..]
    ensures var d := CompareRuns(p, q); Natural(x, y) == if d != 0 then d else Natural(x', y')
    ensures CompareRuns(p, q) == 0 <==> TrimZeros(p) == TrimZeros(q)
  {
    RunsCompareAsNumbers(p, q);
  }

  /** At least one suffix starts with a byte that is no digit. */
  lemma {:induction false} ByteStep(x: string, y: string)
    requires x != "" && y != "" && !(IsDigit(x[0]) && IsDigit(y[0]))
    ensures x[0] != y[0] ==> Natural(x, y) == Sign(x[0] as int, y[0] as int)
    ensures x[0] == y[0] ==> Natural(x, y) == Natural(x[1..], y[1..])
  {}

  lemma {:induction false} EndStep(x: string, y: string)
    requires x == "" || y == ""
    ensures Natural(x, y) == Sign(|x|, |y|)
  {}

  /** naturalCompare: two indices walk the strings; digit runs are compared as a whole. */
  method NaturalCompare(a: string, b: string) returns (r: int)
    ensures r == Natural(a, b)
  {
    hide Natural, TrimZeros, DigitRun;
    var i, j := 0, 0;
    while i < |a| && j < |b|
      invariant i <= |a| && j <= |b|
      invariant Natural(a, b) == Natural(a[i..], b[j..])
      decreases |a| - i
    {
      var ad, bd := IsDigit(a[i]), IsDigit(b[j]);
      ghost var x, y := a[i..], b[j..];
      if ad && bd {
        var startA, startB := i, j;
        i := SkipDigits(a, i);
        j := SkipDigits(b, j);
        var runA, runB := a[startA..i], b[startB..j];
        assert x[..i - startA] == runA && y[..j - startB] == runB;
        assert x[i - startA..] == a[i..] && y[j - startB..] == b[j..];
        RunStep(x, y, runA, runB, a[i..], b[j..]);
        var numA, numB := TrimZeros(runA), TrimZeros(runB);
        if |numA| != |numB| {
          if |numA| < |numB| { return -1; }
          return 1;
        }
        if numA != numB { return Compare(numA, numB); }
        continue;
      }
      ByteStep(x, y);
      if a[i] != b[j] {
        if a[i] < b[j] { return -1; }
        return 1;
      }
      assert x[1..] == a[i + 1..] && y[1..] == b[j + 1..];
      i := i + 1;
      j := j + 1;
    }
    EndStep(a[i..], b[j..]);
    if |a| - i < |b| - j { return -1; }
    if |a| - i > |b| - j { return 1; }
    return 0;
  }

  method SkipDigits(s: string, start: nat) returns (i: nat)
    requires start <= |s|
    ensures i == start + DigitRun(s[start..]) && i <= |s|
  {
    i := start;
    while i < |s| && IsDigit(s[i])
      invariant start <= i <= |s|
      invariant start + DigitRun(s[start..]) == i + DigitRun(s[i..])
    {
      assert s[i..][1..] == s[i + 1..];
      i := i + 1;
    }
  }

  // ---------- order laws ----------

  /** Byte tokens never hold a digit: digits always join a run. */
  predicate Lexed(xs: seq<Token>) {
    forall i :: 0 <= i < |xs| && xs[i].Byte? ==> !IsDigit(xs[i].c)
  }

  lemma {:induction false} TokensAreLexed(s: string)
    ensures Lexed(Tokens(s))
    decreases |s|
  {
    if s != "" {
      var n := DigitRun(s);
      TokensAreLexed(if n > 0 then s[n..] else s[1..]);
    }
  }

  lemma {:induction false} CompareTokensAntisymmetric(xs: seq<Token>, ys: seq<Token>)
    requires Lexed(xs) && Lexed(ys)
    ensures -1 <= CompareTokens(xs, ys) <= 1
    ensures CompareTokens(xs, ys) == -CompareTokens(ys, xs)
    ensures CompareTokens(xs, ys) == 0 <==> xs == ys
  {
    if xs != [] && ys != [] {
      assert xs == [xs[0]] + xs[1..] && ys == [ys[0]] + ys[1..];
      CompareTokensAntisymmetric(xs[1..], ys[1..]);
    }
  }

  lemma {:induction false} CompareTokensTransitive(xs: seq<Token>, ys: seq<Token>, zs: seq<Token>)
    requires Lexed(xs) && Lexed(ys) && Lexed(zs)
    requires CompareTokens(xs, ys) <= 0 && CompareTokens(ys, zs) <= 0
    ensures CompareTokens(xs, zs) <= 0
    ensures CompareTokens(xs, ys) < 0 || CompareTokens(ys, zs) < 0 ==> CompareTokens(xs, zs) < 0
  {
    if xs != [] && ys != [] && zs != []
       && CompareToken(xs[0], ys[0]) == 0 && CompareToken(ys[0], zs[0]) == 0 {
      CompareTokensTransitive(xs[1..], ys[1..], zs[1..]);
    }
  }

  /** Rewrites every digit run without its leading zeros, keeping one digit of a zero. */
  function Canonical(s: string): string
    decreases |s|
  {
    if s == "" then ""
    else
      var n := DigitRun(s);
      if n > 0 then CanonicalRun(s[..n]) + Canonical(s[n..])
      else [s[0]] + Canonical(s[1..])
  }

  function CanonicalRun(run: string): string {
    if TrimZeros(run) == "" then "0" else TrimZeros(run)
  }

  lemma {:induction false} DigitRunOfJoin(run: string, rest: string)
    requires AllDigits(run) && (rest == "" || !IsDigit(rest[0]))
    ensures DigitRun(run + rest) == |run|
  {
    assert (run + rest)[..|run|] == run && (run + rest)[|run|..] == rest;
    assert forall i :: 0 <= i < |run| ==> (run + rest)[i] == run[i];
  }

  lemma {:induction false} CanonicalRunIsRun(run: string)
    requires AllDigits(run)
    ensures var c := CanonicalRun(run); c != "" && AllDigits(c) && Value(c) == Value(run)
  {
    hide TrimZeros;
    TrimZerosKeepsValue(run);
    ValuePrependZero("");
    assert "0" + "" == "0" && Value("") == 0;
  }

  lemma {:induction false} TokensOfRun(run: string, rest: string)
    requires run != "" && AllDigits(run) && (rest == "" || !IsDigit(rest[0]))
    ensures Tokens(run + rest) == [Number(Value(run))] + Tokens(rest)
  {
    DigitRunOfJoin(run, rest);
    assert (run + rest)[..|run|] == run && (run + rest)[|run|..] == rest;
  }

  lemma {:induction false} TokensOfByte(c: char, rest: string)
    requires !IsDigit(c)
    ensures Tokens([c] + rest) == [Byte(c)] + Tokens(rest)
  {
    assert ([c] + rest)[1..] == rest;
  }

  lemma {:induction false} CanonicalKeepsTokens(s: string)
    ensures Tokens(Canonical(s)) == Tokens(s)
    ensures s != "" ==> Canonical(s) != "" && (!IsDigit(s[0]) ==> Canonical(s)[0] == s[0])
    decreases |s|
  {
    hide CanonicalRun, Value, TrimZeros;
    if s != "" {
      var n := DigitRun(s);
      if n > 0 {
        CanonicalKeepsTokens(s[n..]);
        CanonicalRunIsRun(s[..n]);
        TokensOfRun(CanonicalRun(s[..n]), Canonical(s[n..]));
      } else {
        CanonicalKeepsTokens(s[1..]);
        TokensOfByte(s[0], Canonical(s[1..]));
      }
    }
  }

  lemma {:induction false} SameTokensSameCanonical(a: string, b: string)
    requires Tokens(a) == Tokens(b)
    ensures Canonical(a) == Canonical(b)
    decreases |a|
  {
    if a != "" && b != "" {
      var n, m := DigitRun(a), DigitRun(b);
      var a', b' := if n > 0 then a[n..] else a[1..], if m > 0 then b[m..] else b[1..];
      assert Tokens(a)[0] == Tokens(b)[0];
      assert Tokens(a') == Tokens(a)[1..] && Tokens(b') == Tokens(b)[1..];
      if n > 0 {
        RunsCompareAsNumbers(a[..n], b[..m]);
      }
      SameTokensSameCanonical(a', b');
    }
  }

  /** naturalCompare is a total preorder, and its ties are exactly the strings that differ only
      in leading zeros of digit runs. */
  lemma {:induction false} NaturalIsTotalPreorder(a: string, b: string, c: string)
    ensures Natural(a, a) == 0
    ensures Natural(a, b) == -Natural(b, a)
    ensures Natural(a, b) <= 0 && Natural(b, c) <= 0 ==> Natural(a, c) <= 0
    ensures Natural(a, b) == 0 <==> Canonical(a) == Canonical(b)
  {
    TokensAreLexed(a);
    TokensAreLexed(b);
    TokensAreLexed(c);
    CompareTokensAntisymmetric(Tokens(a), Tokens(a));
    CompareTokensAntisymmetric(Tokens(a), Tokens(b));
    if Natural(a, b) <= 0 && Natural(b, c) <= 0 {
      CompareTokensTransitive(Tokens(a), Tokens(b), Tokens(c));
    }
    CanonicalKeepsTokens(a);
    CanonicalKeepsTokens(b);
    if Natural(a, b) == 0 {
      SameTokensSameCanonical(a, b);
    }
  }

  // ---------- sortTags ----------

  /** The comparison sortTags passes to the library sort. */
  function TagOrder(a: string, b: string): int {
    if a == b then 0
    else if a == "latest" then -1
    else if b == "latest" then 1
    else if Natural(a, b) != 0 then -Natural(a, b)
    else Compare(b, a)
  }

  lemma {:induction false} TagOrderIsTotal(a: string, b: string, c: string)
    ensures TagOrder(a, b) == -TagOrder(b, a)
    ensures TagOrder(a, b) == 0 <==> a == b
    ensures TagOrder(a, b) <= 0 && TagOrder(b, c) <= 0 ==> TagOrder(a, c) <= 0
  {
    NaturalIsTotalPreorder(a, b, c);
    NaturalIsTotalPreorder(c, b, a);
    NaturalIsTotalPreorder(a, c, b);
    NaturalIsTotalPreorder(b, c, a);
    NaturalIsTotalPreorder(b, a, c);
    CompareAntisymmetric(a, b);
    CompareAntisymmetric(b, c);
    CompareAntisymmetric(a, c);
    if Compare(c, b) <= 0 && Compare(b, a) <= 0 { CompareTransitive(c, b, a); }
  }

  lemma {:induction false} TagOrderIsComparison()
    ensures Comparison(TagOrder) && Strict(TagOrder)
  {
    var cmp := TagOrder;
    forall x, y, z
      ensures cmp(x, y) == -cmp(y, x)
      ensures cmp(x, y) <= 0 && cmp(y, z) <= 0 ==> cmp(x, z) <= 0
      ensures cmp(x, y) == 0 ==> x == y
    {
      TagOrderIsTotal(x, y, z);
    }
  }

  method CompareTags(a: string, b: string) returns (r: int)
    ensures r == TagOrder(a, b)
  {
    if a == b { return 0; }
    if a == "latest" { return -1; }
    if b == "latest" { return 1; }
    var c := NaturalCompare(a, b);
    if c != 0 { return -c; }
    return Compare(b, a);
  }

  /** The order a page of tags is displayed in. */
  predicate Displayed(tags: seq<string>) { Sorted(tags, TagOrder) }

  method SortTags(tags: array<string>)
    modifies tags
    ensures Displayed(tags[..]) && multiset(tags[..]) == multiset(old(tags[..]))
  {
    TagOrderIsComparison();
    Sort(tags, TagOrder);
  }

  /** Whatever order the registry listed the same tags in, they are displayed the same way,
      with "latest" ahead of every other tag. */
  lemma {:induction false} DisplayIsDeterministic(xs: seq<string>, ys: seq<string>)
    requires Displayed(xs) && Displayed(ys) && multiset(xs) == multiset(ys)
    ensures xs == ys
    ensures "latest" in xs ==> xs[0] == "latest"
  {
    TagOrderIsComparison();
    SortedIsUnique(xs, ys, TagOrder);
  }
}
