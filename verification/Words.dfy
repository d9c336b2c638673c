/** Words of a text and lower case: what strings.Fields and strings.ToLower do to texts put together. */
module Words {
  import opened Text

  lemma {:induction false} WordStops(w: string, rest: string)
    requires forall i :: 0 <= i < |w| ==> !IsSpace(w[i])
    requires rest == "" || IsSpace(rest[0])
    ensures WordLength(w + rest) == |w|
    decreases |w|
  {
    if w == "" {
      assert w + rest == rest;
    } else {
      assert (w + rest)[1..] == w[1..] + rest;
      WordStops(w[1..], rest);
    }
  }

  lemma {:induction false} TrimLeftJoin(a: string, b: string)
    ensures TrimLeft(a) != "" ==> TrimLeft(a + " " + b) == TrimLeft(a) + " " + b
    ensures TrimLeft(a) == "" ==> TrimLeft(a + " " + b) == TrimLeft(b)
    decreases |a|
  {
    if a == "" {
      assert (a + " " + b)[1..] == b;
    } else if IsSpace(a[0]) {
      assert (a + " " + b)[1..] == a[1..] + " " + b;
      TrimLeftJoin(a[1..], b);
    }
  }

  lemma {:induction false} TrimLeftTwice(a: string)
    ensures TrimLeft(TrimLeft(a)) == TrimLeft(a)
  {
    if a != "" && IsSpace(a[0]) { TrimLeftTwice(a[1..]); }
  }

  /** Two queries side by side have the terms of both. */
  lemma {:induction false} FieldsJoin(a: string, b: string)
    ensures Fields(a + " " + b) == Fields(a) + Fields(b)
    decreases |a|
  {
    hide IsSpace, TrimLeft, WordLength;
    var t := TrimLeft(a);
    TrimLeftJoin(a, b);
    if t != "" {
      WordOfTrimmed(a);
      var n := WordLength(t);
      var rest := t[n..];
      assert t + " " + b == t[..n] + (rest + " " + b);
      BlankFollows(t, b);
      WordStops(t[..n], rest + " " + b);
      assert (t + " " + b)[..n] == t[..n] && (t + " " + b)[n..] == rest + " " + b;
      FieldsJoin(rest, b);
    }
  }

  lemma {:induction false} WordOfTrimmed(a: string)
    ensures TrimLeft(a) != "" ==> WordLength(TrimLeft(a)) > 0
    ensures |TrimLeft(a)| <= |a|
  {
    if a != "" && IsSpace(a[0]) { WordOfTrimmed(a[1..]); }
  }

  lemma {:induction false} BlankFollows(t: string, b: string)
    ensures var n := WordLength(t);
            && IsSpace((t[n..] + " " + b)[0])
            && forall i :: 0 <= i < n ==> !IsSpace(t[..n][i])
  {}

  lemma {:induction false} ToLowerJoin(a: string, b: string)
    ensures ToLower(a + b) == ToLower(a) + ToLower(b)
    decreases |a|
  {
    if a == "" {
      assert a + b == b;
    } else {
      assert (a + b)[1..] == a[1..] + b;
      ToLowerJoin(a[1..], b);
    }
  }

  lemma {:induction false} LowerSlice(s: string, i: nat, j: nat)
    requires i <= j <= |s|
    ensures |ToLower(s)| == |s| && ToLower(s[i..j]) == ToLower(s)[i..j]
  {
    LowerLength(s);
    LowerLength(s[..i]);
    LowerLength(s[i..j]);
    assert s == s[..i] + (s[i..j] + s[j..]);
    ToLowerJoin(s[..i], s[i..j] + s[j..]);
    ToLowerJoin(s[i..j], s[j..]);
  }

  lemma {:induction false} LowerLength(s: string)
    ensures |ToLower(s)| == |s|
  {
    if s != "" { LowerLength(s[1..]); }
  }

  /** A word without blanks: what one term of a query is. */
  predicate IsWord(w: string) { w != "" && forall i :: 0 <= i < |w| ==> !IsSpace(w[i]) }

  lemma {:induction false} WordIsTerm(w: string)
    requires IsWord(w)
    ensures Fields(w) == [w]
  {
    var n := WordLength(w);
    assert n == |w|;
    assert w[..n] == w && w[n..] == "" && TrimLeft(w) == w;
    assert Fields("") == [];
  }

  lemma {:induction false} LowerIsWord(w: string)
    requires IsWord(w)
    ensures IsWord(ToLower(w))
    decreases |w|
  {
    if |w| > 1 {
      LowerIsWord(w[1..]);
      assert ToLower(w) == [LowerChar(w[0])] + ToLower(w[1..]);
    } else {
      assert w[1..] == "";
    }
  }
}
