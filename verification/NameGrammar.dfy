/** The repository names the client accepts, told by how they are built (client.go, repoComponentPattern,
    validateRepository): components joined by slashes, each of runs joined by separators. */
module NameGrammar {
  import opened LinkHeader
  import opened Names

  predicate IsRun(s: string) { s != "" && forall i :: 0 <= i < |s| ==> IsLowerAlnum(s[i]) }

  predicate IsDashes(s: string) { s != "" && forall i :: 0 <= i < |s| ==> s[i] == '-' }

  predicate IsSeparator(s: string) { s == "." || s == "_" || s == "__" || IsDashes(s) }

  /** Runs and the separators between them. */
  predicate IsBuilt(runs: seq<string>, seps: seq<string>) {
    && |runs| == |seps| + 1
    && (forall i :: 0 <= i < |runs| ==> IsRun(runs[i]))
    && (forall i :: 0 <= i < |seps| ==> IsSeparator(seps[i]))
  }

  function Joined(runs: seq<string>, seps: seq<string>): string
    requires |runs| == |seps| + 1
  {
    if seps == [] then runs[0] else runs[0] + seps[0] + Joined(runs[1..], seps[1..])
  }

  lemma {:induction false} RunIsRead(run: string, rest: string)
    requires (forall i :: 0 <= i < |run| ==> IsLowerAlnum(run[i])) && (rest == "" || !IsLowerAlnum(rest[0]))
    ensures AlnumRun(run + rest) == |run|
    decreases |run|
  {
    if run == "" {
      assert run + rest == rest;
    } else {
      assert (run + rest)[1..] == run[1..] + rest && (run + rest)[0] == run[0];
      RunIsRead(run[1..], rest);
    }
  }

  lemma {:induction false} SameIsRead(s: string, rest: string, c: char)
    requires (forall i :: 0 <= i < |s| ==> s[i] == c) && (rest == "" || rest[0] != c)
    ensures RunOf(s + rest, c) == |s|
    decreases |s|
  {
    if s == "" {
      assert s + rest == rest;
    } else {
      assert (s + rest)[1..] == s[1..] + rest && (s + rest)[0] == s[0];
      SameIsRead(s[1..], rest, c);
    }
  }

  lemma {:induction false} SeparatorIsRead(sep: string, rest: string)
    requires IsSeparator(sep) && rest != "" && IsLowerAlnum(rest[0])
    ensures SeparatorRun(sep + rest) == |sep| > 0 && !IsLowerAlnum(sep[0])
  {
    hide RunOf;
    assert (sep + rest)[0] == sep[0];
    if sep == "_" || sep == "__" {
      SameIsRead(sep, rest, '_');
    } else if sep != "." {
      SameIsRead("", sep + rest, '_');
      assert "" + (sep + rest) == sep + rest;
      SameIsRead(sep, rest, '-');
    }
  }

  lemma {:induction false} JoinedStarts(runs: seq<string>, seps: seq<string>)
    requires IsBuilt(runs, seps)
    ensures Joined(runs, seps) != "" && IsLowerAlnum(Joined(runs, seps)[0])
  {
    assert IsRun(runs[0]);
  }

  /** What is built is accepted. */
  lemma {:induction false} BuiltIsComponent(runs: seq<string>, seps: seq<string>)
    requires IsBuilt(runs, seps)
    ensures IsComponent(Joined(runs, seps))
    decreases |seps|
  {
    hide AlnumRun, SeparatorRun, IsSeparator, IsLowerAlnum;
    var s, run := Joined(runs, seps), runs[0];
    assert IsRun(run);
    if seps == [] {
      assert run + "" == run;
      RunIsRead(run, "");
    } else {
      var rest := Joined(runs[1..], seps[1..]);
      JoinedStarts(runs[1..], seps[1..]);
      SeparatorIsRead(seps[0], rest);
      assert s == run + (seps[0] + rest) && (seps[0] + rest)[0] == seps[0][0];
      RunIsRead(run, seps[0] + rest);
      assert s[|run|..] == seps[0] + rest && s[|run| + |seps[0]|..] == rest;
      BuiltIsComponent(runs[1..], seps[1..]);
    }
  }

  lemma {:induction false} AlnumRunIsRun(s: string)
    ensures forall i :: 0 <= i < AlnumRun(s) ==> IsLowerAlnum(s[i])
  {
    if s != "" && IsLowerAlnum(s[0]) { AlnumRunIsRun(s[1..]); }
  }

  lemma {:induction false} SeparatorRunIsSeparator(s: string)
    requires SeparatorRun(s) > 0
    ensures IsSeparator(s[..SeparatorRun(s)])
  {
    RunOfIsRun(s, '_');
    RunOfIsRun(s, '-');
    var sep := s[..SeparatorRun(s)];
    if RunOf(s, '_') == 2 { assert sep == "__"; }
  }

  /** What is accepted is built. */
  lemma {:induction false} ComponentIsBuilt(s: string) returns (runs: seq<string>, seps: seq<string>)
    requires IsComponent(s)
    ensures IsBuilt(runs, seps) && s == Joined(runs, seps)
    decreases |s|
  {
    hide AlnumRun, SeparatorRun, IsSeparator, IsLowerAlnum;
    var n := AlnumRun(s);
    AlnumRunIsRun(s);
    if n == |s| {
      runs, seps := [s], [];
    } else {
      var t := s[n..];
      var k := SeparatorRun(t);
      SeparatorRunIsSeparator(t);
      var runs', seps' := ComponentIsBuilt(s[n + k..]);
      runs, seps := [s[..n]] + runs', [t[..k]] + seps';
      assert runs[1..] == runs' && seps[1..] == seps';
      assert s == s[..n] + t[..k] + s[n + k..];
    }
  }

  /** Some runs and separators make it up. */
  ghost predicate Builds(s: string) { exists runs, seps :: IsBuilt(runs, seps) && s == Joined(runs, seps) }

  lemma {:induction false} ComponentIff(s: string)
    ensures IsComponent(s) <==> Builds(s)
  {
    if IsComponent(s) {
      var runs, seps := ComponentIsBuilt(s);
    }
    if runs, seps :| IsBuilt(runs, seps) && s == Joined(runs, seps) {
      BuiltIsComponent(runs, seps);
    }
  }

  // ---------- components joined by slashes ----------

  lemma {:induction false} BuiltHasNoSlash(runs: seq<string>, seps: seq<string>)
    requires IsBuilt(runs, seps)
    ensures forall i :: 0 <= i < |Joined(runs, seps)| ==> Joined(runs, seps)[i] != '/'
    decreases |seps|
  {
    assert IsRun(runs[0]);
    if seps != [] {
      assert IsSeparator(seps[0]);
      BuiltHasNoSlash(runs[1..], seps[1..]);
    }
  }

  lemma {:induction false} ComponentHasNoSlash(s: string)
    requires IsComponent(s)
    ensures forall i :: 0 <= i < |s| ==> s[i] != '/'
  {
    var runs, seps := ComponentIsBuilt(s);
    BuiltHasNoSlash(runs, seps);
  }

  predicate AllComponents(parts: seq<string>) { forall i :: 0 <= i < |parts| ==> IsComponent(parts[i]) }

  lemma {:induction false} SplitsAtFirst(s: string, i: nat)
    requires i < |s| && s[i] == '/' && forall k :: 0 <= k < i ==> s[k] != '/'
    ensures SplitOn(s, '/') == [s[..i]] + SplitOn(s[i + 1..], '/')
  {
    assert s == s[..i] + ['/'] + s[i + 1..];
    IndexByteAfter(s[..i], '/', s[i + 1..]);
  }

  lemma {:induction false} PathStep(s: string, k: nat)
    requires k < |s| && s[k] == '/' && forall i :: 0 <= i < k ==> s[i] != '/'
    ensures IsPath(s) <==> IsComponent(s[..k]) && IsPath(s[k + 1..])
  {
    hide IsComponent;
    if IsComponent(s) { ComponentHasNoSlash(s); }
    forall i | 0 <= i < |s| && s[i] == '/' && IsComponent(s[..i]) ensures i == k {
      assert forall j :: 0 <= j < i ==> s[..i][j] == s[j];
      ComponentHasNoSlash(s[..i]);
    }
  }

  lemma {:induction false} AllComponentsCons(part: string, parts: seq<string>)
    ensures AllComponents([part] + parts) <==> IsComponent(part) && AllComponents(parts)
  {
    hide IsComponent;
    assert forall i :: 0 <= i < |parts| ==> ([part] + parts)[i + 1] == parts[i];
    assert ([part] + parts)[0] == part;
  }

  lemma {:induction false} PathIff(s: string)
    ensures IsPath(s) <==> AllComponents(SplitOn(s, '/'))
    decreases |s|
  {
    hide IsComponent, AllComponents;
    var k := IndexByte(s, '/');
    if k < 0 {
      NoSlash(s);
      AllComponentsCons(s, []);
      assert [s] + [] == [s];
      assert AllComponents([]) by { NoComponents(); }
    } else {
      hide SplitOn, IsPath;
      FirstSlash(s);
      PathStep(s, k);
      PathIff(s[k + 1..]);
      SplitsAtFirst(s, k);
      AllComponentsCons(s[..k], SplitOn(s[k + 1..], '/'));
    }
  }

  lemma {:induction false} NoComponents()
    ensures AllComponents([])
  {}

  lemma {:induction false} FirstSlash(s: string)
    ensures var k := IndexByte(s, '/'); k >= 0 ==> forall i :: 0 <= i < k ==> s[i] != '/'
  {
    if s != "" && s[0] != '/' { FirstSlash(s[1..]); }
  }

  lemma {:induction false} NoSlash(s: string)
    requires IndexByte(s, '/') < 0
    ensures forall i :: 0 <= i < |s| ==> s[i] != '/'
  {
    if s != "" { NoSlash(s[1..]); }
  }

  /** A repository name is 1 to 255 characters of components, each built as the grammar says, between
      slashes. */
  lemma {:induction false} RepositoryIff(s: string)
    ensures IsRepository(s) <==> 1 <= |s| <= 255 && forall part :: part in SplitOn(s, '/') ==> Builds(part)
  {
    hide IsComponent, IsPath, SplitOn, Builds;
    PathIff(s);
    forall part ensures IsComponent(part) <==> Builds(part) { ComponentIff(part); }
  }
}
