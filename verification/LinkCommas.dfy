/** Where splitLinkHeader splits, told by positions: at the commas outside angle brackets and quotes of
    any header, well-formed or not. */
module LinkCommas {
  import opened Text
  import opened LinkHeader

  /** The scanner before byte i: its flags, and whether byte i is taken literally after a backslash. */
  datatype Standing = Standing(flags: Flags, escaped: bool)

  function StandingAt(s: string, i: nat): Standing
    requires i <= |s|
  {
    if i == 0 then Standing(Flags(false, false), false)
    else
      var b, c := StandingAt(s, i - 1), s[i - 1];
      if b.escaped then Standing(b.flags, false)
      else if c == '\\' && b.flags.inQuotes && i < |s| then Standing(b.flags, true)
      else Standing(AfterChar(b.flags, c), false)
  }

  /** Byte i is a live c: not an escaped one. */
  predicate Live(s: string, i: nat, c: char) { i < |s| && s[i] == c && !StandingAt(s, i).escaped }

  predicate Unquoted(s: string, i: nat, c: char) { Live(s, i, c) && !StandingAt(s, i).flags.inQuotes }

  /** A comma that separates two links. */
  predicate Separates(s: string, i: nat) { Unquoted(s, i, ',') && !StandingAt(s, i).flags.inAngle }

  // ---------- what the flags mean ----------

  function Quotes(s: string, i: nat): nat
    requires i <= |s|
  {
    if i == 0 then 0 else Quotes(s, i - 1) + if Live(s, i - 1, '"') then 1 else 0
  }

  /** Inside quotes: an odd number of live quotation marks so far. */
  lemma {:induction false} InQuotesIff(s: string, i: nat)
    requires i <= |s|
    ensures StandingAt(s, i).flags.inQuotes <==> Quotes(s, i) % 2 == 1
  {
    if i > 0 { InQuotesIff(s, i - 1); }
  }

  /** Opened at j, and not closed before i. */
  predicate OpenSince(s: string, j: nat, i: nat) {
    Unquoted(s, j, '<') && forall k :: j < k < i ==> !Unquoted(s, k, '>')
  }

  predicate Opened(s: string, i: nat) { exists j :: 0 <= j < i && OpenSince(s, j, i) }

  lemma {:induction false} OpenedStep(s: string, i: nat)
    ensures Opened(s, i + 1) <==> Unquoted(s, i, '<') || (Opened(s, i) && !Unquoted(s, i, '>'))
  {
    hide Unquoted;
    if Unquoted(s, i, '<') {
      assert OpenSince(s, i, i + 1);
    } else if Opened(s, i) && !Unquoted(s, i, '>') {
      var j :| 0 <= j < i && OpenSince(s, j, i);
      assert OpenSince(s, j, i + 1);
    }
    if Opened(s, i + 1) {
      var j :| 0 <= j < i + 1 && OpenSince(s, j, i + 1);
      if j < i { assert OpenSince(s, j, i); }
    }
  }

  /** Inside angle brackets: some unquoted '<' so far has had no unquoted '>' after it. */
  lemma {:induction false} InAngleIff(s: string, i: nat)
    requires i <= |s|
    ensures StandingAt(s, i).flags.inAngle <==> Opened(s, i)
  {
    hide StandingAt;
    if i == 0 {
      NotInAngleYet(s);
    } else {
      InAngleIff(s, i - 1);
      AngleStep(s, i - 1);
      OpenedStep(s, i - 1);
    }
  }

  lemma {:induction false} NotInAngleYet(s: string)
    ensures !StandingAt(s, 0).flags.inAngle
  {}

  lemma {:induction false} AngleStep(s: string, i: nat)
    requires i < |s|
    ensures StandingAt(s, i + 1).flags.inAngle <==>
            Unquoted(s, i, '<') || (StandingAt(s, i).flags.inAngle && !Unquoted(s, i, '>'))
  {}

  // ---------- the split ----------

  /** The text between the cuts, from start on. */
  function Pieces(s: string, start: nat, cuts: seq<nat>): seq<string>
    requires start <= |s| && Cuts(s, start, cuts)
    decreases |cuts|
  {
    if cuts == [] then [s[start..]]
    else [s[start..cuts[0]]] + Pieces(s, cuts[0] + 1, cuts[1..])
  }

  /** Ascending positions, from start on. */
  predicate Cuts(s: string, start: nat, cuts: seq<nat>) {
    && (forall j :: 0 <= j < |cuts| ==> start <= cuts[j] < |s|)
    && (forall j, k :: 0 <= j < k < |cuts| ==> cuts[j] < cuts[k])
  }

  /** The pieces trimmed, the blank ones dropped. */
  function Kept(pieces: seq<string>): seq<string> {
    if pieces == [] then [] else Emit(pieces[0]) + Kept(pieces[1..])
  }

  /** cuts are exactly the separating commas from i on. */
  ghost predicate AllSeparators(s: string, i: nat, cuts: seq<nat>) {
    forall k: nat :: i <= k < |s| ==> (k in cuts <==> Separates(s, k))
  }

  lemma {:induction false} SplitFromCuts(s: string, start: nat, i: nat) returns (cuts: seq<nat>)
    requires start <= i <= |s| && !StandingAt(s, i).escaped
    ensures Cuts(s, i, cuts) && AllSeparators(s, i, cuts)
    ensures SplitFrom(s, i, s[start..i], StandingAt(s, i).flags) == Kept(Pieces(s, start, cuts))
    decreases |s| - i
  {
    hide SplitFrom, Emit, AfterChar, StandingAt, Separates, Kept;
    var f := StandingAt(s, i).flags;
    if i == |s| {
      SplitEnd(s, s[start..i], f);
      cuts := [];
      KeptOne(s[start..]);
      assert s[start..i] == s[start..];
      return;
    }
    SplitTurn(s, i, s[start..i], f);
    if s[i] == '\\' && f.inQuotes && i + 1 < |s| {
      EscapeStep(s, i);
      cuts := SplitFromCuts(s, start, i + 2);
      assert s[start..i] + [s[i], s[i + 1]] == s[start..i + 2];
    } else {
      PlainStep(s, i);
      if Separates(s, i) {
        var rest := SplitFromCuts(s, i + 1, i + 1);
        assert s[i + 1..i + 1] == "";
        cuts := [i] + rest;
        assert cuts[1..] == rest;
        KeptCons(s[start..i], Pieces(s, i + 1, rest));
      } else {
        cuts := SplitFromCuts(s, start, i + 1);
        assert s[start..i] + [s[i]] == s[start..i + 1];
      }
    }
  }

  lemma {:induction false} KeptOne(piece: string)
    ensures Kept([piece]) == Emit(piece)
  {
    assert [piece][1..] == [];
  }

  lemma {:induction false} KeptCons(piece: string, rest: seq<string>)
    ensures Kept([piece] + rest) == Emit(piece) + Kept(rest)
  {
    assert ([piece] + rest)[1..] == rest;
  }

  /** A backslash within quotes takes the next byte with it: neither separates. */
  lemma {:induction false} EscapeStep(s: string, i: nat)
    requires i + 1 < |s| && !StandingAt(s, i).escaped && s[i] == '\\' && StandingAt(s, i).flags.inQuotes
    ensures StandingAt(s, i + 2) == StandingAt(s, i)
    ensures !Separates(s, i) && !Separates(s, i + 1)
  {
    assert StandingAt(s, i + 1) == Standing(StandingAt(s, i).flags, true);
  }

  lemma {:induction false} PlainStep(s: string, i: nat)
    requires i < |s| && !StandingAt(s, i).escaped
    requires !(s[i] == '\\' && StandingAt(s, i).flags.inQuotes && i + 1 < |s|)
    ensures StandingAt(s, i + 1) == Standing(AfterChar(StandingAt(s, i).flags, s[i]), false)
    ensures var f := StandingAt(s, i).flags; Separates(s, i) <==> s[i] == ',' && !f.inAngle && !f.inQuotes
    ensures s[i] == ',' ==> StandingAt(s, i + 1) == StandingAt(s, i)
  {}

  /** For every header: the links are the non-blank pieces, trimmed, between the commas that are outside
      angle brackets and quotes, and all of those commas separate. */
  lemma {:induction false} SplitsAtOuterCommas(s: string) returns (cuts: seq<nat>)
    ensures Cuts(s, 0, cuts) && AllSeparators(s, 0, cuts)
    ensures Split(s) == Kept(Pieces(s, 0, cuts))
  {
    assert s[0..0] == "";
    cuts := SplitFromCuts(s, 0, 0);
  }
}
