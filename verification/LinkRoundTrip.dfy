/** Printing links in the form of RFC 5988, section 5, and reading them back. */
module LinkRoundTrip {
  import opened Text
  import opened Words
  import opened LinkHeader
  import opened Challenges
  import opened HeaderParams

  datatype Written = Written(target: string, attrs: seq<Spelled>)

  // ---------- the printer ----------

  function Quote(a: Spelled): string { if a.bare then a.value else "\"" + a.value + "\"" }

  function PrintAttr(a: Spelled): string { " " + a.key + "=" + Quote(a) }

  function PrintAttrs(attrs: seq<Spelled>): string {
    if attrs == [] then "" else ";" + PrintAttr(attrs[0]) + PrintAttrs(attrs[1..])
  }

  function PrintLink(l: Written): string { "<" + l.target + ">" + PrintAttrs(l.attrs) }

  function Print(ls: seq<Written>): string {
    if ls == [] then "" else PrintLink(ls[0]) + if |ls| == 1 then "" else ", " + Print(ls[1..])
  }

  // ---------- what may be printed ----------

  predicate IsKey(s: string) { s != "" && forall i :: 0 <= i < |s| ==> IsTokenChar(s[i]) }

  predicate IsTarget(s: string) {
    Trimmed(s) && forall i :: 0 <= i < |s| ==> s[i] != '<' && s[i] != '>' && s[i] != '"'
  }

  predicate IsValue(s: string) { forall i :: 0 <= i < |s| ==> s[i] != '"' && s[i] != '\\' && s[i] != ';' }

  /** A bare value is a token, so it needs no quotes. */
  predicate IsAttr(a: Spelled) { IsKey(a.key) && if a.bare then IsKey(a.value) else IsValue(a.value) }

  predicate IsLink(l: Written) {
    && IsTarget(l.target)
    && (forall i :: 0 <= i < |l.attrs| ==> IsAttr(l.attrs[i]))
    && DistinctKeys(Readings(l.attrs))
  }

  predicate Recovers(l: Link, w: Written) { l.target == w.target && HoldsExactly(l.params, Readings(w.attrs)) }

  // ---------- splitting: no printed link contains a separating comma ----------

  /** The flags after x, if x holds nothing that splits or escapes. */
  function Quiet(x: string, f: Flags): (Flags, bool) {
    if x == "" then (f, true)
    else if (x[0] == '\\' && f.inQuotes) || (x[0] == ',' && !f.inAngle && !f.inQuotes) then (f, false)
    else Quiet(x[1..], AfterChar(f, x[0]))
  }

  lemma {:induction false} QuietJoin(x: string, y: string, f: Flags)
    requires Quiet(x, f).1
    ensures Quiet(x + y, f) == Quiet(y, Quiet(x, f).0)
  {
    if x == "" {
      assert x + y == y;
    } else {
      assert (x + y)[1..] == x[1..] + y;
      QuietJoin(x[1..], y, AfterChar(f, x[0]));
    }
  }

  predicate Plain(c: char, f: Flags) {
    && c != '"'
    && (if f.inQuotes then c != '\\' else c != '<' && c != '>')
    && (c == ',' ==> f.inAngle || f.inQuotes)
  }

  lemma {:induction false} QuietPlain(x: string, f: Flags)
    requires forall i :: 0 <= i < |x| ==> Plain(x[i], f)
    ensures Quiet(x, f) == (f, true)
  {
    if x != "" {
      assert Plain(x[0], f);
      QuietPlain(x[1..], f);
    }
  }

  const OUTSIDE := Flags(false, false)

  lemma {:induction false} QuietAttr(a: Spelled)
    requires IsAttr(a)
    ensures Quiet(";" + PrintAttr(a), OUTSIDE) == (OUTSIDE, true)
  {
    var head := "; " + a.key + "=";
    assert ";" + PrintAttr(a) == head + Quote(a);
    assert forall i :: 2 <= i < 2 + |a.key| ==> head[i] == a.key[i - 2];
    QuietPlain(head, OUTSIDE);
    QuietJoin(head, Quote(a), OUTSIDE);
    QuietQuote(a);
  }

  lemma {:induction false} QuietQuote(a: Spelled)
    requires IsAttr(a)
    ensures Quiet(Quote(a), OUTSIDE) == (OUTSIDE, true)
  {
    if a.bare {
      QuietPlain(a.value, OUTSIDE);
    } else {
      var tail, quoted := a.value + "\"", Flags(false, true);
      assert Quote(a)[1..] == tail;
      QuietPlain(a.value, quoted);
      QuietJoin(a.value, "\"", quoted);
      assert "\""[1..] == "";
    }
  }

  lemma {:induction false} QuietAttrs(attrs: seq<Spelled>)
    requires forall i :: 0 <= i < |attrs| ==> IsAttr(attrs[i])
    ensures Quiet(PrintAttrs(attrs), OUTSIDE) == (OUTSIDE, true)
    decreases |attrs|
  {
    if attrs != [] {
      QuietAttr(attrs[0]);
      QuietJoin(";" + PrintAttr(attrs[0]), PrintAttrs(attrs[1..]), OUTSIDE);
      QuietAttrs(attrs[1..]);
    }
  }

  lemma {:induction false} QuietLink(l: Written)
    requires IsLink(l)
    ensures Quiet(PrintLink(l), OUTSIDE) == (OUTSIDE, true)
  {
    var inside, rest := Flags(true, false), ">" + PrintAttrs(l.attrs);
    assert PrintLink(l) == "<" + (l.target + rest);
    assert ("<" + (l.target + rest))[1..] == l.target + rest;
    QuietPlain(l.target, inside);
    QuietJoin(l.target, rest, inside);
    assert rest[1..] == PrintAttrs(l.attrs);
    QuietAttrs(l.attrs);
  }

  /** A quiet stretch only extends the link under way. */
  lemma {:induction false} SplitPasses(s: string, i: nat, x: string, current: string, f: Flags)
    requires i <= |s| && x <= s[i..] && Quiet(x, f).1
    ensures SplitFrom(s, i, current, f) == SplitFrom(s, i + |x|, current + x, Quiet(x, f).0)
    decreases |x|
  {
    if x == "" {
      assert current + x == current;
    } else {
      assert s[i] == s[i..][0] == x[0];
      assert s[i + 1..] == s[i..][1..];
      SplitPasses(s, i + 1, x[1..], current + [s[i]], AfterChar(f, s[i]));
      assert current + [s[i]] + x[1..] == current + x;
    }
  }

  function PrintedLinks(ls: seq<Written>): seq<string> {
    if ls == [] then [] else [PrintLink(ls[0])] + PrintedLinks(ls[1..])
  }

  predicate Blanks(s: string) { s == "" || s == " " }

  lemma {:induction false} EmitLink(blank: string, l: Written)
    requires Blanks(blank) && IsLink(l)
    ensures Emit(blank + PrintLink(l)) == [PrintLink(l)]
  {
    var x := PrintLink(l);
    LinkIsTrimmed(l);
    if blank == " " {
      assert (blank + x)[1..] == x;
      assert TrimLeft(blank + x) == x;
    } else {
      assert blank + x == x;
    }
  }

  lemma {:induction false} LinkIsTrimmed(l: Written)
    requires IsLink(l)
    ensures PrintLink(l) != "" && Trimmed(PrintLink(l))
  {
    AttrsEnd(l.attrs);
    var x := PrintLink(l);
    assert x[0] == '<';
    if l.attrs == [] {
      assert x[|x| - 1] == '>';
    } else {
      assert x[|x| - 1] == PrintAttrs(l.attrs)[|PrintAttrs(l.attrs)| - 1];
    }
  }

  lemma {:induction false} AttrEnds(a: Spelled)
    requires IsAttr(a)
    ensures PrintAttr(a) != "" && !IsSpace(PrintAttr(a)[|PrintAttr(a)| - 1])
    ensures Quote(a) != "" && !IsSpace(Quote(a)[0]) && !IsSpace(Quote(a)[|Quote(a)| - 1])
  {
    var x := PrintAttr(a);
    assert x[|x| - 1] == Quote(a)[|Quote(a)| - 1];
  }

  lemma {:induction false} AttrsEnd(attrs: seq<Spelled>)
    requires forall i :: 0 <= i < |attrs| ==> IsAttr(attrs[i])
    ensures attrs != [] ==> PrintAttrs(attrs) != "" && !IsSpace(PrintAttrs(attrs)[|PrintAttrs(attrs)| - 1])
    decreases |attrs|
  {
    hide PrintAttr, IsAttr, IsSpace;
    if attrs != [] {
      AttrEnds(attrs[0]);
      AttrsEnd(attrs[1..]);
      if |attrs| == 1 {
        assert PrintAttrs(attrs) == ";" + PrintAttr(attrs[0]);
      } else {
        var tail := PrintAttrs(attrs[1..]);
        assert PrintAttrs(attrs)[|PrintAttrs(attrs)| - 1] == tail[|tail| - 1];
      }
    }
  }

  lemma {:induction false} CommaSplits(s: string, j: nat, x: string, next: string)
    requires j <= |s| && s[j..] == "," + next
    ensures j < |s| && s[j + 1..] == next
    ensures SplitFrom(s, j, x, OUTSIDE) == Emit(x) + SplitFrom(s, j + 1, "", OUTSIDE)
  {
    assert s[j] == s[j..][0] == ',';
    assert s[j + 1..] == s[j..][1..] == next;
  }

  lemma {:induction false} PassLink(s: string, i: nat, x: string, tail: string)
    requires i <= |s| && s[i..] == x + tail && Quiet(x, OUTSIDE) == (OUTSIDE, true)
    ensures i + |x| <= |s| && s[i + |x|..] == tail
    ensures SplitFrom(s, i, "", OUTSIDE) == SplitFrom(s, i + |x|, x, OUTSIDE)
  {
    assert s[i + |x|..] == s[i..][|x|..] == tail;
    SplitPasses(s, i, x, "", OUTSIDE);
    assert "" + x == x;
  }

  lemma {:induction false} QuietSpaced(blank: string, l: Written)
    requires Blanks(blank) && IsLink(l)
    ensures Quiet(blank + PrintLink(l), OUTSIDE) == (OUTSIDE, true)
  {
    hide PrintLink, IsLink;
    QuietPlain(blank, OUTSIDE);
    QuietJoin(blank, PrintLink(l), OUTSIDE);
    QuietLink(l);
  }

  /** One printed link is emitted whole, at the end of the header or before a comma. */
  lemma {:induction false} SplitReadsLink(s: string, i: nat, blank: string, l: Written, tail: string)
    requires Blanks(blank) && IsLink(l) && i <= |s| && s[i..] == blank + PrintLink(l) + tail
    requires tail == "" || tail[0] == ','
    ensures tail == "" ==> SplitFrom(s, i, "", OUTSIDE) == [PrintLink(l)]
    ensures tail != "" ==>
              var j := |s| - |tail| + 1;
              && j <= |s| && s[j..] == tail[1..]
              && SplitFrom(s, i, "", OUTSIDE) == [PrintLink(l)] + SplitFrom(s, j, "", OUTSIDE)
  {
    hide PrintLink, IsLink, Quiet, SplitFrom, Emit, Blanks;
    var x := blank + PrintLink(l);
    QuietSpaced(blank, l);
    PassLink(s, i, x, tail);
    EmitLink(blank, l);
    if tail == "" {
      assert i + |x| == |s|;
      SplitEnd(s, x, OUTSIDE);
    } else {
      assert tail == "," + tail[1..];
      CommaSplits(s, i + |x|, x, tail[1..]);
    }
  }

  /** Where the rest of a printed list starts: after the comma. */
  lemma {:induction false} SplitReadsHead(s: string, i: nat, blank: string, ls: seq<Written>)
    requires Blanks(blank) && |ls| > 1 && IsLink(ls[0]) && i <= |s| && s[i..] == blank + Print(ls)
    ensures var j := |s| - |Print(ls[1..])| - 1;
            && 0 <= j <= |s| && s[j..] == " " + Print(ls[1..])
            && SplitFrom(s, i, "", OUTSIDE) == [PrintLink(ls[0])] + SplitFrom(s, j, "", OUTSIDE)
  {
    hide PrintLink, SplitFrom, IsLink, Blanks;
    var tail := ", " + Print(ls[1..]);
    assert s[i..] == blank + PrintLink(ls[0]) + tail;
    SplitReadsLink(s, i, blank, ls[0], tail);
    assert tail[1..] == " " + Print(ls[1..]);
  }

  lemma {:induction false} SplitReads(s: string, i: nat, blank: string, ls: seq<Written>)
    requires Blanks(blank) && ls != [] && forall k :: 0 <= k < |ls| ==> IsLink(ls[k])
    requires i <= |s| && s[i..] == blank + Print(ls)
    ensures SplitFrom(s, i, "", OUTSIDE) == PrintedLinks(ls)
    decreases |ls|
  {
    hide SplitFrom, PrintLink, IsLink, Print, PrintedLinks, Blanks;
    PrintedStep(ls);
    if |ls| == 1 {
      assert s[i..] == blank + PrintLink(ls[0]) + "";
      SplitReadsLink(s, i, blank, ls[0], "");
    } else {
      SplitReadsHead(s, i, blank, ls);
      SplitReads(s, |s| - |Print(ls[1..])| - 1, " ", ls[1..]);
    }
  }

  lemma {:induction false} PrintedStep(ls: seq<Written>)
    requires ls != []
    ensures |ls| == 1 ==> Print(ls) == PrintLink(ls[0]) && PrintedLinks(ls) == [PrintLink(ls[0])]
    ensures PrintedLinks(ls) == [PrintLink(ls[0])] + PrintedLinks(ls[1..]) && Blanks(" ")
  {
    hide PrintLink;
  }

  // ---------- parsing one link ----------

  lemma {:induction false} SplitOnAfter(x: string, y: string)
    requires forall i :: 0 <= i < |x| ==> x[i] != ';'
    ensures SplitOn(x, ';') == [x]
    ensures SplitOn(x + ";" + y, ';') == [x] + SplitOn(y, ';')
  {
    IndexByteAfter(x, ';', y);
    var s := x + ";" + y;
    assert s == x + [';'] + y;
    assert s[..|x|] == x && s[|x| + 1..] == y;
  }

  function PrintedAttrs(attrs: seq<Spelled>): seq<string> {
    if attrs == [] then [] else [PrintAttr(attrs[0])] + PrintedAttrs(attrs[1..])
  }

  lemma {:induction false} AttrHasNoSemicolon(a: Spelled)
    requires IsAttr(a)
    ensures forall i :: 0 <= i < |PrintAttr(a)| ==> PrintAttr(a)[i] != ';'
  {
    var x, v := PrintAttr(a), Quote(a);
    assert forall i :: 0 <= i < |v| ==> v[i] != ';';
    forall i | 0 <= i < |x| ensures x[i] != ';' {
      if 1 <= i < 1 + |a.key| {
        assert x[i] == a.key[i - 1];
      } else if i >= 2 + |a.key| {
        assert x[i] == v[i - 2 - |a.key|];
      }
    }
  }

  lemma {:induction false} SplitAttrs(attrs: seq<Spelled>, x: string)
    requires forall i :: 0 <= i < |attrs| ==> IsAttr(attrs[i])
    requires forall i :: 0 <= i < |x| ==> x[i] != ';'
    ensures SplitOn(x + PrintAttrs(attrs), ';') == [x] + PrintedAttrs(attrs)
    decreases |attrs|
  {
    hide SplitOn, PrintAttr, IsAttr;
    if attrs == [] {
      SplitOnAfter(x, "");
      assert x + "" == x;
    } else {
      var a := PrintAttr(attrs[0]);
      var y := a + PrintAttrs(attrs[1..]);
      assert x + PrintAttrs(attrs) == x + ";" + y;
      SplitOnAfter(x, y);
      AttrHasNoSemicolon(attrs[0]);
      SplitAttrs(attrs[1..], a);
    }
  }

  function Body(a: Spelled): string { a.key + ['='] + Quote(a) }

  lemma {:induction false} TrimAttr(a: Spelled)
    requires IsAttr(a)
    ensures TrimSpace(PrintAttr(a)) == Body(a)
  {
    hide Quote;
    var part := Body(a);
    AttrEnds(a);
    assert PrintAttr(a) == " " + part && PrintAttr(a)[1..] == part;
    assert part[|part| - 1] == Quote(a)[|Quote(a)| - 1] && part[0] == a.key[0];
    assert TrimLeft(part) == part && TrimRight(part) == part;
  }

  lemma {:induction false} UnquoteQuote(a: Spelled)
    requires IsAttr(a)
    ensures Unquote(TrimSpace(Quote(a))) == a.value
  {
    AttrEnds(a);
    TrimSpaceFixes(Quote(a));
    if !a.bare { assert Quote(a)[1..|Quote(a)| - 1] == a.value; }
  }

  lemma {:induction false} StoreReadsAttr(m: map<string, string>, a: Spelled)
    requires IsAttr(a)
    ensures StorePart(m, PrintAttr(a)) == m[ToLower(a.key) := a.value]
  {
    hide Quote, Unquote, ToLower, TrimSpace, IndexByte, PrintAttr;
    var part := Body(a);
    TrimAttr(a);
    IndexByteAfter(a.key, '=', Quote(a));
    assert part[..|a.key|] == a.key && part[|a.key| + 1..] == Quote(a);
    UnquoteQuote(a);
    assert Trimmed(a.key);
    TrimSpaceFixes(a.key);
  }

  lemma {:induction false} StoreReadsAttrs(m: map<string, string>, attrs: seq<Spelled>)
    requires forall i :: 0 <= i < |attrs| ==> IsAttr(attrs[i])
    ensures StoreParts(m, PrintedAttrs(attrs)) == Store(m, Readings(attrs))
    decreases |attrs|
  {
    if attrs != [] {
      StoreReadsAttr(m, attrs[0]);
      assert PrintedAttrs(attrs)[1..] == PrintedAttrs(attrs[1..]);
      StoreReadsAttrs(m[ToLower(attrs[0].key) := attrs[0].value], attrs[1..]);
    }
  }

  /** The angle brackets of a printed link are found where they were put. */
  lemma {:induction false} FindTarget(l: Written, x: string, rest: string)
    requires IsLink(l) && x == PrintLink(l) && rest == PrintAttrs(l.attrs)
    ensures var end := 1 + |l.target|;
            && IndexByte(x, '<') == 0 && IndexByte(x, '>') == end < |x|
            && x[1..end] == l.target && x[end + 1..] == rest
  {
    hide PrintAttrs;
    assert x == "" + ['<'] + (l.target + ">" + rest);
    IndexByteAfter("", '<', l.target + ">" + rest);
    assert x == ("<" + l.target) + ['>'] + rest;
    IndexByteAfter("<" + l.target, '>', rest);
  }

  lemma {:induction false} ParseReads(l: Written)
    requires IsLink(l)
    ensures Parse(PrintLink(l)) == Link(l.target, Store(map[], Readings(l.attrs)))
  {
    hide PrintLink, PrintAttrs, PrintedAttrs, SplitOn, StoreParts, Store, IndexByte, TrimSpace;
    var rest := PrintAttrs(l.attrs);
    FindTarget(l, PrintLink(l), rest);
    TrimSpaceFixes(l.target);
    SplitAttrs(l.attrs, "");
    assert "" + rest == rest;
    StoreReadsAttrs(map[], l.attrs);
    PartsSkipBlank(PrintedAttrs(l.attrs));
  }

  lemma {:induction false} PartsSkipBlank(parts: seq<string>)
    ensures StoreParts(map[], [""] + parts) == StoreParts(map[], parts)
  {
    assert ([""] + parts)[1..] == parts;
    assert TrimSpace("") == "";
  }

  // ---------- the round trip ----------

  lemma {:induction false} PrintedLinksAt(ls: seq<Written>)
    ensures |PrintedLinks(ls)| == |ls| && forall i :: 0 <= i < |ls| ==> PrintedLinks(ls)[i] == PrintLink(ls[i])
    decreases |ls|
  {
    if ls != [] { PrintedLinksAt(ls[1..]); }
  }

  /** Print, split and parse recovers every link: its target and exactly its parameters, with commas
      allowed inside targets and quoted values; keys in any case. */
  lemma {:induction false} RoundTrip(ls: seq<Written>)
    requires forall i :: 0 <= i < |ls| ==> IsLink(ls[i])
    ensures var out := Split(Print(ls));
            |out| == |ls| && forall i :: 0 <= i < |ls| ==> Recovers(Parse(out[i]), ls[i])
  {
    if ls == [] {
      assert Split("") == [];
    } else {
      assert "" + Print(ls) == Print(ls);
      SplitReads(Print(ls), 0, "", ls);
      PrintedLinksAt(ls);
      forall i | 0 <= i < |ls| ensures Recovers(Parse(PrintLink(ls[i])), ls[i]) {
        ParseReads(ls[i]);
        StoreHoldsExactly(Readings(ls[i].attrs));
      }
    }
  }

  // ---------- relations ----------

  /** A rel of one word holds of a relation if and only if it is that relation, without regard to case. */
  lemma {:induction false} OneRel(w: string, want: string)
    requires IsWord(w)
    ensures HasRel(w, want) <==> EqualFold(w, want)
  {
    hide EqualFold;
    WordIsTerm(w);
    assert Fields(w)[0] == w;
  }

  /** A rel that lists several relations holds of each of them, and of no other. */
  lemma {:induction false} SeveralRels(a: string, b: string, want: string)
    ensures HasRel(a + " " + b, want) <==> HasRel(a, want) || HasRel(b, want)
  {
    hide EqualFold, Fields;
    FieldsJoin(a, b);
    var x, y := Fields(a), Fields(b);
    var both := x + y;
    assert forall i :: 0 <= i < |x| ==> both[i] == x[i];
    assert forall i :: 0 <= i < |y| ==> both[|x| + i] == y[i];
    if HasRel(b, want) {
      var i :| 0 <= i < |y| && EqualFold(y[i], want);
      assert EqualFold(both[|x| + i], want);
    }
  }

  // ---------- the cursor a registry wrote is the cursor followed ----------

  /** The `last` of the first link written with rel next whose target carries one. */
  function WrittenCursor(ls: seq<Written>, lastParam: string -> string): string {
    if ls == [] then ""
    else if ls[0].target != "" && HasRel(ValueOf(Readings(ls[0].attrs), "rel"), "next") && lastParam(ls[0].target) != "" then
      lastParam(ls[0].target)
    else WrittenCursor(ls[1..], lastParam)
  }

  lemma {:induction false} CursorIsWritten(out: seq<string>, ls: seq<Written>, lastParam: string -> string)
    requires |out| == |ls| && forall i :: 0 <= i < |ls| ==> Recovers(Parse(out[i]), ls[i])
    ensures LinkCursor(out, lastParam) == WrittenCursor(ls, lastParam)
    decreases |ls|
  {
    hide Parse, HoldsExactly, HasRel, ValueOf, Lookup, Readings;
    if ls != [] {
      ReadsWrittenValue(Parse(out[0]).params, Readings(ls[0].attrs), "rel");
      CursorIsWritten(out[1..], ls[1..], lastParam);
    }
  }

  /** Whatever links a registry prints, the listing goes on from the first that says rel next. */
  lemma {:induction false} FollowsWrittenCursor(ls: seq<Written>, lastParam: string -> string)
    requires forall i :: 0 <= i < |ls| ==> IsLink(ls[i])
    ensures LinkCursor(Split(Print(ls)), lastParam) == WrittenCursor(ls, lastParam)
  {
    hide IsLink, Split, Print, Recovers, LinkCursor, WrittenCursor;
    RoundTrip(ls);
    CursorIsWritten(Split(Print(ls)), ls, lastParam);
  }
}
