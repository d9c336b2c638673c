/** What normaliseMediaType makes of a Content-Type header (manifest.go). */
module MediaTypes {
  import opened Text
  import opened Words
  import opened Names
  import opened LinkHeader
  import opened Client

  predicate IsBlank(s: string) { forall i :: 0 <= i < |s| ==> IsSpace(s[i]) }

  /** A media type as a header carries it, without its parameters. */
  predicate IsType(t: string) { t != "" && Trimmed(t) && forall i :: 0 <= i < |t| ==> t[i] != ';' }

  /** The types that say nothing of a manifest. */
  predicate IsGeneric(t: string) { t == "application/json" || t == "text/plain" || t == "application/octet-stream" }

  lemma {:induction false} LowerAt(s: string)
    ensures |ToLower(s)| == |s| && forall i :: 0 <= i < |s| ==> ToLower(s)[i] == LowerChar(s[i])
  {
    if s != "" { LowerAt(s[1..]); }
  }

  lemma {:induction false} TrimLeftBlank(lead: string, x: string)
    requires IsBlank(lead) && x != "" && !IsSpace(x[0])
    ensures TrimLeft(lead + x) == x
    decreases |lead|
  {
    if lead == "" {
      assert lead + x == x;
    } else {
      assert (lead + x)[0] == lead[0] && (lead + x)[1..] == lead[1..] + x;
      TrimLeftBlank(lead[1..], x);
    }
  }

  lemma {:induction false} TrimRightBlank(x: string, gap: string)
    requires IsBlank(gap) && x != "" && !IsSpace(x[|x| - 1])
    ensures TrimRight(x + gap) == x
    decreases |gap|
  {
    var n := |gap| - 1;
    if gap == "" {
      assert x + gap == x;
    } else {
      assert (x + gap)[|x + gap| - 1] == gap[n] && (x + gap)[..|x + gap| - 1] == x + gap[..n];
      TrimRightBlank(x, gap[..n]);
    }
  }

  /** Trimming on the right never gets past what is not blank. */
  lemma {:induction false} TrimRightKeeps(x: string, y: string) returns (y': string)
    requires x != "" && !IsSpace(x[|x| - 1])
    ensures TrimRight(x + y) == x + y'
    decreases |y|
  {
    var s := x + y;
    if y != "" && IsSpace(y[|y| - 1]) {
      assert s[|s| - 1] == y[|y| - 1] && s[..|s| - 1] == x + y[..|y| - 1];
      y' := TrimRightKeeps(x, y[..|y| - 1]);
    } else {
      if y == "" { assert s == x; } else { assert s[|s| - 1] == y[|y| - 1]; }
      y' := y;
    }
  }

  /** Lower case keeps blanks, and what is not blank or a semicolon. */
  lemma {:induction false} LowerKeeps(t: string, gap: string)
    requires IsType(t) && IsBlank(gap)
    ensures IsType(ToLower(t)) && IsBlank(ToLower(gap))
    ensures forall i :: 0 <= i < |ToLower(t) + ToLower(gap)| ==> (ToLower(t) + ToLower(gap))[i] != ';'
  {
    LowerAt(t);
    LowerAt(gap);
  }

  /** The type is read whatever blanks surround it, whatever parameters follow, and without regard to case;
      the generic ones count as none. */
  lemma {:induction false} MediaTypeIsRead(lead: string, t: string, gap: string, params: string)
    requires IsBlank(lead) && IsBlank(gap) && IsType(t)
    ensures var read := if IsGeneric(ToLower(t)) then "" else ToLower(t);
            NormaliseMediaType(lead + t + gap) == read && NormaliseMediaType(lead + t + gap + ";" + params) == read
  {
    hide TrimLeft, TrimRight, ToLower, IndexByte, IsSpace;
    var low, blank := ToLower(t), ToLower(gap);
    LowerKeeps(t, gap);
    TrimBoth("", low, blank);
    assert "" + low + blank == low + blank;
    TrimBoth(lead, t, gap);
    IndexByteAfter(low, ';', "");
    var tail := TrimParams(lead, t, gap, params);
    ToLowerJoin(t + gap, ";" + tail);
    ToLowerJoin(t, gap);
    ToLowerJoin(";", tail);
    assert ToLower(";") == [';'] by { LowerAt(";"); }
    assert t + gap + ";" + tail == (t + gap) + (";" + tail);
    assert ToLower(t + gap + ";" + tail) == (low + blank) + [';'] + ToLower(tail);
    IndexByteAfter(low + blank, ';', ToLower(tail));
    assert ((low + blank) + [';'] + ToLower(tail))[..|low + blank|] == low + blank;
  }

  lemma {:induction false} TrimBoth(lead: string, t: string, gap: string)
    requires IsBlank(lead) && IsBlank(gap) && IsType(t)
    ensures TrimSpace(lead + t + gap) == t
  {
    hide TrimLeft, TrimRight;
    assert lead + t + gap == lead + (t + gap);
    TrimLeftBlank(lead, t + gap);
    TrimRightBlank(t, gap);
  }

  lemma {:induction false} TrimParams(lead: string, t: string, gap: string, params: string) returns (tail: string)
    requires IsBlank(lead) && IsType(t)
    ensures TrimSpace(lead + t + gap + ";" + params) == t + gap + ";" + tail
  {
    hide TrimLeft, TrimRight;
    var x := t + gap + ";";
    assert lead + t + gap + ";" + params == lead + (x + params);
    TrimLeftBlank(lead, x + params);
    tail := TrimRightKeeps(x, params);
  }

  /** Every manifest reply carries the type its Content-Type header told, the bytes as they came, and their
      digest. */
  lemma {:induction false} ManifestCarriesType(r: Request, doc: Doc, reply: Reply, digestOf: string -> string, lead: string,
                                               t: string, gap: string, params: string)
    requires r.ManifestReq? && Renders(r, doc, reply, digestOf) && doc.ManifestAnswer?
    requires IsBlank(lead) && IsBlank(gap) && IsType(t)
    requires doc.manifest.contentType == lead + t + gap || doc.manifest.contentType == lead + t + gap + ";" + params
    ensures reply == ManifestReply(doc.manifest.raw, if IsGeneric(ToLower(t)) then "" else ToLower(t), digestOf(doc.manifest.raw))
  {
    hide NormaliseMediaType;
    MediaTypeIsRead(lead, t, gap, params);
  }
}
