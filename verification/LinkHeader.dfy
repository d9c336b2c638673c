/** The Link header scanners (client.go: splitLinkHeader, parseLink, hasRel, parseLinkNextLast, nextCursor).
    Grammar: section 5 of RFC 5988. */
module LinkHeader {
  import opened Text
  import opened HeaderParams

  // ---------- splitLinkHeader ----------

  datatype Flags = Flags(inAngle: bool, inQuotes: bool)

  function Emit(current: string): seq<string> {
    var t := TrimSpace(current);
    if t == "" then [] else [t]
  }

  function AfterChar(f: Flags, c: char): Flags {
    if c == '"' then f.(inQuotes := !f.inQuotes)
    else if c == '<' && !f.inQuotes then f.(inAngle := true)
    else if c == '>' && !f.inQuotes then f.(inAngle := false)
    else f
  }

  /** The links found from position i on, with the link under way and the scanner's flags. */
  function SplitFrom(s: string, i: nat, current: string, f: Flags): seq<string>
    requires i <= |s|
    decreases |s| - i
  {
    if i == |s| then Emit(current)
    else if s[i] == '\\' && f.inQuotes && i + 1 < |s| then SplitFrom(s, i + 2, current + [s[i], s[i + 1]], f)
    else if s[i] == ',' && !f.inAngle && !f.inQuotes then Emit(current) + SplitFrom(s, i + 1, "", f)
    else SplitFrom(s, i + 1, current + [s[i]], AfterChar(f, s[i]))
  }

  function Split(header: string): seq<string> { SplitFrom(header, 0, "", Flags(false, false)) }

  /** What one turn of the loop does to the links still to be found. */
  lemma {:induction false} SplitTurn(s: string, i: nat, current: string, f: Flags)
    requires i < |s|
    ensures SplitFrom(s, i, current, f) ==
            if s[i] == '\\' && f.inQuotes && i + 1 < |s| then SplitFrom(s, i + 2, current + [s[i], s[i + 1]], f)
            else if s[i] == ',' && !f.inAngle && !f.inQuotes then Emit(current) + SplitFrom(s, i + 1, "", f)
            else SplitFrom(s, i + 1, current + [s[i]], AfterChar(f, s[i]))
  {}

  lemma {:induction false} SplitEnd(s: string, current: string, f: Flags)
    ensures SplitFrom(s, |s|, current, f) == Emit(current)
  {}

  method SplitLinkHeader(header: string) returns (out: seq<string>)
    ensures out == Split(header)
  {
    hide SplitFrom, TrimSpace;
    out := [];
    var current, inAngle, inQuotes := "", false, false;
    var i := 0;
    while i < |header|
      invariant 0 <= i <= |header|
      invariant Split(header) == out + SplitFrom(header, i, current, Flags(inAngle, inQuotes))
    {
      var ch := header[i];
      SplitTurn(header, i, current, Flags(inAngle, inQuotes));
      if ch == '\\' && inQuotes && i + 1 < |header| {
        current := current + [ch, header[i + 1]];
        i := i + 2;
        continue;
      } else if ch == '"' {
        inQuotes := !inQuotes;
      } else if ch == '<' && !inQuotes {
        inAngle := true;
      } else if ch == '>' && !inQuotes {
        inAngle := false;
      } else if ch == ',' && !inAngle && !inQuotes {
        var s := TrimSpace(current);
        if s != "" { out := out + [s]; }
        current := "";
        i := i + 1;
        continue;
      }
      current := current + [ch];
      i := i + 1;
    }
    SplitEnd(header, current, Flags(inAngle, inQuotes));
    var s := TrimSpace(current);
    if s != "" { out := out + [s]; }
  }

  // ---------- parseLink ----------

  /** strings.IndexByte */
  function IndexByte(s: string, c: char): (k: int)
    ensures -1 <= k < |s| && (k >= 0 ==> s[k] == c)
  {
    if s == "" then -1
    else if s[0] == c then 0
    else if IndexByte(s[1..], c) < 0 then -1
    else 1 + IndexByte(s[1..], c)
  }

  /** The first occurrence of c, when it is known to be after a stretch without one. */
  lemma {:induction false} IndexByteAfter(x: string, c: char, y: string)
    requires forall i :: 0 <= i < |x| ==> x[i] != c
    ensures IndexByte(x + [c] + y, c) == |x|
    ensures IndexByte(x, c) == -1
    decreases |x|
  {
    if x == "" {
      assert (x + [c] + y)[0] == c;
    } else {
      assert (x + [c] + y)[1..] == x[1..] + [c] + y;
      IndexByteAfter(x[1..], c, y);
    }
  }

  /** strings.Split on a one-byte separator */
  function SplitOn(s: string, c: char): seq<string>
    decreases |s|
  {
    var k := IndexByte(s, c);
    if k < 0 then [s] else [s[..k]] + SplitOn(s[k + 1..], c)
  }

  function Unquote(v: string): string {
    if |v| >= 2 && v[0] == '"' && v[|v| - 1] == '"' then v[1..|v| - 1] else v
  }

  /** One parameter stored, or nothing when the part is blank or carries no equals sign. */
  function StorePart(m: map<string, string>, raw: string): map<string, string> {
    var part := TrimSpace(raw);
    var k := IndexByte(part, '=');
    if k < 0 then m
    else m[ToLower(TrimSpace(part[..k])) := Unquote(TrimSpace(part[k + 1..]))]
  }

  function StoreParts(m: map<string, string>, parts: seq<string>): map<string, string>
    decreases |parts|
  {
    if parts == [] then m else StoreParts(StorePart(m, parts[0]), parts[1..])
  }

  datatype Link = Link(target: string, params: map<string, string>)

  function Parse(link: string): Link {
    var start, end := IndexByte(link, '<'), IndexByte(link, '>');
    if start < 0 || end < start then Link("", map[])
    else Link(TrimSpace(link[start + 1..end]), StoreParts(map[], SplitOn(link[end + 1..], ';')))
  }

  method StripQuotes(v: string) returns (value: string)
    ensures value == Unquote(v)
  {
    value := v;
    if |value| >= 2 && value[0] == '"' && value[|value| - 1] == '"' {
      value := value[1..|value| - 1];
    }
  }

  /** The body of parseLink's loop over the parts. */
  method ReadPart(before: map<string, string>, raw: string) returns (params: map<string, string>)
    ensures params == StorePart(before, raw)
  {
    var part := TrimSpace(raw);
    if part == "" { return before; }
    var cut := IndexByte(part, '=');
    if cut < 0 { return before; }
    var value := StripQuotes(TrimSpace(part[cut + 1..]));
    params := before[ToLower(TrimSpace(part[..cut])) := value];
  }

  method ReadParts(parts: seq<string>) returns (params: map<string, string>)
    ensures params == StoreParts(map[], parts)
  {
    params := map[];
    for i := 0 to |parts|
      invariant StoreParts(map[], parts) == StoreParts(params, parts[i..])
    {
      assert parts[i..][1..] == parts[i + 1..];
      params := ReadPart(params, parts[i]);
    }
  }

  method ParseLink(link: string) returns (target: string, params: map<string, string>)
    ensures Link(target, params) == Parse(link)
  {
    var start, end := IndexByte(link, '<'), IndexByte(link, '>');
    if start < 0 || end < start { return "", map[]; }
    target := TrimSpace(link[start + 1..end]);
    params := ReadParts(SplitOn(link[end + 1..], ';'));
  }

  // ---------- hasRel, parseLinkNextLast, nextCursor ----------

  predicate HasRel(rel: string, want: string) {
    exists i :: 0 <= i < |Fields(rel)| && EqualFold(Fields(rel)[i], want)
  }

  method CheckRel(rel: string, want: string) returns (found: bool)
    ensures found == HasRel(rel, want)
  {
    var fields := Fields(rel);
    for i := 0 to |fields|
      invariant forall j :: 0 <= j < i ==> !EqualFold(fields[j], want)
    {
      if EqualFold(fields[i], want) { return true; }
    }
    return false;
  }

  /** A link that continues the listing: rel=next, and a non-empty `last` in its target. */
  predicate Continues(link: string, lastParam: string -> string) {
    var l := Parse(link);
    l.target != "" && HasRel(Lookup(l.params, "rel"), "next") && lastParam(l.target) != ""
  }

  /** The cursor of the first continuing link. The `last` query parameter of a target, resolved
      against the base URL, is the uninterpreted lastParam ("" when there is none). */
  function LinkCursor(links: seq<string>, lastParam: string -> string): string {
    if links == [] then ""
    else if Continues(links[0], lastParam) then lastParam(Parse(links[0]).target)
    else LinkCursor(links[1..], lastParam)
  }

  method ParseLinkNextLast(header: string, lastParam: string -> string) returns (cursor: string)
    ensures cursor == LinkCursor(Split(header), lastParam)
  {
    var links := SplitLinkHeader(header);
    for i := 0 to |links|
      invariant LinkCursor(links, lastParam) == LinkCursor(links[i..], lastParam)
    {
      assert links[i..][1..] == links[i + 1..];
      var target, params := ParseLink(links[i]);
      var isNext := CheckRel(Lookup(params, "rel"), "next");
      assert Parse(links[i]) == Link(target, params);
      if target == "" || !isNext { continue; }
      var last := lastParam(target);
      if last != "" { return last; }
    }
    return "";
  }

  function LastOf(items: seq<string>): string { if items == [] then "" else items[|items| - 1] }

  /** nextCursor: the Link header if it continues, else the last item of an exactly full page. */
  function NextCursor(linkCursor: string, items: seq<string>, requested: int): string {
    if linkCursor != "" then linkCursor
    else if |items| == requested && LastOf(items) != "" then LastOf(items)
    else ""
  }
}
