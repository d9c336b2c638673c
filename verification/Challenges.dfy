/** The WWW-Authenticate scanner (auth.go, parseChallenges).
    Grammar: section 2.1 of RFC 7235; token and quoted-string: section 3.2.6 of RFC 7230. */
module Challenges {
  import opened Text

  datatype Challenge = Challenge(scheme: string, params: map<string, string>)

  predicate IsTokenChar(c: char) {
    || 'a' <= c <= 'z' || 'A' <= c <= 'Z' || '0' <= c <= '9'
    || c == '!' || c == '#' || c == '$' || c == '%' || c == '&' || c == '\'' || c == '*' || c == '+'
    || c == '-' || c == '.' || c == '^' || c == '_' || c == '`' || c == '|' || c == '~'
  }

  /** The delimiters of RFC 7230, section 3.2.6. */
  predicate IsDelimiter(c: char) {
    || c == '(' || c == ')' || c == ',' || c == '/' || c == ':' || c == ';' || c == '<' || c == '=' || c == '>'
    || c == '?' || c == '@' || c == '[' || c == '\\' || c == ']' || c == '{' || c == '}' || c == '"'
  }

  /** A token is made of the visible ASCII characters that delimit nothing. */
  lemma {:induction false} TokenCharIff(c: char)
    ensures IsTokenChar(c) <==> '!' <= c <= '~' && !IsDelimiter(c)
  {}

  predicate IsBlank(c: char) { c == ' ' || c == '\t' }

  // ---------- the scanner as functions of the input and a position ----------

  function SkipSeparators(s: string, p: nat): (r: nat)
    requires p <= |s|
    ensures p <= r <= |s|
    decreases |s| - p
  {
    if p < |s| && (IsBlank(s[p]) || s[p] == ',') then SkipSeparators(s, p + 1) else p
  }

  function SkipBlanks(s: string, p: nat): (r: nat)
    requires p <= |s|
    ensures p <= r <= |s|
    decreases |s| - p
  {
    if p < |s| && IsBlank(s[p]) then SkipBlanks(s, p + 1) else p
  }

  function TokenEnd(s: string, p: nat): (r: nat)
    requires p <= |s|
    ensures p <= r <= |s|
    decreases |s| - p
  {
    if p < |s| && IsTokenChar(s[p]) then TokenEnd(s, p + 1) else p
  }

  /** A value read from the input, and the position after it. */
  datatype Lexeme = Lexeme(text: string, end: nat)

  /** A quoted string after its opening quote; an unclosed one ends with the input. */
  function Quoted(s: string, p: nat): (q: Lexeme)
    requires p <= |s|
    ensures p <= q.end <= |s|
    decreases |s| - p
  {
    if p >= |s| then Lexeme("", p)
    else if s[p] == '\\' && p + 1 < |s| then
      var q := Quoted(s, p + 2);
      Lexeme([s[p + 1]] + q.text, q.end)
    else if s[p] == '"' then Lexeme("", p + 1)
    else
      var q := Quoted(s, p + 1);
      Lexeme([s[p]] + q.text, q.end)
  }

  function ParamValue(s: string, p: nat): (q: Lexeme)
    requires p <= |s|
    ensures p <= q.end <= |s|
  {
    if p < |s| && s[p] == '"' then Quoted(s, p + 1)
    else Lexeme(s[p..TokenEnd(s, p)], TokenEnd(s, p))
  }

  /** One turn at the parameters: either another one is read, or scanning stops, backed up to end. */
  datatype Turn = Stop(end: nat) | Next(key: string, value: string, end: nat)

  function NextParam(s: string, p: nat): (r: Turn)
    requires p <= |s|
    ensures p <= r.end <= |s| && (r.Next? ==> p < r.end)
  {
    var k := SkipSeparators(s, p);
    var e := TokenEnd(s, k);
    var q := SkipBlanks(s, e);
    if k >= |s| then Stop(k)
    else if e == k || q >= |s| || s[q] != '=' then Stop(p)
    else
      var v := ParamValue(s, SkipBlanks(s, q + 1));
      Next(ToLower(s[k..e]), v.text, v.end)
  }

  datatype Scanned = Scanned(params: map<string, string>, end: nat)

  function ScanParams(s: string, p: nat, params: map<string, string>): (r: Scanned)
    requires p <= |s|
    ensures p <= r.end <= |s|
    decreases |s| - p
  {
    match NextParam(s, p)
    case Stop(end) => Scanned(params, end)
    case Next(key, value, end) => ScanParams(s, end, params[key := value])
  }

  function Scan(s: string, p: nat): seq<Challenge>
    requires p <= |s|
    decreases |s| - p
  {
    var k := SkipSeparators(s, p);
    var e := TokenEnd(s, k);
    if k >= |s| then []
    else if e == k then Scan(s, k + 1)
    else
      var r := ScanParams(s, e, map[]);
      [Challenge(s[k..e], r.params)] + Scan(s, r.end)
  }

  // ---------- the source's loops ----------

  method SkipSeparatorsFrom(s: string, start: nat) returns (pos: nat)
    requires start <= |s|
    ensures pos == SkipSeparators(s, start)
  {
    pos := start;
    while pos < |s| && (s[pos] == ' ' || s[pos] == '\t' || s[pos] == ',')
      invariant pos <= |s| && SkipSeparators(s, pos) == SkipSeparators(s, start)
    {
      pos := pos + 1;
    }
  }

  method SkipSpace(s: string, start: nat) returns (pos: nat)
    requires start <= |s|
    ensures pos == SkipBlanks(s, start)
  {
    pos := start;
    while pos < |s| && (s[pos] == ' ' || s[pos] == '\t')
      invariant pos <= |s| && SkipBlanks(s, pos) == SkipBlanks(s, start)
    {
      pos := pos + 1;
    }
  }

  method ReadToken(s: string, start: nat) returns (token: string, pos: nat)
    requires start <= |s|
    ensures pos == TokenEnd(s, start) && token == s[start..pos]
  {
    pos := start;
    while pos < |s| && IsTokenChar(s[pos])
      invariant start <= pos <= |s| && TokenEnd(s, pos) == TokenEnd(s, start)
    {
      pos := pos + 1;
    }
    token := s[start..pos];
  }

  method ReadQuoted(s: string, start: nat) returns (text: string, pos: nat)
    requires start < |s|
    ensures Lexeme(text, pos) == Quoted(s, start + 1)
  {
    pos, text := start + 1, "";
    while pos < |s|
      invariant start < pos <= |s|
      invariant Quoted(s, start + 1).text == text + Quoted(s, pos).text
      invariant Quoted(s, start + 1).end == Quoted(s, pos).end
      decreases |s| - pos
    {
      if s[pos] == '\\' && pos + 1 < |s| {
        assert text + ([s[pos + 1]] + Quoted(s, pos + 2).text) == (text + [s[pos + 1]]) + Quoted(s, pos + 2).text;
        text := text + [s[pos + 1]];
        pos := pos + 2;
      } else if s[pos] == '"' {
        pos := pos + 1;
        return;
      } else {
        assert text + ([s[pos]] + Quoted(s, pos + 1).text) == (text + [s[pos]]) + Quoted(s, pos + 1).text;
        text := text + [s[pos]];
        pos := pos + 1;
      }
    }
  }

  /** One turn of the inner loop of parseChallenges, with its resets to mark. */
  method ReadParam(s: string, mark: nat) returns (turn: Turn)
    requires mark <= |s|
    ensures turn == NextParam(s, mark)
  {
    hide SkipSeparators, SkipBlanks, TokenEnd, Quoted, ToLower, IsTokenChar;
    var pos := SkipSeparatorsFrom(s, mark);
    if pos >= |s| { return Stop(pos); }
    var key, value;
    key, pos := ReadToken(s, pos);
    if key == "" { return Stop(mark); }
    pos := SkipSpace(s, pos);
    if pos >= |s| || s[pos] != '=' { return Stop(mark); }
    pos := SkipSpace(s, pos + 1);
    if pos < |s| && s[pos] == '"' {
      value, pos := ReadQuoted(s, pos);
    } else {
      value, pos := ReadToken(s, pos);
    }
    return Next(ToLower(key), value, pos);
  }

  method ReadParams(s: string, start: nat) returns (params: map<string, string>, pos: nat)
    requires start <= |s|
    ensures Scanned(params, pos) == ScanParams(s, start, map[])
  {
    pos, params := start, map[];
    while true
      invariant start <= pos <= |s|
      invariant ScanParams(s, start, map[]) == ScanParams(s, pos, params)
      decreases |s| - pos
    {
      var turn := ReadParam(s, pos);
      pos := turn.end;
      if turn.Stop? { return; }
      params := params[turn.key := turn.value];
    }
  }

  /** parseChallenges: total on every byte string, the position advancing at every turn. */
  method ParseChallenges(header: string) returns (out: seq<Challenge>)
    ensures out == Scan(header, 0)
  {
    var s, pos := header, 0;
    out := [];
    while pos < |s|
      invariant pos <= |s| && Scan(header, 0) == out + Scan(s, pos)
      decreases |s| - pos
    {
      pos := SkipSeparatorsFrom(s, pos);
      if pos >= |s| { return; }
      var scheme, params;
      scheme, pos := ReadToken(s, pos);
      if scheme == "" {
        pos := pos + 1;
        continue;
      }
      params, pos := ReadParams(s, pos);
      out := out + [Challenge(scheme, params)];
    }
  }
}
