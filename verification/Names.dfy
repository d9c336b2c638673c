/** Names, digests and cache keys (client.go: validateRepository, isDigest, the key formats). */
module Names {
  import opened Text
  import NaturalOrder

  predicate IsLowerAlnum(c: char) { 'a' <= c <= 'z' || '0' <= c <= '9' }

  function AlnumRun(s: string): (n: nat) ensures n <= |s| {
    if s != "" && IsLowerAlnum(s[0]) then 1 + AlnumRun(s[1..]) else 0
  }

  function RunOf(s: string, c: char): (n: nat) ensures n <= |s| {
    if s != "" && s[0] == c then 1 + RunOf(s[1..], c) else 0
  }

  /** A separator inside a path component: one dot, one or two underscores, any dashes; 0 if none. */
  function SeparatorRun(s: string): (n: nat) ensures n <= |s| {
    if s != "" && s[0] == '.' then 1
    else if RunOf(s, '_') > 0 then (if RunOf(s, '_') <= 2 then RunOf(s, '_') else 0)
    else RunOf(s, '-')
  }

  /** [a-z0-9]+((\.|_|__|-+)[a-z0-9]+)* */
  predicate IsComponent(s: string)
    decreases |s|
  {
    var n := AlnumRun(s);
    var k := SeparatorRun(s[n..]);
    n > 0 && (n == |s| || (k > 0 && IsComponent(s[n + k..])))
  }

  predicate IsPath(s: string)
    decreases |s|
  {
    IsComponent(s) || exists i :: 0 <= i < |s| && s[i] == '/' && IsComponent(s[..i]) && IsPath(s[i + 1..])
  }

  predicate IsRepository(s: string) { s != "" && |s| <= 255 && IsPath(s) }

  predicate IsTagChar(c: char) {
    'a' <= c <= 'z' || 'A' <= c <= 'Z' || '0' <= c <= '9' || c == '_' || c == '.' || c == '-'
  }

  predicate IsTag(s: string) {
    1 <= |s| <= 128 && s[0] != '.' && s[0] != '-' && forall i :: 0 <= i < |s| ==> IsTagChar(s[i])
  }

  predicate IsHex(c: char) { '0' <= c <= '9' || 'a' <= c <= 'f' }

  predicate IsDigest(s: string) {
    |s| == 71 && s[..7] == "sha256:" && forall i :: 7 <= i < 71 ==> IsHex(s[i])
  }

  predicate IsReference(s: string) { IsDigest(s) || IsTag(s) }

  // ---------- requests and their keys ----------

  datatype Request =
    | CatalogReq(n: nat, last: string)
    | TagsReq(repo: string, n: nat, last: string)
    | ManifestReq(repo: string, reference: string)
    | BlobReq(repo: string, digest: string)

  predicate WellFormed(r: Request) {
    match r
    case CatalogReq(_, _) => true
    case TagsReq(repo, _, _) => IsRepository(repo)
    case ManifestReq(repo, reference) => IsRepository(repo) && IsReference(reference)
    case BlobReq(repo, digest) => IsRepository(repo)
  }

  /** strconv.Itoa on the page sizes in use. */
  function Itoa(n: nat): string {
    if n < 10 then [('0' as int + n) as char] else Itoa(n / 10) + [('0' as int + n % 10) as char]
  }

  function Key(r: Request): string {
    match r
    case CatalogReq(n, last) => "catalog" + ("|" + (Itoa(n) + ("|" + last)))
    case TagsReq(repo, n, last) => "tags" + ("|" + (repo + ("|" + (Itoa(n) + ("|" + last)))))
    case ManifestReq(repo, reference) => "manifest" + ("|" + (repo + ("|" + reference)))
    case BlobReq(repo, digest) => "blob" + ("|" + (repo + ("|" + digest)))
  }

  // ---------- distinct requests have distinct keys ----------

  predicate NoBar(s: string) { forall i :: 0 <= i < |s| ==> s[i] != '|' }

  lemma {:induction false} AlnumRunHasNoBar(s: string)
    ensures NoBar(s[..AlnumRun(s)])
  {
    if s != "" && IsLowerAlnum(s[0]) {
      AlnumRunHasNoBar(s[1..]);
      assert s[..AlnumRun(s)] == [s[0]] + s[1..][..AlnumRun(s[1..])];
    }
  }

  lemma {:induction false} RunOfIsRun(s: string, c: char)
    ensures forall i :: 0 <= i < RunOf(s, c) ==> s[i] == c
  {
    if s != "" && s[0] == c { RunOfIsRun(s[1..], c); }
  }

  lemma {:induction false} SeparatorHasNoBar(s: string)
    ensures NoBar(s[..SeparatorRun(s)])
  {
    RunOfIsRun(s, '_');
    RunOfIsRun(s, '-');
  }

  lemma {:induction false} NoBarConcat(a: string, b: string, c: string, s: string)
    requires s == a + b + c && NoBar(a) && NoBar(b) && NoBar(c)
    ensures NoBar(s)
  {}

  lemma {:induction false} ComponentHasNoBar(s: string)
    requires IsComponent(s)
    ensures NoBar(s)
    decreases |s|
  {
    hide NoBar, AlnumRun, SeparatorRun, RunOf;
    var n := AlnumRun(s);
    AlnumRunHasNoBar(s);
    if n == |s| {
      assert s[..n] == s;
    } else {
      var t := s[n..];
      var k := SeparatorRun(t);
      SeparatorHasNoBar(t);
      ComponentHasNoBar(s[n + k..]);
      NoBarConcat(s[..n], t[..k], s[n + k..], s);
    }
  }

  lemma {:induction false} NoBarJoin(head: string, tail: string, s: string, i: nat)
    requires i < |s| && head == s[..i] && tail == s[i + 1..] && s[i] != '|' && NoBar(head) && NoBar(tail)
    ensures NoBar(s)
  {
    forall k | 0 <= k < |s| ensures s[k] != '|' {
      if k < i { assert s[k] == head[k]; } else if k > i { assert s[k] == tail[k - i - 1]; }
    }
  }

  lemma {:induction false} PathHasNoBar(s: string)
    requires IsPath(s)
    ensures NoBar(s)
    decreases |s|
  {
    if IsComponent(s) {
      ComponentHasNoBar(s);
    } else {
      var i :| 0 <= i < |s| && s[i] == '/' && IsComponent(s[..i]) && IsPath(s[i + 1..]);
      var head, tail := s[..i], s[i + 1..];
      ComponentHasNoBar(head);
      PathHasNoBar(tail);
      NoBarJoin(head, tail, s, i);
    }
  }

  lemma {:induction false} ItoaIsNumeral(n: nat)
    ensures NaturalOrder.AllDigits(Itoa(n)) && NaturalOrder.Value(Itoa(n)) == n && NoBar(Itoa(n))
  {
    if n >= 10 {
      ItoaIsNumeral(n / 10);
      assert Itoa(n)[..|Itoa(n)| - 1] == Itoa(n / 10);
    }
  }

  /** A field without a bar, followed by a bar, is read back uniquely. */
  lemma {:induction false} FieldIsUnique(a: string, x: string, b: string, y: string)
    requires NoBar(a) && NoBar(b) && a + ("|" + x) == b + ("|" + y)
    ensures a == b && x == y
  {
    var s, t := a + ("|" + x), b + ("|" + y);
    assert s[|a|] == '|' && t[|b|] == '|';
    assert s[..|a|] == a && t[..|b|] == b;
    assert s[|a| + 1..] == x && t[|b| + 1..] == y;
  }

  function Kind(r: Request): string {
    match r
    case CatalogReq(_, _) => "catalog"
    case TagsReq(_, _, _) => "tags"
    case ManifestReq(_, _) => "manifest"
    case BlobReq(_, _) => "blob"
  }

  function Fields(r: Request): string {
    match r
    case CatalogReq(n, last) => Itoa(n) + ("|" + last)
    case TagsReq(repo, n, last) => repo + ("|" + (Itoa(n) + ("|" + last)))
    case ManifestReq(repo, reference) => repo + ("|" + reference)
    case BlobReq(repo, digest) => repo + ("|" + digest)
  }

  lemma {:induction false} PageFieldsAreUnique(n: nat, last: string, m: nat, last': string)
    requires Itoa(n) + ("|" + last) == Itoa(m) + ("|" + last')
    ensures n == m && last == last'
  {
    ItoaIsNumeral(n);
    ItoaIsNumeral(m);
    FieldIsUnique(Itoa(n), last, Itoa(m), last');
  }

  lemma {:induction false} SameKind(q: Request, r: Request)
    requires Kind(q) == Kind(r)
    ensures (q.CatalogReq? <==> r.CatalogReq?) && (q.TagsReq? <==> r.TagsReq?)
    ensures (q.ManifestReq? <==> r.ManifestReq?) && (q.BlobReq? <==> r.BlobReq?)
  {
    assert "catalog"[0] == 'c' && "tags"[0] == 't' && "manifest"[0] == 'm' && "blob"[0] == 'b';
  }

  /** Keys never collide on validated names, whatever the cursor holds. */
  lemma {:induction false} KeyIsInjective(q: Request, r: Request)
    requires WellFormed(q) && WellFormed(r) && Key(q) == Key(r)
    ensures q == r
  {
    hide IsPath, Itoa;
    assert NoBar(Kind(q)) && NoBar(Kind(r));
    FieldIsUnique(Kind(q), Fields(q), Kind(r), Fields(r));
    SameKind(q, r);
    match q {
      case CatalogReq(n, last) =>
        PageFieldsAreUnique(n, last, r.n, r.last);
      case TagsReq(repo, n, last) =>
        PathHasNoBar(repo);
        PathHasNoBar(r.repo);
        FieldIsUnique(repo, Itoa(n) + ("|" + last), r.repo, Itoa(r.n) + ("|" + r.last));
        PageFieldsAreUnique(n, last, r.n, r.last);
      case ManifestReq(repo, reference) =>
        PathHasNoBar(repo);
        PathHasNoBar(r.repo);
        FieldIsUnique(repo, reference, r.repo, r.reference);
      case BlobReq(repo, digest) =>
        PathHasNoBar(repo);
        PathHasNoBar(r.repo);
        FieldIsUnique(repo, digest, r.repo, r.digest);
    }
  }

  /** No digest is a tag: the two kinds of manifest key never meet. */
  lemma {:induction false} DigestIsNoTag(s: string)
    requires IsDigest(s)
    ensures !IsTag(s)
  {
    assert s[6] == s[..7][6] == ':';
  }
}
