/** Normalized scope keys and deterministic thread ids of the chat store. */
module ChatScope {
  import opened Wrappers
  import opened Text

  datatype Scope = Scope(workspace: Option<string>, project: Option<string>, domain: Option<string>)

  predicate IsWordChar(c: char) {
    'a' <= c <= 'z' || '0' <= c <= '9'
  }

  function Keep(s: string): (r: string)
    ensures forall i | 0 <= i < |r| :: IsWordChar(r[i])
  {
    if s == "" then ""
    else if IsWordChar(s[0]) then [s[0]] + Keep(s[1..])
    else Keep(s[1..])
  }

  /** Lower case, letters and digits only; a missing id is empty. */
  function Norm(id: Option<string>): (r: string)
    ensures forall i | 0 <= i < |r| :: IsWordChar(r[i])
  {
    if id.None? then "" else Keep(Lower(id.value))
  }

  function ScopeKey(s: Scope): string {
    Norm(s.workspace) + "|" + Norm(s.project) + "|" + Norm(s.domain)
  }

  function Left(s: string, n: nat): string {
    if |s| > n then s[..n] else s
  }

  function ThreadIdFor(user: string, scopeKey: string): string {
    Left("thr_" + Norm(Some(user)) + "__" + scopeKey, 200)
  }

  predicate IsThreadChar(c: char) {
    'a' <= c <= 'z' || 'A' <= c <= 'Z' || '0' <= c <= '9' || c == '_' || c == '|' || c == '-'
  }

  /** The thread ids callers may name: `thr_` and 8 to 200 letters, digits, underscores, bars or hyphens. */
  predicate IsThreadId(s: string) {
    && 12 <= |s| <= 204 && s[..4] == "thr_"
    && forall i | 4 <= i < |s| :: IsThreadChar(s[i])
  }

  predicate SameNormalized(a: Scope, b: Scope) {
    Norm(a.workspace) == Norm(b.workspace) && Norm(a.project) == Norm(b.project) && Norm(a.domain) == Norm(b.domain)
  }

  /** Where the first bar of `x + "|" + rest` is, when `x` has none. */
  lemma FirstBar(x: string, y: string, r: string, t: string)
    requires forall i | 0 <= i < |x| :: IsWordChar(x[i])
    requires forall i | 0 <= i < |y| :: IsWordChar(y[i])
    requires x + "|" + r == y + "|" + t
    ensures x == y && r == t
  {
    var a := x + "|" + r;
    var b := y + "|" + t;
    assert forall i | 0 <= i < |x| :: a[i] == x[i];
    assert forall i | 0 <= i < |y| :: b[i] == y[i];
    assert a[|x|] == '|' && b[|y|] == '|';
    assert |x| == |y|;
    assert x == a[..|x|] && y == b[..|y|];
    assert r == a[|x| + 1..] && t == b[|y| + 1..];
  }

  /** Two scopes share a key exactly when their three normalized ids agree. */
  lemma ScopeKeyInjective(a: Scope, b: Scope)
    ensures ScopeKey(a) == ScopeKey(b) <==> SameNormalized(a, b)
  {
    if ScopeKey(a) == ScopeKey(b) {
      var ra := Norm(a.project) + "|" + Norm(a.domain);
      var rb := Norm(b.project) + "|" + Norm(b.domain);
      assert ScopeKey(a) == Norm(a.workspace) + "|" + ra;
      assert ScopeKey(b) == Norm(b.workspace) + "|" + rb;
      FirstBar(Norm(a.workspace), Norm(b.workspace), ra, rb);
      FirstBar(Norm(a.project), Norm(b.project), Norm(a.domain), Norm(b.domain));
    }
  }
}
