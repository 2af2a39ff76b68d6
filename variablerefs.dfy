/**
 * The variable-reference pattern `@[0-9A-Za-z-_]+` (parser.go:23), coded by
 * hand: a leftmost match starts at the first `@` that is followed by a name
 * character and runs over every name character after it (the `+` is greedy).
 */
module VariableRefs {
  import opened Diagnostics

  predicate NameChar(c: char) {
    ('0' <= c <= '9') || ('A' <= c <= 'Z') || ('a' <= c <= 'z') || c == '-' || c == '_'
  }

  /** A match of the pattern can start at `i`. */
  predicate StartsRef(s: string, i: int) {
    0 <= i && i + 1 < |s| && s[i] == '@' && NameChar(s[i + 1])
  }

  /** The length of the run of name characters starting at `k`. */
  function NameRun(s: string, k: nat): (n: nat)
    requires k <= |s|
    ensures k + n <= |s|
    ensures forall j :: k <= j < k + n ==> NameChar(s[j])
    ensures k + n == |s| || !NameChar(s[k + n])
    decreases |s| - k
  {
    if k < |s| && NameChar(s[k]) then 1 + NameRun(s, k + 1) else 0
  }

  /** A match `s[m.0..m.1]`: `@`, then a maximal non-empty run of name characters. */
  predicate IsMatch(s: string, a: nat, b: nat) {
    StartsRef(s, a) && a + 2 <= b <= |s|
    && (forall j :: a + 1 <= j < b ==> NameChar(s[j]))
    && (b == |s| || !NameChar(s[b]))
  }

  /** The leftmost match of the pattern, as Go's `FindStringIndex` gives it. */
  function FindRef(s: string): (m: Option<(nat, nat)>)
    ensures m.None? <==> forall i :: 0 <= i < |s| ==> !StartsRef(s, i)
    ensures m.Some? ==> IsMatch(s, m.value.0, m.value.1)
    ensures m.Some? ==> forall i :: 0 <= i < m.value.0 ==> !StartsRef(s, i)
  {
    FindRefFrom(s, 0)
  }

  function FindRefFrom(s: string, k: nat): (m: Option<(nat, nat)>)
    requires k <= |s|
    ensures m.None? <==> forall i :: k <= i < |s| ==> !StartsRef(s, i)
    ensures m.Some? ==> k <= m.value.0 && IsMatch(s, m.value.0, m.value.1)
    ensures m.Some? ==> forall i :: k <= i < m.value.0 ==> !StartsRef(s, i)
    decreases |s| - k
  {
    if k == |s| then None
    else if StartsRef(s, k) then Some((k, k + 1 + NameRun(s, k + 1)))
    else FindRefFrom(s, k + 1)
  }

  /** The name a match refers to: the characters after its `@`. */
  function RefName(s: string, a: nat, b: nat): (name: string)
    requires IsMatch(s, a, b)
    ensures |name| >= 1 && forall j :: 0 <= j < |name| ==> NameChar(name[j])
  {
    s[a + 1..b]
  }

  /** `FindString(s) == s` in Go: the whole string is one match
      (or the string is empty and there is no match). */
  predicate WholeMatch(s: string) {
    match FindRef(s)
    case None => s == ""
    case Some(m) => m.0 == 0 && m.1 == |s|
  }

  /** A whole-string match is exactly `@` followed by one or more name
      characters; the empty text also passes, because `FindString` returns
      "" when nothing matches. */
  lemma WholeMatchIff(s: string)
    ensures WholeMatch(s) <==>
      s == "" || (|s| >= 2 && s[0] == '@' && forall j :: 1 <= j < |s| ==> NameChar(s[j]))
  {
    if |s| >= 2 && s[0] == '@' && forall j :: 1 <= j < |s| ==> NameChar(s[j]) {
      assert StartsRef(s, 0);
      var m := FindRef(s);
      assert m.Some? && m.value.0 == 0;
      assert m.value.1 == |s| || !NameChar(s[m.value.1]);
    }
    if s != [] && WholeMatch(s) {
      assert FindRef(s).Some?;
    }
  }
}
