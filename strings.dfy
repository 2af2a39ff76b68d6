/**
 * The handful of Go `strings` operations the compiler relies on, over
 * `string` (= `seq<char>`): searching, trimming, splitting and replacing.
 * Each carries a contract that pins down the Go behaviour it stands for.
 */
module Strings {

  /** Go's `unicode.IsSpace`, the predicate `strings.TrimSpace` trims by. */
  predicate IsSpace(c: char) {
    c == ' ' || c == '\t' || c == '\n' || c == '\r' || c == '\U{000B}' || c == '\U{000C}'
    || c == '\U{0085}' || c == '\U{00A0}' || c == '\U{1680}'
    || ('\U{2000}' <= c <= '\U{200A}')
    || c == '\U{2028}' || c == '\U{2029}' || c == '\U{202F}' || c == '\U{205F}' || c == '\U{3000}'
  }

  /** A string neither starting nor ending with white space. */
  predicate Trimmed(s: string) {
    s == [] || (!IsSpace(s[0]) && !IsSpace(s[|s| - 1]))
  }

  /** The characters of `s` that are not white space, in order. */
  function NonSpace(s: string): (r: string)
    ensures forall c :: c in r ==> c in s && !IsSpace(c)
  {
    if s == [] then []
    else if IsSpace(s[0]) then NonSpace(s[1..])
    else [s[0]] + NonSpace(s[1..])
  }

  lemma {:induction false} NonSpaceAppend(a: string, b: string)
    ensures NonSpace(a + b) == NonSpace(a) + NonSpace(b)
  {
    if a == [] {
      assert a + b == b;
    } else {
      assert (a + b)[1..] == a[1..] + b;
      NonSpaceAppend(a[1..], b);
    }
  }

  /** Go's `strings.TrimLeftFunc(s, unicode.IsSpace)`. */
  function TrimLeft(s: string): (r: string)
    ensures |r| <= |s|
    ensures r == [] || !IsSpace(r[0])
  {
    if s != [] && IsSpace(s[0]) then TrimLeft(s[1..]) else s
  }

  /** `TrimLeft` drops a prefix of white space and nothing else. */
  lemma {:induction false} TrimLeftSlice(s: string)
    ensures TrimLeft(s) == s[|s| - |TrimLeft(s)|..]
    ensures forall i :: 0 <= i < |s| - |TrimLeft(s)| ==> IsSpace(s[i])
  {
    if s != [] && IsSpace(s[0]) {
      TrimLeftSlice(s[1..]);
    }
  }

  /** Go's `strings.TrimRightFunc(s, unicode.IsSpace)`. */
  function TrimRight(s: string): (r: string)
    ensures |r| <= |s|
    ensures r == [] || !IsSpace(r[|r| - 1])
  {
    if s != [] && IsSpace(s[|s| - 1]) then TrimRight(s[..|s| - 1]) else s
  }

  /** `TrimRight` drops a suffix of white space and nothing else. */
  lemma {:induction false} TrimRightSlice(s: string)
    ensures TrimRight(s) == s[..|TrimRight(s)|]
    ensures forall i :: |TrimRight(s)| <= i < |s| ==> IsSpace(s[i])
  {
    if s != [] && IsSpace(s[|s| - 1]) {
      TrimRightSlice(s[..|s| - 1]);
    }
  }

  /** Go's `strings.TrimSpace`: drops leading and trailing white space only. */
  function TrimSpace(s: string): (r: string)
    ensures Trimmed(r)
    ensures |r| <= |s|
    ensures Trimmed(s) ==> r == s
    ensures s != [] && !IsSpace(s[0]) ==> r != []
  {
    var l := TrimLeft(s);
    var r := TrimRight(l);
    TrimRightSlice(l);
    assert Trimmed(s) ==> l == s;
    r
  }

  /** `TrimSpace` keeps the slice between the leading and the trailing white
      space. */
  lemma TrimSpaceSlice(s: string)
    ensures LeadingSpace(s) + |TrimSpace(s)| <= |s|
    ensures TrimSpace(s) == s[LeadingSpace(s)..LeadingSpace(s) + |TrimSpace(s)|]
    ensures forall i :: 0 <= i < LeadingSpace(s) ==> IsSpace(s[i])
    ensures forall i :: LeadingSpace(s) + |TrimSpace(s)| <= i < |s| ==> IsSpace(s[i])
  {
    var l := TrimLeft(s);
    TrimLeftSlice(s);
    TrimRightSlice(l);
    var n := LeadingSpace(s);
    var r := TrimSpace(s);
    assert r == l[..|r|];
    forall i | n + |r| <= i < |s| ensures IsSpace(s[i]) {
      assert s[i] == l[i - n];
    }
  }

  /** Trimming adds no character. */
  lemma TrimSpaceAbsent(s: string, c: char)
    requires c !in s
    ensures c !in TrimSpace(s)
  {
    var t := TrimSpace(s);
    var l := LeadingSpace(s);
    TrimSpaceSlice(s);
    forall k | 0 <= k < |t| ensures t[k] != c {
      assert t[k] == s[l + k];
    }
  }

  /** The number of white-space characters `TrimSpace` drops at the front. */
  function LeadingSpace(s: string): nat {
    |s| - |TrimLeft(s)|
  }

  /** Trimming loses only white space. */
  lemma TrimSpaceNonSpace(s: string)
    ensures NonSpace(TrimSpace(s)) == NonSpace(s)
  {
    TrimLeftNonSpace(s);
    TrimRightNonSpace(TrimLeft(s));
  }

  lemma {:induction false} TrimLeftNonSpace(s: string)
    ensures NonSpace(TrimLeft(s)) == NonSpace(s)
  {
    if s != [] && IsSpace(s[0]) {
      TrimLeftNonSpace(s[1..]);
    }
  }

  lemma {:induction false} TrimRightNonSpace(s: string)
    ensures NonSpace(TrimRight(s)) == NonSpace(s)
  {
    if s != [] && IsSpace(s[|s| - 1]) {
      var init := s[..|s| - 1];
      TrimRightNonSpace(init);
      assert s == init + [s[|s| - 1]];
      NonSpaceAppend(init, [s[|s| - 1]]);
    }
  }

  lemma {:induction false} AllSpaceNonSpace(s: string)
    requires forall i :: 0 <= i < |s| ==> IsSpace(s[i])
    ensures NonSpace(s) == []
  {
    if s != [] {
      AllSpaceNonSpace(s[1..]);
    }
  }

  predicate HasPrefix(s: string, p: string) {
    |p| <= |s| && s[..|p|] == p
  }

  predicate HasSuffix(s: string, p: string) {
    |p| <= |s| && s[|s| - |p|..] == p
  }

  /** Go's `strings.TrimPrefix`. */
  function TrimPrefix(s: string, p: string): (r: string)
    ensures HasPrefix(s, p) ==> s == p + r
    ensures !HasPrefix(s, p) ==> r == s
  {
    if HasPrefix(s, p) then s[|p|..] else s
  }

  /** Go's `strings.TrimSuffix`. */
  function TrimSuffix(s: string, p: string): (r: string)
    ensures HasSuffix(s, p) ==> s == r + p
    ensures !HasSuffix(s, p) ==> r == s
  {
    if HasSuffix(s, p) then s[..|s| - |p|] else s
  }

  /** `pat` occurs in `s` at position `i`. */
  predicate OccursAt(s: string, pat: string, i: int) {
    0 <= i && i + |pat| <= |s| && s[i..i + |pat|] == pat
  }

  predicate Contains(s: string, pat: string) {
    exists i | 0 <= i <= |s| :: OccursAt(s, pat, i)
  }

  /** A pattern absent from a string is absent from every slice of it. */
  lemma SliceNoOccurrence(s: string, pat: string, a: nat, b: nat)
    requires a <= b <= |s| && !Contains(s, pat)
    ensures !Contains(s[a..b], pat)
  {
    forall j | 0 <= j <= b - a ensures !OccursAt(s[a..b], pat, j) {
      if OccursAt(s[a..b], pat, j) {
        var t := s[a..b];
        forall k | 0 <= k < |pat| ensures s[a + j..a + j + |pat|][k] == pat[k] {
          assert pat[k] == t[j..j + |pat|][k] == t[j + k];
        }
        assert OccursAt(s, pat, a + j);
      }
    }
  }

  /** Go's `strings.Index`: the first position of `pat` in `s`, or -1
      (`IndexSpec`). */
  function Index(s: string, pat: string): (r: int)
    ensures -1 <= r && (r >= 0 ==> r + |pat| <= |s|)
  {
    IndexFrom(s, pat, 0)
  }

  lemma IndexSpec(s: string, pat: string)
    ensures Index(s, pat) == -1 <==> !Contains(s, pat)
    ensures Index(s, pat) >= 0 ==> OccursAt(s, pat, Index(s, pat))
    ensures Index(s, pat) >= 0 ==> forall j :: 0 <= j < Index(s, pat) ==> !OccursAt(s, pat, j)
  {
    IndexFromSpec(s, pat, 0);
  }

  function IndexFrom(s: string, pat: string, k: nat): (r: int)
    requires k <= |s|
    ensures -1 <= r && (r >= 0 ==> k <= r && r + |pat| <= |s|)
    decreases |s| - k
  {
    if k + |pat| > |s| then -1
    else if s[k..k + |pat|] == pat then k
    else IndexFrom(s, pat, k + 1)
  }

  /** `IndexFrom` finds the first occurrence at or after `k`. */
  lemma {:induction false} IndexFromSpec(s: string, pat: string, k: nat)
    requires k <= |s|
    ensures IndexFrom(s, pat, k) == -1 <==> forall j :: k <= j ==> !OccursAt(s, pat, j)
    ensures IndexFrom(s, pat, k) >= 0 ==> OccursAt(s, pat, IndexFrom(s, pat, k))
    ensures IndexFrom(s, pat, k) >= 0 ==> forall j :: k <= j < IndexFrom(s, pat, k) ==> !OccursAt(s, pat, j)
    decreases |s| - k
  {
    if k + |pat| > |s| {
    } else if s[k..k + |pat|] == pat {
      assert OccursAt(s, pat, k);
    } else {
      IndexFromSpec(s, pat, k + 1);
      assert !OccursAt(s, pat, k);
    }
  }

  /** Go's `strings.LastIndex`: the last position of `pat` in `s`, or -1
      (`LastIndexSpec`). */
  function LastIndex(s: string, pat: string): (r: int)
    ensures -1 <= r && (r >= 0 ==> r + |pat| <= |s|)
  {
    if |pat| > |s| then -1 else LastIndexFrom(s, pat, |s| - |pat|)
  }

  lemma LastIndexSpec(s: string, pat: string)
    ensures LastIndex(s, pat) == -1 <==> !Contains(s, pat)
    ensures LastIndex(s, pat) >= 0 ==> OccursAt(s, pat, LastIndex(s, pat))
    ensures LastIndex(s, pat) >= 0 ==> forall j :: LastIndex(s, pat) < j ==> !OccursAt(s, pat, j)
  {
    if |pat| <= |s| {
      LastIndexFromSpec(s, pat, |s| - |pat|);
    }
  }

  function LastIndexFrom(s: string, pat: string, k: int): (r: int)
    requires -1 <= k && k + |pat| <= |s|
    ensures -1 <= r <= k
    decreases k + 1
  {
    if k < 0 then -1
    else if s[k..k + |pat|] == pat then k
    else LastIndexFrom(s, pat, k - 1)
  }

  /** Scanning down from `k`, past which `pat` does not occur, finds its
      last occurrence. */
  lemma {:induction false} LastIndexFromSpec(s: string, pat: string, k: int)
    requires -1 <= k && k + |pat| <= |s|
    requires forall j :: k < j ==> !OccursAt(s, pat, j)
    ensures LastIndexFrom(s, pat, k) == -1 <==> forall j :: !OccursAt(s, pat, j)
    ensures LastIndexFrom(s, pat, k) >= 0 ==> OccursAt(s, pat, LastIndexFrom(s, pat, k))
    ensures forall j :: LastIndexFrom(s, pat, k) < j ==> !OccursAt(s, pat, j)
    decreases k + 1
  {
    if k < 0 {
    } else if s[k..k + |pat|] == pat {
      assert OccursAt(s, pat, k);
    } else {
      assert !OccursAt(s, pat, k);
      LastIndexFromSpec(s, pat, k - 1);
    }
  }

  /** Go's `strings.Index` for a one-character pattern (`IndexCharSpec`). */
  function IndexChar(s: string, c: char): (r: int)
    ensures -1 <= r < |s|
    ensures r >= 0 ==> s[r] == c
  {
    if s == [] then -1
    else if s[0] == c then 0
    else
      var i := IndexChar(s[1..], c);
      if i < 0 then -1 else i + 1
  }

  lemma {:induction false} IndexCharSpec(s: string, c: char)
    ensures IndexChar(s, c) == -1 <==> c !in s
    ensures forall k :: 0 <= k < IndexChar(s, c) ==> s[k] != c
  {
    if s != [] && s[0] != c {
      IndexCharSpec(s[1..], c);
      assert s == [s[0]] + s[1..];
    }
  }

  /** No `c` comes before the first. */
  lemma CountBefore(s: string, c: char)
    requires IndexChar(s, c) >= 0
    ensures Count(c, s[..IndexChar(s, c)]) == 0
  {
    var t := s[..IndexChar(s, c)];
    IndexCharSpec(s, c);
    forall k | 0 <= k < |t| ensures t[k] != c {
      assert t[k] == s[k];
    }
  }

  /** The number of occurrences of `c` in `s`. */
  function Count(c: char, s: string): (n: nat)
    ensures n <= |s|
    ensures n == 0 <==> c !in s
  {
    if s == [] then 0 else (if s[0] == c then 1 else 0) + Count(c, s[1..])
  }

  lemma {:induction false} CountAppend(c: char, a: string, b: string)
    ensures Count(c, a + b) == Count(c, a) + Count(c, b)
  {
    if a == [] {
      assert a + b == b;
    } else {
      assert (a + b)[1..] == a[1..] + b;
      CountAppend(c, a[1..], b);
    }
  }

  /** Go's `strings.Split` with a one-character separator: the pieces
      between consecutive separators, always at least one. */
  function Split(s: string, sep: char): (parts: seq<string>)
    ensures |parts| >= 1
  {
    if s == [] then [""]
    else
      var rest := Split(s[1..], sep);
      if s[0] == sep then [""] + rest
      else [[s[0]] + rest[0]] + rest[1..]
  }

  /** No part holds the separator. */
  lemma {:induction false} SplitNoSeparator(s: string, sep: char)
    ensures forall i :: 0 <= i < |Split(s, sep)| ==> sep !in Split(s, sep)[i]
  {
    if s != [] {
      SplitNoSeparator(s[1..], sep);
      var rest := Split(s[1..], sep);
      if s[0] != sep {
        assert sep !in [s[0]] + rest[0];
      }
    }
  }

  /** The first part is the text before the first separator, as Go's
      `strings.Split` cuts it. */
  lemma {:induction false} SplitFirst(s: string, sep: char)
    ensures IndexChar(s, sep) < 0 ==> Split(s, sep) == [s]
    ensures IndexChar(s, sep) >= 0 ==> Split(s, sep)[0] == s[..IndexChar(s, sep)]
  {
    if s != [] && s[0] != sep {
      SplitFirst(s[1..], sep);
      var i := IndexChar(s[1..], sep);
      var rest := Split(s[1..], sep);
      assert Split(s, sep) == [[s[0]] + rest[0]] + rest[1..];
      if i >= 0 {
        assert IndexChar(s, sep) == i + 1;
        assert s[..i + 1] == [s[0]] + s[1..][..i];
      } else {
        assert IndexChar(s, sep) == -1;
        assert rest == [s[1..]];
        assert s == [s[0]] + s[1..];
      }
    }
  }

  /** Joins `parts` with `sep` between consecutive ones. */
  function Join(parts: seq<string>, sep: char): string {
    if parts == [] then []
    else if |parts| == 1 then parts[0]
    else parts[0] + [sep] + Join(parts[1..], sep)
  }

  lemma JoinHead(c: char, parts: seq<string>, sep: char)
    requires parts != []
    ensures Join([[c] + parts[0]] + parts[1..], sep) == [c] + Join(parts, sep)
  {
    var q := [[c] + parts[0]] + parts[1..];
    assert q[1..] == parts[1..];
  }

  /** `Split` loses nothing: joining its parts back gives the input. */
  lemma {:induction false} JoinSplit(s: string, sep: char)
    ensures Join(Split(s, sep), sep) == s
  {
    if s != [] {
      var rest := Split(s[1..], sep);
      JoinSplit(s[1..], sep);
      if s[0] == sep {
        assert ([""] + rest)[1..] == rest;
      } else {
        JoinHead(s[0], rest, sep);
      }
      assert s == [s[0]] + s[1..];
    }
  }

  /** `Split` makes one more part than there are separators. */
  lemma {:induction false} SplitCount(s: string, sep: char)
    ensures |Split(s, sep)| == Count(sep, s) + 1
  {
    if s != [] {
      SplitCount(s[1..], sep);
    }
  }

  /** Go's `strings.ReplaceAll(s, pat, rep)` for a non-empty `pat`:
      occurrences are replaced left to right, without overlap. */
  function ReplaceAll(s: string, pat: string, rep: string): (r: string)
    requires pat != []
    ensures !Contains(s, pat) ==> r == s
    decreases |s|
  {
    if |s| < |pat| then s
    else if s[..|pat|] == pat then
      assert OccursAt(s, pat, 0);
      rep + ReplaceAll(s[|pat|..], pat, rep)
    else
      ContainsTail(s, pat);
      [s[0]] + ReplaceAll(s[1..], pat, rep)
  }

  lemma ContainsTail(s: string, pat: string)
    requires s != []
    ensures Contains(s[1..], pat) ==> Contains(s, pat)
  {
    if Contains(s[1..], pat) {
      var i :| 0 <= i <= |s[1..]| && OccursAt(s[1..], pat, i);
      assert s[1..][i..i + |pat|] == s[i + 1..i + 1 + |pat|];
      assert OccursAt(s, pat, i + 1);
    }
  }

  /** Replacing a pattern by itself changes nothing. */
  lemma {:induction false} ReplaceAllSelf(s: string, pat: string)
    requires pat != []
    ensures ReplaceAll(s, pat, pat) == s
    decreases |s|
  {
    if |s| < |pat| {
    } else if s[..|pat|] == pat {
      ReplaceAllSelf(s[|pat|..], pat);
      assert s == s[..|pat|] + s[|pat|..];
    } else {
      ReplaceAllSelf(s[1..], pat);
      assert s == [s[0]] + s[1..];
    }
  }

  /** The reverse of a sequence. */
  /** Go's `slices.Reverse`, on values. */
  function Reverse<T>(s: seq<T>): (r: seq<T>)
    ensures |r| == |s|
  {
    if s == [] then [] else Reverse(s[1..]) + [s[0]]
  }

  /** Element `i` of the reversal is element `|s| - 1 - i` of the original. */
  lemma {:induction false} ReverseIndex<T>(s: seq<T>)
    ensures forall i :: 0 <= i < |s| ==> Reverse(s)[i] == s[|s| - 1 - i]
  {
    if s != [] {
      ReverseIndex(s[1..]);
    }
  }

  lemma ReverseAppend<T>(a: seq<T>, b: seq<T>)
    ensures Reverse(a + b) == Reverse(b) + Reverse(a)
  {
    ReverseIndex(a + b);
    ReverseIndex(a);
    ReverseIndex(b);
    var r := Reverse(a + b);
    assert r == Reverse(b) + Reverse(a) by {
      forall i | 0 <= i < |r| ensures r[i] == (Reverse(b) + Reverse(a))[i] {
        if i < |b| {
        } else {
        }
      }
    }
  }

  /** Decimal rendering of a natural number, as `%d` prints it. */
  function NatToString(n: nat): (r: string)
    ensures |r| >= 1
    ensures forall i :: 0 <= i < |r| ==> '0' <= r[i] <= '9'
    ensures |r| > 1 ==> r[0] != '0'
  {
    if n < 10 then [Digit(n)] else NatToString(n / 10) + [Digit(n % 10)]
  }

  function Digit(d: nat): (c: char)
    requires d < 10
    ensures '0' <= c <= '9'
  {
    ['0', '1', '2', '3', '4', '5', '6', '7', '8', '9'][d]
  }

  /** `%d` of a possibly negative integer. */
  function IntToString(n: int): (r: string)
    ensures |r| >= 1
  {
    if n < 0 then "-" + NatToString(-n) else NatToString(n)
  }
}
