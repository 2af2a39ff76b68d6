/**
 * `SplitBraces` (parser.go:203-236): every line that holds a brace next to
 * other text is cut so that each brace stands on its own line. The cut
 * offsets are the start and end of every brace match, flattened into one
 * list; the text between consecutive offsets is stored through `lines.Add`.
 */
module Braces {
  import opened Strings
  import opened Parser
  import opened Sequences

  predicate IsBrace(c: char) {
    c == '{' || c == '}'
  }

  predicate BraceFree(s: string) {
    forall i :: 0 <= i < |s| ==> !IsBrace(s[i])
  }

  /** The matches `[p, p + 1]` of `[\{\}]` at or after position `k`, left to right
      (`FindAllStringIndex` on the suffix). */
  function Matches(s: string, k: nat): (ms: seq<(nat, nat)>)
    requires k <= |s|
    ensures ms == [] <==> BraceFree(s[k..])
    ensures forall m <- ms :: k <= m.0 && m.1 == m.0 + 1 <= |s| && IsBrace(s[m.0])
    decreases |s| - k
  {
    if k == |s| then []
    else
      var rest := Matches(s, k + 1);
      assert s[k..][1..] == s[k + 1..];
      if IsBrace(s[k]) then [(k, k + 1)] + rest
      else
        assert forall i :: 1 <= i < |s[k..]| ==> s[k..][i] == s[k + 1..][i - 1];
        rest
  }

  /** The offsets of the matches, flattened in order. */
  function Flatten(ms: seq<(nat, nat)>): seq<nat> {
    if ms == [] then [] else [ms[0].0, ms[0].1] + Flatten(ms[1..])
  }

  lemma {:induction false} FlattenSnoc(ms: seq<(nat, nat)>, m: (nat, nat))
    ensures Flatten(ms + [m]) == Flatten(ms) + [m.0, m.1]
  {
    if ms != [] {
      assert (ms + [m])[1..] == ms[1..] + [m];
      FlattenSnoc(ms[1..], m);
    }
  }

  /** Cut offsets that are ordered and lie between `start` and the end of `s`. */
  predicate CutsFrom(s: string, start: nat, cuts: seq<nat>)
    decreases |cuts|
  {
    cuts == [] || (start <= cuts[0] <= |s| && CutsFrom(s, cuts[0], cuts[1..]))
  }

  /** The pieces of `s[start..]` between consecutive cut offsets. */
  function Pieces(s: string, start: nat, cuts: seq<nat>): seq<string>
    requires start <= |s| && CutsFrom(s, start, cuts)
    decreases |cuts|
  {
    if cuts == [] then [s[start..]]
    else [s[start..cuts[0]]] + Pieces(s, cuts[0], cuts[1..])
  }

  /** What `lines.Add` stores for each of `pieces`, in order. */
  function Stored(pieces: seq<string>, n: int): seq<Line> {
    if pieces == [] then [] else Kept(pieces[0], n) + Stored(pieces[1..], n)
  }

  lemma {:induction false} MatchCuts(s: string, start: nat, k: nat)
    requires start <= k <= |s|
    ensures CutsFrom(s, start, Flatten(Matches(s, k)))
    decreases |s| - k
  {
    if k < |s| {
      MatchCuts(s, if IsBrace(s[k]) then k + 1 else start, k + 1);
    }
  }

  /** What one line becomes. */
  function SplitLineSpec(l: Line): seq<Line> {
    var text := l.text;
    if text == "{" || text == "}" then [l]
    else
      var ms := Matches(text, 0);
      if ms == [] then [l]
      else
        MatchCuts(text, 0, 0);
        Stored(Pieces(text, 0, Flatten(ms)), l.number)
  }

  /** The new lines for the lines `ls`, in order. */
  function SplitFold(ls: seq<Line>): seq<Line> {
    if ls == [] then [] else SplitFold(ls[..|ls| - 1]) + SplitLineSpec(ls[|ls| - 1])
  }

  method SplitBraces(ls: seq<Line>) returns (out: seq<Line>)
    ensures out == SplitFold(ls)
  {
    var newLines := new Lines();
    var i := 0;
    while i < |ls|
      invariant 0 <= i <= |ls|
      invariant newLines.items == SplitFold(ls[..i])
    {
      PrefixStep(ls, i);
      SplitLine(newLines, ls[i]);
      i := i + 1;
    }
    PrefixAll(ls);
    out := newLines.items;
  }

  /** The body of the loop in `SplitBraces` for one line. */
  method SplitLine(newLines: Lines, l: Line)
    modifies newLines
    ensures newLines.items == old(newLines.items) + SplitLineSpec(l)
  {
    var text := l.text;
    if text == "{" || text == "}" {
      newLines.AddLine(l);
      return;
    }
    var matches := Matches(text, 0);
    if |matches| == 0 {
      newLines.AddLine(l);
      return;
    }
    var flat := FlattenMatches(matches);
    MatchCuts(text, 0, 0);
    CutPieces(newLines, text, flat, l.number);
  }

  /** The loop that flattens the matches into one offset list. */
  method FlattenMatches(matches: seq<(nat, nat)>) returns (flat: seq<nat>)
    ensures flat == Flatten(matches)
  {
    flat := [];
    var j := 0;
    while j < |matches|
      invariant 0 <= j <= |matches|
      invariant flat == Flatten(matches[..j])
    {
      FlattenSnoc(matches[..j], matches[j]);
      assert matches[..j + 1] == matches[..j] + [matches[j]];
      flat := flat + [matches[j].0, matches[j].1];
      j := j + 1;
    }
    PrefixAll(matches);
  }

  /** The loop over the flattened offsets: `start` moves to each offset in turn. */
  method CutPieces(newLines: Lines, text: string, flat: seq<nat>, n: int)
    requires CutsFrom(text, 0, flat)
    modifies newLines
    ensures newLines.items == old(newLines.items) + Stored(Pieces(text, 0, flat), n)
  {
    ghost var base := newLines.items;
    var start: nat := 0;
    var i := 0;
    while i < |flat|
      invariant 0 <= i <= |flat| && start <= |text|
      invariant CutsFrom(text, start, flat[i..])
      invariant newLines.items + Stored(Pieces(text, start, flat[i..]), n)
                == base + Stored(Pieces(text, 0, flat), n)
    {
      var pos := flat[i];
      ghost var before := newLines.items;
      assert flat[i..][1..] == flat[i + 1..];
      newLines.Add(text[start..pos], n);
      AppendAssoc(before, Kept(text[start..pos], n), Stored(Pieces(text, pos, flat[i + 1..]), n));
      start := pos;
      i := i + 1;
    }
    newLines.Add(text[start..], n);
  }

  // ---------------------------------------------------------------------
  // properties

  /** A piece the offsets produce: one brace, or text without braces. */
  predicate BracePiece(p: string) {
    p == "{" || p == "}" || BraceFree(p)
  }

  function Concat(ps: seq<string>): string {
    if ps == [] then [] else ps[0] + Concat(ps[1..])
  }

  /** Cutting `s[start..]` at the match offsets from `k` on gives brace
      pieces that put back together give `s[start..]`. */
  lemma {:induction false} MatchPieces(s: string, start: nat, k: nat)
    requires start <= k <= |s| && BraceFree(s[start..k])
    ensures CutsFrom(s, start, Flatten(Matches(s, k)))
    ensures forall p <- Pieces(s, start, Flatten(Matches(s, k))) :: BracePiece(p)
    ensures Concat(Pieces(s, start, Flatten(Matches(s, k)))) == s[start..]
    decreases |s| - k
  {
    MatchCuts(s, start, k);
    if k == |s| {
      assert s[start..] == s[start..k];
      assert Concat([s[start..]]) == s[start..] + [];
    } else if IsBrace(s[k]) {
      assert BraceFree(s[k + 1..k + 1]);
      MatchPieces(s, k + 1, k + 1);
      var rest := Pieces(s, k + 1, Flatten(Matches(s, k + 1)));
      var cuts := Flatten(Matches(s, k));
      assert cuts == [k, k + 1] + Flatten(Matches(s, k + 1));
      assert cuts[1..][1..] == Flatten(Matches(s, k + 1));
      assert Pieces(s, start, cuts) == [s[start..k]] + ([s[k..k + 1]] + rest);
      assert s[k..k + 1] == [s[k]];
      assert s[start..] == s[start..k] + (s[k..k + 1] + s[k + 1..]);
    } else {
      var t := s[start..k + 1];
      forall i | 0 <= i < |t| ensures !IsBrace(t[i]) {
        if i < k - start {
          assert t[i] == s[start..k][i];
        }
      }
      MatchPieces(s, start, k + 1);
    }
  }

  /** What `lines.Add` keeps of a brace piece: one brace or text free of
      braces, well formed, numbered `n`, with the piece's text up to white space. */
  lemma KeptPiece(p: string, n: int)
    requires BracePiece(p)
    ensures forall l <- Kept(p, n) :: BracePiece(l.text) && WellFormed(l) && l.number == n
    ensures NonSpace(Texts(Kept(p, n))) == NonSpace(p)
  {
    var t := TrimSpace(p);
    var k := Kept(p, n);
    TrimSpaceNonSpace(p);
    if t == "" {
      assert k == [];
    } else {
      assert k == [Line(t, n)];
      assert Texts(k) == t + Texts([]);
      AppendNothing(t);
      if p == "{" || p == "}" {
        assert Trimmed(p);
      } else {
        TrimSpaceAbsent(p, '{');
        TrimSpaceAbsent(p, '}');
      }
    }
  }

  lemma {:induction false} StoredPieces(ps: seq<string>, n: int)
    requires forall p <- ps :: BracePiece(p)
    ensures forall l <- Stored(ps, n) :: BracePiece(l.text) && WellFormed(l) && l.number == n
    ensures NonSpace(Concat(ps)) == NonSpace(Texts(Stored(ps, n)))
  {
    if ps != [] {
      StoredPieces(ps[1..], n);
      KeptPiece(ps[0], n);
      TextsAppend(Kept(ps[0], n), Stored(ps[1..], n));
      NonSpaceAppend(ps[0], Concat(ps[1..]));
      NonSpaceAppend(Texts(Kept(ps[0], n)), Texts(Stored(ps[1..], n)));
    }
  }

  /** The texts of `ls` run together. */
  function Texts(ls: seq<Line>): string {
    if ls == [] then [] else ls[0].text + Texts(ls[1..])
  }

  lemma {:induction false} TextsAppend(a: seq<Line>, b: seq<Line>)
    ensures Texts(a + b) == Texts(a) + Texts(b)
  {
    if a != [] {
      assert (a + b)[0] == a[0];
      assert (a + b)[1..] == a[1..] + b;
      TextsAppend(a[1..], b);
      calc {
        Texts(a + b);
        a[0].text + Texts(a[1..] + b);
        a[0].text + (Texts(a[1..]) + Texts(b));
        { AppendAssoc(a[0].text, Texts(a[1..]), Texts(b)); }
        (a[0].text + Texts(a[1..])) + Texts(b);
      }
    } else {
      assert a + b == b;
    }
  }

  /** One well-formed line becomes lines that are each one brace or free of
      braces, well formed, with its number, and that together hold the same
      text up to white space. */
  lemma SplitLineShape(l: Line)
    requires WellFormed(l)
    ensures forall o <- SplitLineSpec(l) :: BracePiece(o.text) && WellFormed(o) && o.number == l.number
    ensures NonSpace(Texts(SplitLineSpec(l))) == NonSpace(l.text)
  {
    var text := l.text;
    if text == "{" || text == "}" || Matches(text, 0) == [] {
      assert SplitLineSpec(l) == [l];
      assert Texts([l]) == text + Texts([]);
      assert text + [] == text;
      if !(text == "{" || text == "}") {
        assert text[0..] == text;
      }
    } else {
      assert BraceFree(text[0..0]);
      MatchPieces(text, 0, 0);
      assert text[0..] == text;
      StoredPieces(Pieces(text, 0, Flatten(Matches(text, 0))), l.number);
    }
  }

  /** After `SplitBraces`, a line that holds a brace is exactly `{` or `}`;
      lines stay well formed, in order and with their numbers, and only white
      space is lost. */
  lemma SplitBracesShape(ls: seq<Line>, last: int)
    requires Numbered(ls, last)
    ensures Numbered(SplitFold(ls), last)
    ensures forall o <- SplitFold(ls) :: BracePiece(o.text)
    ensures NonSpace(Texts(SplitFold(ls))) == NonSpace(Texts(ls))
  {
    SplitFoldNumbered(ls, last);
    SplitFoldText(ls);
  }

  lemma {:induction false} SplitFoldNumbered(ls: seq<Line>, last: int)
    requires Numbered(ls, last)
    ensures Numbered(SplitFold(ls), last)
    ensures forall o <- SplitFold(ls) :: BracePiece(o.text)
  {
    if ls != [] {
      var init := ls[..|ls| - 1];
      var l := ls[|ls| - 1];
      assert Numbered(init, last);
      SplitFoldNumbered(init, last);
      SplitLineShape(l);
      var a := SplitFold(init);
      forall i | 0 <= i < |a| ensures a[i].number <= l.number {
        assert a[i] in a;
        SplitFoldFrom(init, a[i]);
      }
    }
  }

  lemma {:induction false} SplitFoldText(ls: seq<Line>)
    requires forall l <- ls :: WellFormed(l)
    ensures NonSpace(Texts(SplitFold(ls))) == NonSpace(Texts(ls))
  {
    if ls != [] {
      var init := ls[..|ls| - 1];
      var l := ls[|ls| - 1];
      SplitFoldText(init);
      SplitLineShape(l);
      var a := SplitFold(init);
      var b := SplitLineSpec(l);
      TextsAppend(a, b);
      TextsAppend(init, [l]);
      FrontLast(ls);
      NonSpaceAppend(Texts(a), Texts(b));
      NonSpaceAppend(Texts(init), Texts([l]));
      assert Texts([l]) == l.text + Texts([]);
      assert l.text + [] == l.text;
    }
  }

  /** Every new line comes from some old line and carries its number. */
  lemma {:induction false} SplitFoldFrom(ls: seq<Line>, o: Line)
    requires forall l <- ls :: WellFormed(l)
    requires o in SplitFold(ls)
    ensures exists l <- ls :: l.number == o.number
  {
    var init := ls[..|ls| - 1];
    var l := ls[|ls| - 1];
    if o in SplitFold(init) {
      SplitFoldFrom(init, o);
      var w :| w in init && w.number == o.number;
      assert w in ls;
    } else {
      SplitLineShape(l);
    }
  }
}
