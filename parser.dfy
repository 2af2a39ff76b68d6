/**
 * The front end of the compiler (parser.go): comment stripping, brace
 * splitting, line classification and validation. Each scanner is a method
 * with a loop, proved equal to a function that folds one step over the
 * input; the properties of the scanners are lemmas about those functions.
 */
module Parser {
  import opened Strings
  import opened Diagnostics
  import opened VariableRefs
  import opened Sequences

  /** A logical line: text and its 1-based source line number. */
  datatype Line = Line(text: string, number: int)

  datatype ElementType =
    | Variable | AtRule | Declaration | Selector | OpenBrace | CloseBrace | Import | Mixin

  /** A classified line; `level` is only set for braces. */
  datatype Element = Element(text: string, kind: ElementType, line: int, level: int)

  // ---------------------------------------------------------------------
  // lines and elements (parser.go:377-403)

  /** What `lines.Add` stores for `text`: the trimmed text, unless it is empty. */
  function Kept(text: string, n: int): (r: seq<Line>)
    ensures |r| <= 1
    ensures r == [] <==> TrimSpace(text) == ""
    ensures r != [] ==> r[0] == Line(TrimSpace(text), n)
  {
    var t := TrimSpace(text);
    if t == "" then [] else [Line(t, n)]
  }

  /** A stored line: trimmed and non-empty. */
  predicate WellFormed(l: Line) {
    l.text != "" && Trimmed(l.text)
  }

  class Lines {
    var items: seq<Line>

    constructor ()
      ensures items == []
    {
      items := [];
    }

    method Add(text: string, n: int)
      modifies this
      ensures items == old(items) + Kept(text, n)
    {
      var t := TrimSpace(text);
      if t != "" {
        items := items + [Line(t, n)];
      }
    }

    method AddLine(l: Line)
      modifies this
      ensures items == old(items) + [l]
    {
      items := items + [l];
    }
  }

  class Elements {
    var items: seq<Element>

    constructor ()
      ensures items == []
    {
      items := [];
    }

    method Add(text: string, kind: ElementType, n: int)
      modifies this
      ensures items == old(items) + [Element(text, kind, n, 0)]
    {
      AddLevel(text, kind, n, 0);
    }

    method AddLevel(text: string, kind: ElementType, n: int, level: int)
      modifies this
      ensures items == old(items) + [Element(text, kind, n, level)]
    {
      items := items + [Element(text, kind, n, level)];
    }
  }

  // ---------------------------------------------------------------------
  // RemoveComments (parser.go:145-201), over the raw lines of a file

  /** The text of a raw line before its first `//`. */
  function CutLineComment(line: string): (r: string)
    ensures !Contains(r, "//")
    ensures HasPrefix(line, r)
    ensures Contains(line, "//") ==> OccursAt(line, "//", |r|)
    ensures !Contains(line, "//") ==> r == line
  {
    IndexSpec(line, "//");
    var pos := Index(line, "//");
    if pos >= 0 then
      assert forall j :: 0 <= j < pos ==> !OccursAt(line, "//", j);
      PrefixNoOccurrence(line, "//", pos);
      line[..pos]
    else line
  }

  lemma PrefixNoOccurrence(s: string, pat: string, k: nat)
    requires k <= |s| && |pat| >= 1
    requires forall j :: 0 <= j < k ==> !OccursAt(s, pat, j)
    ensures !Contains(s[..k], pat)
  {
    forall j | 0 <= j <= k ensures !OccursAt(s[..k], pat, j) {
      if OccursAt(s[..k], pat, j) {
        assert s[..k][j..j + |pat|] == s[j..j + |pat|];
        assert OccursAt(s, pat, j);
      }
    }
  }

  /** One iteration of the comment-stripping loop on raw line `line` with
      number `n`: the lines it stores and whether a block comment is open after it. */
  function StripStep(line: string, n: int, inside: bool): (seq<Line>, bool) {
    if !inside && line != "" && line[0] == '@' then (Kept(line, n), false)
    else
      var cut := CutLineComment(line);
      StripBlock(cut, Index(cut, "/*"), LastIndex(cut, "*/"), n, inside)
  }

  /** Block-comment handling of a line cut at its `//`, given the first `/*`
      and the last `*/` in it (or -1). */
  function StripBlock(cut: string, posStart: int, posEnd: int, n: int, inside: bool): (seq<Line>, bool)
    requires -1 <= posStart <= |cut|
    requires posEnd == -1 || 0 <= posEnd <= |cut| - 2
  {
    if inside then
      if posEnd >= 0 then (Kept(cut[posEnd + 2..], n), false) else ([], true)
    else if posStart >= 0 && posEnd >= 0 then
      (Kept(cut[..posStart], n) + Kept(cut[posEnd + 2..], n), false)
    else if posStart >= 0 then (Kept(cut[..posStart], n), true)
    else (Kept(cut, n), false)
  }

  /** The stored lines and the comment state after the raw lines `raw`
      (numbered from 1). */
  function StripFold(raw: seq<string>): (seq<Line>, bool) {
    if raw == [] then ([], false)
    else
      var (ls, inside) := StripFold(raw[..|raw| - 1]);
      var (more, inside') := StripStep(raw[|raw| - 1], |raw|, inside);
      (ls + more, inside')
  }

  function StripComments(raw: seq<string>): seq<Line> {
    StripFold(raw).0
  }

  /** Every stored line is trimmed and non-empty and carries a number in
      `1..last`; the numbers never decrease. */
  predicate Numbered(ls: seq<Line>, last: int) {
    (forall i :: 0 <= i < |ls| ==> WellFormed(ls[i]) && 1 <= ls[i].number <= last)
    && (forall i, j :: 0 <= i < j < |ls| ==> ls[i].number <= ls[j].number)
  }

  lemma KeptNumbered(text: string, n: int)
    ensures forall l <- Kept(text, n) :: WellFormed(l) && l.number == n
  {
  }

  /** One raw line yields at most two stored lines, all well formed and
      numbered with that line's number. */
  lemma StripStepNumbered(line: string, n: int, inside: bool)
    ensures |StripStep(line, n, inside).0| <= 2
    ensures forall l <- StripStep(line, n, inside).0 :: WellFormed(l) && l.number == n
  {
    if !inside && line != "" && line[0] == '@' {
      KeptNumbered(line, n);
    } else {
      var cut := CutLineComment(line);
      StripBlockNumbered(cut, Index(cut, "/*"), LastIndex(cut, "*/"), n, inside);
    }
  }

  lemma StripBlockNumbered(cut: string, posStart: int, posEnd: int, n: int, inside: bool)
    requires -1 <= posStart <= |cut|
    requires posEnd == -1 || 0 <= posEnd <= |cut| - 2
    ensures |StripBlock(cut, posStart, posEnd, n, inside).0| <= 2
    ensures forall l <- StripBlock(cut, posStart, posEnd, n, inside).0 :: WellFormed(l) && l.number == n
  {
    if posStart >= 0 {
      KeptNumbered(cut[..posStart], n);
    }
    if posEnd >= 0 {
      KeptNumbered(cut[posEnd + 2..], n);
    }
    KeptNumbered(cut, n);
  }

  lemma {:induction false} StripFoldNumbered(raw: seq<string>)
    ensures Numbered(StripFold(raw).0, |raw|)
  {
    if raw != [] {
      var init := raw[..|raw| - 1];
      StripFoldNumbered(init);
      StripStepNumbered(raw[|raw| - 1], |raw|, StripFold(init).1);
    }
  }

  /** The lines of a file after comment removal: well formed, numbered from
      1 by raw line, in order. */
  lemma StripCommentsNumbered(raw: seq<string>)
    ensures Numbered(StripComments(raw), |raw|)
  {
    StripFoldNumbered(raw);
  }

  lemma KeptNoOccurrence(text: string, pat: string, n: int)
    requires !Contains(text, pat)
    ensures forall l <- Kept(text, n) :: !Contains(l.text, pat)
  {
    var l := LeadingSpace(text);
    TrimSpaceSlice(text);
    SliceNoOccurrence(text, pat, l, l + |TrimSpace(text)|);
  }

  /** Unless a raw line takes the `@` shortcut, nothing from its first `//`
      on survives. */
  lemma StripStepNoLineComment(line: string, n: int, inside: bool)
    requires inside || line == "" || line[0] != '@'
    ensures forall l <- StripStep(line, n, inside).0 :: !Contains(l.text, "//")
  {
    var cut := CutLineComment(line);
    StripBlockNoOccurrence(cut, "//", Index(cut, "/*"), LastIndex(cut, "*/"), n, inside);
  }

  lemma StripBlockNoOccurrence(cut: string, pat: string, posStart: int, posEnd: int, n: int, inside: bool)
    requires -1 <= posStart <= |cut|
    requires posEnd == -1 || 0 <= posEnd <= |cut| - 2
    requires !Contains(cut, pat)
    ensures forall l <- StripBlock(cut, posStart, posEnd, n, inside).0 :: !Contains(l.text, pat)
  {
    if posStart >= 0 {
      SliceNoOccurrence(cut, pat, 0, posStart);
      KeptNoOccurrence(cut[..posStart], pat, n);
    }
    if posEnd >= 0 {
      SliceNoOccurrence(cut, pat, posEnd + 2, |cut|);
      assert cut[posEnd + 2..|cut|] == cut[posEnd + 2..];
      KeptNoOccurrence(cut[posEnd + 2..], pat, n);
    }
    KeptNoOccurrence(cut, pat, n);
  }

  /** A raw line without comment markers is stored trimmed outside a block
      comment and dropped inside one; the comment state does not change. */
  lemma StripStepPlain(line: string, n: int, inside: bool)
    requires !Contains(line, "//") && !Contains(line, "/*") && !Contains(line, "*/")
    ensures StripStep(line, n, inside) == (if inside then [] else Kept(line, n), inside)
  {
    IndexSpec(line, "/*");
    LastIndexSpec(line, "*/");
  }

  /** No opening marker starts inside `before` when the text after it begins with `/`. */
  lemma NoOpenBefore(before: string, rest: string)
    requires !Contains(before, "/*") && rest != [] && rest[0] == '/'
    ensures forall j :: 0 <= j < |before| ==> !OccursAt(before + rest, "/*", j)
  {
    var line := before + rest;
    forall j | 0 <= j < |before| ensures !OccursAt(line, "/*", j) {
      if j + 1 == |before| {
        assert line[j + 1] == '/';
      } else {
        assert !OccursAt(before, "/*", j);
        assert before[j..j + 2] == line[j..j + 2];
      }
    }
  }

  /** No closing marker starts after the last character of `front` when that
      character is `/` and `after` holds none. */
  lemma NoCloseAfter(front: string, after: string)
    requires !Contains(after, "*/") && front != [] && front[|front| - 1] == '/'
    ensures forall j :: |front| - 1 <= j ==> !OccursAt(front + after, "*/", j)
  {
    var line := front + after;
    forall j | |front| - 1 <= j ensures !OccursAt(line, "*/", j) {
      if j == |front| - 1 {
        assert line[j] == '/';
      } else if j + 2 <= |line| {
        assert !OccursAt(after, "*/", j - |front|);
        assert after[j - |front|..j - |front| + 2] == line[j..j + 2];
      }
    }
  }

  /** Where the first opening and the last closing marker of a one-line
      block comment are. */
  lemma OneLineBlockMarkers(before: string, comment: string, after: string)
    requires !Contains(before, "/*") && !Contains(after, "*/")
    ensures Index(before + "/*" + comment + "*/" + after, "/*") == |before|
    ensures LastIndex(before + "/*" + comment + "*/" + after, "*/") == |before| + 2 + |comment|
  {
    var front := before + "/*" + comment + "*/";
    var line := front + after;
    var s := |before|;
    var e := |before| + 2 + |comment|;
    assert line == before + ("/*" + comment + "*/" + after);
    NoOpenBefore(before, "/*" + comment + "*/" + after);
    NoCloseAfter(front, after);
    assert line[s..s + 2] == "/*";
    assert line[e..e + 2] == "*/";
    IndexSpec(line, "/*");
    LastIndexSpec(line, "*/");
    assert OccursAt(line, "/*", s);
    assert OccursAt(line, "*/", e);
  }

  /** A block comment opened and closed on one line is cut out, and the
      text before and after it is stored as two lines. */
  lemma OneLineBlockRemoved(before: string, comment: string, after: string, n: int)
    requires before == [] || before[0] != '@'
    requires !Contains(before + "/*" + comment + "*/" + after, "//")
    requires !Contains(before, "/*") && !Contains(after, "*/")
    ensures StripStep(before + "/*" + comment + "*/" + after, n, false)
         == (Kept(before, n) + Kept(after, n), false)
  {
    var line := before + "/*" + comment + "*/" + after;
    OneLineBlockMarkers(before, comment, after);
    assert line[..|before|] == before;
    assert line[|before| + 2 + |comment| + 2..] == after;
  }

  /** Outside a comment, a closing marker that comes before the first
      opening one makes the two stored pieces overlap: the text `b` between
      them is stored twice, and the comment opened at the end is not
      entered. */
  lemma StrayCloseRepeats(a: string, b: string, c: string, n: int)
    requires a == [] || a[0] != '@'
    requires !Contains(a + "*/" + b + "/*" + c, "//")
    requires !Contains(a + "*/" + b, "/*") && !Contains(b + "/*" + c, "*/")
    ensures StripStep(a + "*/" + b + "/*" + c, n, false)
         == (Kept(a + "*/" + b, n) + Kept(b + "/*" + c, n), false)
  {
    var line := a + "*/" + b + "/*" + c;
    StrayMarkers(a, b, c);
    assert line[0] != '@' by {
      if a == [] { assert line[0] == '*'; } else { assert line[0] == a[0]; }
    }
    assert CutLineComment(line) == line;
    assert StripStep(line, n, false) == StripBlock(line, |a| + 2 + |b|, |a|, n, false);
    StraySlices(a, b, c);
  }

  lemma StraySlices(a: string, b: string, c: string)
    ensures (a + "*/" + b + "/*" + c)[..|a| + 2 + |b|] == a + "*/" + b
    ensures (a + "*/" + b + "/*" + c)[|a| + 2..] == b + "/*" + c
  {
  }

  lemma StrayMarkers(a: string, b: string, c: string)
    requires !Contains(a + "*/" + b, "/*") && !Contains(b + "/*" + c, "*/")
    ensures Index(a + "*/" + b + "/*" + c, "/*") == |a| + 2 + |b|
    ensures LastIndex(a + "*/" + b + "/*" + c, "*/") == |a|
  {
    var front := a + "*/";
    var before := a + "*/" + b;
    var after := b + "/*" + c;
    var line := a + "*/" + b + "/*" + c;
    assert line == before + ("/*" + c);
    assert line == front + after;
    NoOpenBefore(before, "/*" + c);
    NoCloseAfter(front, after);
    assert line[|before|..|before| + 2] == "/*";
    assert line[|a|..|a| + 2] == "*/";
    IndexSpec(line, "/*");
    LastIndexSpec(line, "*/");
    assert OccursAt(line, "/*", |before|);
    assert OccursAt(line, "*/", |a|);
  }

  /** Inside a block comment, a line with no closing marker is dropped whole and the
      comment stays open. */
  lemma InsideCommentDropped(line: string, n: int)
    requires !Contains(line, "*/")
    ensures StripStep(line, n, true) == ([], true)
  {
    var cut := CutLineComment(line);
    SliceNoOccurrence(line, "*/", 0, |cut|);
    assert line[0..|cut|] == cut;
    LastIndexSpec(cut, "*/");
  }

  /** A raw line starting with `@` outside a comment is only trimmed: a
      `//` in it is stored with the rest of the line. */
  lemma AtLineKeepsComment(line: string, n: int)
    requires line != "" && line[0] == '@'
    ensures StripStep(line, n, false) == (Kept(line, n), false)
    ensures Contains(line, "//") ==> Contains(StripStep(line, n, false).0[0].text, "//")
  {
    if Contains(line, "//") {
      var i :| 0 <= i <= |line| && OccursAt(line, "//", i);
      var t := TrimSpace(line);
      assert line[i + 1] == "//"[1];
      assert TrimLeft(line) == line;
      assert t == TrimRight(line);
      TrimRightSlice(line);
      assert !IsSpace(line[i + 1]);
      assert t[i..i + 2] == line[i..i + 2];
      assert OccursAt(t, "//", i);
    }
  }

  /** The loop of `RemoveComments`; the file is given as its raw lines. */
  method RemoveComments(raw: seq<string>) returns (out: seq<Line>)
    ensures out == StripComments(raw)
  {
    var lines := new Lines();
    var lineNumber := 0;
    var insideComment := false;
    while lineNumber < |raw|
      invariant 0 <= lineNumber <= |raw|
      invariant (lines.items, insideComment) == StripFold(raw[..lineNumber])
    {
      PrefixStep(raw, lineNumber);
      var line := raw[lineNumber];
      lineNumber := lineNumber + 1;
      insideComment := StripLine(lines, line, lineNumber, insideComment);
    }
    PrefixAll(raw);
    out := lines.items;
  }

  /** The body of the loop in `RemoveComments` for one raw line. */
  method StripLine(lines: Lines, line: string, lineNumber: int, insideComment: bool)
    returns (inside: bool)
    modifies lines
    ensures lines.items == old(lines.items) + StripStep(line, lineNumber, insideComment).0
    ensures inside == StripStep(line, lineNumber, insideComment).1
  {
    if !insideComment && line != "" && line[0] == '@' {
      lines.Add(line, lineNumber);
      return false;
    }
    var text := CutLineComment(line);
    var posStart := Index(text, "/*");
    var posEnd := LastIndex(text, "*/");
    inside := StoreBlock(lines, text, posStart, posEnd, lineNumber, insideComment);
  }

  /** The block-comment part of the loop body, once the comment markers of
      the cut line are known. */
  method StoreBlock(lines: Lines, text: string, posStart: int, posEnd: int, lineNumber: int,
                    insideComment: bool)
    returns (inside: bool)
    requires -1 <= posStart <= |text|
    requires posEnd == -1 || 0 <= posEnd <= |text| - 2
    modifies lines
    ensures lines.items == old(lines.items) + StripBlock(text, posStart, posEnd, lineNumber, insideComment).0
    ensures inside == StripBlock(text, posStart, posEnd, lineNumber, insideComment).1
  {
    inside := insideComment;
    if inside {
      if posEnd >= 0 {
        inside := false;
        lines.Add(text[posEnd + 2..], lineNumber);
      }
    } else if posStart >= 0 && posEnd >= 0 {
      ghost var start := lines.items;
      var before := text[0..posStart];
      var after := text[posEnd + 2..];
      lines.Add(before, lineNumber);
      lines.Add(after, lineNumber);
      AppendAssoc(start, Kept(before, lineNumber), Kept(after, lineNumber));
    } else if posStart >= 0 {
      inside := true;
      lines.Add(text[0..posStart], lineNumber);
    } else {
      lines.Add(text, lineNumber);
    }
  }
}
