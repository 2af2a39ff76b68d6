/**
 * The text helpers of the tree builder and of selector expansion
 * (tree.go:573-645): collecting the selectors written before a `{`,
 * cutting a declaration line at its `;`s, and combining child selectors
 * with parent selectors. Each is a method with the loop the Go code has,
 * proved equal to a function; the properties are lemmas about the functions.
 */
module TreeText {
  import opened Strings
  import opened Parser
  import opened Sequences

  // ---------------------------------------------------------------------
  // appendSelectors (tree.go:597-604)

  /** The parts of a selector line: split at every `,`, each part trimmed;
      empty parts stay. */
  function SelectorParts(str: string): seq<string> {
    TrimAll(Split(str, ','))
  }

  function TrimAll(parts: seq<string>): (r: seq<string>)
    ensures |r| == |parts|
    ensures forall i :: 0 <= i < |parts| ==> r[i] == TrimSpace(parts[i])
  {
    if parts == [] then [] else TrimAll(parts[..|parts| - 1]) + [TrimSpace(parts[|parts| - 1])]
  }

  method AppendSelectors(selectors: seq<string>, str: string) returns (r: seq<string>)
    ensures r == selectors + SelectorParts(str)
  {
    var parts := Split(str, ',');
    r := selectors;
    var i := 0;
    while i < |parts|
      invariant 0 <= i <= |parts|
      invariant r == selectors + TrimAll(parts[..i])
    {
      PrefixStep(parts, i);
      r := r + [TrimSpace(parts[i])];
      i := i + 1;
    }
    PrefixAll(parts);
  }

  /** One part per comma plus one, each trimmed and free of commas. */
  lemma SelectorPartsShape(str: string)
    ensures |SelectorParts(str)| == Count(',', str) + 1
    ensures forall p <- SelectorParts(str) :: Trimmed(p) && ',' !in p
  {
    SplitCount(str, ',');
    SplitNoSeparator(str, ',');
    var parts := Split(str, ',');
    forall i | 0 <= i < |parts| ensures ',' !in TrimSpace(parts[i]) {
      TrimSpaceAbsent(parts[i], ',');
    }
  }

  // ---------------------------------------------------------------------
  // getSelectors (tree.go:573-595)

  /** The parts collected walking back from element `i` over the elements of
      `kind` just before it, each element's parts appended in turn. */
  function Gathered(es: seq<Element>, i: nat, kind: ElementType): seq<string>
    requires i < |es|
  {
    SelectorParts(es[i].text) + if i > 0 && es[i - 1].kind == kind then Gathered(es, i - 1, kind) else []
  }

  /** What `getSelectors` returns for the element at `index`. */
  function SelectorsBefore(es: seq<Element>, index: nat): seq<string>
    requires index < |es|
  {
    Reverse(Gathered(es, index, es[index].kind))
  }

  method GetSelectors(es: seq<Element>, index0: nat) returns (selectors: seq<string>)
    requires index0 < |es|
    ensures selectors == SelectorsBefore(es, index0)
  {
    var index := index0;
    var elementType := es[index].kind;
    selectors := AppendSelectors([], es[index].text);
    AppendNothing(SelectorParts(es[index].text));
    while index > 0
      invariant 0 <= index <= index0
      invariant es[index].kind == elementType
      invariant Gathered(es, index0, elementType) == selectors + Further(es, index, elementType)
    {
      index := index - 1;
      if es[index].kind != elementType {
        AppendNothing(selectors);
        assert Gathered(es, index0, elementType) == selectors;
        break;
      }
      ghost var parts := SelectorParts(es[index].text);
      assert Further(es, index + 1, elementType) == parts + Further(es, index, elementType);
      AppendAssoc(selectors, parts, Further(es, index, elementType));
      selectors := AppendSelectors(selectors, es[index].text);
    }
    AppendNothing(selectors);
    assert Gathered(es, index0, elementType) == selectors;
    selectors := Reverse(selectors);
  }

  /** What `Gathered` adds after element `i`'s own parts. */
  function Further(es: seq<Element>, i: nat, kind: ElementType): seq<string>
    requires i < |es|
  {
    if i > 0 && es[i - 1].kind == kind then Gathered(es, i - 1, kind) else []
  }

  /** The first element of the run of `kind` elements that ends at `i`. */
  function RunStart(es: seq<Element>, i: nat, kind: ElementType): (j: nat)
    requires i < |es|
    ensures j <= i
  {
    if i > 0 && es[i - 1].kind == kind then RunStart(es, i - 1, kind) else i
  }

  /** The parts of elements `j..i`, the elements in source order and the
      parts of each element reversed. */
  function ForwardRun(es: seq<Element>, j: nat, i: nat): seq<string>
    requires j <= i < |es|
    decreases i
  {
    (if i == j then [] else ForwardRun(es, j, i - 1)) + Reverse(SelectorParts(es[i].text))
  }

  /** `getSelectors` gives the lines of the run before the `{` in source
      order, but the parts within each line reversed. */
  lemma {:induction false} SelectorsOrder(es: seq<Element>, i: nat, kind: ElementType)
    requires i < |es|
    ensures Reverse(Gathered(es, i, kind)) == ForwardRun(es, RunStart(es, i, kind), i)
    decreases i
  {
    var parts := SelectorParts(es[i].text);
    if i > 0 && es[i - 1].kind == kind {
      var j := RunStart(es, i - 1, kind);
      calc {
        Reverse(Gathered(es, i, kind));
        Reverse(parts + Gathered(es, i - 1, kind));
        { ReverseAppend(parts, Gathered(es, i - 1, kind)); }
        Reverse(Gathered(es, i - 1, kind)) + Reverse(parts);
        { SelectorsOrder(es, i - 1, kind); }
        ForwardRun(es, j, i - 1) + Reverse(parts);
        ForwardRun(es, j, i);
      }
    } else {
      AppendNothing(parts);
      AppendNothing(Reverse(parts));
    }
  }

  // ---------------------------------------------------------------------
  // splitDeclarations (tree.go:606-620)

  /** The `;`-terminated pieces of `str`, each trimmed; what follows the last
      `;` is dropped. */
  function DeclarationPieces(str: string): seq<string>
    decreases |str|
  {
    var pos := IndexChar(str, ';');
    if pos < 0 then [] else [TrimSpace(str[..pos + 1])] + DeclarationPieces(str[pos + 1..])
  }

  /** The text after the last `;` (all of it without one). */
  function DroppedTail(str: string): string
    decreases |str|
  {
    var pos := IndexChar(str, ';');
    if pos < 0 then str else DroppedTail(str[pos + 1..])
  }

  method SplitDeclarations(str0: string) returns (results: seq<string>)
    ensures results == DeclarationPieces(str0)
  {
    results := [];
    var str := str0;
    while true
      invariant results + DeclarationPieces(str) == DeclarationPieces(str0)
      decreases |str|
    {
      var pos := IndexChar(str, ';');
      if pos < 0 {
        AppendNothing(results);
        return;
      }
      var s := TrimSpace(str[0..pos + 1]);
      AppendAssoc(results, [s], DeclarationPieces(str[pos + 1..]));
      str := str[pos + 1..];
      results := results + [s];
    }
  }

  /** Each piece is trimmed, ends in `;` and holds no other `;`; there is one
      piece per `;`, and the pieces with the dropped tail keep all the text
      up to white space. */
  lemma DeclarationPiecesShape(str: string)
    ensures |DeclarationPieces(str)| == Count(';', str)
    ensures forall p <- DeclarationPieces(str) :: GoodPiece(p)
    ensures ';' !in DroppedTail(str)
    ensures NonSpace(str) == NonSpace(ConcatPieces(DeclarationPieces(str))) + NonSpace(DroppedTail(str))
  {
    DeclarationCount(str);
    DeclarationEach(str);
    DroppedTailShape(str);
    DeclarationText(str);
  }

  /** The first cut: the text up to and including the first `;`, which holds
      no other `;`, and the rest. */
  lemma FirstCut(str: string)
    requires IndexChar(str, ';') >= 0
    ensures var pos := IndexChar(str, ';');
      && str == str[..pos + 1] + str[pos + 1..]
      && Count(';', str) == 1 + Count(';', str[pos + 1..])
      && str[..pos + 1][pos] == ';' && Count(';', str[..pos + 1]) == 1
  {
    var pos := IndexChar(str, ';');
    var head := str[..pos + 1];
    var rest := str[pos + 1..];
    CutAfter(str, pos);
    CountAppend(';', head, rest);
    CountAppend(';', str[..pos], [';']);
    CountBefore(str, ';');
  }

  lemma {:induction false} DeclarationCount(str: string)
    ensures |DeclarationPieces(str)| == Count(';', str)
    decreases |str|
  {
    var pos := IndexChar(str, ';');
    IndexCharSpec(str, ';');
    if pos >= 0 {
      FirstCut(str);
      DeclarationCount(str[pos + 1..]);
    }
  }

  lemma {:induction false} DeclarationEach(str: string)
    ensures forall p <- DeclarationPieces(str) :: GoodPiece(p)
    decreases |str|
  {
    var pos := IndexChar(str, ';');
    if pos >= 0 {
      var rest := str[pos + 1..];
      FirstCut(str);
      PieceShape(str[..pos + 1]);
      DeclarationEach(rest);
      assert DeclarationPieces(str) == [TrimSpace(str[..pos + 1])] + DeclarationPieces(rest);
    }
  }

  /** A declaration piece: trimmed, ending in its one `;`. */
  predicate GoodPiece(p: string) {
    Trimmed(p) && p != "" && p[|p| - 1] == ';' && Count(';', p) == 1
  }

  lemma {:induction false} DroppedTailShape(str: string)
    ensures ';' !in DroppedTail(str)
    decreases |str|
  {
    var pos := IndexChar(str, ';');
    IndexCharSpec(str, ';');
    if pos >= 0 {
      DroppedTailShape(str[pos + 1..]);
    }
  }

  lemma {:induction false} DeclarationText(str: string)
    ensures NonSpace(str) == NonSpace(ConcatPieces(DeclarationPieces(str))) + NonSpace(DroppedTail(str))
    decreases |str|
  {
    var pos := IndexChar(str, ';');
    if pos >= 0 {
      var head := str[..pos + 1];
      var rest := str[pos + 1..];
      FirstCut(str);
      DeclarationText(rest);
      NonSpaceAppend(head, rest);
      TrimSpaceNonSpace(head);
      var p := TrimSpace(head);
      var more := ConcatPieces(DeclarationPieces(rest));
      NonSpaceAppend(p, more);
      assert ConcatPieces([p] + DeclarationPieces(rest)) == p + more;
      AppendAssoc(NonSpace(p), NonSpace(more), NonSpace(DroppedTail(rest)));
    } else {
      assert NonSpace([]) == [];
      AppendNothing(NonSpace(str));
    }
  }

  /** Trimming a piece that ends in its only `;` keeps that `;` at the end. */
  lemma PieceShape(head: string)
    requires head != [] && head[|head| - 1] == ';' && Count(';', head) == 1
    ensures GoodPiece(TrimSpace(head))
  {
    var p := TrimSpace(head);
    var l := LeadingSpace(head);
    assert TrimRight(TrimLeft(head)) == p;
    var left := TrimLeft(head);
    TrimLeftSlice(head);
    TrimRightSlice(left);
    assert left == head[l..];
    assert left[|left| - 1] == ';';
    assert p == left[..|p|];
    assert !IsSpace(left[|left| - 1]);
    assert p == left;
    assert head == head[..l] + left;
    CountAppend(';', head[..l], left);
  }

  function ConcatPieces(ps: seq<string>): string {
    if ps == [] then [] else ps[0] + ConcatPieces(ps[1..])
  }

  // ---------------------------------------------------------------------
  // MergeSelectors (tree.go:622-645)

  /** A child selector the merge keeps: a `()` at position 0 does not count. */
  predicate MergeKeeps(child: string) {
    !(Index(child, "()") > 0)
  }

  /** One child selector combined with one parent selector. */
  function Combine(parent: string, child: string): string {
    if IndexChar(child, '&') >= 0 then ReplaceAll(child, "&", parent)
    else if parent != "" then parent + " " + child
    else child
  }

  /** The child selectors the merge keeps, in order. */
  function KeptChildren(children: seq<string>): (r: seq<string>)
    ensures |r| <= |children|
  {
    if children == [] then []
    else
      var c := children[|children| - 1];
      KeptChildren(children[..|children| - 1]) + if MergeKeeps(c) then [c] else []
  }

  /** The combinations of one child with each parent, in parent order. */
  function Row(parents: seq<string>, child: string): (r: seq<string>)
    ensures |r| == |parents|
  {
    if parents == [] then []
    else Row(parents[..|parents| - 1], child) + [Combine(parents[|parents| - 1], child)]
  }

  /** Entry `j` of a row combines the child with parent `j`. */
  lemma {:induction false} RowAt(parents: seq<string>, child: string, j: nat)
    requires j < |parents|
    ensures Row(parents, child)[j] == Combine(parents[j], child)
  {
    if j < |parents| - 1 {
      RowAt(parents[..|parents| - 1], child, j);
    }
  }

  /** The merged list: child-major, parent-minor, skipped children left out. */
  function Merge(parents: seq<string>, children: seq<string>): seq<string> {
    if children == [] then []
    else
      var c := children[|children| - 1];
      Merge(parents, children[..|children| - 1]) + if MergeKeeps(c) then Row(parents, c) else []
  }

  method MergeSelectors(parentSelectors: seq<string>, childSelectors: seq<string>)
    returns (selectors: seq<string>)
    ensures selectors == Merge(parentSelectors, childSelectors)
  {
    selectors := [];
    var i := 0;
    while i < |childSelectors|
      invariant 0 <= i <= |childSelectors|
      invariant selectors == Merge(parentSelectors, childSelectors[..i])
    {
      var childSelector := childSelectors[i];
      PrefixStep(childSelectors, i);
      if Index(childSelector, "()") > 0 {
        i := i + 1;
        continue;
      }
      selectors := AppendRow(selectors, parentSelectors, childSelector);
      i := i + 1;
    }
    PrefixAll(childSelectors);
  }

  /** The inner loop of `MergeSelectors`: one kept child combined with every
      parent in turn. */
  method AppendRow(selectors0: seq<string>, parentSelectors: seq<string>, childSelector: string)
    returns (selectors: seq<string>)
    ensures selectors == selectors0 + Row(parentSelectors, childSelector)
  {
    selectors := selectors0;
    var j := 0;
    while j < |parentSelectors|
      invariant 0 <= j <= |parentSelectors|
      invariant selectors == selectors0 + Row(parentSelectors[..j], childSelector)
    {
      var parentSelector := parentSelectors[j];
      var selector: string;
      if IndexChar(childSelector, '&') >= 0 {
        selector := ReplaceAll(childSelector, "&", parentSelector);
      } else if parentSelector != "" {
        selector := parentSelector + " " + childSelector;
      } else {
        selector := childSelector;
      }
      PrefixStep(parentSelectors, j);
      AppendAssoc(selectors0, Row(parentSelectors[..j], childSelector), [selector]);
      selectors := selectors + [selector];
      j := j + 1;
    }
    PrefixAll(parentSelectors);
  }

  /** The merged list has one entry per kept child and parent, child-major:
      entry `i * |parents| + j` combines kept child `i` with parent `j`. */
  lemma MergeShape(parents: seq<string>, children: seq<string>)
    ensures |Merge(parents, children)| == |KeptChildren(children)| * |parents|
    ensures forall i, j :: 0 <= i < |KeptChildren(children)| && 0 <= j < |parents| ==>
      MergeAt(parents, children, i, j)
  {
    MergeLength(parents, children);
    forall i, j | 0 <= i < |KeptChildren(children)| && 0 <= j < |parents|
      ensures MergeAt(parents, children, i, j)
    {
      MergeIndex(parents, children, i, j);
    }
  }

  lemma {:induction false} MergeLength(parents: seq<string>, children: seq<string>)
    ensures |Merge(parents, children)| == |KeptChildren(children)| * |parents|
  {
    if children != [] {
      var init := children[..|children| - 1];
      var c := children[|children| - 1];
      MergeLength(parents, init);
      var k := |KeptChildren(init)|;
      var p := |parents|;
      if MergeKeeps(c) {
        MulSucc(k, p);
      }
    }
  }

  lemma {:induction false} MergeIndex(parents: seq<string>, children: seq<string>, i: nat, j: nat)
    requires i < |KeptChildren(children)| && j < |parents|
    ensures MergeAt(parents, children, i, j)
  {
    var init := children[..|children| - 1];
    var c := children[|children| - 1];
    var m := Merge(parents, init);
    var k := KeptChildren(init);
    var p := |parents|;
    var at := i * p + j;
    if i < |k| {
      MergeIndex(parents, init, i, j);
      assert at < |m| && m[at] == Combine(parents[j], k[i]);
    } else {
      MergeLength(parents, init);
      assert i == |k| && MergeKeeps(c);
      assert |m| == i * p;
      assert Merge(parents, children) == m + Row(parents, c);
      assert KeptChildren(children)[i] == c;
      RowAt(parents, c, j);
    }
  }

  /** Entry `i * |parents| + j` of the merge exists and combines kept child
      `i` with parent `j`. */
  predicate MergeAt(parents: seq<string>, children: seq<string>, i: nat, j: nat)
    requires i < |KeptChildren(children)| && j < |parents|
  {
    var m := Merge(parents, children);
    i * |parents| + j < |m| && m[i * |parents| + j] == Combine(parents[j], KeptChildren(children)[i])
  }

  lemma MulSucc(k: nat, p: nat)
    ensures (k + 1) * p == k * p + p
  {
  }
}
