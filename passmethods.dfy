/**
 * The Go methods of the three passes over the finished tree (tree.go:34-40,
 * 84-86, 110-132, 143-146, 174-192, 234-270, 285-287, 322-326, 332-336,
 * 351-356, 382-429, 443-445), loop by loop. Each method works on the
 * node as a value and returns the node as the Go method leaves it (or the
 * lines it writes); each is proved to agree with the pass it carries out
 * in `Passes` and `Output`, whose properties are proved there.
 */
module PassMethods {
  import opened Nodes
  import opened TreeText
  import opened Passes
  import opened Output
  import Sequences

  // ---------------------------------------------------------------------
  // ExpandSelectors

  /** `ExpandSelectors` of one node. */
  method ExpandSelectors(n: Node, parentSelectors: seq<string>) returns (r: Node)
    requires NilFree(n)
    ensures r == Expand(n, parentSelectors)
    decreases n, 1
  {
    match n {
      case SelectorNode(sel, _, cs, line, hidden) =>
        var selectors := MergeSelectors(parentSelectors, sel);
        var children := ExpandChildren(cs, selectors);
        return SelectorNode(sel, selectors, children, line, hidden);
      case AtRuleNode(text, _, cs, line, hidden) =>
        var children := ExpandChildren(cs, parentSelectors);
        return AtRuleNode(text, parentSelectors, children, line, hidden);
      case _ =>
        return n;
    }
  }

  /** The loop over the children that hands each the same list. */
  method ExpandChildren(cs: seq<Node>, selectors: seq<string>) returns (rs: seq<Node>)
    requires AllNilFree(cs)
    ensures rs == ExpandAll(cs, selectors)
    decreases cs, 0
  {
    rs := [];
    for i := 0 to |cs|
      invariant AllNilFree(cs[..i])
      invariant rs == ExpandAll(cs[..i], selectors)
    {
      var c := ExpandSelectors(cs[i], selectors);
      assert cs[..i + 1] == cs[..i] + [cs[i]];
      ExpandAllSnoc(cs[..i], cs[i], selectors);
      rs := rs + [c];
    }
    assert cs[..|cs|] == cs;
  }

  /** The package function `ExpandSelectors(tree)`. */
  method ExpandTreeSelectors(tree: Node) returns (r: Node)
    requires tree.RootNode? && NilFree(tree)
    ensures r == ExpandTree(tree)
  {
    var children := ExpandChildren(tree.children, [""]);
    return RootNode(children, tree.hidden);
  }

  lemma {:induction false} ExpandAllSnoc(cs: seq<Node>, c: Node, parents: seq<string>)
    requires AllNilFree(cs) && NilFree(c)
    ensures ExpandAll(cs + [c], parents) == ExpandAll(cs, parents) + [Expand(c, parents)]
    decreases cs
  {
    if cs == [] {
      assert [c][1..] == [];
    } else {
      SnocTail(cs, c);
      ExpandAllSnoc(cs[1..], c, parents);
    }
  }

  // ---------------------------------------------------------------------
  // HideIfEmpty

  /** `HideIfEmpty` of one node: the node with its flags set, and what the
      Go method answers. */
  method HideIfEmpty(n: Node) returns (r: Node, isEmpty: bool)
    requires NilFree(n)
    ensures r == Hide(n) && isEmpty == IsHidden(r)
    decreases n, 1
  {
    match n {
      case RootNode(cs, _) =>
        var children, empty := HideChildren(cs);
        return RootNode(children, empty), empty;
      case VariableNode(text, line, _) =>
        return VariableNode(text, line, true), true;
      case SelectorNode(sel, merged, cs, line, _) =>
        var children, empty := HideChildren(cs);
        return SelectorNode(sel, merged, children, line, empty), empty;
      case AtRuleNode(text, ps, cs, line, _) =>
        var children, empty := HideChildren(cs);
        return AtRuleNode(text, ps, children, line, empty), empty;
      case _ =>
        return n, false;
    }
  }

  /** The loop of a block: every child is visited, and the block is empty
      when no child answered false. */
  method HideChildren(cs: seq<Node>) returns (rs: seq<Node>, isEmpty: bool)
    requires AllNilFree(cs)
    ensures rs == HideAll(cs) && isEmpty == AllHidden(rs)
    decreases cs, 0
  {
    rs, isEmpty := [], true;
    for i := 0 to |cs|
      invariant AllNilFree(cs[..i])
      invariant rs == HideAll(cs[..i])
      invariant isEmpty == AllHidden(rs)
    {
      var c, empty := HideIfEmpty(cs[i]);
      if !empty {
        isEmpty := false;
      }
      assert cs[..i + 1] == cs[..i] + [cs[i]];
      HideAllSnoc(cs[..i], cs[i]);
      assert AllHidden(rs + [c]) == (AllHidden(rs) && IsHidden(c)) by {
        assert (rs + [c])[|rs|] == c;
      }
      rs := rs + [c];
    }
    assert cs[..|cs|] == cs;
  }

  lemma {:induction false} HideAllSnoc(cs: seq<Node>, c: Node)
    requires AllNilFree(cs) && NilFree(c)
    ensures HideAll(cs + [c]) == HideAll(cs) + [Hide(c)]
    decreases cs
  {
    if cs == [] {
      assert [c][1..] == [];
    } else {
      SnocTail(cs, c);
      HideAllSnoc(cs[1..], c);
    }
  }

  // ---------------------------------------------------------------------
  // Render

  /** `Render` of one node: the lines it writes. */
  method RenderNode(n: Node) returns (lines: seq<string>)
    requires NilFree(n)
    ensures lines == Render(n)
    decreases n, 1
  {
    match n {
      case RootNode(cs, _) =>
        lines := RenderChildren(cs);
      case SelectorNode(_, merged, cs, _, hidden) =>
        if hidden {
          return [];
        }
        var rule := RenderRule(merged, cs);
        var others := RenderOthersOf(cs);
        lines := rule + others;
      case AtRuleNode(text, ps, cs, _, _) =>
        var rule := RenderRule(ps, cs);
        var others := RenderOthersOf(cs);
        lines := [text + " {"] + rule + others + ["}"];
      case DeclarationNode(text, _) =>
        lines := ["  " + text];
      case ImportNode(text, _) =>
        lines := [text];
      case _ =>
        lines := [];
    }
  }

  /** The root's loop: every child in order. */
  method RenderChildren(cs: seq<Node>) returns (lines: seq<string>)
    requires AllNilFree(cs)
    ensures lines == RenderAll(cs)
    decreases cs, 0
  {
    lines := [];
    for i := 0 to |cs|
      invariant AllNilFree(cs[..i])
      invariant lines == RenderAll(cs[..i])
    {
      var more := RenderNode(cs[i]);
      assert cs[..i + 1] == cs[..i] + [cs[i]];
      RenderAllSnoc(cs[..i], cs[i]);
      lines := lines + more;
    }
    assert cs[..|cs|] == cs;
  }

  /** The last loop of a rule: the children other than declarations. */
  method RenderOthersOf(cs: seq<Node>) returns (lines: seq<string>)
    requires AllNilFree(cs)
    ensures lines == RenderOthers(cs)
    decreases cs, 0
  {
    lines := [];
    for i := 0 to |cs|
      invariant AllNilFree(cs[..i])
      invariant lines == RenderOthers(cs[..i])
    {
      assert cs[..i + 1] == cs[..i] + [cs[i]];
      RenderOthersSnoc(cs[..i], cs[i]);
      if !cs[i].DeclarationNode? {
        var more := RenderNode(cs[i]);
        lines := lines + more;
      }
    }
    assert cs[..|cs|] == cs;
  }

  /** The declaration children, in order: what the first loop of a rule
      collects. */
  function Declarations(cs: seq<Node>): seq<Node>
    decreases cs
  {
    if cs == [] then [] else (if cs[0].DeclarationNode? then [cs[0]] else []) + Declarations(cs[1..])
  }

  /** The rule of a selector or an at-rule: the declaration children are
      collected; when there are any, the selector lines, one line per
      declaration and the closing line follow. */
  method RenderRule(selectors: seq<string>, cs: seq<Node>) returns (lines: seq<string>)
    ensures lines == Rule(selectors, cs)
  {
    var declarationNodes := CollectDeclarations(cs);
    DeclarationsLines(cs);
    lines := [];
    if |declarationNodes| > 0 {
      lines := RenderHead(selectors);
      var body := RenderDeclarations(declarationNodes);
      lines := lines + body + ["}"];
    }
  }

  /** The declaration children, in order. */
  method CollectDeclarations(cs: seq<Node>) returns (declarationNodes: seq<Node>)
    ensures declarationNodes == Declarations(cs)
  {
    declarationNodes := [];
    for i := 0 to |cs|
      invariant declarationNodes == Declarations(cs[..i])
    {
      assert cs[..i + 1] == cs[..i] + [cs[i]];
      DeclarationsSnoc(cs[..i], cs[i]);
      if cs[i].DeclarationNode? {
        declarationNodes := declarationNodes + [cs[i]];
      }
    }
    assert cs[..|cs|] == cs;
  }

  /** The opening lines of a rule, one selector per line. */
  method RenderHead(selectors: seq<string>) returns (lines: seq<string>)
    ensures lines == Head(selectors)
  {
    lines := [];
    var last := |selectors| - 1;
    for i := 0 to |selectors|
      invariant |lines| == i
      invariant forall k :: 0 <= k < i ==> lines[k] == if k == last then selectors[k] + " {" else selectors[k] + ","
    {
      if i == last {
        lines := lines + [selectors[i] + " {"];
      } else {
        lines := lines + [selectors[i] + ","];
      }
    }
    HeadShape(selectors);
  }

  /** The lines of the declarations among `ds`, in order. */
  method RenderDeclarations(ds: seq<Node>) returns (body: seq<string>)
    ensures body == DeclarationLines(ds)
  {
    body := [];
    for j := 0 to |ds|
      invariant body == DeclarationLines(ds[..j])
    {
      assert ds[..j + 1] == ds[..j] + [ds[j]];
      DeclarationLinesSnoc(ds[..j], ds[j]);
      if ds[j].DeclarationNode? {
        body := body + ["  " + ds[j].text];
      }
    }
    assert ds[..|ds|] == ds;
  }


  lemma {:induction false} RenderAllSnoc(cs: seq<Node>, c: Node)
    requires AllNilFree(cs) && NilFree(c)
    ensures RenderAll(cs + [c]) == RenderAll(cs) + Render(c)
    decreases cs
  {
    if cs == [] {
      assert [c][1..] == [];
    } else {
      SnocTail(cs, c);
      RenderAllSnoc(cs[1..], c);
    }
  }

  lemma {:induction false} RenderOthersSnoc(cs: seq<Node>, c: Node)
    requires AllNilFree(cs) && NilFree(c)
    ensures RenderOthers(cs + [c]) == RenderOthers(cs) + if c.DeclarationNode? then [] else Render(c)
    decreases cs
  {
    if cs == [] {
      assert [c][1..] == [];
    } else {
      SnocTail(cs, c);
      RenderOthersSnoc(cs[1..], c);
    }
  }

  lemma {:induction false} DeclarationsSnoc(cs: seq<Node>, c: Node)
    ensures Declarations(cs + [c]) == Declarations(cs) + if c.DeclarationNode? then [c] else []
    decreases cs
  {
    if cs == [] {
      assert [c][1..] == [];
    } else {
      SnocTail(cs, c);
      DeclarationsSnoc(cs[1..], c);
      var h := if cs[0].DeclarationNode? then [cs[0]] else [];
      Sequences.AppendAssoc(h, Declarations(cs[1..]), if c.DeclarationNode? then [c] else []);
    }
  }

  lemma {:induction false} DeclarationLinesSnoc(cs: seq<Node>, c: Node)
    ensures DeclarationLines(cs + [c]) == DeclarationLines(cs) + if c.DeclarationNode? then ["  " + c.text] else []
    decreases cs
  {
    if cs == [] {
      assert [c][1..] == [];
    } else {
      SnocTail(cs, c);
      DeclarationLinesSnoc(cs[1..], c);
      var h := if cs[0].DeclarationNode? then ["  " + cs[0].text] else [];
      Sequences.AppendAssoc(h, DeclarationLines(cs[1..]), if c.DeclarationNode? then ["  " + c.text] else []);
    }
  }

  /** The collected declarations give the same lines, one each. */
  lemma {:induction false} DeclarationsLines(cs: seq<Node>)
    ensures DeclarationLines(Declarations(cs)) == DeclarationLines(cs)
    ensures |DeclarationLines(cs)| == |Declarations(cs)|
    decreases cs
  {
    if cs != [] {
      DeclarationsLines(cs[1..]);
      if cs[0].DeclarationNode? {
        assert Declarations(cs) == [cs[0]] + Declarations(cs[1..]);
        var ds := [cs[0]] + Declarations(cs[1..]);
        assert ds[0] == cs[0] && ds[1..] == Declarations(cs[1..]);
        assert DeclarationLines(ds) == ["  " + cs[0].text] + DeclarationLines(Declarations(cs[1..]));
      } else {
        assert Declarations(cs) == [] + Declarations(cs[1..]) == Declarations(cs[1..]);
        assert DeclarationLines(cs) == [] + DeclarationLines(cs[1..]) == DeclarationLines(cs[1..]);
      }
    }
  }

  /** Appending keeps the head and appends to the tail. */
  lemma SnocTail(cs: seq<Node>, c: Node)
    requires cs != []
    ensures (cs + [c])[0] == cs[0] && (cs + [c])[1..] == cs[1..] + [c]
  {
  }
}
