/**
 * The three passes over the finished tree (tree.go:34-40, 106-146,
 * 174-192, 234-287, 322-336, 351-445): selector expansion, pruning of
 * subtrees without output, and rendering. Each Go method walks the
 * children and sets fields of the nodes in place; here each pass is a
 * function from a tree to the updated tree (or to the output lines).
 * Calling any of them on a nil child crashes in Go; every pass therefore
 * asks for a tree without nils.
 */
module Passes {
  import opened Strings
  import opened Nodes
  import opened TreeText

  // ---------------------------------------------------------------------
  // ExpandSelectors (tree.go:34-36, 110-114, 174-180, 322-326, 351-356)

  /** A selector stores its own selectors merged with the incoming ones and
      hands the merged list to its children; an at-rule records the
      incoming list and hands it on unchanged; the other kinds do nothing. */
  function Expand(n: Node, parents: seq<string>): Node
    requires NilFree(n)
    decreases n
  {
    match n
    case SelectorNode(sel, _, cs, line, hidden) =>
      var merged := Merge(parents, sel);
      SelectorNode(sel, merged, ExpandAll(cs, merged), line, hidden)
    case AtRuleNode(text, _, cs, line, hidden) => AtRuleNode(text, parents, ExpandAll(cs, parents), line, hidden)
    case _ => n
  }

  function ExpandAll(cs: seq<Node>, parents: seq<string>): (r: seq<Node>)
    requires AllNilFree(cs)
    ensures |r| == |cs|
    decreases cs
  {
    if cs == [] then [] else [Expand(cs[0], parents)] + ExpandAll(cs[1..], parents)
  }

  /** `ExpandSelectors(tree)`: the root's children start from one empty
      parent selector. */
  function ExpandTree(root: Node): (r: Node)
    requires root.RootNode? && NilFree(root)
    ensures r.RootNode? && r.hidden == root.hidden
  {
    RootNode(ExpandAll(root.children, [""]), root.hidden)
  }

  /** The tree with every merged list and every recorded parent list
      cleared: what expansion does not touch. */
  function Unexpanded(n: Node): Node
    decreases n
  {
    match n
    case RootNode(cs, hidden) => RootNode(UnexpandedAll(cs), hidden)
    case SelectorNode(sel, _, cs, line, hidden) => SelectorNode(sel, [], UnexpandedAll(cs), line, hidden)
    case AtRuleNode(text, _, cs, line, hidden) => AtRuleNode(text, [], UnexpandedAll(cs), line, hidden)
    case _ => n
  }

  function UnexpandedAll(cs: seq<Node>): seq<Node>
    decreases cs
  {
    if cs == [] then [] else [Unexpanded(cs[0])] + UnexpandedAll(cs[1..])
  }

  /** Every selector below holds its selectors merged with the list its
      parent hands down, and every at-rule holds that list itself. */
  predicate Expanded(n: Node, parents: seq<string>)
    decreases n
  {
    match n
    case SelectorNode(sel, merged, cs, _, _) => merged == Merge(parents, sel) && AllExpanded(cs, merged)
    case AtRuleNode(_, ps, cs, _, _) => ps == parents && AllExpanded(cs, parents)
    case _ => true
  }

  predicate AllExpanded(cs: seq<Node>, parents: seq<string>)
    decreases cs
  {
    cs == [] || (Expanded(cs[0], parents) && AllExpanded(cs[1..], parents))
  }

  /** Expansion sets exactly the merged and the recorded lists: the result
      is expanded, and it differs from the input in nothing else. */
  lemma {:induction false} ExpandSpec(n: Node, parents: seq<string>)
    requires NilFree(n)
    ensures Expanded(Expand(n, parents), parents)
    ensures Unexpanded(Expand(n, parents)) == Unexpanded(n)
    ensures NilFree(Expand(n, parents))
    decreases n
  {
    match n
    case SelectorNode(sel, _, cs, _, _) => ExpandAllSpec(cs, Merge(parents, sel));
    case AtRuleNode(_, _, cs, _, _) => ExpandAllSpec(cs, parents);
    case _ =>
  }

  lemma {:induction false} ExpandAllSpec(cs: seq<Node>, parents: seq<string>)
    requires AllNilFree(cs)
    ensures AllExpanded(ExpandAll(cs, parents), parents)
    ensures UnexpandedAll(ExpandAll(cs, parents)) == UnexpandedAll(cs)
    ensures AllNilFree(ExpandAll(cs, parents))
    decreases cs
  {
    if cs != [] {
      ExpandSpec(cs[0], parents);
      ExpandAllSpec(cs[1..], parents);
      var r := ExpandAll(cs, parents);
      assert r[0] == Expand(cs[0], parents) && r[1..] == ExpandAll(cs[1..], parents);
      forall c | c in r ensures NilFree(c) {
        var k :| 0 <= k < |r| && r[k] == c;
        if k > 0 {
          assert c in r[1..];
        }
      }
    }
  }

  /** The whole tree: every top-level node is expanded from the single
      empty parent selector, and nothing else changes. */
  lemma ExpandTreeSpec(root: Node)
    requires root.RootNode? && NilFree(root)
    ensures AllExpanded(ExpandTree(root).children, [""])
    ensures Unexpanded(ExpandTree(root)) == Unexpanded(root)
    ensures NilFree(ExpandTree(root))
  {
    ExpandAllSpec(root.children, [""]);
  }

  /** And it is the only way to be expanded: a tree that agrees with `n` up
      to the selector lists and is expanded is what expansion gives. */
  lemma {:induction false} ExpandUnique(n: Node, m: Node, parents: seq<string>)
    requires NilFree(n) && NoRoot(n) && Expanded(m, parents) && Unexpanded(m) == Unexpanded(n)
    ensures m == Expand(n, parents)
    decreases n
  {
    match n
    case SelectorNode(sel, _, cs, _, _) =>
      UnexpandedKind(m, n);
      ExpandAllUnique(cs, m.children, Merge(parents, sel));
    case AtRuleNode(_, _, cs, _, _) =>
      UnexpandedKind(m, n);
      ExpandAllUnique(cs, m.children, parents);
    case _ =>
      UnexpandedKind(m, n);
  }

  lemma {:induction false} ExpandAllUnique(cs: seq<Node>, ms: seq<Node>, parents: seq<string>)
    requires AllNilFree(cs) && (forall c <- cs :: NoRoot(c)) && AllExpanded(ms, parents) && UnexpandedAll(ms) == UnexpandedAll(cs)
    ensures ms == ExpandAll(cs, parents)
    decreases cs
  {
    if cs == [] {
      UnexpandedAllLength(ms, cs);
    } else {
      UnexpandedAllLength(ms, cs);
      assert UnexpandedAll(ms)[0] == Unexpanded(ms[0]);
      assert UnexpandedAll(ms)[1..] == UnexpandedAll(ms[1..]);
      ExpandUnique(cs[0], ms[0], parents);
      assert AllNilFree(cs[1..]) && forall c <- cs[1..] :: NoRoot(c) by {
        forall c | c in cs[1..] ensures NilFree(c) && NoRoot(c) {
          assert c in cs;
        }
      }
      ExpandAllUnique(cs[1..], ms[1..], parents);
      assert ms == [ms[0]] + ms[1..];
    }
  }

  lemma {:induction false} UnexpandedAllLength(ms: seq<Node>, cs: seq<Node>)
    requires UnexpandedAll(ms) == UnexpandedAll(cs)
    ensures |ms| == |cs|
    decreases cs
  {
    if cs != [] && ms != [] {
      assert UnexpandedAll(ms)[1..] == UnexpandedAll(ms[1..]);
      assert UnexpandedAll(cs)[1..] == UnexpandedAll(cs[1..]);
      UnexpandedAllLength(ms[1..], cs[1..]);
    }
  }

  /** No root below the top: the builder makes roots only at the top. */
  predicate NoRoot(n: Node)
    decreases n
  {
    !n.RootNode? && (IsBlock(n) ==> forall c <- n.children :: NoRoot(c))
  }

  /** Clearing the lists keeps the kind, the selectors, the text, the line,
      the flag and the number of children. */
  lemma UnexpandedKind(m: Node, n: Node)
    requires Unexpanded(m) == Unexpanded(n)
    ensures m.SelectorNode? <==> n.SelectorNode?
    ensures m.AtRuleNode? <==> n.AtRuleNode?
    ensures m.SelectorNode? ==>
      (m.selectors == n.selectors && m.line == n.line && m.hidden == n.hidden
       && UnexpandedAll(m.children) == UnexpandedAll(n.children))
    ensures m.AtRuleNode? ==>
      (m.text == n.text && m.line == n.line && m.hidden == n.hidden
       && UnexpandedAll(m.children) == UnexpandedAll(n.children))
    ensures !m.SelectorNode? && !m.AtRuleNode? && !m.RootNode? ==> m == n
  {
  }

  /** At the top, a child selector without `&` is taken as it is, and one
      with `&` loses the `&`s: the merge with the single empty parent is the
      kept selectors, each combined with "". */
  lemma {:induction false} RootSeed(children: seq<string>)
    ensures Merge([""], children) == RowsOfEmpty(KeptChildren(children))
  {
    if children != [] {
      var init := children[..|children| - 1];
      var c := children[|children| - 1];
      RootSeed(init);
      RowsOfEmptyAppend(KeptChildren(init), if MergeKeeps(c) then [c] else []);
      assert Row([""], c) == [Combine("", c)];
    }
  }

  /** Each selector combined with the empty parent. */
  function RowsOfEmpty(ss: seq<string>): (r: seq<string>)
    ensures |r| == |ss|
  {
    if ss == [] then [] else RowsOfEmpty(ss[..|ss| - 1]) + [Combine("", ss[|ss| - 1])]
  }

  lemma {:induction false} RowsOfEmptyAppend(a: seq<string>, b: seq<string>)
    requires |b| <= 1
    ensures RowsOfEmpty(a + b) == RowsOfEmpty(a) + RowsOfEmpty(b)
  {
    if b == [] {
      assert a + b == a;
    } else {
      assert (a + b)[..|a + b| - 1] == a;
      assert b[..0] == [];
    }
  }

  /** Combining with the empty parent keeps a selector without `&`. */
  lemma CombineEmpty(child: string)
    ensures '&' !in child ==> Combine("", child) == child
  {
    IndexCharSpec(child, '&');
  }

  // ---------------------------------------------------------------------
  // HideIfEmpty (tree.go:38-40, 116-126, 143-146, 182-192, 382-392)

  /** The result of `HideIfEmpty` for a node after the pass: the flag of a
      block or a variable; declarations, imports and mixin calls are
      never hidden. */
  predicate IsHidden(n: Node) {
    match n
    case RootNode(_, hidden) => hidden
    case VariableNode(_, _, hidden) => hidden
    case SelectorNode(_, _, _, _, hidden) => hidden
    case AtRuleNode(_, _, _, _, hidden) => hidden
    case _ => false
  }

  /** Every child of a block is visited, with no short cut; a block is
      hidden when all its children are, a variable always. */
  function Hide(n: Node): Node
    requires NilFree(n)
    decreases n
  {
    match n
    case RootNode(cs, _) => var cs' := HideAll(cs); RootNode(cs', AllHidden(cs'))
    case VariableNode(text, line, _) => VariableNode(text, line, true)
    case SelectorNode(sel, merged, cs, line, _) =>
      var cs' := HideAll(cs); SelectorNode(sel, merged, cs', line, AllHidden(cs'))
    case AtRuleNode(text, ps, cs, line, _) =>
      var cs' := HideAll(cs); AtRuleNode(text, ps, cs', line, AllHidden(cs'))
    case _ => n
  }

  function HideAll(cs: seq<Node>): (r: seq<Node>)
    requires AllNilFree(cs)
    ensures |r| == |cs|
    decreases cs
  {
    if cs == [] then [] else [Hide(cs[0])] + HideAll(cs[1..])
  }

  predicate AllHidden(cs: seq<Node>) {
    forall c <- cs :: IsHidden(c)
  }

  /** Whether a subtree produces output of its own: a declaration, an
      import or a mixin call somewhere in it. */
  predicate HasContent(n: Node)
    decreases n
  {
    match n
    case DeclarationNode(_, _) => true
    case ImportNode(_, _) => true
    case MixinNode(_, _) => true
    case VariableNode(_, _, _) => false
    case Nil => false
    case _ => AnyContent(n.children)
  }

  predicate AnyContent(cs: seq<Node>)
    decreases cs
  {
    cs != [] && (HasContent(cs[0]) || AnyContent(cs[1..]))
  }

  /** The whole tree with every flag set to "no content below". */
  predicate HideConsistent(n: Node)
    decreases n
  {
    (IsHidden(n) <==> !HasContent(n))
    && (IsBlock(n) ==> AllHideConsistent(n.children))
  }

  predicate AllHideConsistent(cs: seq<Node>)
    decreases cs
  {
    cs == [] || (HideConsistent(cs[0]) && AllHideConsistent(cs[1..]))
  }

  /** After the pass a node is hidden exactly when its subtree has no
      declaration, import or mixin call, and the same holds for every
      node below it; nothing but the flags changes. */
  lemma {:induction false} HideSpec(n: Node)
    requires NilFree(n)
    ensures IsHidden(Hide(n)) <==> !HasContent(n)
    ensures HideConsistent(Hide(n))
    ensures HasContent(Hide(n)) == HasContent(n)
    ensures Unhidden(Hide(n)) == Unhidden(n)
    ensures NilFree(Hide(n))
    decreases n
  {
    if IsBlock(n) {
      HideAllSpec(n.children);
    }
  }

  lemma {:induction false} HideAllSpec(cs: seq<Node>)
    requires AllNilFree(cs)
    ensures AllHidden(HideAll(cs)) <==> !AnyContent(cs)
    ensures AllHideConsistent(HideAll(cs))
    ensures AnyContent(HideAll(cs)) == AnyContent(cs)
    ensures UnhiddenAll(HideAll(cs)) == UnhiddenAll(cs)
    ensures AllNilFree(HideAll(cs))
    decreases cs
  {
    if cs != [] {
      HideSpec(cs[0]);
      assert AllNilFree(cs[1..]) by {
        forall c | c in cs[1..] ensures NilFree(c) {
          assert c in cs;
        }
      }
      HideAllSpec(cs[1..]);
      var r := HideAll(cs);
      assert r[0] == Hide(cs[0]) && r[1..] == HideAll(cs[1..]);
      assert AllHidden(r) <==> IsHidden(r[0]) && AllHidden(r[1..]) by {
        assert r == [r[0]] + r[1..];
      }
      forall c | c in r ensures NilFree(c) {
        var k :| 0 <= k < |r| && r[k] == c;
        if k > 0 {
          assert c in r[1..];
        }
      }
    }
  }

  /** The tree with every flag cleared: what pruning does not touch. */
  function Unhidden(n: Node): Node
    decreases n
  {
    match n
    case RootNode(cs, _) => RootNode(UnhiddenAll(cs), false)
    case VariableNode(text, line, _) => VariableNode(text, line, false)
    case SelectorNode(sel, merged, cs, line, _) => SelectorNode(sel, merged, UnhiddenAll(cs), line, false)
    case AtRuleNode(text, ps, cs, line, _) => AtRuleNode(text, ps, UnhiddenAll(cs), line, false)
    case _ => n
  }

  function UnhiddenAll(cs: seq<Node>): seq<Node>
    decreases cs
  {
    if cs == [] then [] else [Unhidden(cs[0])] + UnhiddenAll(cs[1..])
  }
}
