/**
 * `Render` (tree.go:84-86, 128-132, 234-270, 285-287, 332-336, 394-429,
 * 443-445): the output as a sequence of lines, each of which the Go code
 * writes followed by a newline.
 */
module Output {
  import opened Strings
  import opened Nodes
  import opened Passes

  /** The opening lines of a rule: every selector but the last followed by
      `,`, the last by ` {`; none for an empty list. */
  function Head(ms: seq<string>): seq<string> {
    if ms == [] then [] else Commas(ms[..|ms| - 1]) + [ms[|ms| - 1] + " {"]
  }

  function Commas(ss: seq<string>): (r: seq<string>)
    ensures |r| == |ss|
  {
    if ss == [] then [] else [ss[0] + ","] + Commas(ss[1..])
  }

  /** The lines of the declaration children, in order. */
  function DeclarationLines(cs: seq<Node>): seq<string>
    decreases cs
  {
    if cs == [] then []
    else (if cs[0].DeclarationNode? then ["  " + cs[0].text] else []) + DeclarationLines(cs[1..])
  }

  /** The rule for the declaration children, if there are any. */
  function Rule(ms: seq<string>, cs: seq<Node>): seq<string> {
    if DeclarationLines(cs) == [] then [] else Head(ms) + DeclarationLines(cs) + ["}"]
  }

  function Render(n: Node): seq<string>
    requires NilFree(n)
    decreases n
  {
    match n
    case RootNode(cs, _) => RenderAll(cs)
    case SelectorNode(_, merged, cs, _, hidden) => if hidden then [] else Rule(merged, cs) + RenderOthers(cs)
    case AtRuleNode(text, ps, cs, _, _) => [text + " {"] + Rule(ps, cs) + RenderOthers(cs) + ["}"]
    case DeclarationNode(text, _) => ["  " + text]
    case ImportNode(text, _) => [text]
    case _ => []
  }

  /** Every child rendered in order: what the root does. */
  function RenderAll(cs: seq<Node>): seq<string>
    requires AllNilFree(cs)
    decreases cs
  {
    if cs == [] then [] else Render(cs[0]) + RenderAll(cs[1..])
  }

  /** The children other than declarations rendered in order: what a rule
      is followed by. */
  function RenderOthers(cs: seq<Node>): seq<string>
    requires AllNilFree(cs)
    decreases cs
  {
    if cs == [] then []
    else (if cs[0].DeclarationNode? then [] else Render(cs[0])) + RenderOthers(cs[1..])
  }

  // ---------------------------------------------------------------------
  // properties

  /** The opening lines: one per selector, a `,` after all but the last and
      ` {` after the last. */
  lemma HeadShape(ms: seq<string>)
    ensures |Head(ms)| == |ms|
    ensures forall i :: 0 <= i < |ms| - 1 ==> Head(ms)[i] == ms[i] + ","
    ensures ms != [] ==> Head(ms)[|ms| - 1] == ms[|ms| - 1] + " {"
  {
    if ms != [] {
      CommasAt(ms[..|ms| - 1]);
    }
  }

  lemma {:induction false} CommasAt(ss: seq<string>)
    ensures forall i :: 0 <= i < |ss| ==> Commas(ss)[i] == ss[i] + ","
    decreases ss
  {
    if ss != [] {
      CommasAt(ss[1..]);
    }
  }

  /** An at-rule is always framed by its header line and a closing line,
      hidden or not. */
  lemma AtRuleFramed(n: Node)
    requires n.AtRuleNode? && NilFree(n)
    ensures |Render(n)| >= 2
    ensures Render(n)[0] == n.text + " {" && Render(n)[|Render(n)| - 1] == "}"
  {
  }

  /** No root and no at-rule anywhere in the subtree. */
  predicate Plain(n: Node)
    decreases n
  {
    !n.AtRuleNode? && (IsBlock(n) ==> forall c <- n.children :: Plain(c))
  }

  /** Without at-rules, a subtree without declarations, imports or mixin
      calls renders nothing, whatever its flags. */
  lemma {:induction false} RenderNoContent(n: Node)
    requires NilFree(n) && Plain(n) && !HasContent(n)
    ensures Render(n) == []
    decreases n
  {
    if IsBlock(n) {
      RenderNoContentAll(n.children);
    }
  }

  lemma {:induction false} RenderNoContentAll(cs: seq<Node>)
    requires AllNilFree(cs) && (forall c <- cs :: Plain(c)) && !AnyContent(cs)
    ensures RenderAll(cs) == [] && RenderOthers(cs) == [] && DeclarationLines(cs) == []
    decreases cs
  {
    if cs != [] {
      RenderNoContent(cs[0]);
      Tail(cs);
      RenderNoContentAll(cs[1..]);
    }
  }

  /** What holds of every element holds of the tail. */
  lemma Tail(cs: seq<Node>)
    requires cs != []
    ensures AllNilFree(cs) ==> AllNilFree(cs[1..])
    ensures (forall c <- cs :: Plain(c)) ==> forall c <- cs[1..] :: Plain(c)
  {
    forall c | c in cs[1..] ensures c in cs {
    }
  }

  /** Pruning changes the output only through at-rules: without them,
      rendering the pruned tree gives what rendering the tree with all
      flags cleared gives, so only subtrees that would print nothing are
      skipped. */
  lemma {:induction false} PruneKeepsOutput(n: Node)
    requires NilFree(n) && Plain(n)
    ensures NilFree(Unhidden(n)) && NilFree(Hide(n))
    ensures Render(Hide(n)) == Render(Unhidden(n))
    decreases n
  {
    HideSpec(n);
    UnhiddenSpec(n);
    match n
    case SelectorNode(sel, merged, cs, line, _) =>
      PruneKeepsOutputAll(cs);
      HideAllSpec(cs);
      if !AnyContent(cs) {
        assert !HasContent(Unhidden(n));
        UnhiddenPlain(n);
        RenderNoContent(Unhidden(n));
      }
    case RootNode(cs, _) =>
      PruneKeepsOutputAll(cs);
    case _ =>
  }

  lemma {:induction false} PruneKeepsOutputAll(cs: seq<Node>)
    requires AllNilFree(cs) && forall c <- cs :: Plain(c)
    ensures AllNilFree(UnhiddenAll(cs)) && AllNilFree(HideAll(cs))
    ensures RenderAll(HideAll(cs)) == RenderAll(UnhiddenAll(cs))
    ensures RenderOthers(HideAll(cs)) == RenderOthers(UnhiddenAll(cs))
    ensures DeclarationLines(HideAll(cs)) == DeclarationLines(UnhiddenAll(cs))
    decreases cs
  {
    HideAllSpec(cs);
    UnhiddenAllSpec(cs);
    if cs != [] {
      Tail(cs);
      PruneKeepsOutput(cs[0]);
      PruneKeepsOutputAll(cs[1..]);
      var h := HideAll(cs);
      var u := UnhiddenAll(cs);
      assert h[0] == Hide(cs[0]) && h[1..] == HideAll(cs[1..]);
      assert u[0] == Unhidden(cs[0]) && u[1..] == UnhiddenAll(cs[1..]);
      KindKept(cs[0]);
    }
  }

  /** Pruning and clearing keep the kind, and a declaration as it is. */
  lemma KindKept(n: Node)
    requires NilFree(n)
    ensures Hide(n).DeclarationNode? <==> n.DeclarationNode?
    ensures Unhidden(n).DeclarationNode? <==> n.DeclarationNode?
    ensures n.DeclarationNode? ==> Hide(n) == n && Unhidden(n) == n
  {
  }

  /** Clearing the flags keeps the tree free of nils and of content changes. */
  lemma {:induction false} UnhiddenSpec(n: Node)
    requires NilFree(n)
    ensures NilFree(Unhidden(n))
    ensures HasContent(Unhidden(n)) == HasContent(n)
    decreases n
  {
    if IsBlock(n) {
      UnhiddenAllSpec(n.children);
    }
  }

  lemma {:induction false} UnhiddenAllSpec(cs: seq<Node>)
    requires AllNilFree(cs)
    ensures AllNilFree(UnhiddenAll(cs))
    ensures AnyContent(UnhiddenAll(cs)) == AnyContent(cs)
    decreases cs
  {
    if cs != [] {
      Tail(cs);
      UnhiddenSpec(cs[0]);
      UnhiddenAllSpec(cs[1..]);
      var u := UnhiddenAll(cs);
      assert u[0] == Unhidden(cs[0]) && u[1..] == UnhiddenAll(cs[1..]);
      forall c | c in u ensures NilFree(c) {
        var k :| 0 <= k < |u| && u[k] == c;
        if k > 0 {
          assert c in u[1..];
        }
      }
    }
  }

  lemma {:induction false} UnhiddenPlain(n: Node)
    requires Plain(n)
    ensures Plain(Unhidden(n))
    decreases n
  {
    if IsBlock(n) {
      UnhiddenAllPlain(n.children);
    }
  }

  lemma {:induction false} UnhiddenAllPlain(cs: seq<Node>)
    requires forall c <- cs :: Plain(c)
    ensures forall c <- UnhiddenAll(cs) :: Plain(c)
    decreases cs
  {
    if cs != [] {
      Tail(cs);
      UnhiddenPlain(cs[0]);
      UnhiddenAllPlain(cs[1..]);
      var u := UnhiddenAll(cs);
      assert u[0] == Unhidden(cs[0]) && u[1..] == UnhiddenAll(cs[1..]);
      forall c | c in u ensures Plain(c) {
        var k :| 0 <= k < |u| && u[k] == c;
        if k > 0 {
          assert c in u[1..];
        }
      }
    }
  }

  /** The exception: an empty at-rule inside a selector prints its frame,
      but pruning hides the selector around it, and the frame is gone. */
  lemma EmptyAtRuleDropped()
    ensures var n := SelectorNode([".a"], [".a"], [AtRuleNode("@media print", [".a"], [], 2, false)], 1, false);
      Render(n) == ["@media print {", "}"] && Render(Hide(n)) == []
  {
    var a := AtRuleNode("@media print", [".a"], [], 2, false);
    assert DeclarationLines([a]) == DeclarationLines([]) == [] by {
      assert [a][1..] == [];
    }
    assert Rule([".a"], []) == [] && RenderOthers([]) == [];
    assert "@media print" + " {" == "@media print {";
    assert Render(a) == ["@media print {", "}"];
    assert RenderOthers([a]) == Render(a) by {
      assert [a][1..] == [];
    }
    assert HideAll([a]) == [Hide(a)] by {
      assert [a][1..] == [];
    }
    assert Hide(a) == AtRuleNode("@media print", [".a"], [], 2, true);
  }
}
