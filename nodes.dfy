/**
 * The node kinds of the syntax tree (tree.go:10-124, 134-213, 272-283,
 * 317-330, 345-349, 438-503). The seven kinds are one closed datatype; the
 * extra `Nil` stands for the nil interface value that `GetCopy` yields for
 * the kinds that do not copy themselves. Children are held by value: a
 * pass that updates nodes in place returns the updated tree instead.
 *
 * Variable, declaration, mixin and import nodes never receive children
 * (the tree builder only adds children to the node of an open context),
 * so they carry none here.
 */
module Nodes {
  import opened Strings
  import opened Diagnostics

  datatype Node =
    | RootNode(children: seq<Node>, hidden: bool)
    | VariableNode(text: string, line: int, hidden: bool)
    | SelectorNode(selectors: seq<string>, merged: seq<string>, children: seq<Node>, line: int, hidden: bool)
    | DeclarationNode(text: string, line: int)
    | MixinNode(text: string, line: int)
    | AtRuleNode(text: string, parentSelectors: seq<string>, children: seq<Node>, line: int, hidden: bool)
    | ImportNode(text: string, line: int)
    | Nil

  /** The kinds that hold children. */
  predicate IsBlock(n: Node) {
    n.RootNode? || n.SelectorNode? || n.AtRuleNode?
  }

  /** `GetChildren`: the children of a block, none for the other kinds. */
  function Children(n: Node): (cs: seq<Node>)
    ensures !IsBlock(n) ==> cs == []
    ensures IsBlock(n) ==> cs == n.children
  {
    if IsBlock(n) then n.children else []
  }

  /** `GetLineNumber`; the root's number is never set. */
  function LineNumber(n: Node): int {
    match n
    case RootNode(_, _) => 0
    case Nil => 0
    case _ => n.line
  }

  /** `AddChild` on the node of a context. */
  function AddChild(n: Node, c: Node): (r: Node)
    requires IsBlock(n)
    ensures IsBlock(r) && r.children == n.children + [c]
    ensures r.(children := n.children) == n
  {
    n.(children := n.children + [c])
  }

  /** A block with its children replaced; the other kinds are kept. */
  function WithChildren(n: Node, cs: seq<Node>): (r: Node)
    ensures IsBlock(n) ==> IsBlock(r) && r.children == cs
    ensures !IsBlock(n) ==> r == n
  {
    match n
    case RootNode(_, hidden) => RootNode(cs, hidden)
    case SelectorNode(sel, merged, _, line, hidden) => SelectorNode(sel, merged, cs, line, hidden)
    case AtRuleNode(text, ps, _, line, hidden) => AtRuleNode(text, ps, cs, line, hidden)
    case _ => n
  }

  /** `GetMixinName`: a mixin call's text without its `;` and then its `()`;
      every other kind answers "". */
  function MixinName(n: Node): (name: string)
    ensures name != "" ==> n.MixinNode?
  {
    if n.MixinNode? then TrimSuffix(TrimSuffix(n.text, ";"), "()") else ""
  }

  /** No nil node anywhere in the tree. */
  predicate NilFree(n: Node) {
    !n.Nil? && (IsBlock(n) ==> forall c <- n.children :: NilFree(c))
  }

  predicate AllNilFree(cs: seq<Node>) {
    forall c <- cs :: NilFree(c)
  }

  // ---------------------------------------------------------------------
  // GetCopy (tree.go:70-72, 160-162, 205-213, 281-283)

  /** `GetCopy`: selectors copy their selectors, line and children (and
      nothing else), variables and declarations their text and line; the
      other kinds give nil. Calling it on nil crashes. */
  function Copy(n: Node): (r: Result<Node>)
    ensures r.Failure? ==> r.error == Panic
    decreases n
  {
    match n
    case SelectorNode(sel, _, cs, line, _) =>
      (match CopyAll(cs)
       case Success(cs') => Success(SelectorNode(sel, [], cs', line, false))
       case Failure(e) => Failure(e))
    case VariableNode(text, line, _) => Success(VariableNode(text, line, false))
    case DeclarationNode(text, line) => Success(DeclarationNode(text, line))
    case Nil => Failure(Panic)
    case _ => Success(Nil)
  }

  /** The copies of `cs`, in order; the first nil among them crashes. */
  function CopyAll(cs: seq<Node>): (r: Result<seq<Node>>)
    ensures r.Failure? ==> r.error == Panic
    decreases cs
  {
    if cs == [] then Success([])
    else
      match Copy(cs[0])
      case Failure(e) => Failure(e)
      case Success(c) =>
        (match CopyAll(cs[1..])
         case Failure(e) => Failure(e)
         case Success(rest) => Success([c] + rest))
  }

  /** What a copy can hold: selectors, variables, declarations and nils. */
  predicate CopyShaped(n: Node) {
    match n
    case SelectorNode(_, merged, cs, _, hidden) => merged == [] && !hidden && forall c <- cs :: CopyShaped(c)
    case VariableNode(_, _, hidden) => !hidden
    case DeclarationNode(_, _) => true
    case Nil => true
    case _ => false
  }

  /** A copy holds no block other than selectors and no mixin call; it keeps
      the kind, selectors, text and line of the original, child by child. */
  lemma {:induction false} CopyShape(n: Node)
    ensures Copy(n).Success? ==> CopyShaped(Copy(n).value)
    ensures Copy(n).Success? ==> Mirrors(n, Copy(n).value)
    decreases n
  {
    if n.SelectorNode? {
      CopyAllShape(n.children);
    }
  }

  lemma {:induction false} CopyAllShape(cs: seq<Node>)
    ensures CopyAll(cs).Success? ==>
      |CopyAll(cs).value| == |cs|
      && (forall i :: 0 <= i < |cs| ==> CopyShaped(CopyAll(cs).value[i]) && Mirrors(cs[i], CopyAll(cs).value[i]))
    decreases cs
  {
    if cs != [] {
      CopyShape(cs[0]);
      CopyAllShape(cs[1..]);
    }
  }

  /** `m` is what copying `n` gives at this level: the same selectors (or
      text) and line, as many children for a selector; nil for the kinds
      that do not copy. */
  predicate Mirrors(n: Node, m: Node) {
    match n
    case SelectorNode(sel, _, cs, line, _) =>
      m.SelectorNode? && m.selectors == sel && m.line == line && |m.children| == |cs|
    case VariableNode(text, line, _) => m == VariableNode(text, line, false)
    case DeclarationNode(_, _) => m == n
    case _ => m.Nil?
  }

  /** Copying fails only on a nil reached through selectors: a tree without
      nils always copies. */
  lemma {:induction false} CopyNilFree(n: Node)
    requires NilFree(n)
    ensures Copy(n).Success?
    decreases n
  {
    if n.SelectorNode? {
      CopyAllNilFree(n.children);
    }
  }

  lemma {:induction false} CopyAllNilFree(cs: seq<Node>)
    requires AllNilFree(cs)
    ensures CopyAll(cs).Success?
    decreases cs
  {
    if cs != [] {
      CopyNilFree(cs[0]);
      CopyAllNilFree(cs[1..]);
    }
  }

  /** A copy without nils copies to itself. */
  lemma {:induction false} CopyIdempotent(n: Node)
    requires CopyShaped(n) && NilFree(n)
    ensures Copy(n) == Success(n)
    decreases n
  {
    if n.SelectorNode? {
      CopyAllIdempotent(n.children);
    }
  }

  lemma {:induction false} CopyAllIdempotent(cs: seq<Node>)
    requires forall c <- cs :: CopyShaped(c) && NilFree(c)
    ensures CopyAll(cs) == Success(cs)
    decreases cs
  {
    if cs != [] {
      CopyIdempotent(cs[0]);
      CopyAllIdempotent(cs[1..]);
      assert [cs[0]] + cs[1..] == cs;
    }
  }
}
