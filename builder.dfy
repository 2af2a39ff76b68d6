/**
 * `BuildTree` (tree.go:451-571): one pass over the classified elements with
 * a chain of open contexts. A `{` after a selector or an at-rule opens a
 * block node as a child of the current context and makes it the current
 * context; a `}` returns to the enclosing context; variables, imports and
 * the `;`-pieces of declarations and mixin calls become children of the
 * current context.
 *
 * The Go contexts point at nodes that are already children of their
 * parents, so later additions show through the parent. Nodes are values
 * here: an open block is a frame on a stack that holds the children added
 * so far, and the finished node is added to the enclosing context when its
 * `}` comes, or at the end for a block that is never closed. Nothing else
 * is added to a context while a block inside it is open, so the order of
 * children is the same.
 */
module Builder {
  import opened Strings
  import opened Diagnostics
  import opened Parser
  import opened Sequences
  import opened Nodes
  import opened TreeText

  /** An open block: what its node will hold, and the children so far. */
  datatype Frame =
    | SelectorFrame(selectors: seq<string>, line: int, children: seq<Node>)
    | AtRuleFrame(text: string, line: int, children: seq<Node>)

  /** The builder's state: the root's children, the open blocks innermost
      last, and whether a `}` has left the root context (the Go context
      is then nil). */
  datatype Builder = Builder(top: seq<Node>, frames: seq<Frame>, detached: bool)

  const Start := Builder([], [], false)

  /** The node an open block becomes. */
  function Finish(f: Frame): (n: Node)
    ensures IsBlock(n) && !n.RootNode? && n.children == f.children
  {
    match f
    case SelectorFrame(sel, line, cs) => SelectorNode(sel, [], cs, line, false)
    case AtRuleFrame(text, line, cs) => AtRuleNode(text, [], cs, line, false)
  }

  /** `c` added as the last child of the current context. */
  function Put(b: Builder, c: Node): Builder {
    if b.frames == [] then b.(top := b.top + [c])
    else
      var f := b.frames[|b.frames| - 1];
      b.(frames := b.frames[..|b.frames| - 1] + [f.(children := f.children + [c])])
  }

  /** `Context.AddChild`: calling it on the nil context crashes. */
  function AddChild(b: Builder, c: Node): Result<Builder> {
    if b.detached then Failure(Panic) else Success(Put(b, c))
  }

  /** The children `cs` added one by one. */
  function AddAll(b: Builder, cs: seq<Node>): Result<Builder> {
    if cs == [] then Success(b)
    else
      match AddAll(b, cs[..|cs| - 1])
      case Failure(e) => Failure(e)
      case Success(b') => AddChild(b', cs[|cs| - 1])
  }

  /** A new context for the block `f`, whose node is a child of the current one. */
  function Push(b: Builder, f: Frame): Result<Builder> {
    if b.detached then Failure(Panic) else Success(b.(frames := b.frames + [f]))
  }

  /** `context = context.ParentContext`: the innermost block is finished
      and becomes a child of the context around it; leaving the root
      context leaves no context, and reading the parent of none crashes. */
  function Pop(b: Builder): Result<Builder> {
    if b.detached then Failure(Panic)
    else if b.frames == [] then Success(b.(detached := true))
    else
      var f := b.frames[|b.frames| - 1];
      Success(Put(b.(frames := b.frames[..|b.frames| - 1]), Finish(f)))
  }

  /** The nodes for the pieces of a declaration (`mixin` false) or of a
      mixin call line, all with the element's line. */
  function PieceNodes(pieces: seq<string>, line: int, mixin: bool): (r: seq<Node>)
    ensures |r| == |pieces|
    ensures forall k :: 0 <= k < |pieces| ==>
      r[k] == if mixin then MixinNode(pieces[k], line) else DeclarationNode(pieces[k], line)
  {
    if pieces == [] then []
    else
      var p := pieces[|pieces| - 1];
      PieceNodes(pieces[..|pieces| - 1], line, mixin)
        + [if mixin then MixinNode(p, line) else DeclarationNode(p, line)]
  }

  /** A `{` as the very first element makes the Go code read the element
      before it, which does not exist. */
  predicate FirstNotOpen(es: seq<Element>) {
    |es| > 0 ==> es[0].kind != OpenBrace
  }

  /** What element `i` does to the state. */
  function Step(es: seq<Element>, i: nat, b: Builder): Result<Builder>
    requires i < |es| && FirstNotOpen(es)
  {
    var e := es[i];
    match e.kind
    case Variable => AddChild(b, VariableNode(e.text, e.line, false))
    case Declaration => AddAll(b, PieceNodes(DeclarationPieces(e.text), e.line, false))
    case Mixin => AddAll(b, PieceNodes(DeclarationPieces(e.text), e.line, true))
    case Import => AddChild(b, ImportNode(e.text, e.line))
    case OpenBrace =>
      var prev := es[i - 1];
      if prev.kind == Selector then Push(b, SelectorFrame(SelectorsBefore(es, i - 1), e.line, []))
      else if prev.kind == AtRule then Push(b, AtRuleFrame(prev.text, e.line, []))
      else Success(b)
    case CloseBrace => Pop(b)
    case _ => Success(b)
  }

  /** The state after the first `n` elements. */
  function Fold(es: seq<Element>, n: nat): Result<Builder>
    requires n <= |es| && FirstNotOpen(es)
  {
    if n == 0 then Success(Start)
    else
      match Fold(es, n - 1)
      case Failure(e) => Failure(e)
      case Success(b) => Step(es, n - 1, b)
  }

  /** The root's children once every open block is finished. */
  function CloseAll(b: Builder): seq<Node>
    decreases |b.frames|
  {
    if b.frames == [] then b.top
    else
      var f := b.frames[|b.frames| - 1];
      CloseAll(Put(b.(frames := b.frames[..|b.frames| - 1]), Finish(f)))
  }

  /** The tree `BuildTree` returns, or the crash. */
  function Build(es: seq<Element>): Result<Node>
    requires FirstNotOpen(es)
  {
    match Fold(es, |es|)
    case Failure(e) => Failure(e)
    case Success(b) => Success(RootNode(CloseAll(b), false))
  }

  method BuildTree(es: seq<Element>) returns (r: Result<Node>)
    requires FirstNotOpen(es)
    ensures r == Build(es)
  {
    var context := Start;
    for index := 0 to |es|
      invariant Fold(es, index) == Success(context)
    {
      var next := BuildStep(es, index, context);
      if next.Failure? {
        FoldFailure(es, index + 1);
        return Failure(next.error);
      }
      context := next.value;
    }
    return Success(RootNode(CloseAll(context), false));
  }

  /** The body of the loop in `BuildTree` for the element at `index`. */
  method BuildStep(es: seq<Element>, index: nat, context: Builder) returns (r: Result<Builder>)
    requires index < |es| && FirstNotOpen(es)
    ensures r == Step(es, index, context)
  {
    var element := es[index];
    var elementType := element.kind;
    var text := element.text;
    var lineNumber := element.line;
    r := Success(context);
    if elementType == Variable {
      if context.detached {
        return Failure(Panic);
      }
      r := Success(Put(context, VariableNode(text, lineNumber, false)));
    } else if elementType == Declaration || elementType == Mixin {
      var declarations := SplitDeclarations(text);
      r := AddPieces(context, declarations, lineNumber, elementType == Mixin);
    } else if elementType == Import {
      if context.detached {
        return Failure(Panic);
      }
      r := Success(Put(context, ImportNode(text, lineNumber)));
    } else if elementType == OpenBrace {
      var previousElement := es[index - 1];
      var previousType := previousElement.kind;
      if previousType == Selector {
        var selectors := GetSelectors(es, index - 1);
        if context.detached {
          return Failure(Panic);
        }
        r := Success(context.(frames := context.frames + [SelectorFrame(selectors, lineNumber, [])]));
      } else if previousType == AtRule {
        if context.detached {
          return Failure(Panic);
        }
        r := Success(context.(frames := context.frames + [AtRuleFrame(previousElement.text, lineNumber, [])]));
      }
    } else if elementType == CloseBrace {
      if context.detached {
        return Failure(Panic);
      }
      if context.frames == [] {
        r := Success(context.(detached := true));
      } else {
        var f := context.frames[|context.frames| - 1];
        r := Success(Put(context.(frames := context.frames[..|context.frames| - 1]), Finish(f)));
      }
    }
  }

  /** The inner loop over the pieces of one declaration or mixin line. */
  method AddPieces(b: Builder, pieces: seq<string>, line: int, mixin: bool) returns (r: Result<Builder>)
    ensures r == AddAll(b, PieceNodes(pieces, line, mixin))
  {
    var context := b;
    for k := 0 to |pieces|
      invariant AddAll(b, PieceNodes(pieces[..k], line, mixin)) == Success(context)
    {
      if context.detached {
        PieceFailure(b, pieces, line, mixin, k);
        return Failure(Panic);
      }
      var node := if mixin then MixinNode(pieces[k], line) else DeclarationNode(pieces[k], line);
      PieceNodesStep(pieces, line, mixin, k);
      AddAllSnoc(b, PieceNodes(pieces[..k], line, mixin), node);
      context := Put(context, node);
    }
    PrefixAll(pieces);
    r := Success(context);
  }

  /** The nodes of one more piece. */
  lemma PieceNodesStep(pieces: seq<string>, line: int, mixin: bool, k: nat)
    requires k < |pieces|
    ensures PieceNodes(pieces[..k + 1], line, mixin) ==
      PieceNodes(pieces[..k], line, mixin) + [if mixin then MixinNode(pieces[k], line) else DeclarationNode(pieces[k], line)]
  {
    PrefixStep(pieces, k);
  }

  /** Adding one more child after `cs`. */
  lemma AddAllSnoc(b: Builder, cs: seq<Node>, c: Node)
    ensures AddAll(b, cs + [c]) ==
      match AddAll(b, cs)
      case Failure(e) => Failure(e)
      case Success(b') => AddChild(b', c)
  {
    assert (cs + [c])[..|cs|] == cs;
  }

  /** A failure in the first `n` elements is the failure of the whole fold. */
  lemma {:induction false} FoldFailure(es: seq<Element>, n: nat)
    requires n <= |es| && FirstNotOpen(es)
    requires Fold(es, n).Failure?
    ensures Fold(es, |es|) == Fold(es, n)
    decreases |es| - n
  {
    if n < |es| {
      FoldFailure(es, n + 1);
    }
  }

  /** Once the context is gone, adding the next piece fails, and so does
      adding all of them. */
  lemma PieceFailure(b: Builder, pieces: seq<string>, line: int, mixin: bool, k: nat)
    requires k < |pieces|
    requires AddAll(b, PieceNodes(pieces[..k], line, mixin)).Success?
    requires AddAll(b, PieceNodes(pieces[..k], line, mixin)).value.detached
    ensures AddAll(b, PieceNodes(pieces, line, mixin)) == Failure(Panic)
  {
    PieceNodesStep(pieces, line, mixin, k);
    AddAllSnoc(b, PieceNodes(pieces[..k], line, mixin),
      if mixin then MixinNode(pieces[k], line) else DeclarationNode(pieces[k], line));
    PieceFailureOn(b, pieces, line, mixin, k + 1);
  }

  /** A failure for the first `k` pieces stays a failure for all of them. */
  lemma {:induction false} PieceFailureOn(b: Builder, pieces: seq<string>, line: int, mixin: bool, k: nat)
    requires k <= |pieces|
    requires AddAll(b, PieceNodes(pieces[..k], line, mixin)) == Failure(Panic)
    ensures AddAll(b, PieceNodes(pieces, line, mixin)) == Failure(Panic)
    decreases |pieces| - k
  {
    if k == |pieces| {
      PrefixAll(pieces);
    } else {
      PieceNodesStep(pieces, line, mixin, k);
      AddAllSnoc(b, PieceNodes(pieces[..k], line, mixin),
        if mixin then MixinNode(pieces[k], line) else DeclarationNode(pieces[k], line));
      PieceFailureOn(b, pieces, line, mixin, k + 1);
    }
  }
}
