/**
 * What the tree builder promises about the shape of the tree: written out
 * in document order, as an opening token for each block, a token for each
 * leaf and a closing token at the end of each block, the tree is the
 * elements' own opening braces, leaves and closing braces, in order, with
 * a closing token added for each block still open at the end; and for
 * elements that the validator accepts, building never crashes.
 */
module Outline {
  import opened Diagnostics
  import opened Parser
  import opened Sequences
  import opened Nodes
  import opened TreeText
  import opened Builder
  import opened Classifier
  import opened Validator

  datatype Token = Open(header: Node) | Leaf(node: Node) | Close

  /** A node in document order; a block's opening token carries the node
      without its children. */
  function Ser(n: Node): seq<Token>
    decreases n
  {
    match n
    case SelectorNode(sel, merged, cs, line, hidden) =>
      [Open(SelectorNode(sel, merged, [], line, hidden))] + SerAll(cs) + [Close]
    case AtRuleNode(text, ps, cs, line, hidden) =>
      [Open(AtRuleNode(text, ps, [], line, hidden))] + SerAll(cs) + [Close]
    case _ => [Leaf(n)]
  }

  function SerAll(cs: seq<Node>): seq<Token>
    decreases cs
  {
    if cs == [] then [] else Ser(cs[0]) + SerAll(cs[1..])
  }

  /** The header of an open block. */
  function Header(f: Frame): Node {
    match f
    case SelectorFrame(sel, line, _) => SelectorNode(sel, [], [], line, false)
    case AtRuleFrame(text, line, _) => AtRuleNode(text, [], [], line, false)
  }

  /** An open block in document order so far: no closing token yet. */
  function FrameSer(f: Frame): seq<Token> {
    [Open(Header(f))] + SerAll(f.children)
  }

  function FramesSer(fs: seq<Frame>): seq<Token> {
    if fs == [] then [] else FramesSer(fs[..|fs| - 1]) + FrameSer(fs[|fs| - 1])
  }

  /** The builder's state in document order. */
  function StateSer(b: Builder): seq<Token> {
    SerAll(b.top) + FramesSer(b.frames)
  }

  function Closes(k: nat): seq<Token> {
    if k == 0 then [] else [Close] + Closes(k - 1)
  }

  /** The leaf tokens of the pieces of one declaration or mixin line. */
  function PieceTokens(pieces: seq<string>, line: int, mixin: bool): seq<Token> {
    if pieces == [] then []
    else
      var p := pieces[|pieces| - 1];
      PieceTokens(pieces[..|pieces| - 1], line, mixin)
        + [Leaf(if mixin then MixinNode(p, line) else DeclarationNode(p, line))]
  }

  /** The tokens element `i` stands for. */
  function ElementTokens(es: seq<Element>, i: nat): seq<Token>
    requires i < |es| && FirstNotOpen(es)
  {
    var e := es[i];
    match e.kind
    case Variable => [Leaf(VariableNode(e.text, e.line, false))]
    case Declaration => PieceTokens(DeclarationPieces(e.text), e.line, false)
    case Mixin => PieceTokens(DeclarationPieces(e.text), e.line, true)
    case Import => [Leaf(ImportNode(e.text, e.line))]
    case OpenBrace =>
      var prev := es[i - 1];
      if prev.kind == Selector then [Open(SelectorNode(SelectorsBefore(es, i - 1), [], [], e.line, false))]
      else if prev.kind == AtRule then [Open(AtRuleNode(prev.text, [], [], e.line, false))]
      else []
    case CloseBrace => [Close]
    case _ => []
  }

  /** The tokens of the first `n` elements. */
  function AllTokens(es: seq<Element>, n: nat): seq<Token>
    requires n <= |es| && FirstNotOpen(es)
  {
    if n == 0 then [] else AllTokens(es, n - 1) + ElementTokens(es, n - 1)
  }

  /** Opening minus closing braces among the first `n` elements. */
  function ElemDepth(es: seq<Element>, n: nat): int
    requires n <= |es|
  {
    if n == 0 then 0
    else ElemDepth(es, n - 1) + (if es[n - 1].kind == OpenBrace then 1 else if es[n - 1].kind == CloseBrace then -1 else 0)
  }

  /** Every `{` follows a selector or an at-rule, and every `}` closes
      something. */
  predicate NestedAt(es: seq<Element>, i: nat)
    requires i < |es|
  {
    && (es[i].kind == OpenBrace ==> i > 0 && (es[i - 1].kind == Selector || es[i - 1].kind == AtRule))
    && (es[i].kind == CloseBrace ==> ElemDepth(es, i) >= 1)
  }

  predicate Nested(es: seq<Element>) {
    FirstNotOpen(es) && forall i :: 0 <= i < |es| ==> NestedAt(es, i)
  }

  // ---------------------------------------------------------------------
  // document order of the builder's operations

  lemma {:induction false} SerAllAppend(a: seq<Node>, b: seq<Node>)
    ensures SerAll(a + b) == SerAll(a) + SerAll(b)
    decreases a
  {
    if a == [] {
      assert a + b == b;
    } else {
      assert (a + b)[1..] == a[1..] + b;
      SerAllAppend(a[1..], b);
    }
  }

  lemma SerAllSnoc(cs: seq<Node>, c: Node)
    ensures SerAll(cs + [c]) == SerAll(cs) + Ser(c)
  {
    SerAllAppend(cs, [c]);
    assert [c][1..] == [];
  }

  lemma FramesSerSnoc(fs: seq<Frame>, f: Frame)
    ensures FramesSer(fs + [f]) == FramesSer(fs) + FrameSer(f)
  {
    assert (fs + [f])[..|fs|] == fs;
  }

  /** A finished block is its open part and a closing token. */
  lemma FinishSer(f: Frame)
    ensures Ser(Finish(f)) == FrameSer(f) + [Close]
  {
  }

  lemma PutSer(b: Builder, c: Node)
    ensures StateSer(Put(b, c)) == StateSer(b) + Ser(c)
    ensures |Put(b, c).frames| == |b.frames| && Put(b, c).detached == b.detached
  {
    if b.frames == [] {
      SerAllSnoc(b.top, c);
    } else {
      PutInnerSer(b.frames, c);
      AppendAssoc(SerAll(b.top), FramesSer(b.frames), Ser(c));
    }
  }

  /** Adding to the innermost open block. */
  lemma PutInnerSer(frames: seq<Frame>, c: Node)
    requires frames != []
    ensures var f := frames[|frames| - 1];
      FramesSer(frames[..|frames| - 1] + [f.(children := f.children + [c])]) == FramesSer(frames) + Ser(c)
  {
    var fs := frames[..|frames| - 1];
    var f := frames[|frames| - 1];
    var f' := f.(children := f.children + [c]);
    FramesSerSnoc(fs, f');
    SerAllSnoc(f.children, c);
    AppendAssoc([Open(Header(f))], SerAll(f.children), Ser(c));
    assert FrameSer(f') == FrameSer(f) + Ser(c);
    AppendAssoc(FramesSer(fs), FrameSer(f), Ser(c));
  }

  lemma PopSer(b: Builder)
    requires b.frames != []
    ensures var b' := Put(b.(frames := b.frames[..|b.frames| - 1]), Finish(b.frames[|b.frames| - 1]));
      StateSer(b') == StateSer(b) + [Close] && |b'.frames| == |b.frames| - 1 && b'.detached == b.detached
  {
    var fs := b.frames[..|b.frames| - 1];
    var f := b.frames[|b.frames| - 1];
    var b0 := b.(frames := fs);
    PutSer(b0, Finish(f));
    FinishSer(f);
    var top := SerAll(b.top);
    calc {
      StateSer(Put(b0, Finish(f)));
      StateSer(b0) + Ser(Finish(f));
      (top + FramesSer(fs)) + (FrameSer(f) + [Close]);
      { AppendAssoc(top + FramesSer(fs), FrameSer(f), [Close]); }
      ((top + FramesSer(fs)) + FrameSer(f)) + [Close];
      { AppendAssoc(top, FramesSer(fs), FrameSer(f)); }
      (top + (FramesSer(fs) + FrameSer(f))) + [Close];
      StateSer(b) + [Close];
    }
  }

  lemma PushSer(b: Builder, f: Frame)
    requires f.children == []
    ensures StateSer(b.(frames := b.frames + [f])) == StateSer(b) + [Open(Header(f))]
  {
    FramesSerSnoc(b.frames, f);
  }

  lemma {:induction false} AddPiecesSer(b: Builder, pieces: seq<string>, line: int, mixin: bool)
    requires !b.detached
    ensures AddAll(b, PieceNodes(pieces, line, mixin)).Success?
    ensures var b' := AddAll(b, PieceNodes(pieces, line, mixin)).value;
      && StateSer(b') == StateSer(b) + PieceTokens(pieces, line, mixin)
      && |b'.frames| == |b.frames| && !b'.detached
    decreases |pieces|
  {
    if pieces == [] {
      AppendNothing(StateSer(b));
    } else {
      var init := pieces[..|pieces| - 1];
      var p := pieces[|pieces| - 1];
      var c := if mixin then MixinNode(p, line) else DeclarationNode(p, line);
      AddPiecesSer(b, init, line, mixin);
      AddAllSnoc(b, PieceNodes(init, line, mixin), c);
      var b1 := AddAll(b, PieceNodes(init, line, mixin)).value;
      PutSer(b1, c);
      AppendAssoc(StateSer(b), PieceTokens(init, line, mixin), Ser(c));
    }
  }

  /** One element: the state keeps the tokens so far and one open frame per
      unclosed brace. */
  lemma StepSer(es: seq<Element>, i: nat, b: Builder)
    requires i < |es| && Nested(es)
    requires Built(es, i, Success(b))
    ensures Built(es, i + 1, Step(es, i, b))
  {
    assert NestedAt(es, i);
    var e := es[i];
    match e.kind
    case Variable => PutSer(b, VariableNode(e.text, e.line, false));
    case Declaration => AddPiecesSer(b, DeclarationPieces(e.text), e.line, false);
    case Mixin => AddPiecesSer(b, DeclarationPieces(e.text), e.line, true);
    case Import => PutSer(b, ImportNode(e.text, e.line));
    case OpenBrace =>
      var prev := es[i - 1];
      if prev.kind == Selector {
        PushSer(b, SelectorFrame(SelectorsBefore(es, i - 1), e.line, []));
      } else {
        PushSer(b, AtRuleFrame(prev.text, e.line, []));
      }
    case CloseBrace => PopSer(b);
    case _ => AppendNothing(StateSer(b));
  }

  /** The state after `n` elements: no crash, one open frame per unclosed
      brace, and the tokens of those elements. */
  predicate Built(es: seq<Element>, n: nat, r: Result<Builder>)
    requires n <= |es| && FirstNotOpen(es)
  {
    && r.Success? && !r.value.detached
    && |r.value.frames| == ElemDepth(es, n)
    && StateSer(r.value) == AllTokens(es, n)
  }

  lemma {:induction false} FoldSer(es: seq<Element>, n: nat)
    requires n <= |es| && Nested(es)
    ensures Built(es, n, Fold(es, n))
  {
    if n > 0 {
      FoldSer(es, n - 1);
      var b := Fold(es, n - 1).value;
      StepSer(es, n - 1, b);
      assert Fold(es, n) == Step(es, n - 1, b);
    }
  }

  /** Finishing the open blocks adds their closing tokens. */
  lemma {:induction false} CloseAllSer(b: Builder)
    ensures SerAll(CloseAll(b)) == StateSer(b) + Closes(|b.frames|)
    decreases |b.frames|
  {
    if b.frames == [] {
      AppendNothing(SerAll(b.top));
      AppendNothing(StateSer(b));
    } else {
      var b' := Put(b.(frames := b.frames[..|b.frames| - 1]), Finish(b.frames[|b.frames| - 1]));
      PopSer(b);
      CloseAllSer(b');
      AppendAssoc(StateSer(b), [Close], Closes(|b'.frames|));
    }
  }

  /** The tree mirrors the brace nesting of the elements: in document order
      it is their tokens, and a block whose `}` never comes still ends up in
      the tree, as if it were closed at the end. */
  lemma BuildOutline(es: seq<Element>)
    requires Nested(es)
    ensures Build(es).Success?
    ensures ElemDepth(es, |es|) >= 0
    ensures SerAll(Build(es).value.children) == AllTokens(es, |es|) + Closes(ElemDepth(es, |es|))
  {
    FoldSer(es, |es|);
    CloseAllSer(Fold(es, |es|).value);
  }

  // ---------------------------------------------------------------------
  // what the validator guarantees the builder

  /** The classifier's brace depth and the elements' brace depth agree. */
  lemma {:induction false} DepthAgree(ls: seq<Line>, es: seq<Element>, n: nat)
    requires |es| == |ls| && n <= |ls|
    requires forall i :: 0 <= i < |ls| ==> (es[i].kind == OpenBrace <==> ls[i].text == "{")
    requires forall i :: 0 <= i < |ls| ==> (es[i].kind == CloseBrace <==> ls[i].text == "}")
    ensures ElemDepth(es, n) == Depth(ls[..n])
  {
    if n > 0 {
      DepthAgree(ls, es, n - 1);
      PrefixStep(ls, n - 1);
    }
  }

  /** Elements the validator accepts are well nested for the builder: a
      `{` always follows a selector or an at-rule, and a `}` never leaves
      the root context; so building them does not crash (unless the very
      first element is a `{`, which the validator lets through). */
  lemma ValidatedNested(ls: seq<Line>)
    requires AllClassifiable(ls)
    requires Validate(Classify(ls)) == None
    requires FirstNotOpen(Classify(ls))
    ensures Nested(Classify(ls))
    ensures Build(Classify(ls)).Success?
  {
    var es := Classify(ls);
    ClassifyLevels(ls);
    ValidateIff(es);
    forall i | 0 <= i < |es| ensures NestedAt(es, i) {
      if es[i].kind == CloseBrace {
        assert !BadClose(es[i]);
        DepthAgree(ls, es, i);
      }
      if es[i].kind == OpenBrace {
        assert i > 0;
        assert PairOk(es[i - 1].kind, es[i].kind);
      }
    }
    BuildOutline(es);
  }

  /** Leaving the root context and then adding to it crashes. */
  lemma CloseThenAddCrashes()
    ensures Build([Element("}", CloseBrace, 1, 0), Element("@a: b", Variable, 2, 0)]) == Failure(Panic)
  {
  }
}
