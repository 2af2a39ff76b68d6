/**
 * `ValidateElements` (parser.go:277-324): two passes over the classified
 * elements. The first rejects a closing brace at level 0 or below and
 * remembers the level of the last closing brace; the second checks each
 * pair of neighbours; last comes the end-of-file brace check, which looks
 * only at that remembered level.
 */
module Validator {
  import opened Diagnostics
  import opened Parser
  import opened Sequences

  /** A closing brace that closes nothing. */
  predicate BadClose(e: Element) {
    e.kind == CloseBrace && e.level <= 0
  }

  /** The error for an element of kind `a` followed by one of kind `b` on
      line `n`, the three tests in the Go order, or None. */
  function PairError(a: ElementType, b: ElementType, n: int): (r: Option<Error>)
    ensures r.Some? ==> r.value == MissingOpeningBrace(n) || r.value == InvalidOpeningBrace(n)
  {
    if a == AtRule && b != OpenBrace then Some(MissingOpeningBrace(n))
    else if a == Selector && b != Selector && b != OpenBrace then Some(MissingOpeningBrace(n))
    else if b == OpenBrace && a != AtRule && a != Selector then Some(InvalidOpeningBrace(n))
    else None
  }

  /** The neighbour rules: an at-rule is followed by `{`, a selector by a
      selector or `{`, and `{` follows only an at-rule or a selector. */
  predicate PairOk(a: ElementType, b: ElementType) {
    (a == AtRule ==> b == OpenBrace)
    && (a == Selector ==> b == Selector || b == OpenBrace)
    && (b == OpenBrace ==> a == AtRule || a == Selector)
  }

  lemma PairErrorIff(a: ElementType, b: ElementType, n: int)
    ensures PairError(a, b, n).None? <==> PairOk(a, b)
  {
  }

  /** The position of the first closing brace that closes nothing. */
  function FirstBadClose(es: seq<Element>): (r: Option<nat>)
    ensures r.None? <==> forall j :: 0 <= j < |es| ==> !BadClose(es[j])
    ensures r.Some? ==> r.value < |es| && BadClose(es[r.value])
    ensures r.Some? ==> forall j :: 0 <= j < r.value ==> !BadClose(es[j])
  {
    if es == [] then None
    else if BadClose(es[0]) then Some(0)
    else
      match FirstBadClose(es[1..])
      case None => None
      case Some(i) => Some(i + 1)
  }

  /** The position of the first element whose successor breaks a neighbour rule. */
  function FirstBadPair(es: seq<Element>): (r: Option<nat>)
    ensures r.None? <==> forall j :: 0 <= j < |es| - 1 ==> PairOk(es[j].kind, es[j + 1].kind)
    ensures r.Some? ==> r.value < |es| - 1 && !PairOk(es[r.value].kind, es[r.value + 1].kind)
    ensures r.Some? ==> forall j :: 0 <= j < r.value ==> PairOk(es[j].kind, es[j + 1].kind)
  {
    if |es| < 2 then None
    else if !PairOk(es[0].kind, es[1].kind) then Some(0)
    else
      match FirstBadPair(es[1..])
      case None => None
      case Some(i) => Some(i + 1)
  }

  /** The level of the last closing brace, 1 if there is none. */
  function LastCloseLevel(es: seq<Element>): int {
    if es == [] then 1
    else if es[|es| - 1].kind == CloseBrace then es[|es| - 1].level
    else LastCloseLevel(es[..|es| - 1])
  }

  /** The outcome of the validator, the checks in the Go order. */
  function Validate(es: seq<Element>): Option<Error> {
    match FirstBadClose(es)
    case Some(i) => Some(UnexpectedBrace(es[i].line))
    case None =>
      match FirstBadPair(es)
      case Some(i) =>
        PairErrorIff(es[i].kind, es[i + 1].kind, es[i + 1].line);
        PairError(es[i].kind, es[i + 1].kind, es[i + 1].line)
      case None => if LastCloseLevel(es) != 1 then Some(MissingBracesAtEnd) else None
  }

  method ValidateElements(es: seq<Element>) returns (err: Option<Error>)
    ensures err == Validate(es)
  {
    var lastLevel := 1;
    var i := 0;
    while i < |es|
      invariant 0 <= i <= |es|
      invariant forall j :: 0 <= j < i ==> !BadClose(es[j])
      invariant lastLevel == LastCloseLevel(es[..i])
    {
      PrefixStep(es, i);
      var element := es[i];
      if element.kind == CloseBrace {
        var level := element.level;
        if level <= 0 {
          return Some(UnexpectedBrace(element.line));
        }
        lastLevel := level;
      }
      i := i + 1;
    }
    PrefixAll(es);

    var count := |es|;
    i := 0;
    while i < count - 1
      invariant 0 <= i <= if count == 0 then 0 else count - 1
      invariant forall j :: 0 <= j < i ==> PairOk(es[j].kind, es[j + 1].kind)
    {
      var item := es[i];
      var nextItem := es[i + 1];
      var elementType := item.kind;
      var nextElementType := nextItem.kind;
      if elementType == AtRule && nextElementType != OpenBrace {
        return Some(MissingOpeningBrace(nextItem.line));
      }
      if elementType == Selector {
        if nextElementType != Selector && nextElementType != OpenBrace {
          return Some(MissingOpeningBrace(nextItem.line));
        }
      }
      if nextElementType == OpenBrace {
        if elementType != AtRule && elementType != Selector {
          return Some(InvalidOpeningBrace(nextItem.line));
        }
      }
      i := i + 1;
    }

    if lastLevel != 1 {
      return Some(MissingBracesAtEnd);
    }
    return None;
  }

  // ---------------------------------------------------------------------
  // properties

  /** The elements pass exactly when no closing brace closes nothing, every
      neighbour rule holds and the last closing brace is at level 1. */
  lemma ValidateIff(es: seq<Element>)
    ensures Validate(es).None? <==>
      && (forall j :: 0 <= j < |es| ==> !BadClose(es[j]))
      && (forall j :: 0 <= j < |es| - 1 ==> PairOk(es[j].kind, es[j + 1].kind))
      && LastCloseLevel(es) == 1
  {
    match FirstBadPair(es)
    case Some(i) => PairErrorIff(es[i].kind, es[i + 1].kind, es[i + 1].line);
    case None =>
  }

  /** The first failing check decides the error: a closing brace that closes
      nothing wins over any neighbour error, which wins over the end-of-file
      check, and the neighbour error carries the second element's line. */
  lemma ValidateOrder(es: seq<Element>, i: nat)
    requires i < |es|
    ensures BadClose(es[i]) && (forall j :: 0 <= j < i ==> !BadClose(es[j])) ==>
      Validate(es) == Some(UnexpectedBrace(es[i].line))
    ensures ((forall j :: 0 <= j < |es| ==> !BadClose(es[j]))
             && i < |es| - 1 && !PairOk(es[i].kind, es[i + 1].kind)
             && (forall j :: 0 <= j < i ==> PairOk(es[j].kind, es[j + 1].kind)))
      ==> Validate(es) == PairError(es[i].kind, es[i + 1].kind, es[i + 1].line)
          && Validate(es).Some? && Validate(es).value.line == es[i + 1].line
  {
    var c := FirstBadClose(es);
    if BadClose(es[i]) && (forall j :: 0 <= j < i ==> !BadClose(es[j])) {
      assert c.Some? && c.value == i;
    }
    if (forall j :: 0 <= j < |es| ==> !BadClose(es[j]))
      && i < |es| - 1 && !PairOk(es[i].kind, es[i + 1].kind)
      && (forall j :: 0 <= j < i ==> PairOk(es[j].kind, es[j + 1].kind)) {
      var p := FirstBadPair(es);
      assert p.Some? && p.value == i;
      PairErrorIff(es[i].kind, es[i + 1].kind, es[i + 1].line);
    }
  }

  /** An unclosed block after the last closing brace goes through: a
      selector and its `{` with no `}` at all pass. */
  lemma UnclosedBlockAccepted()
    ensures Validate([Element("a", Selector, 1, 0), Element("{", OpenBrace, 2, 1)]) == None
  {
    var es := [Element("a", Selector, 1, 0), Element("{", OpenBrace, 2, 1)];
    assert LastCloseLevel(es[..1]) == 1;
  }
}
