/**
 * Line classification (parser.go:238-375): the predicates that recognise a
 * variable definition, an at-rule and the start of a declaration, and
 * `SplitIntoElements`, which tags each line with a kind while tracking the
 * brace level and whether a declaration spans several lines.
 */
module Classifier {
  import opened Strings
  import opened VariableRefs
  import opened Parser
  import opened Sequences

  // ---------------------------------------------------------------------
  // the predicates (parser.go:326-375); each slices its argument's first or
  // last character, so the Go code needs a non-empty string

  /** `@name: value` with exactly one `:` and a name the reference pattern
      matches in full. */
  predicate IsVariable(str: string)
    requires str != ""
  {
    if str[0] != '@' then false
    else
      var parts := Split(str, ':');
      if |parts| != 2 then false
      else
        var name := TrimSpace(parts[0]);
        WholeMatch(name)
  }

  predicate IsAtRule(str: string)
    requires str != ""
  {
    str[0] == '@'
  }

  predicate IsDeclarationStart(str: string) {
    var pos := IndexChar(str, ':');
    if pos < 0 then false
    else if pos == |str| - 1 then true
    else str[pos + 1] == ' '
  }

  predicate EndsWithSemiColon(str: string)
    requires str != ""
  {
    str[|str| - 1] == ';'
  }

  /** A variable name after the `@`: one or more name characters. */
  predicate RefText(x: string) {
    |x| >= 2 && x[0] == '@' && forall j :: 1 <= j < |x| ==> NameChar(x[j])
  }

  /** A variable line: a leading `@`, exactly one `:`, and before it, up to
      white space, the `@` and a run of name characters. */
  lemma IsVariableIff(str: string)
    requires str != ""
    ensures IsVariable(str) <==>
      str[0] == '@' && Count(':', str) == 1 && IndexChar(str, ':') >= 0
      && RefText(TrimSpace(str[..IndexChar(str, ':')]))
  {
    IndexCharSpec(str, ':');
    SplitCount(str, ':');
    SplitFirst(str, ':');
    var parts := Split(str, ':');
    if Count(':', str) >= 1 {
      TrimSpaceSlice(parts[0]);
      WholeMatchIff(TrimSpace(parts[0]));
    }
  }

  /** A declaration start: the first `:` is the last character or is
      followed by a space. */
  lemma IsDeclarationStartIff(str: string)
    ensures IsDeclarationStart(str) <==>
      exists i | 0 <= i < |str| :: str[i] == ':' && ':' !in str[..i] && (i == |str| - 1 || str[i + 1] == ' ')
  {
    var pos := IndexChar(str, ':');
    IndexCharSpec(str, ':');
    if IsDeclarationStart(str) {
      assert str[..pos] == str[..pos];
      assert ':' !in str[..pos];
    }
    if exists i | 0 <= i < |str| :: str[i] == ':' && ':' !in str[..i] && (i == |str| - 1 || str[i + 1] == ' ') {
      var i :| 0 <= i < |str| && str[i] == ':' && ':' !in str[..i] && (i == |str| - 1 || str[i + 1] == ' ');
      assert pos == i;
    }
  }

  // ---------------------------------------------------------------------
  // SplitIntoElements (parser.go:238-275)

  /** A line the classifier can take: non-empty, and an at-rule line that is
      not a variable has the seven characters `str[:7]` slices. */
  predicate Classifiable(str: string) {
    str != "" && (IsAtRule(str) && !IsVariable(str) ==> |str| >= 7)
  }

  /** The classifier's state between lines. */
  datatype ClassState = ClassState(inDeclaration: bool, level: int)

  /** The kind a line gets, the tests taken in the classifier's order. */
  function KindOf(str: string, inDeclaration: bool): ElementType
    requires Classifiable(str)
  {
    if IsVariable(str) then Variable
    else if IsAtRule(str) then (if str[..7] == "@import" then Import else AtRule)
    else if IsDeclarationStart(str) then Declaration
    else if str == "{" then OpenBrace
    else if str == "}" then CloseBrace
    else if inDeclaration then Declaration
    else if EndsWithSemiColon(str) then Mixin
    else Selector
  }

  /** One iteration: the element for line `l` and the state after it. */
  function ClassifyStep(st: ClassState, l: Line): (Element, ClassState)
    requires Classifiable(l.text)
  {
    var str := l.text;
    match KindOf(str, st.inDeclaration)
    case OpenBrace => (Element(str, OpenBrace, l.number, st.level + 1), st.(level := st.level + 1))
    case CloseBrace => (Element(str, CloseBrace, l.number, st.level), st.(level := st.level - 1))
    case Declaration =>
      (Element(str, Declaration, l.number, 0), st.(inDeclaration := !EndsWithSemiColon(str)))
    case k => (Element(str, k, l.number, 0), st)
  }

  predicate AllClassifiable(ls: seq<Line>) {
    forall l <- ls :: Classifiable(l.text)
  }

  /** The elements for the lines `ls` and the state after them. */
  function ClassifyFold(ls: seq<Line>): (seq<Element>, ClassState)
    requires AllClassifiable(ls)
  {
    if ls == [] then ([], ClassState(false, 0))
    else
      var (es, st) := ClassifyFold(ls[..|ls| - 1]);
      var (e, st') := ClassifyStep(st, ls[|ls| - 1]);
      (es + [e], st')
  }

  function Classify(ls: seq<Line>): seq<Element>
    requires AllClassifiable(ls)
  {
    ClassifyFold(ls).0
  }

  method SplitIntoElements(ls: seq<Line>) returns (out: seq<Element>)
    requires AllClassifiable(ls)
    ensures out == Classify(ls)
  {
    var elements := new Elements();
    var inDeclaration := false;
    var level := 0;
    var i := 0;
    while i < |ls|
      invariant 0 <= i <= |ls|
      invariant (elements.items, ClassState(inDeclaration, level)) == ClassifyFold(ls[..i])
    {
      PrefixStep(ls, i);
      inDeclaration, level := ClassifyLine(elements, ls[i], inDeclaration, level);
      i := i + 1;
    }
    PrefixAll(ls);
    out := elements.items;
  }

  /** The body of the loop in `SplitIntoElements` for one line. */
  method ClassifyLine(elements: Elements, l: Line, inDeclaration0: bool, level0: int)
    returns (inDeclaration: bool, level: int)
    requires Classifiable(l.text)
    modifies elements
    ensures elements.items == old(elements.items) + [ClassifyStep(ClassState(inDeclaration0, level0), l).0]
    ensures ClassState(inDeclaration, level) == ClassifyStep(ClassState(inDeclaration0, level0), l).1
  {
    inDeclaration, level := inDeclaration0, level0;
    var str := l.text;
    if IsVariable(str) {
      elements.Add(str, Variable, l.number);
    } else if IsAtRule(str) {
      if str[..7] == "@import" {
        elements.Add(str, Import, l.number);
      } else {
        elements.Add(str, AtRule, l.number);
      }
    } else if IsDeclarationStart(str) {
      elements.Add(str, Declaration, l.number);
      inDeclaration := !EndsWithSemiColon(str);
    } else if str == "{" {
      level := level + 1;
      elements.AddLevel(str, OpenBrace, l.number, level);
    } else if str == "}" {
      elements.AddLevel(str, CloseBrace, l.number, level);
      level := level - 1;
    } else if inDeclaration {
      elements.Add(str, Declaration, l.number);
      inDeclaration := !EndsWithSemiColon(str);
    } else if EndsWithSemiColon(str) {
      elements.Add(str, Mixin, l.number);
    } else {
      elements.Add(str, Selector, l.number);
    }
  }

  // ---------------------------------------------------------------------
  // properties

  /** The kinds, test by test: `@` lines are variables, imports or at-rules;
      another line that starts a declaration is a declaration; `{` and `}`
      lines are braces whatever the state; the state only
      decides between a continued declaration, a mixin call and a selector. */
  lemma KindOfCases(str: string, inDeclaration: bool)
    requires Classifiable(str)
    ensures KindOf(str, inDeclaration) == Variable <==> IsVariable(str)
    ensures KindOf(str, inDeclaration) == Import <==> !IsVariable(str) && str[0] == '@' && HasPrefix(str, "@import")
    ensures KindOf(str, inDeclaration) in {Variable, Import, AtRule} <==> str[0] == '@'
    ensures KindOf(str, inDeclaration) == OpenBrace <==> str == "{"
    ensures KindOf(str, inDeclaration) == CloseBrace <==> str == "}"
    ensures str[0] != '@' && IsDeclarationStart(str) ==> KindOf(str, inDeclaration) == Declaration
    ensures str[0] != '@' && !IsDeclarationStart(str) && str != "{" && str != "}" ==>
      KindOf(str, inDeclaration) ==
        (if inDeclaration then Declaration else if str[|str| - 1] == ';' then Mixin else Selector)
  {
    if str == "{" || str == "}" {
      assert IndexChar(str, ':') < 0;
      assert !IsDeclarationStart(str);
    }
    if IsVariable(str) {
      assert str[0] == '@';
    }
  }

  /** The nesting depth after the lines `ls`: opening minus closing braces. */
  function Depth(ls: seq<Line>): int {
    if ls == [] then 0
    else
      var l := ls[|ls| - 1];
      Depth(ls[..|ls| - 1]) + (if l.text == "{" then 1 else if l.text == "}" then -1 else 0)
  }

  /** Whether the last declaration element among `es`, if any, lacks its
      closing `;` (so the next plain line continues it). */
  function OpenDeclaration(es: seq<Element>): bool
    requires forall e <- es :: e.text != ""
  {
    if es == [] then false
    else
      var e := es[|es| - 1];
      if e.kind == Declaration then e.text[|e.text| - 1] != ';'
      else OpenDeclaration(es[..|es| - 1])
  }

  /** What one step does to the element's kind and level and to the state. */
  lemma ClassifyStepFacts(st: ClassState, l: Line)
    requires Classifiable(l.text)
    ensures var (e, st') := ClassifyStep(st, l);
      && e.text == l.text && e.line == l.number
      && (e.kind == OpenBrace <==> l.text == "{")
      && (e.kind == CloseBrace <==> l.text == "}")
      && e.level == (if l.text == "{" then st.level + 1 else if l.text == "}" then st.level else 0)
      && st'.level == st.level + (if l.text == "{" then 1 else if l.text == "}" then -1 else 0)
      && st'.inDeclaration == (if e.kind == Declaration then l.text[|l.text| - 1] != ';' else st.inDeclaration)
  {
    KindOfCases(l.text, st.inDeclaration);
  }

  /** One element per line, with the line's text and number. */
  lemma {:induction false} ClassifyLines(ls: seq<Line>)
    requires AllClassifiable(ls)
    ensures |Classify(ls)| == |ls|
    ensures forall i :: 0 <= i < |ls| ==>
      Classify(ls)[i].text == ls[i].text && Classify(ls)[i].line == ls[i].number
  {
    if ls != [] {
      var init := ls[..|ls| - 1];
      assert AllClassifiable(init);
      ClassifyLines(init);
    }
  }

  /** Braces are exactly the `{` and `}` lines; an opening brace records the
      depth it opens and a closing brace the depth it closes, every other
      element level 0, and the state ends at the depth of all the lines. */
  lemma {:induction false} ClassifyLevels(ls: seq<Line>)
    requires AllClassifiable(ls)
    ensures var (es, st) := ClassifyFold(ls);
      && |es| == |ls|
      && (forall i :: 0 <= i < |ls| ==> (es[i].kind == OpenBrace <==> ls[i].text == "{"))
      && (forall i :: 0 <= i < |ls| ==> (es[i].kind == CloseBrace <==> ls[i].text == "}"))
      && (forall i :: 0 <= i < |ls| ==> es[i].level == BraceLevel(ls, i))
      && st.level == Depth(ls)
  {
    if ls != [] {
      var init := ls[..|ls| - 1];
      var l := ls[|ls| - 1];
      assert AllClassifiable(init);
      ClassifyLevels(init);
      var (es, st) := ClassifyFold(init);
      var (e, st') := ClassifyStep(st, l);
      ClassifyStepFacts(st, l);
      assert ClassifyFold(ls) == (es + [e], st');
      var es' := es + [e];
      forall i | 0 <= i < |ls|
        ensures (es'[i].kind == OpenBrace <==> ls[i].text == "{")
        ensures (es'[i].kind == CloseBrace <==> ls[i].text == "}")
        ensures es'[i].level == BraceLevel(ls, i)
      {
        if i < |init| {
          assert ls[..i] == init[..i];
          assert es'[i] == es[i] && ls[i] == init[i];
          assert BraceLevel(ls, i) == BraceLevel(init, i);
        } else {
          assert ls[..i] == init;
        }
      }
    }
  }

  /** The level the classifier gives the element of line `i`. */
  function BraceLevel(ls: seq<Line>, i: nat): int
    requires i < |ls|
  {
    if ls[i].text == "{" then Depth(ls[..i]) + 1
    else if ls[i].text == "}" then Depth(ls[..i])
    else 0
  }

  /** The multi-line flag after the lines `ls` is set exactly when the last
      declaration so far does not end in `;`. */
  lemma {:induction false} ClassifyContinuation(ls: seq<Line>)
    requires AllClassifiable(ls)
    ensures forall e <- Classify(ls) :: e.text != ""
    ensures ClassifyFold(ls).1.inDeclaration == OpenDeclaration(Classify(ls))
  {
    if ls != [] {
      var init := ls[..|ls| - 1];
      var l := ls[|ls| - 1];
      assert AllClassifiable(init);
      ClassifyContinuation(init);
      var (es, st) := ClassifyFold(init);
      var (e, st') := ClassifyStep(st, l);
      ClassifyStepFacts(st, l);
      assert (es + [e])[..|es|] == es;
    }
  }
}
