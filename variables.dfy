/**
 * The variable resolver (variables.go; tree.go:54-60, 148-158, 289-311,
 * 358-380). Every node gets a fresh table filled from its direct variable
 * children, whose parent is the table of the node above; the node's own
 * text is then substituted, and its children are visited with the new
 * table as their parent. A run stops at the first failure.
 *
 * The Go tables are linked by `Parent` pointers and never change once
 * their node's children are visited, so the chain above a table is held
 * here as a value, `Scope`.
 */
module Variables {
  import opened Strings
  import opened Diagnostics
  import opened VariableRefs
  import opened Nodes

  /** The tables above a node, innermost first; `Global` stands for the nil
      parent of the root's table. */
  datatype Scope = Global | Local(items: map<string, string>, parent: Scope)

  /** `VariablesCollection.Get` on the chain: a non-empty local value, else
      the parent's answer, else "". */
  function Lookup(s: Scope, name: string): string {
    match s
    case Global => ""
    case Local(items, parent) =>
      if name in items && items[name] != "" then items[name] else Lookup(parent, name)
  }

  /** The tables of the chain, innermost first. */
  function Tables(s: Scope): seq<map<string, string>> {
    match s
    case Global => []
    case Local(items, parent) => [items] + Tables(parent)
  }

  /** A name has a non-empty value in some table. */
  predicate BoundSomewhere(s: Scope, name: string) {
    exists k :: 0 <= k < |Tables(s)| && name in Tables(s)[k] && Tables(s)[k][name] != ""
  }

  /** An empty value never shadows: the answer is "" exactly when no table
      of the chain holds a non-empty value, and otherwise it is the value
      of the innermost table that holds one. */
  lemma {:induction false} LookupChain(s: Scope, name: string)
    ensures Lookup(s, name) == "" <==> !BoundSomewhere(s, name)
    ensures Lookup(s, name) != "" ==> exists k :: (0 <= k < |Tables(s)|
      && name in Tables(s)[k] && Tables(s)[k][name] == Lookup(s, name)
      && forall j :: 0 <= j < k ==> name !in Tables(s)[j] || Tables(s)[j][name] == "")
  {
    match s
    case Global =>
    case Local(items, parent) =>
      LookupChain(parent, name);
      var ts := Tables(s);
      assert ts[1..] == Tables(parent);
      if name in items && items[name] != "" {
        assert ts[0] == items;
      } else {
        if BoundSomewhere(s, name) {
          var k :| 0 <= k < |ts| && name in ts[k] && ts[k][name] != "";
          assert k > 0 && Tables(parent)[k - 1] == ts[k];
        }
        if Lookup(parent, name) != "" {
          var k :| 0 <= k < |Tables(parent)| && name in Tables(parent)[k]
            && Tables(parent)[k][name] == Lookup(parent, name)
            && forall j :: 0 <= j < k ==> name !in Tables(parent)[j] || Tables(parent)[j][name] == "";
          assert ts[k + 1] == Tables(parent)[k];
          forall j | 0 <= j < k + 1
            ensures name !in ts[j] || ts[j][name] == ""
          {
            if j > 0 {
              assert ts[j] == Tables(parent)[j - 1];
            }
          }
        }
      }
  }

  // ---------------------------------------------------------------------
  // Reading a node's variables (variables.go:52-56, tree.go:148-158)

  /** The two parts of a definition: its text split at its only `:`. */
  predicate Definition(c: Node) {
    c.VariableNode? && |Split(c.text, ':')| == 2
  }

  /** The name a definition sets: the first part trimmed, without `@`. */
  function DefinedName(c: Node): string
    requires Definition(c)
  {
    TrimPrefix(TrimSpace(Split(c.text, ':')[0]), "@")
  }

  /** The value a definition sets: the second part trimmed, without `;`. */
  function DefinedValue(c: Node): string
    requires Definition(c)
  {
    TrimSuffix(TrimSpace(Split(c.text, ':')[1]), ";")
  }

  /** `GetVariable`: a definition sets its name; everything else, and a
      variable text with no `:` or more than one, sets nothing. */
  function Define(items: map<string, string>, c: Node): map<string, string> {
    if Definition(c) then items[DefinedName(c) := DefinedValue(c)] else items
  }

  /** `Read`: the children's definitions applied in order. */
  function DefineAll(items: map<string, string>, cs: seq<Node>): map<string, string> {
    if cs == [] then items else Define(DefineAll(items, cs[..|cs| - 1]), cs[|cs| - 1])
  }

  /** The table of a node whose children are `cs`. */
  function Variables(cs: seq<Node>): map<string, string> {
    DefineAll(map[], cs)
  }

  /** A variable child counts as a definition exactly when its text holds
      one `:`. */
  lemma DefinitionIff(c: Node)
    requires c.VariableNode?
    ensures Definition(c) <==> Count(':', c.text) == 1
  {
    SplitCount(c.text, ':');
  }

  /** The last definition of a name wins. */
  lemma {:induction false} LastDefinitionWins(items: map<string, string>, cs: seq<Node>, k: nat)
    requires k < |cs| && Definition(cs[k])
    requires forall j :: k < j < |cs| ==> !Definition(cs[j]) || DefinedName(cs[j]) != DefinedName(cs[k])
    ensures DefinedName(cs[k]) in DefineAll(items, cs)
    ensures DefineAll(items, cs)[DefinedName(cs[k])] == DefinedValue(cs[k])
    decreases |cs|
  {
    var front := cs[..|cs| - 1];
    if k < |cs| - 1 {
      assert front[k] == cs[k];
      LastDefinitionWins(items, front, k);
    }
  }

  /** A name no child defines keeps the value it had before. */
  lemma {:induction false} UndefinedKept(items: map<string, string>, cs: seq<Node>, name: string)
    requires forall j :: 0 <= j < |cs| ==> !Definition(cs[j]) || DefinedName(cs[j]) != name
    ensures (name in DefineAll(items, cs)) == (name in items)
    ensures name in items ==> DefineAll(items, cs)[name] == items[name]
    decreases |cs|
  {
    if cs != [] {
      var front := cs[..|cs| - 1];
      assert forall j :: 0 <= j < |front| ==> front[j] == cs[j];
      UndefinedKept(items, front, name);
    }
  }

  /** A value with a second `:` (a URL, say) defines nothing. */
  lemma SecondColonIgnored()
    ensures !Definition(VariableNode("@u: a:b;", 1, false))
  {
    SplitCount("@u: a:b;", ':');
    assert Count(':', "@u: a:b;") == 2;
  }

  /** The Go table: a fixed parent chain and the items read so far. */
  class VariablesCollection {
    const parent: Scope
    var items: map<string, string>

    /** `NewVariablesCollection`: an empty table below `parent`. */
    constructor (parent: Scope)
      ensures this.parent == parent && items == map[]
    {
      this.parent := parent;
      items := map[];
    }

    /** This table with the chain above it. */
    function Chain(): Scope
      reads this
    {
      Local(items, parent)
    }

    /** `Get`: the local value if it is non-empty, else the parent's. */
    function Get(name: string): (value: string)
      reads this
      ensures name in items && items[name] != "" ==> value == items[name]
      ensures name !in items || items[name] == "" ==> value == Lookup(parent, name)
    {
      Lookup(Chain(), name)
    }

    /** `Set`: one entry set, overwriting an earlier value. */
    method Set(name: string, value: string)
      modifies this
      ensures items == old(items)[name := value]
    {
      items := items[name := value];
    }

    /** `VariableNode.GetVariable` (and the no-op of the other kinds). */
    method GetVariable(c: Node)
      modifies this
      ensures items == Define(old(items), c)
    {
      if c.VariableNode? {
        var parts := Split(c.text, ':');
        if |parts| != 2 {
          return;
        }
        var name := TrimPrefix(TrimSpace(parts[0]), "@");
        var value := TrimSuffix(TrimSpace(parts[1]), ";");
        Set(name, value);
      }
    }

    /** `Read`: each child's definition in order; a nil child crashes it
        (`ok` is false, and the table holds what was read before it). */
    method Read(n: Node) returns (ok: bool)
      modifies this
      ensures ok <==> Nil !in Children(n)
      ensures ok ==> items == DefineAll(old(items), Children(n))
    {
      var children := Children(n);
      for i := 0 to |children|
        invariant items == DefineAll(old(items), children[..i])
        invariant Nil !in children[..i]
      {
        if children[i].Nil? {
          assert children[i] in children;
          return false;
        }
        assert children[..i + 1][..i] == children[..i];
        GetVariable(children[i]);
        assert children[..i + 1] == children[..i] + [children[i]];
      }
      assert children[..|children|] == children;
      return true;
    }
  }

  // ---------------------------------------------------------------------
  // Substitution in a text (tree.go:289-311, 358-380)

  /** The substitution loop, given at most `fuel` rounds: the leftmost
      `@name` is replaced by its value and the text is scanned again from
      the start, until no reference is left. */
  function Substitute(text: string, s: Scope, line: int, fuel: nat): Result<string>
    decreases fuel
  {
    match FindRef(text)
    case None => Success(text)
    case Some((a, b)) =>
      var name := RefName(text, a, b);
      var value := Lookup(s, name);
      if value == "" then Failure(VariableNotFound(line, name))
      else if fuel == 0 then Failure(EndlessSubstitution(line))
      else Substitute(Splice(text, a, b, value), s, line, fuel - 1)
  }

  /** `text[0:start] + value + text[end:]`. */
  function Splice(text: string, a: nat, b: nat, value: string): string
    requires a <= b <= |text|
  {
    text[..a] + value + text[b..]
  }

  /** The loop of `DeclarationNode.ReplaceVariables`. */
  method ReplaceText(original: string, variables: VariablesCollection, line: int, fuel: nat)
    returns (r: Result<string>)
    ensures r == Substitute(original, variables.Chain(), line, fuel)
  {
    ghost var scope := variables.Chain();
    var text := original;
    var rounds := fuel;
    while true
      invariant Substitute(text, scope, line, rounds) == Substitute(original, scope, line, fuel)
      decreases rounds
    {
      var found := FindRef(text);
      if found.None? {
        return Success(text);
      }
      var start := found.value.0;
      var end := found.value.1;
      var name := text[start + 1..end];
      var value := variables.Get(name);
      if value == "" {
        return Failure(VariableNotFound(line, name));
      }
      if rounds == 0 {
        return Failure(EndlessSubstitution(line));
      }
      RoundStep(text, scope, line, rounds);
      text := Splice(text, start, end, value);
      rounds := rounds - 1;
    }
  }

  /** A round that replaces a reference leaves the rest of the loop to the
      new text. */
  lemma RoundStep(text: string, s: Scope, line: int, fuel: nat)
    requires Pending(text, s) && fuel > 0
    ensures Substitute(text, s, line, fuel) == Substitute(NextText(text, s), s, line, fuel - 1)
  {
  }

  /** A substitution that succeeds leaves no reference behind. */
  lemma {:induction false} SubstituteComplete(text: string, s: Scope, line: int, fuel: nat)
    requires Substitute(text, s, line, fuel).Success?
    ensures FindRef(Substitute(text, s, line, fuel).value).None?
    decreases fuel
  {
    match FindRef(text)
    case None =>
    case Some((a, b)) =>
      SubstituteComplete(Splice(text, a, b, Lookup(s, RefName(text, a, b))), s, line, fuel - 1);
  }

  /** A missing variable is reported with the node's line and a name that
      has no non-empty value anywhere in the chain. */
  lemma {:induction false} SubstituteMissing(text: string, s: Scope, line: int, fuel: nat)
    requires Substitute(text, s, line, fuel).Failure?
    ensures var e := Substitute(text, s, line, fuel).error;
      (e.VariableNotFound? && e.line == line && !BoundSomewhere(s, e.name))
      || e == EndlessSubstitution(line)
    decreases fuel
  {
    match FindRef(text)
    case None =>
    case Some((a, b)) =>
      var name := RefName(text, a, b);
      LookupChain(s, name);
      if Lookup(s, name) != "" && fuel > 0 {
        SubstituteMissing(Splice(text, a, b, Lookup(s, name)), s, line, fuel - 1);
      }
  }

  /** A value that refers to its own name is substituted forever: no
      number of rounds is enough. */
  lemma {:induction false} SelfReference(s: Scope, line: int, fuel: nat)
    requires Lookup(s, "a") == "@a"
    ensures Substitute("@a", s, line, fuel) == Failure(EndlessSubstitution(line))
    decreases fuel
  {
    var text := "@a";
    assert StartsRef(text, 0);
    assert FindRef(text) == Some((0, 2));
    assert RefName(text, 0, 2) == "a";
    assert Splice(text, 0, 2, "@a") == text;
    if fuel > 0 {
      SelfReference(s, line, fuel - 1);
    }
  }

  /** No table holds a value with an `@`. */
  predicate AtFree(s: Scope) {
    match s
    case Global => true
    case Local(items, parent) => (forall k <- items :: '@' !in items[k]) && AtFree(parent)
  }

  lemma {:induction false} LookupAtFree(s: Scope, name: string)
    requires AtFree(s)
    ensures '@' !in Lookup(s, name)
  {
    match s
    case Global =>
    case Local(items, parent) =>
      if !(name in items && items[name] != "") {
        LookupAtFree(parent, name);
      }
  }

  /** The leftmost reference has a non-empty value, so a round replaces it. */
  predicate Pending(text: string, s: Scope) {
    FindRef(text).Some? && Lookup(s, RefName(text, FindRef(text).value.0, FindRef(text).value.1)) != ""
  }

  /** The text after that round. */
  function NextText(text: string, s: Scope): string
    requires FindRef(text).Some?
  {
    var m := FindRef(text).value;
    Splice(text, m.0, m.1, Lookup(s, RefName(text, m.0, m.1)))
  }

  /** A result that is not the cut-off of the fuel bound: what the Go loop
      computes as well. */
  predicate Ended<T>(r: Result<T>) {
    !(r.Failure? && r.error.EndlessSubstitution?)
  }

  /** More rounds change nothing once the substitution has ended: a result
      that did not run out of fuel is the result for every larger fuel, so
      it is the one the unbounded Go loop reaches. */
  lemma {:induction false} SubstituteMonotone(text: string, s: Scope, line: int, f: nat, g: nat)
    requires f <= g && Ended(Substitute(text, s, line, f))
    ensures Substitute(text, s, line, g) == Substitute(text, s, line, f)
    decreases f
  {
    match FindRef(text)
    case None =>
    case Some((a, b)) =>
      var value := Lookup(s, RefName(text, a, b));
      if value != "" && f > 0 {
        SubstituteMonotone(Splice(text, a, b, value), s, line, f - 1, g - 1);
      }
  }

  /** When no value holds an `@`, every round removes one `@`, so as many
      rounds as the text has `@`s are enough: the loop ends without
      running out. */
  lemma SubstituteEnds(text: string, s: Scope, line: int, fuel: nat)
    requires AtFree(s) && fuel >= Count('@', text)
    ensures Substitute(text, s, line, fuel) != Failure(EndlessSubstitution(line))
    decreases fuel
  {
    EndsStep(text, s, line, fuel);
  }

  /** One round of `SubstituteEnds`. */
  lemma EndsStep(text: string, s: Scope, line: int, fuel: nat)
    requires AtFree(s) && fuel >= Count('@', text)
    ensures !Pending(text, s) ==> Substitute(text, s, line, fuel) != Failure(EndlessSubstitution(line))
    ensures Pending(text, s) ==> (fuel >= 1 && fuel - 1 >= Count('@', NextText(text, s))
      && Substitute(text, s, line, fuel) == Substitute(NextText(text, s), s, line, fuel - 1))
  {
    if Pending(text, s) {
      var m := FindRef(text).value;
      LookupAtFree(s, RefName(text, m.0, m.1));
      RoundRemovesAt(text, m.0, m.1, Lookup(s, RefName(text, m.0, m.1)));
    }
  }

  /** Replacing a match by a value without `@` removes exactly one `@`. */
  lemma RoundRemovesAt(text: string, a: nat, b: nat, value: string)
    requires IsMatch(text, a, b) && '@' !in value
    ensures Count('@', Splice(text, a, b, value)) + 1 == Count('@', text)
  {
    var name := text[a + 1..b];
    assert text == text[..a] + ([text[a]] + name) + text[b..];
    assert '@' !in name by {
      forall j | 0 <= j < |name| ensures name[j] != '@' {
        assert NameChar(text[a + 1 + j]);
      }
    }
    CountAppend('@', text[..a] + ([text[a]] + name), text[b..]);
    CountAppend('@', text[..a], [text[a]] + name);
    CountAppend('@', [text[a]], name);
    CountAppend('@', text[..a] + value, text[b..]);
    CountAppend('@', text[..a], value);
  }

  // ---------------------------------------------------------------------
  // ReplaceVariables on one node (tree.go:58-60, 289-311, 358-380)

  /** Declarations substitute their text; at-rules their text after its
      first character (the `@`), which is put back as `@`; an at-rule with
      an empty text crashes the Go slice; the other kinds change nothing. */
  function Replace(n: Node, s: Scope, fuel: nat): (r: Result<Node>)
    ensures r.Success? ==> Children(r.value) == Children(n)
  {
    match n
    case DeclarationNode(text, line) =>
      (match Substitute(text, s, line, fuel)
       case Failure(e) => Failure(e)
       case Success(t) => Success(DeclarationNode(t, line)))
    case AtRuleNode(text, ps, cs, line, hidden) =>
      if text == "" then Failure(Panic)
      else
        (match Substitute(text[1..], s, line, fuel)
         case Failure(e) => Failure(e)
         case Success(t) => Success(AtRuleNode("@" + t, ps, cs, line, hidden)))
    case _ => Success(n)
  }

  /** `ReplaceVariables` of each kind. */
  method ReplaceVariables(n: Node, variables: VariablesCollection, fuel: nat) returns (r: Result<Node>)
    ensures r == Replace(n, variables.Chain(), fuel)
  {
    match n
    case DeclarationNode(text, line) =>
      var t := ReplaceText(text, variables, line, fuel);
      if t.Failure? {
        return Failure(t.error);
      }
      return Success(DeclarationNode(t.value, line));
    case AtRuleNode(text, ps, cs, line, hidden) =>
      if text == "" {
        return Failure(Panic);
      }
      var t := ReplaceText(text[1..], variables, line, fuel);
      if t.Failure? {
        return Failure(t.error);
      }
      return Success(AtRuleNode("@" + t.value, ps, cs, line, hidden));
    case _ =>
      return Success(n);
  }

  // ---------------------------------------------------------------------
  // The walk (variables.go:5-26)

  /** `RecursiveResolveVariables` below the chain `parent`: a nil node, or
      a nil child read into the table, crashes; then the node's text, then
      each child below the node's table, stopping at the first failure. */
  function Resolve(n: Node, parent: Scope, fuel: nat): Result<Node>
    decreases n, 1
  {
    if n.Nil? || Nil in Children(n) then Failure(Panic)
    else
      var s := Local(Variables(Children(n)), parent);
      match Replace(n, s, fuel)
      case Failure(e) => Failure(e)
      case Success(m) =>
        if !IsBlock(n) then Success(m)
        else
          match ResolveAll(n.children, |n.children|, s, fuel)
          case Failure(e) => Failure(e)
          case Success(cs) => Success(WithChildren(m, cs))
  }

  /** The first `k` children resolved in order, stopping at the first failure. */
  function ResolveAll(cs: seq<Node>, k: nat, s: Scope, fuel: nat): Result<seq<Node>>
    requires k <= |cs|
    decreases cs, 0, k
  {
    if k == 0 then Success([])
    else
      match ResolveAll(cs, k - 1, s, fuel)
      case Failure(e) => Failure(e)
      case Success(done) =>
        match Resolve(cs[k - 1], s, fuel)
        case Failure(e) => Failure(e)
        case Success(c) => Success(done + [c])
  }

  /** `ResolveVariables`: the root's table has no parent. */
  function ResolveTree(root: Node, fuel: nat): Result<Node> {
    Resolve(root, Global, fuel)
  }

  method RecursiveResolveVariables(n: Node, parent: Scope, fuel: nat) returns (r: Result<Node>)
    ensures r == Resolve(n, parent, fuel)
    decreases n, 1
  {
    if n.Nil? {
      return Failure(Panic);
    }
    var variables := new VariablesCollection(parent);
    var ok := variables.Read(n);
    if !ok {
      return Failure(Panic);
    }
    var replaced := ReplaceVariables(n, variables, fuel);
    if replaced.Failure? || !IsBlock(n) {
      return replaced;
    }
    var children := ResolveChildren(n.children, variables.Chain(), fuel);
    if children.Failure? {
      return Failure(children.error);
    }
    return Success(WithChildren(replaced.value, children.value));
  }

  /** The loop of `RecursiveResolveVariables` over the children. */
  method ResolveChildren(cs: seq<Node>, s: Scope, fuel: nat) returns (r: Result<seq<Node>>)
    ensures r == ResolveAll(cs, |cs|, s, fuel)
    decreases cs, 0
  {
    var done: seq<Node> := [];
    for i := 0 to |cs|
      invariant ResolveAll(cs, i, s, fuel) == Success(done)
    {
      var child := RecursiveResolveVariables(cs[i], s, fuel);
      if child.Failure? {
        ResolveAllFailure(cs, i + 1, s, fuel);
        return Failure(child.error);
      }
      done := done + [child.value];
    }
    return Success(done);
  }

  /** A failure among the first `k` children is the failure of them all. */
  lemma {:induction false} ResolveAllFailure(cs: seq<Node>, k: nat, s: Scope, fuel: nat)
    requires k <= |cs| && ResolveAll(cs, k, s, fuel).Failure?
    ensures ResolveAll(cs, |cs|, s, fuel) == ResolveAll(cs, k, s, fuel)
    decreases |cs| - k
  {
    if k < |cs| {
      ResolveAllFailure(cs, k + 1, s, fuel);
    }
  }

  // ---------------------------------------------------------------------
  // properties of the walk

  /** The tree with declaration and at-rule texts blanked out: what the
      walk must not change. */
  function Blank(n: Node): Node
    decreases n
  {
    match n
    case RootNode(cs, hidden) => RootNode(BlankAll(cs), hidden)
    case SelectorNode(sel, merged, cs, line, hidden) => SelectorNode(sel, merged, BlankAll(cs), line, hidden)
    case AtRuleNode(_, ps, cs, line, hidden) => AtRuleNode("", ps, BlankAll(cs), line, hidden)
    case DeclarationNode(_, line) => DeclarationNode("", line)
    case _ => n
  }

  function BlankAll(cs: seq<Node>): (r: seq<Node>)
    ensures |r| == |cs|
    decreases cs
  {
    if cs == [] then [] else [Blank(cs[0])] + BlankAll(cs[1..])
  }

  /** No reference left in a declaration, none after an at-rule's `@`,
      and no nil anywhere. */
  predicate Resolved(n: Node)
    decreases n
  {
    match n
    case Nil => false
    case DeclarationNode(text, _) => FindRef(text).None?
    case AtRuleNode(text, _, cs, _, _) =>
      text != "" && text[0] == '@' && FindRef(text[1..]).None? && forall c <- cs :: Resolved(c)
    case RootNode(cs, _) => forall c <- cs :: Resolved(c)
    case SelectorNode(_, _, cs, _, _) => forall c <- cs :: Resolved(c)
    case _ => true
  }

  lemma {:induction false} ResolvedNilFree(n: Node)
    requires Resolved(n)
    ensures NilFree(n)
    decreases n
  {
    if IsBlock(n) {
      forall c | c in n.children ensures NilFree(c) {
        ResolvedNilFree(c);
      }
    }
  }

  /** A successful walk leaves the tree as it was but for the declaration
      and at-rule texts, leaves no reference in them, and leaves no nil:
      the passes after it may assume a nil-free tree. */
  lemma {:induction false} ResolveSpec(n: Node, parent: Scope, fuel: nat)
    requires Resolve(n, parent, fuel).Success?
    ensures Blank(Resolve(n, parent, fuel).value) == Blank(n)
    ensures Resolved(Resolve(n, parent, fuel).value)
    ensures NilFree(Resolve(n, parent, fuel).value)
    decreases n, 1
  {
    var s := Local(Variables(Children(n)), parent);
    if IsBlock(n) {
      var cs := n.children;
      ResolveAllSpec(cs, |cs|, s, fuel);
      assert cs[..|cs|] == cs;
      ReplaceKeeps(n, s, fuel, ResolveAll(cs, |cs|, s, fuel).value);
    } else {
      ReplaceKeeps(n, s, fuel, []);
    }
    ResolvedNilFree(Resolve(n, parent, fuel).value);
  }

  /** A node rebuilt from its substituted text and its resolved children. */
  lemma ReplaceKeeps(n: Node, s: Scope, fuel: nat, rs: seq<Node>)
    requires !n.Nil? && Replace(n, s, fuel).Success?
    requires BlankAll(rs) == BlankAll(Children(n)) && forall c <- rs :: Resolved(c)
    ensures Blank(WithChildren(Replace(n, s, fuel).value, rs)) == Blank(n)
    ensures Resolved(WithChildren(Replace(n, s, fuel).value, rs))
  {
    match n
    case DeclarationNode(text, line) =>
      SubstituteComplete(text, s, line, fuel);
    case AtRuleNode(text, ps, _, line, hidden) =>
      SubstituteComplete(text[1..], s, line, fuel);
      var t := Substitute(text[1..], s, line, fuel).value;
      assert ("@" + t)[1..] == t;
    case _ =>
  }

  /** The children resolved one by one: each result keeps its child's
      shape and is resolved. */
  lemma {:induction false} ResolveAllSpec(cs: seq<Node>, k: nat, s: Scope, fuel: nat)
    requires k <= |cs| && ResolveAll(cs, k, s, fuel).Success?
    ensures |ResolveAll(cs, k, s, fuel).value| == k
    ensures BlankAll(ResolveAll(cs, k, s, fuel).value) == BlankAll(cs[..k])
    ensures forall c <- ResolveAll(cs, k, s, fuel).value :: Resolved(c)
    decreases cs, 0, k
  {
    if k > 0 {
      ResolveAllSpec(cs, k - 1, s, fuel);
      ResolveSpec(cs[k - 1], s, fuel);
      var done := ResolveAll(cs, k - 1, s, fuel).value;
      var c := Resolve(cs[k - 1], s, fuel).value;
      BlankAllSnoc(done, c);
      BlankAllSnoc(cs[..k - 1], cs[k - 1]);
      assert cs[..k] == cs[..k - 1] + [cs[k - 1]];
    }
  }

  lemma {:induction false} BlankAllSnoc(cs: seq<Node>, c: Node)
    ensures BlankAll(cs + [c]) == BlankAll(cs) + [Blank(c)]
    decreases cs
  {
    if cs == [] {
      assert [c][1..] == [];
    } else {
      assert (cs + [c])[1..] == cs[1..] + [c];
      BlankAllSnoc(cs[1..], c);
    }
  }

  /** Each child is resolved below the table of its parent's own variable
      children and nothing else: its siblings' subtrees add nothing to
      it, and what a child defines stays inside that child. */
  lemma {:induction false} ChildScope(cs: seq<Node>, k: nat, s: Scope, fuel: nat, i: nat)
    requires i < k <= |cs| && ResolveAll(cs, k, s, fuel).Success?
    ensures Resolve(cs[i], s, fuel).Success? && |ResolveAll(cs, k, s, fuel).value| == k
    ensures ResolveAll(cs, k, s, fuel).value[i] == Resolve(cs[i], s, fuel).value
    decreases k
  {
    ResolveAllSpec(cs, k - 1, s, fuel);
    if i < k - 1 {
      ChildScope(cs, k - 1, s, fuel, i);
    }
  }

  /** A declaration child is substituted below its parent's table. */
  lemma DeclarationScope(n: Node, parent: Scope, fuel: nat, i: nat)
    requires Resolve(n, parent, fuel).Success?
    requires i < |Children(n)| && Children(n)[i].DeclarationNode?
    ensures |Children(Resolve(n, parent, fuel).value)| == |Children(n)|
    ensures var d := Children(n)[i];
      Substitute(d.text, Local(map[], Local(Variables(Children(n)), parent)), d.line, fuel).Success?
      && Children(Resolve(n, parent, fuel).value)[i] ==
        DeclarationNode(Substitute(d.text, Local(map[], Local(Variables(Children(n)), parent)), d.line, fuel).value, d.line)
  {
    var cs := Children(n);
    var s := Local(Variables(cs), parent);
    ChildScope(cs, |cs|, s, fuel, i);
    ResolveSpec(n, parent, fuel);
    var d := cs[i];
    assert Variables(Children(d)) == map[];
  }

  /** An at-rule's header is substituted below a table that already holds
      the variables defined inside its own block. */
  lemma AtRuleScope(n: Node, parent: Scope, fuel: nat)
    requires n.AtRuleNode? && n.text != "" && Resolve(n, parent, fuel).Success?
    ensures var s := Local(Variables(n.children), parent);
      Substitute(n.text[1..], s, n.line, fuel).Success?
      && Resolve(n, parent, fuel).value.text == "@" + Substitute(n.text[1..], s, n.line, fuel).value
  {
  }

  /** Replacing one node's text does not depend on the fuel once it ended. */
  lemma ReplaceMonotone(n: Node, s: Scope, f: nat, g: nat)
    requires f <= g && Ended(Replace(n, s, f))
    ensures Replace(n, s, g) == Replace(n, s, f)
  {
    match n
    case DeclarationNode(text, line) =>
      SubstituteMonotone(text, s, line, f, g);
    case AtRuleNode(text, _, _, line, _) =>
      if text != "" {
        SubstituteMonotone(text[1..], s, line, f, g);
      }
    case _ =>
  }

  /** The whole walk does not depend on the fuel once it ended: a walk that
      did not run out of fuel gives the same tree, or the same error, with
      any larger fuel. */
  lemma {:induction false} ResolveMonotone(n: Node, parent: Scope, f: nat, g: nat)
    requires f <= g && Ended(Resolve(n, parent, f))
    ensures Resolve(n, parent, g) == Resolve(n, parent, f)
    decreases n, 1
  {
    if !n.Nil? && Nil !in Children(n) {
      var s := Local(Variables(Children(n)), parent);
      ReplaceMonotone(n, s, f, g);
      if Replace(n, s, f).Success? && IsBlock(n) {
        ResolveAllMonotone(n.children, |n.children|, s, f, g);
      }
    }
  }

  lemma {:induction false} ResolveAllMonotone(cs: seq<Node>, k: nat, s: Scope, f: nat, g: nat)
    requires k <= |cs| && f <= g && Ended(ResolveAll(cs, k, s, f))
    ensures ResolveAll(cs, k, s, g) == ResolveAll(cs, k, s, f)
    decreases cs, 0, k
  {
    if k > 0 {
      ResolveAllMonotone(cs, k - 1, s, f, g);
      if ResolveAll(cs, k - 1, s, f).Success? {
        ResolveMonotone(cs[k - 1], s, f, g);
      }
    }
  }

  /** A fuel of 0 cuts off even a text that Go resolves in one round: the
      cut-off says that the fuel ran out, not that the loop never ends. */
  lemma SmallFuelCutsOff()
    ensures Substitute("@a", Local(map["a" := "1"], Global), 3, 0) == Failure(EndlessSubstitution(3))
    ensures Substitute("@a", Local(map["a" := "1"], Global), 3, 1) == Success("1")
  {
    var s := Local(map["a" := "1"], Global);
    assert StartsRef("@a", 0);
    assert FindRef("@a") == Some((0, 2));
    assert RefName("@a", 0, 2) == "a";
    assert Lookup(s, "a") == "1";
    assert Splice("@a", 0, 2, "1") == "1";
    assert FindRef("1") == None;
  }
  /** A mixin body holding an at-rule copies to a body holding nil, since
      an at-rule has no copy method of its own (tree.go:70-72). Once
      that copy is spliced into a caller, the variable pass crashes on the
      nil child when it reads the caller's variables. */
  lemma CopiedBodyCrashes(fuel: nat)
    ensures Copy(SelectorNode([".m"], [], [AtRuleNode("@media x", [], [], 2, false)], 1, false))
         == Success(SelectorNode([".m"], [], [Nil], 1, false))
    ensures Resolve(SelectorNode([".a"], [], [Nil], 3, false), Global, fuel) == Failure(Panic)
  {
    var media := AtRuleNode("@media x", [], [], 2, false);
    assert Copy(media) == Success(Nil);
    assert [media][1..] == [];
    assert CopyAll([media]) == Success([Nil] + []);
    assert [Nil] + [] == [Nil];
    assert Copy(SelectorNode([".m"], [], [media], 1, false)) == Success(SelectorNode([".m"], [], [Nil], 1, false));
    assert Nil in Children(SelectorNode([".a"], [], [Nil], 3, false));
  }
}
