/**
 * Mixin resolution (mixins.go:10-86, with `GetMixin`, `IsParentOf`,
 * `GetCopy` and `GetMixinName` of tree.go:62-72, 92-104, 194-213,
 * 328-330).
 *
 * The Go walk updates the tree in place and keeps pointers to definition
 * nodes. Here the tree is a value, so a definition is named by where it
 * sits: a level of the walk holds the children of one node on the path
 * from the root to the child in progress, as they are at that moment
 * (children walked so far already replaced), the position of the child in
 * progress and the names registered at that node. A name is registered to
 * the position of the last single-selector block that carries it.
 */
module Mixins {
  import opened Strings
  import opened Diagnostics
  import opened Nodes
  import opened Tailwind

  // ---------------------------------------------------------------------
  // registration (mixins.go:54-86, tree.go:62-64, 194-203)

  /** `SelectorNode.GetMixin`: any selector block with exactly one selector
      defines a mixin; the other kinds define nothing. */
  predicate Definition(c: Node) {
    c.SelectorNode? && |c.selectors| == 1
  }

  /** The name a definition is registered under: its selector without a
      trailing `()`. */
  function DefinedName(c: Node): string
    requires Definition(c)
  {
    TrimSuffix(c.selectors[0], "()")
  }

  predicate Defines(c: Node, name: string) {
    Definition(c) && DefinedName(c) == name
  }

  /** One child registered at position `k`, overwriting an earlier one. */
  function Register(names: map<string, nat>, c: Node, k: nat): map<string, nat> {
    if Definition(c) then names[DefinedName(c) := k] else names
  }

  /** The children registered in order, each under its position. */
  function RegisterAll(names: map<string, nat>, cs: seq<Node>): (r: map<string, nat>)
    ensures forall m <- r :: m in names || (r[m] < |cs| && Defines(cs[r[m]], m))
    decreases |cs|
  {
    if cs == [] then names
    else Register(RegisterAll(names, cs[..|cs| - 1]), cs[|cs| - 1], |cs| - 1)
  }

  /** What `Read` registers in a fresh collection. */
  function Registered(cs: seq<Node>): (r: map<string, nat>)
    ensures forall m <- r :: r[m] < |cs| && Defines(cs[r[m]], m)
  {
    RegisterAll(map[], cs)
  }

  /** A name is registered exactly when some child defines it, and then to
      the last child that does: a later definition hides an earlier one. */
  lemma {:induction false} RegisteredLast(cs: seq<Node>, name: string)
    ensures name in Registered(cs) <==> exists k :: 0 <= k < |cs| && Defines(cs[k], name)
    ensures name in Registered(cs) ==> forall j :: Registered(cs)[name] < j < |cs| ==> !Defines(cs[j], name)
    decreases |cs|
  {
    if cs != [] {
      var front := cs[..|cs| - 1];
      RegisteredLast(front, name);
      assert Registered(cs) == Register(Registered(front), cs[|cs| - 1], |cs| - 1);
      if name !in Registered(cs) {
        forall k | 0 <= k < |cs| ensures !Defines(cs[k], name) {
          if k < |cs| - 1 {
            assert cs[k] == front[k];
          }
        }
      } else if !Defines(cs[|cs| - 1], name) {
        var k := Registered(cs)[name];
        assert Defines(cs[k], name);
      }
    }
  }

  class MixinsCollection {
    var items: map<string, nat>

    /** `newMixinsCollection`: nothing registered yet. The collection of
        the enclosing node is the level below it in the walk. */
    constructor ()
      ensures items == map[]
    {
      items := map[];
    }

    /** `Set`: the name now stands for the child at `index`. */
    method Set(name: string, index: nat)
      modifies this
      ensures items == old(items)[name := index]
    {
      items := items[name := index];
    }

    /** `GetMixin` on the child at `index`. */
    method GetMixin(c: Node, index: nat)
      modifies this
      ensures items == Register(old(items), c, index)
    {
      if c.SelectorNode? && |c.selectors| == 1 {
        Set(TrimSuffix(c.selectors[0], "()"), index);
      }
    }

    /** `Read`: every child registered in order; a nil child crashes
        (`ok` false). */
    method Read(n: Node) returns (ok: bool)
      modifies this
      ensures ok <==> Nil !in Children(n)
      ensures ok ==> items == RegisterAll(old(items), Children(n))
    {
      var cs := Children(n);
      for i := 0 to |cs|
        invariant Nil !in cs[..i]
        invariant items == RegisterAll(old(items), cs[..i])
      {
        if cs[i].Nil? {
          return false;
        }
        GetMixin(cs[i], i);
        assert cs[..i + 1][..i] == cs[..i];
      }
      assert cs[..|cs|] == cs;
      return true;
    }
  }

  // ---------------------------------------------------------------------
  // lookup along the path (mixins.go:65-76)

  /** One node on the path of the walk: its children as they are now, the
      position of the child in progress and its registrations. */
  datatype Level = Level(children: seq<Node>, at: nat, names: map<string, nat>)

  predicate LevelOk(l: Level) {
    l.at < |l.children| && forall m <- l.names :: l.names[m] < |l.children|
  }

  predicate LevelsOk(levels: seq<Level>) {
    forall l <- levels :: LevelOk(l)
  }

  /** `mixinsCollection.Get`: the innermost level that registers the name,
      and the position it registers; none when no level does. */
  function FindDef(levels: seq<Level>, name: string): (r: Option<(nat, nat)>)
    requires LevelsOk(levels)
    ensures r.None? <==> forall l :: 0 <= l < |levels| ==> name !in levels[l].names
    ensures r.Some? ==>
      (var (l, k) := r.value;
       l < |levels| && name in levels[l].names && levels[l].names[name] == k && k < |levels[l].children|
       && forall l' :: l < l' < |levels| ==> name !in levels[l'].names)
    decreases |levels|
  {
    if levels == [] then None
    else
      var top := levels[|levels| - 1];
      assert LevelOk(top);
      if name in top.names then Some((|levels| - 1, top.names[name]))
      else FindDef(levels[..|levels| - 1], name)
  }

  // ---------------------------------------------------------------------
  // the containment test (tree.go:92-104)

  /** `IsParentOf` on a subtree that does not hold the call: it visits
      every node, so it answers false, or crashes on the first nil. */
  function FullSearch(def: Node): Result<bool> {
    if NilFree(def) then Success(false) else Failure(Panic)
  }

  /** A child before the one in progress holds a nil. */
  predicate NilBefore(l: Level) {
    exists k :: 0 <= k < l.at && k < |l.children| && !NilFree(l.children[k])
  }

  /** Some child that the search meets before the path, between level `l`
      and the call, holds a nil. */
  predicate NilOnPath(levels: seq<Level>, l: nat) {
    exists m :: l < m < |levels| && NilBefore(levels[m])
  }

  /** `IsParentOf(call)` for the definition at position `k` of level `l`,
      the call being the child in progress of the last level. A
      definition on the path holds the call; the depth-first search then
      meets, level by level, the children before the path, and crashes on
      a nil among them. Anything else does not hold the call. */
  function IsParentOf(levels: seq<Level>, l: nat, k: nat): Result<bool>
    requires LevelsOk(levels) && l < |levels| && k < |levels[l].children|
  {
    if l < |levels| - 1 && k == levels[l].at then
      if NilOnPath(levels, l) then Failure(Panic) else Success(true)
    else FullSearch(levels[l].children[k])
  }

  // ---------------------------------------------------------------------
  // the walk (mixins.go:10-52)

  /** What a call becomes once its definition is found and tested: a
      crash, the error for a definition that holds its own call, or the
      children of a copy of the definition. */
  function Spliced(test: Result<bool>, def: Node, line: int, name: string): Result<seq<Node>> {
    match test
    case Failure(e) => Failure(e)
    case Success(true) => Failure(InvalidParentMixin(line, name))
    case Success(false) =>
      match Copy(def)
      case Failure(e) => Failure(e)
      case Success(c) => Success(Children(c))
  }

  /** The nodes a call on `line` is replaced by: the catalog is asked
      first, then the levels from the innermost out. */
  function Inline(levels: seq<Level>, tw: map<string, string>, name: string, line: int): Result<seq<Node>>
    requires LevelsOk(levels)
  {
    match Entry(tw, name)
    case Some(m) => Spliced(FullSearch(m), m, line, name)
    case None =>
      match FindDef(levels, name)
      case None => Failure(MixinNotFound(line, name))
      case Some((l, k)) => Spliced(IsParentOf(levels, l, k), levels[l].children[k], line, name)
  }

  /** `recursiveResolveMixins`: a nil node or a nil child crashes at
      `Read`; a block gets its children replaced by the loop's new list. */
  function Walk(n: Node, stack: seq<Level>, tw: map<string, string>): Result<Node>
    requires LevelsOk(stack)
    decreases n, 3, 0
  {
    if n.Nil? || Nil in Children(n) then Failure(Panic)
    else if !IsBlock(n) then Success(n)
    else
      match Loop(n, stack, tw, |n.children|)
      case Failure(e) => Failure(e)
      case Success(st) => Success(WithChildren(n, st.added))
  }

  /** Where the loop over the children of a node stands: the children as
      they are now and the new list so far. */
  datatype Round = Round(current: seq<Node>, added: seq<Node>)

  /** The first `i` rounds of the loop over the children of `n`. */
  function Loop(n: Node, stack: seq<Level>, tw: map<string, string>, i: nat): (r: Result<Round>)
    requires IsBlock(n) && i <= |n.children| && LevelsOk(stack)
    ensures r.Success? ==> |r.value.current| == |n.children|
    decreases n, 2, i
  {
    if i == 0 then Success(Round(n.children, []))
    else
      match Loop(n, stack, tw, i - 1)
      case Failure(e) => Failure(e)
      case Success(st) => Visit(n, stack, tw, i - 1, st.current, st.added)
  }

  /** The level that `n` adds while its child `i` is in progress. */
  function Here(n: Node, i: nat, cur: seq<Node>): (l: Level)
    requires IsBlock(n) && i < |n.children| && |cur| == |n.children|
    ensures LevelOk(l)
  {
    Level(cur, i, Registered(n.children))
  }

  /** One round: a child that is not a call is walked in place and kept; a
      call is replaced by what it inlines. */
  function Visit(n: Node, stack: seq<Level>, tw: map<string, string>, i: nat, cur: seq<Node>, acc: seq<Node>)
    : (r: Result<Round>)
    requires IsBlock(n) && i < |n.children| && |cur| == |n.children| && LevelsOk(stack)
    ensures r.Success? ==> |r.value.current| == |cur|
    decreases n, 1, 0
  {
    var child := n.children[i];
    var levels := stack + [Here(n, i, cur)];
    var name := MixinName(child);
    if name == "" then
      match Walk(child, levels, tw)
      case Failure(e) => Failure(e)
      case Success(c) => Success(Round(cur[i := c], acc + [c]))
    else
      match Inline(levels, tw, name, LineNumber(child))
      case Failure(e) => Failure(e)
      case Success(cs) => Success(Round(cur, acc + cs))
  }

  /** `resolveMixins`: the walk from the root, with the catalog `tw`. */
  function ResolveMixins(root: Node, tw: map<string, string>): Result<Node> {
    Walk(root, [], tw)
  }

  /** `recursiveResolveMixins`. */
  method RecursiveResolveMixins(n: Node, stack: seq<Level>, twMixins: TailwindCollection) returns (r: Result<Node>)
    requires LevelsOk(stack)
    ensures r == Walk(n, stack, twMixins.items)
    decreases n, 3, 0
  {
    if n.Nil? {
      return Failure(Panic);
    }
    var mixins := new MixinsCollection();
    var ok := mixins.Read(n);
    if !ok {
      return Failure(Panic);
    }
    if !IsBlock(n) {
      return Success(n);
    }
    assert Nil !in n.children;
    var rounds := ResolveChildren(n, stack, twMixins, mixins.items);
    if rounds.Failure? {
      return Failure(rounds.error);
    }
    LastRound(n, stack, twMixins.items);
    return Success(WithChildren(n, rounds.value.added));
  }

  /** The loop of `recursiveResolveMixins` over the children of `n`, with
      the names `Read` registered for them. */
  method ResolveChildren(n: Node, stack: seq<Level>, twMixins: TailwindCollection, names: map<string, nat>)
    returns (r: Result<Round>)
    requires IsBlock(n) && LevelsOk(stack) && names == Registered(n.children)
    ensures r == Loop(n, stack, twMixins.items, |n.children|)
    decreases n, 2, 0
  {
    var current := n.children;
    var newChildren: seq<Node> := [];
    LoopStart(n, stack, twMixins.items);
    for i := 0 to |n.children|
      invariant Loop(n, stack, twMixins.items, i) == Success(Round(current, newChildren))
    {
      var next := ResolveChild(n, stack, twMixins, names, i, current, newChildren);
      LoopNext(n, stack, twMixins.items, i);
      if next.Failure? {
        LoopFailure(n, stack, twMixins.items, i + 1, |n.children|);
        return next;
      }
      current, newChildren := next.value.current, next.value.added;
    }
    return Success(Round(current, newChildren));
  }

  /** The body of the loop of `recursiveResolveMixins` for child `i`. */
  method ResolveChild(n: Node, stack: seq<Level>, twMixins: TailwindCollection, names: map<string, nat>,
                      i: nat, current: seq<Node>, newChildren: seq<Node>)
    returns (r: Result<Round>)
    requires IsBlock(n) && i < |n.children| && |current| == |n.children| && LevelsOk(stack)
    requires names == Registered(n.children)
    ensures r == Visit(n, stack, twMixins.items, i, current, newChildren)
    decreases n, 1, 0
  {
    var child := n.children[i];
    var name := MixinName(child);
    var levels := stack + [Level(current, i, names)];
    assert levels == stack + [Here(n, i, current)];
    if name == "" {
      var c := RecursiveResolveMixins(child, levels, twMixins);
      if c.Failure? {
        return Failure(c.error);
      }
      return Success(Round(current[i := c.value], newChildren + [c.value]));
    }
    var mixin := twMixins.Get(name);
    var def: Node;
    var test: Result<bool>;
    if mixin.Some? {
      def := mixin.value;
      test := FullSearch(def);
    } else {
      var found := FindDef(levels, name);
      if found.None? {
        return Failure(MixinNotFound(LineNumber(child), name));
      }
      def := levels[found.value.0].children[found.value.1];
      test := IsParentOf(levels, found.value.0, found.value.1);
    }
    if test.Failure? {
      return Failure(test.error);
    }
    if test.value {
      return Failure(InvalidParentMixin(LineNumber(child), name));
    }
    var copy := Copy(def);
    if copy.Failure? {
      return Failure(copy.error);
    }
    return Success(Round(current, newChildren + Children(copy.value)));
  }

  /** `resolveMixins` with a catalog filled from `table`. */
  method ResolveMixinsOf(root: Node, table: map<string, string>) returns (r: Result<Node>)
    ensures r == ResolveMixins(root, table)
  {
    var tw := new TailwindCollection(table);
    r := RecursiveResolveMixins(root, [], tw);
  }

  /** The loop stands at round `j` where it stood at round `i`. */
  predicate SameFrom(n: Node, stack: seq<Level>, tw: map<string, string>, i: nat, j: nat) {
    && IsBlock(n) && i <= j <= |n.children| && LevelsOk(stack)
    && Loop(n, stack, tw, j) == Loop(n, stack, tw, i)
  }

  /** A failed round ends the loop with that failure. */
  lemma {:induction false} LoopFailure(n: Node, stack: seq<Level>, tw: map<string, string>, i: nat, j: nat)
    requires IsBlock(n) && i <= j <= |n.children| && LevelsOk(stack)
    requires Loop(n, stack, tw, i).Failure?
    ensures SameFrom(n, stack, tw, i, j)
    decreases j
  {
    if i < j {
      LoopFailure(n, stack, tw, i, j - 1);
      FailureKept(n, stack, tw, i, j - 1);
    }
  }

  /** A round after a failure keeps the failure. */
  lemma FailureKept(n: Node, stack: seq<Level>, tw: map<string, string>, i: nat, k: nat)
    requires SameFrom(n, stack, tw, i, k) && k < |n.children| && Loop(n, stack, tw, i).Failure?
    ensures SameFrom(n, stack, tw, i, k + 1)
  {
  }

  // ---------------------------------------------------------------------
  // properties

  /** No call left to resolve: no mixin node with a non-empty name. */
  predicate NoCalls(n: Node) {
    MixinName(n) == "" && (IsBlock(n) ==> forall c <- n.children :: NoCalls(c))
  }

  predicate CallFree(cs: seq<Node>) {
    forall c <- cs :: NoCalls(c)
  }

  /** A copy holds no call. */
  lemma {:induction false} ShapedNoCalls(n: Node)
    requires CopyShaped(n)
    ensures NoCalls(n)
    decreases n
  {
    if n.SelectorNode? {
      forall c | c in n.children ensures NoCalls(c) {
        ShapedNoCalls(c);
      }
    }
  }

  /** The catalog comes first: a name it holds inlines its one declaration,
      whatever the user defines under that name (even a block holding its
      own call). */
  lemma CatalogFirst(levels: seq<Level>, tw: map<string, string>, name: string, line: int)
    requires LevelsOk(levels) && name in tw && tw[name] != ""
    ensures Inline(levels, tw, name, line) == Success([DeclarationNode(tw[name], 0)])
  {
    EntryCopy(tw, name);
  }

  /** A call fails as not found exactly when neither the catalog nor any
      level holds its name; the error carries the call's line and name. */
  lemma NotFoundIff(levels: seq<Level>, tw: map<string, string>, name: string, line: int)
    requires LevelsOk(levels)
    ensures Inline(levels, tw, name, line) == Failure(MixinNotFound(line, name)) <==>
      Entry(tw, name).None? && forall l :: 0 <= l < |levels| ==> name !in levels[l].names
  {
    if Entry(tw, name).Some? {
      EntryCopy(tw, name);
    }
  }

  /** Inlining fails only as not found, as a definition holding its own
      call, or by a crash; what it inlines holds no call. */
  lemma InlineSpec(levels: seq<Level>, tw: map<string, string>, name: string, line: int)
    requires LevelsOk(levels)
    ensures var r := Inline(levels, tw, name, line);
      r.Failure? ==> r.error in {MixinNotFound(line, name), InvalidParentMixin(line, name), Panic}
    ensures var r := Inline(levels, tw, name, line);
      r.Success? ==> CallFree(r.value)
  {
    var r := Inline(levels, tw, name, line);
    if r.Success? {
      var def := if Entry(tw, name).Some? then Entry(tw, name).value
        else levels[FindDef(levels, name).value.0].children[FindDef(levels, name).value.1];
      assert Copy(def).Success? && r.value == Children(Copy(def).value);
      CopyShape(def);
      forall c | c in r.value ensures NoCalls(c) {
        ShapedNoCalls(c);
      }
    }
  }

  /** After a successful walk from a node that is not itself a call, no
      call is left anywhere in the tree. */
  lemma {:induction false} WalkNoCalls(n: Node, stack: seq<Level>, tw: map<string, string>)
    requires LevelsOk(stack) && MixinName(n) == ""
    ensures Walk(n, stack, tw).Success? ==> NoCalls(Walk(n, stack, tw).value)
    decreases n, 3, 0
  {
    if !n.Nil? && Nil !in Children(n) && IsBlock(n) {
      LoopNoCalls(n, stack, tw, |n.children|);
    }
  }

  lemma {:induction false} LoopNoCalls(n: Node, stack: seq<Level>, tw: map<string, string>, i: nat)
    requires IsBlock(n) && i <= |n.children| && LevelsOk(stack)
    ensures Loop(n, stack, tw, i).Success? ==> CallFree(Loop(n, stack, tw, i).value.added)
    decreases n, 2, i
  {
    if i > 0 {
      LoopNoCalls(n, stack, tw, i - 1);
      var prev := Loop(n, stack, tw, i - 1);
      if prev.Success? {
        LoopNext(n, stack, tw, i - 1);
        VisitNoCalls(n, stack, tw, i - 1, prev.value.current, prev.value.added);
      }
    }
  }

  lemma {:induction false} VisitNoCalls(n: Node, stack: seq<Level>, tw: map<string, string>, i: nat, cur: seq<Node>, acc: seq<Node>)
    requires IsBlock(n) && i < |n.children| && |cur| == |n.children| && LevelsOk(stack)
    requires CallFree(acc)
    ensures Visit(n, stack, tw, i, cur, acc).Success? ==> CallFree(Visit(n, stack, tw, i, cur, acc).value.added)
    decreases n, 1, 0
  {
    var child := n.children[i];
    var levels := stack + [Here(n, i, cur)];
    var name := MixinName(child);
    if name == "" {
      WalkNoCalls(child, levels, tw);
    } else {
      InlineSpec(levels, tw, name, LineNumber(child));
    }
  }

  /** A tree without calls and without nils comes out of the walk as it
      went in, checking definitions included: a second walk over a
      resolved tree without nil children changes nothing. */
  lemma {:induction false} WalkIdentity(n: Node, stack: seq<Level>, tw: map<string, string>)
    requires LevelsOk(stack) && NilFree(n) && NoCalls(n)
    ensures Walk(n, stack, tw) == Success(n)
    decreases n, 3, 0
  {
    if IsBlock(n) {
      assert Nil !in n.children;
      LoopIdentity(n, stack, tw, |n.children|);
      assert n.children[..|n.children|] == n.children;
      match n
      case RootNode(_, _) =>
      case SelectorNode(_, _, _, _, _) =>
      case AtRuleNode(_, _, _, _, _) =>
    }
  }

  /** The first `i` rounds over a node keep every child where it was and
      add each one to the new list. */
  predicate KeptUpTo(n: Node, stack: seq<Level>, tw: map<string, string>, i: nat) {
    && IsBlock(n) && i <= |n.children| && LevelsOk(stack)
    && Loop(n, stack, tw, i) == Success(Round(n.children, n.children[..i]))
  }

  lemma {:induction false} LoopIdentity(n: Node, stack: seq<Level>, tw: map<string, string>, i: nat)
    requires IsBlock(n) && i <= |n.children| && LevelsOk(stack) && NilFree(n) && NoCalls(n)
    ensures KeptUpTo(n, stack, tw, i)
    decreases n, 2, i
  {
    if i == 0 {
      LoopStart(n, stack, tw);
    } else {
      LoopIdentity(n, stack, tw, i - 1);
      IdentityStep(n, stack, tw, i - 1);
    }
  }

  /** Before the first round, nothing is added and the children are as
      they came. */
  lemma LoopStart(n: Node, stack: seq<Level>, tw: map<string, string>)
    requires IsBlock(n) && LevelsOk(stack)
    ensures Loop(n, stack, tw, 0) == Success(Round(n.children, n.children[..0]))
  {
  }

  lemma {:induction false} IdentityStep(n: Node, stack: seq<Level>, tw: map<string, string>, j: nat)
    requires KeptUpTo(n, stack, tw, j) && j < |n.children| && NilFree(n) && NoCalls(n)
    ensures KeptUpTo(n, stack, tw, j + 1)
    decreases n, 1, 1
  {
    assert n.children[j] in n.children;
    DefinitionKept(n, stack, tw, j, n.children, n.children[..j]);
    KeptInPlace(n.children, j);
  }

  /** `.m;` and `.m();` both call `.m`. */
  lemma CallName(line: int)
    ensures MixinName(MixinNode(".m;", line)) == ".m"
    ensures MixinName(MixinNode(".m();", line)) == ".m"
  {
    assert HasSuffix(".m;", ";") && ".m;"[..2] == ".m";
    assert !HasSuffix(".m", "()");
    assert HasSuffix(".m();", ";") && ".m();"[..4] == ".m()";
    assert HasSuffix(".m()", "()") && ".m()"[..2] == ".m";
  }

  /** One more round of the loop, after a successful prefix. */
  lemma LoopNext(n: Node, stack: seq<Level>, tw: map<string, string>, i: nat)
    requires IsBlock(n) && i < |n.children| && LevelsOk(stack) && Loop(n, stack, tw, i).Success?
    ensures Loop(n, stack, tw, i + 1) == Visit(n, stack, tw, i, Loop(n, stack, tw, i).value.current, Loop(n, stack, tw, i).value.added)
  {
  }

  /** A round on a call whose inlining fails ends with that failure. */
  lemma VisitCallFails(n: Node, stack: seq<Level>, tw: map<string, string>, i: nat, cur: seq<Node>, acc: seq<Node>,
                       levels: seq<Level>)
    requires IsBlock(n) && i < |n.children| && |cur| == |n.children| && LevelsOk(stack)
    requires levels == stack + [Here(n, i, cur)] && MixinName(n.children[i]) != ""
    requires Inline(levels, tw, MixinName(n.children[i]), LineNumber(n.children[i])).Failure?
    ensures Visit(n, stack, tw, i, cur, acc) == Failure(Inline(levels, tw, MixinName(n.children[i]), LineNumber(n.children[i])).error)
  {
  }

  /** A round on a call whose inlining succeeds appends what it inlines. */
  lemma VisitCallInlines(n: Node, stack: seq<Level>, tw: map<string, string>, i: nat, cur: seq<Node>, acc: seq<Node>,
                         levels: seq<Level>)
    requires IsBlock(n) && i < |n.children| && |cur| == |n.children| && LevelsOk(stack)
    requires levels == stack + [Here(n, i, cur)] && MixinName(n.children[i]) != ""
    requires Inline(levels, tw, MixinName(n.children[i]), LineNumber(n.children[i])).Success?
    ensures Visit(n, stack, tw, i, cur, acc) ==
      Success(Round(cur, acc + Inline(levels, tw, MixinName(n.children[i]), LineNumber(n.children[i])).value))
  {
  }

  /** A round on a child that is not a call, whose walk succeeds, puts the
      walked child in place and appends it. */
  lemma VisitWalks(n: Node, stack: seq<Level>, tw: map<string, string>, i: nat, cur: seq<Node>, acc: seq<Node>,
                   levels: seq<Level>)
    requires IsBlock(n) && i < |n.children| && |cur| == |n.children| && LevelsOk(stack)
    requires levels == stack + [Here(n, i, cur)] && MixinName(n.children[i]) == ""
    requires Walk(n.children[i], levels, tw).Success?
    ensures Visit(n, stack, tw, i, cur, acc) ==
      Success(Round(cur[i := Walk(n.children[i], levels, tw).value], acc + [Walk(n.children[i], levels, tw).value]))
  {
  }

  /** A block whose first child is not a call, and fails its walk, fails
      with that child's error. */
  lemma FirstChildFails(n: Node, stack: seq<Level>, tw: map<string, string>)
    requires LevelsOk(stack) && IsBlock(n) && n.children != [] && Nil !in n.children
    requires MixinName(n.children[0]) == ""
    requires Walk(n.children[0], stack + [Here(n, 0, n.children)], tw).Failure?
    ensures Walk(n, stack, tw) == Failure(Walk(n.children[0], stack + [Here(n, 0, n.children)], tw).error)
  {
    assert Loop(n, stack, tw, 0) == Success(Round(n.children, []));
    LoopNext(n, stack, tw, 0);
    FirstFailure(n, stack, tw, 0);
  }

  /** A block whose rounds all succeed gets the new list as children. */
  lemma LastRound(n: Node, stack: seq<Level>, tw: map<string, string>)
    requires IsBlock(n) && Nil !in n.children && LevelsOk(stack)
    requires Loop(n, stack, tw, |n.children|).Success?
    ensures Walk(n, stack, tw) == Success(WithChildren(n, Loop(n, stack, tw, |n.children|).value.added))
  {
  }

  /** The first round that fails ends the walk of the block with its
      error: nothing after it is visited. */
  lemma FirstFailure(n: Node, stack: seq<Level>, tw: map<string, string>, i: nat)
    requires IsBlock(n) && Nil !in n.children && i < |n.children| && LevelsOk(stack)
    requires Loop(n, stack, tw, i + 1).Failure?
    ensures Walk(n, stack, tw) == Failure(Loop(n, stack, tw, i + 1).error)
  {
    LoopFailure(n, stack, tw, i + 1, |n.children|);
    assert Children(n) == n.children;
  }

  /** A definition whose first child calls it is rejected with that
      call's line, unless the catalog knows the name: the walk of the
      definition (the child in progress of the innermost level, which
      registers it) finds it on the path of the call. */
  lemma SelfCallRejected(def: Node, outer: seq<Level>, top: Level, tw: map<string, string>, name: string)
    requires LevelsOk(outer) && LevelOk(top)
    requires top.children[top.at] == def && name in top.names && top.names[name] == top.at
    requires IsBlock(def) && def.children != [] && Nil !in def.children
    requires name != "" && MixinName(def.children[0]) == name && name !in Registered(def.children)
    requires Entry(tw, name).None?
    ensures LevelsOk(outer + [top])
    ensures Walk(def, outer + [top], tw) == Failure(InvalidParentMixin(LineNumber(def.children[0]), name))
  {
    var stack := outer + [top];
    LevelsPush(outer, top);
    var levels := stack + [Here(def, 0, def.children)];
    LevelsPush(stack, Here(def, 0, def.children));
    assert levels[..|levels| - 1] == stack;
    assert FindDef(stack, name) == Some((|outer|, top.at));
    assert FindDef(levels, name) == Some((|outer|, top.at));
    assert levels[|outer|] == top;
    assert !NilBefore(levels[|stack|]);
    assert !NilOnPath(levels, |outer|);
    assert IsParentOf(levels, |outer|, top.at) == Success(true);
    assert Loop(def, stack, tw, 0) == Success(Round(def.children, []));
    VisitCallFails(def, stack, tw, 0, def.children, [], levels);
    LoopNext(def, stack, tw, 0);
    FirstFailure(def, stack, tw, 0);
  }

  lemma LevelsPush(levels: seq<Level>, l: Level)
    requires LevelsOk(levels) && LevelOk(l)
    ensures LevelsOk(levels + [l])
  {
  }

  /** The walk of `n` below `stack` reaches a call of `name` on `line` by
      the child positions `path`: at every node on the way the rounds
      before the path succeed, the node registers no `name` of its own,
      and the child on the path is an ordinary node, the last one the
      call. */
  predicate ReachesCall(n: Node, stack: seq<Level>, tw: map<string, string>, path: seq<nat>,
                        name: string, line: int)
    requires LevelsOk(stack)
    decreases |path|
  {
    && |path| >= 1 && IsBlock(n) && Nil !in n.children && path[0] < |n.children|
    && name !in Registered(n.children)
    && Loop(n, stack, tw, path[0]).Success?
    && var child := n.children[path[0]];
       var here := Here(n, path[0], Loop(n, stack, tw, path[0]).value.current);
       LevelsPush(stack, here);
       if |path| == 1 then MixinName(child) == name && LineNumber(child) == line
       else MixinName(child) == "" && ReachesCall(child, stack + [here], tw, path[1..], name, line)
  }

  /** Along the path of `ReachesCall`, no child that the walk has already
      passed holds a nil. */
  predicate CleanPath(n: Node, stack: seq<Level>, tw: map<string, string>, path: seq<nat>,
                      name: string, line: int)
    requires LevelsOk(stack) && ReachesCall(n, stack, tw, path, name, line)
    decreases |path|
  {
    var cur := Loop(n, stack, tw, path[0]).value.current;
    var here := Here(n, path[0], cur);
    LevelsPush(stack, here);
    && !NilBefore(here)
    && (|path| > 1 ==> CleanPath(n.children[path[0]], stack + [here], tw, path[1..], name, line))
  }

  /** A call of a mixin at any depth inside its own definition is
      rejected. The definition is the child in progress of level `d`,
      which registers `name` for it, no level or node in between registers
      `name` again, and the catalog does not know it. The depth-first
      search of `IsParentOf` then finds the call below the definition,
      so the walk fails as an invalid parent mixin at the call's line; it
      crashes instead when the search meets a nil before the path. */
  lemma {:induction false} NestedSelfCallRejected(n: Node, stack: seq<Level>, tw: map<string, string>,
                                                 path: seq<nat>, name: string, line: int, d: nat)
    requires LevelsOk(stack) && d < |stack|
    requires name in stack[d].names && stack[d].names[name] == stack[d].at
    requires forall m :: d < m < |stack| ==> name !in stack[m].names
    requires name != "" && Entry(tw, name).None?
    requires ReachesCall(n, stack, tw, path, name, line)
    ensures Walk(n, stack, tw) == Failure(InvalidParentMixin(line, name)) || Walk(n, stack, tw) == Failure(Panic)
    ensures (forall m :: d < m < |stack| ==> !NilBefore(stack[m])) && CleanPath(n, stack, tw, path, name, line)
      ==> Walk(n, stack, tw) == Failure(InvalidParentMixin(line, name))
    decreases |path|
  {
    var i := path[0];
    var r := Loop(n, stack, tw, i).value;
    var child := n.children[i];
    var here := Here(n, i, r.current);
    LevelsPush(stack, here);
    var levels := stack + [here];
    assert levels[d] == stack[d];
    LoopNext(n, stack, tw, i);
    assert here.names == Registered(n.children);
    forall m | d < m < |levels| ensures name !in levels[m].names {
      if m < |stack| { assert levels[m] == stack[m]; }
    }
    if |path| == 1 {
      assert name in levels[d].names;
      var found := FindDef(levels, name);
      assert found.Some?;
      assert found.value.0 == d;
      var clean := (forall m :: d < m < |stack| ==> !NilBefore(stack[m])) && !NilBefore(here);
      if clean {
        assert !NilOnPath(levels, d) by {
          forall m | d < m < |levels| ensures !NilBefore(levels[m]) {
            if m < |stack| { assert levels[m] == stack[m]; }
          }
        }
      }
      VisitCallFails(n, stack, tw, i, r.current, r.added, levels);
    } else {
      NestedSelfCallRejected(child, levels, tw, path[1..], name, line, d);
      if (forall m :: d < m < |stack| ==> !NilBefore(stack[m])) && CleanPath(n, stack, tw, path, name, line) {
        forall m | d < m < |levels| ensures !NilBefore(levels[m]) {
          if m < |stack| { assert levels[m] == stack[m]; }
        }
      }
      assert Visit(n, stack, tw, i, r.current, r.added) == Failure(Walk(child, levels, tw).error);
    }
    FirstFailure(n, stack, tw, i);
  }

  /** A block whose one child calls a name that the innermost level
      registers for a sibling of the block (earlier or later) gets the
      children of a copy of that sibling in place of the call, unless the
      catalog knows the name. */
  lemma SiblingInlined(user: Node, outer: seq<Level>, top: Level, tw: map<string, string>, name: string, k: nat)
    requires LevelsOk(outer) && LevelOk(top)
    requires top.children[top.at] == user && name in top.names && top.names[name] == k && k != top.at
    requires IsBlock(user) && |user.children| == 1 && !user.children[0].Nil?
    requires name != "" && MixinName(user.children[0]) == name && name !in Registered(user.children)
    requires Entry(tw, name).None?
    requires NilFree(top.children[k])
    ensures LevelsOk(outer + [top]) && Copy(top.children[k]).Success?
    ensures Walk(user, outer + [top], tw) == Success(WithChildren(user, Children(Copy(top.children[k]).value)))
  {
    var stack := outer + [top];
    LevelsPush(outer, top);
    var levels := stack + [Here(user, 0, user.children)];
    LevelsPush(stack, Here(user, 0, user.children));
    assert levels[..|levels| - 1] == stack;
    assert FindDef(stack, name) == Some((|outer|, k));
    assert FindDef(levels, name) == Some((|outer|, k));
    assert levels[|outer|] == top;
    InlineOffPath(levels, tw, name, LineNumber(user.children[0]));
    OnlyCall(user, stack, tw, levels);
  }

  /** A call whose definition is found off the path of the call inlines
      the children of a copy of the definition; for a definition already in
      copied shape these are its own children. */
  lemma InlineOffPath(levels: seq<Level>, tw: map<string, string>, name: string, line: int)
    requires LevelsOk(levels) && Entry(tw, name).None? && FindDef(levels, name).Some?
    requires var (l, k) := FindDef(levels, name).value;
      (l == |levels| - 1 || k != levels[l].at) && NilFree(levels[l].children[k])
    ensures var (l, k) := FindDef(levels, name).value;
      && Copy(levels[l].children[k]).Success?
      && Inline(levels, tw, name, line) == Success(Children(Copy(levels[l].children[k]).value))
      && (CopyShaped(levels[l].children[k]) ==> Inline(levels, tw, name, line) == Success(Children(levels[l].children[k])))
  {
    var (l, k) := FindDef(levels, name).value;
    CopyNilFree(levels[l].children[k]);
    if CopyShaped(levels[l].children[k]) {
      CopyIdempotent(levels[l].children[k]);
    }
  }

  /** A block whose only child is a call that inlines gets what it inlines
      as its children. */
  lemma OnlyCall(n: Node, stack: seq<Level>, tw: map<string, string>, levels: seq<Level>)
    requires LevelsOk(stack) && IsBlock(n) && |n.children| == 1 && !n.children[0].Nil?
    requires levels == stack + [Here(n, 0, n.children)] && MixinName(n.children[0]) != ""
    requires Inline(levels, tw, MixinName(n.children[0]), LineNumber(n.children[0])).Success?
    ensures Walk(n, stack, tw) == Success(WithChildren(n, Inline(levels, tw, MixinName(n.children[0]), LineNumber(n.children[0])).value))
  {
    var cs := Inline(levels, tw, MixinName(n.children[0]), LineNumber(n.children[0])).value;
    assert Loop(n, stack, tw, 0) == Success(Round(n.children, []));
    VisitCallInlines(n, stack, tw, 0, n.children, [], levels);
    LoopNext(n, stack, tw, 0);
    assert [] + cs == cs;
    assert Nil !in n.children;
    LastRound(n, stack, tw);
  }


  /** The example of a definition that calls itself: `.m { .m; }`. */
  predicate SelfCallTree(call: Node, def: Node, root: Node) {
    call == MixinNode(".m;", 2) && def == SelectorNode([".m"], [], [call], 1, false) && root == RootNode([def], false)
  }

  /** The levels of the example: the root registers `.m`, the definition
      nothing. */
  lemma SelfCallNames(call: Node, def: Node, root: Node)
    requires SelfCallTree(call, def, root)
    ensures Here(root, 0, [def]) == Level([def], 0, map[".m" := 0])
    ensures Here(def, 0, [call]) == Level([call], 0, map[]) && Registered([call]) == map[]
  {
    assert TrimSuffix(".m", "()") == ".m";
    assert Registered([def]) == map[".m" := 0] by {
      assert [def][..0] == [];
    }
    assert Registered([call]) == map[] by {
      assert [call][..0] == [];
    }
  }

  lemma SelfCallInner(call: Node, def: Node, root: Node)
    requires SelfCallTree(call, def, root)
    ensures Walk(def, [Level([def], 0, map[".m" := 0])], map[]) == Failure(InvalidParentMixin(2, ".m"))
  {
    CallName(2);
    SelfCallNames(call, def, root);
    SelfCallRejected(def, [], Level([def], 0, map[".m" := 0]), map[], ".m");
    assert [] + [Level([def], 0, map[".m" := 0])] == [Level([def], 0, map[".m" := 0])];
  }

  /** A definition that calls itself is rejected with the call's line. */
  lemma SelfCall(call: Node, def: Node, root: Node)
    requires SelfCallTree(call, def, root)
    ensures ResolveMixins(root, map[]) == Failure(InvalidParentMixin(2, ".m"))
  {
    SelfCallNames(call, def, root);
    SelfCallInner(call, def, root);
    assert [] + [Here(root, 0, [def])] == [Level([def], 0, map[".m" := 0])];
    FirstChildFails(root, [], map[]);
  }

  /** A child that is not a call and holds neither calls nor nils is kept
      as it is, in place and as the next child of the new list: a
      definition stays in the tree. */
  lemma {:induction false} DefinitionKept(n: Node, stack: seq<Level>, tw: map<string, string>, i: nat,
                                         cur: seq<Node>, acc: seq<Node>)
    requires IsBlock(n) && i < |n.children| && LevelsOk(stack) && Loop(n, stack, tw, i) == Success(Round(cur, acc))
    requires NilFree(n.children[i]) && NoCalls(n.children[i])
    ensures Loop(n, stack, tw, i + 1) == Success(Round(cur[i := n.children[i]], acc + [n.children[i]]))
    decreases n, 1, 0
  {
    var levels := stack + [Here(n, i, cur)];
    LevelsPush(stack, Here(n, i, cur));
    WalkIdentity(n.children[i], levels, tw);
    VisitWalks(n, stack, tw, i, cur, acc, levels);
    LoopNext(n, stack, tw, i);
  }


  /** Putting an element back where it was changes nothing, and appending
      it to the prefix before it gives the next prefix. */
  lemma KeptInPlace(cs: seq<Node>, i: nat)
    requires i < |cs|
    ensures cs[i := cs[i]] == cs && cs[..i] + [cs[i]] == cs[..i + 1]
  {
  }
}
