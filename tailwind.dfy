/**
 * The built-in utility catalog (tailwind.go:9-44, 1188-1211): a table from
 * class names such as `.p-4` to declaration text, consulted before the
 * user's own mixins. The literal tables that fill it are not part of this
 * model: a catalog starts from any table.
 */
module Tailwind {
  import opened Strings
  import opened Diagnostics
  import opened Nodes

  /** What `Get` answers for `name` in the table `items`: nothing for a
      missing or empty entry, else a selector node without selectors whose
      one child is a declaration of the whole stored text, on line 0. */
  function Entry(items: map<string, string>, name: string): (r: Option<Node>)
    ensures r.None? <==> name !in items || items[name] == ""
    ensures r.Some? ==> (r.value.SelectorNode? && r.value.selectors == []
      && r.value.children == [DeclarationNode(items[name], 0)] && r.value.line == 0)
  {
    if name !in items || items[name] == "" then None
    else Some(SelectorNode([], [], [DeclarationNode(items[name], 0)], 0, false))
  }

  /** The node an entry gives copies to its one declaration, unchanged:
      what a call of the entry inlines. */
  lemma EntryCopy(items: map<string, string>, name: string)
    requires Entry(items, name).Some?
    ensures NilFree(Entry(items, name).value)
    ensures Copy(Entry(items, name).value).Success?
    ensures Copy(Entry(items, name).value).value.children == [DeclarationNode(items[name], 0)]
  {
    var d := DeclarationNode(items[name], 0);
    assert CopyAll([d]) == Success([d]) by {
      assert [d][1..] == [];
      assert Copy(d) == Success(d);
      assert CopyAll([]) == Success([]);
      assert [d] + [] == [d];
    }
  }

  class TailwindCollection {
    var items: map<string, string>

    /** `newTailwindCollection`, with the table the catalog is filled with. */
    constructor (table: map<string, string>)
      ensures items == table
    {
      items := table;
    }

    /** `Get`: a fresh node for a non-empty entry. */
    function Get(name: string): (r: Option<Node>)
      reads this
      ensures r == Entry(items, name)
    {
      Entry(items, name)
    }

    /** `Set` of the mixin interface does nothing: calls cannot change the
        catalog. */
    method Set(name: string, n: Node)
      ensures items == old(items)
    {
    }

    /** `Add`: one entry set, overwriting an earlier value. */
    method Add(name: string, value: string)
      modifies this
      ensures items == old(items)[name := value]
    {
      items := items[name := value];
    }
  }

  /** The key `helper.Set` adds under: `.prefix`, then `-name` unless the
      name is empty. */
  function SetKey(prefix: string, name: string): (key: string)
    ensures name == "" ==> key == "." + prefix
    ensures name != "" ==> key == "." + prefix + "-" + name
  {
    var n := "." + prefix;
    if name != "" then n + "-" + name else n
  }

  /** The key `helper.Set2` adds under: always `.prefix-name`. */
  function Set2Key(prefix: string, name: string): (key: string)
    ensures |key| == |prefix| + |name| + 2
  {
    "." + prefix + "-" + name
  }

  /** Within one prefix, different names give different keys, and the
      empty name the shortest. */
  lemma SetKeyInjective(prefix: string, a: string, b: string)
    requires SetKey(prefix, a) == SetKey(prefix, b)
    ensures a == b
  {
    var ka := SetKey(prefix, a);
    if a != "" && b != "" {
      assert a == ka[|prefix| + 2..];
      assert b == ka[|prefix| + 2..];
    }
  }

  /** `createHelper`: a template and a name prefix bound to one catalog. */
  class Helper {
    const collection: TailwindCollection
    const namePrefix: string
    const textTemplate: string

    constructor (c: TailwindCollection, namePrefix: string, textTemplate: string)
      ensures collection == c && this.namePrefix == namePrefix && this.textTemplate == textTemplate
    {
      collection := c;
      this.namePrefix := namePrefix;
      this.textTemplate := textTemplate;
    }

    /** `helper.Set`: every `$1` of the template replaced by the value. */
    method Set(name: string, value: string)
      modifies collection
      ensures collection.items == old(collection.items)[SetKey(namePrefix, name) := ReplaceAll(textTemplate, "$1", value)]
    {
      var n := "." + namePrefix;
      if name != "" {
        n := n + "-" + name;
      }
      collection.Add(n, ReplaceAll(textTemplate, "$1", value));
    }

    /** `helper.Set2`: every `$1` replaced, then every `$2` of the result. */
    method Set2(name: string, value1: string, value2: string)
      modifies collection
      ensures collection.items ==
        old(collection.items)[Set2Key(namePrefix, name) := ReplaceAll(ReplaceAll(textTemplate, "$1", value1), "$2", value2)]
    {
      var str := ReplaceAll(textTemplate, "$1", value1);
      str := ReplaceAll(str, "$2", value2);
      var key := "." + namePrefix + "-" + name;
      collection.Add(key, str);
    }
  }

  /** The second replacement also rewrites a `$2` that the first value
      brought in. */
  lemma SecondPassSeesFirstValue()
    ensures ReplaceAll(ReplaceAll("$1", "$1", "$2"), "$2", "b") == "b"
  {
    assert "$1"[..2] == "$1";
    assert ReplaceAll("", "$1", "$2") == "";
    assert ReplaceAll("$1", "$1", "$2") == "$2";
    assert "$2"[..2] == "$2";
    assert ReplaceAll("", "$2", "b") == "";
  }
}
