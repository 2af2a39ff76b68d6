# tailless, modelled in Dafny

tailless translates a LESS-like stylesheet dialect into plain CSS. The dialect has:

- `@name: value;` variables;
- nested selectors with `&`;
- user mixins `.name() { ... }`, called as `.name();`;
- a built-in catalog of utility classes (`.p-4`, `.flex`, ...) that calls may also name;
- at-rules, `@import` lines, and `//` and `/* */` comments.

A run is a fixed pipeline, and the first error stops it:

1. **Comment stripping.** Turns raw lines into trimmed lines with line numbers.
2. **Brace splitting.** Puts every `{` and `}` alone on its line.
3. **Classification.** Tags each line as variable, import, at-rule, declaration, mixin call, selector, `{` or `}`. Braces also get a nesting level.
4. **Validation.** Rejects missing or misplaced braces.
5. **Tree building.** Builds a tree of nodes from the tagged lines.
6. **Mixin resolution.** Splices a copy of each called mixin's body in place of the call.
7. **Variable resolution.** Substitutes `@name` references through scope chains.
8. **Selector expansion.** Computes fully qualified selectors.
9. **Pruning.** Hides subtrees that produce no output.
10. **Rendering.** Emits CSS lines.

The Dafny model follows the Go package file by file:

| Dafny file | models |
|---|---|
| `parser.dfy` | the comment pass of `parser.go` and its `lines`/`elements` buffers |
| `braces.dfy` | brace splitting in `parser.go` |
| `sequences.dfy` | general facts about sequences used by the proofs |
| `variablerefs.dfy` | the `reVariable` pattern |
| `classifier.dfy` | line classification in `parser.go` |
| `validator.dfy` | validation in `parser.go` |
| `nodes.dfy` | the node kinds and their child access and copying in `tree.go` |
| `treetext.dfy` | the selector and declaration text helpers in `tree.go` |
| `builder.dfy` | tree building in `tree.go` |
| `outline.dfy` | the properties stated about tree building |
| `passes.dfy` | selector expansion and pruning in `tree.go` |
| `output.dfy` | the renderers: the specification functions and their properties |
| `passmethods.dfy` | the loops of the renderers and of the other tree passes |
| `mixins.dfy` | `mixins.go` |
| `variables.dfy` | `variables.go` and the variable methods of `tree.go` |
| `tailwind.dfy` | the catalog and its helpers in `tailwind.go` |
| `strings.dfy` | the Go `strings` operations the program uses |
| `diagnostics.dfy` | errors and their messages |

How the Go code is represented:

- **Loops.** Each Go loop is a Dafny `method` with a loop. Its postcondition ties the result to a specification function, and lemmas about that function state what the loop achieves.
- **Buffers.** The line and element buffers and the three lookup collections are classes with `modifies` clauses.
- **Tree nodes.** Nodes are one `datatype Node`. The tree passes are functions from a tree to the updated tree.
- **Errors.** Go `error` values become `Result` failures with the same messages (`Diagnostics.Message`). In two cases the Go program has no error value: it crashes (a method called on a nil node), or it keeps substituting forever. These appear as the failures `Panic` and `EndlessSubstitution`. The substitution loop is bounded by a `fuel` parameter, and `EndlessSubstitution` means that this fuel ran out. It stands for a Go loop that never ends only when it happens for every fuel, as `SelfReference` shows for `@a: @a`. Otherwise any larger fuel gives the same result as the Go loop (`SubstituteMonotone`, `ReplaceMonotone`, `ResolveMonotone`).

The model reproduces these behaviours of the code, which a reader might not expect:

- **Mixin definitions.** Every selector block with exactly one selector is registered, not only selectors ending in `()`. A trailing `()` is removed from the name.
- **Selector merging.** Merging drops every child selector whose first `()` is not at its start, not only selectors ending in `()`. A selector such as `()a()`, whose first `()` is at position 0, is kept.
- **Rendering hidden nodes.** Only a selector block checks its hidden flag. An at-rule and the root render whatever their flag says.
- **Mixin calls are never hidden.** This is the same as declarations and imports.
- **Validation.** Validation enforces three checks:
  - no `}` at level 0 or below;
  - the pairwise rules for what may come before and after a `{`;
  - the last `}` in the file closes a block at level 1.

  It does not check that every `{` is closed. `Validator.UnclosedBlockAccepted` shows a document ending in an open block being accepted.
- **Copied mixin bodies can crash the variable pass.** A mixin body that holds an at-rule, an import or a call not yet resolved copies that child as nil, because at-rules, imports and calls have no copy method of their own. The nil is spliced into the caller, and the variable pass then crashes on it when it reads the caller's variables (`Variables.CopiedBodyCrashes`).
- **Comment stripping.** Suppose a line closes a block comment before opening one. Then the two stored pieces overlap, and the new comment is not entered (`Parser.StrayCloseRepeats`).

## Model

| member | source | states |
|---|---|---|
| Parser.Kept | parser.go:377-384 | what `lines.Add` stores: nothing exactly when the text trims to empty, otherwise one line with the trimmed text and the given number |
| Parser.Lines.Add | parser.go:377-384 | the buffer grows by exactly what `Kept` says |
| Parser.Lines.AddLine | parser.go:386-388 | the line is appended unchanged |
| Parser.Elements.Add | parser.go:396-398 | one element of level 0 is appended |
| Parser.Elements.AddLevel | parser.go:400-402 | one element with the given level is appended |
| Parser.CutLineComment | parser.go:169-172 | the result is the prefix before the first `//`, holds no `//`, and is the whole line when there is none |
| Parser.RemoveComments | parser.go:145-201 | the loop over the raw lines, with its in-comment flag, stores exactly the stripped-comment fold |
| Parser.StripLine | parser.go:161-198 | one loop round stores that raw line's lines and returns the new in-comment flag |
| Parser.StoreBlock | parser.go:174-197 | the four block-comment cases store the text before the first opener and after the last closer |
| Parser.StripStepNumbered | parser.go:159-198 | one raw line yields at most two lines, each non-empty, trimmed and numbered with that raw line's number |
| Parser.StripCommentsNumbered | parser.go:156-199 | every stored line is non-empty and trimmed, numbered between 1 and the line count, in non-decreasing order |
| Parser.AtLineKeepsComment | parser.go:164-167 | outside a comment, a line starting with `@` is only trimmed, and a `//` in it is kept |
| Parser.StripStepNoLineComment | parser.go:169-172 | apart from `@` lines outside a comment, no stored piece contains `//` |
| Parser.StripStepPlain | parser.go:174-197 | a line without comment markers is stored trimmed outside a comment and dropped inside one, with the flag unchanged |
| Parser.OneLineBlockRemoved | parser.go:188-193 | a block comment opened and closed on one line is cut out, and the text before and after it is stored as two lines |
| Parser.StrayCloseRepeats | parser.go:188-193 | a closer before the first opener makes the stored pieces overlap, and no comment is entered |
| Parser.InsideCommentDropped | parser.go:177-184 | inside a comment, a line with no closing marker is dropped whole and the comment stays open |
| Braces.Matches | parser.go:213 | the brace matches are exactly the positions of `{` and `}`, none when the text is brace-free |
| Braces.SplitBraces | parser.go:203-236 | the loop stores exactly the brace-split fold of the lines |
| Braces.SplitLine | parser.go:206-231 | one line is stored unchanged when it is a lone brace or brace-free, else cut at every brace boundary |
| Braces.FlattenMatches | parser.go:220-223 | the flat list is the start and end of every match, in order |
| Braces.CutPieces | parser.go:225-231 | the pieces between consecutive cut positions are stored through `lines.Add` |
| Braces.SplitLineShape | parser.go:206-231 | every output piece is a lone brace or brace-free, keeps the line number, and the non-blank characters are preserved |
| Braces.SplitBracesShape | parser.go:203-236 | numbering stays ordered and in range, every line is a lone brace or brace-free, and the non-blank text is unchanged |
| Braces.SplitFoldFrom | parser.go:227-231 | every output line carries the number of some input line |
| VariableRefs.FindRef | parser.go:23 | the leftmost match of `@[0-9A-Za-z-_]+`, or none exactly when no `@` is followed by a name character |
| VariableRefs.NameRun | parser.go:23 | the longest run of name characters from a position |
| VariableRefs.RefName | parser.go:23 | a match's name is non-empty and made of name characters |
| VariableRefs.WholeMatchIff | parser.go:336-339 | a trimmed name matches the whole pattern exactly when it is `@` followed by one or more name characters; the empty text also passes, because `FindString` returns "" when nothing matches |
| Classifier.IsVariableIff | parser.go:326-342 | a line is a variable exactly when it starts with `@`, has one colon, and the trimmed text before the colon is `@name` |
| Classifier.IsDeclarationStartIff | parser.go:352-367 | a line starts a declaration exactly when its first colon is last or followed by a space |
| Classifier.KindOfCases | parser.go:247-271 | the classification of one line: variable, import, at-rule and brace cases as iffs, a non-`@` line that starts a declaration is a declaration, then declaration continuation, mixin call by trailing `;`, otherwise selector |
| Classifier.ClassifyStepFacts | parser.go:255-266 | one step keeps text and line, sets the level of braces, moves the depth by one per brace and updates the in-declaration flag |
| Classifier.SplitIntoElements | parser.go:238-275 | the loop produces exactly the classification fold |
| Classifier.ClassifyLine | parser.go:245-271 | one loop round appends one element and updates flag and level as the fold does |
| Classifier.ClassifyLines | parser.go:244-272 | one element per line, with the line's text and number |
| Classifier.ClassifyLevels | parser.go:258-263 | an element is a brace exactly when its line is; a brace's level is the depth before it (after it for `{`); the final level is the total depth |
| Classifier.ClassifyContinuation | parser.go:264-266 | after the loop, the in-declaration flag is set exactly when the last declaration has no trailing `;` |
| Validator.PairErrorIff | parser.go:301-316 | a pair of neighbours is rejected exactly when it breaks an at-rule, selector or `{` rule |
| Validator.FirstBadClose | parser.go:279-290 | the first `}` at level 0 or below, or none exactly when there is none |
| Validator.FirstBadPair | parser.go:294-317 | the first bad neighbour pair, or none exactly when every pair is allowed |
| Validator.ValidateElements | parser.go:277-324 | the two loops return exactly the errors of `Validate` |
| Validator.ValidateIff | parser.go:277-324 | accepted exactly when no bad `}`, every pair allowed, and the last `}` is at level 1 |
| Validator.ValidateOrder | parser.go:284-316 | the first bad `}` is reported before any pair error, and the first bad pair is reported at the second element's line |
| Validator.UnclosedBlockAccepted | parser.go:278-321 | a document ending inside an open block passes validation |
| Diagnostics.Message | parser.go:286-320 | only the missing-braces message lacks a `Line N:` prefix |
| Nodes.Children | tree.go:42-44 | blocks answer their children, other kinds none |
| Nodes.AddChild | tree.go:50-52 | one child appended and nothing else changed |
| Nodes.WithChildren | tree.go:46-48 | blocks get the new children, other kinds are unchanged |
| Nodes.MixinName | tree.go:328-330 | only a mixin call has a non-empty name |
| Nodes.Copy | tree.go:205-213 | copying fails only by crashing on a nil child |
| Nodes.CopyShape | tree.go:205-213 | a copy keeps selectors, line and child structure, drops merged selectors and the hidden flag, and turns at-rules, imports and mixin calls into nil |
| Nodes.CopyNilFree | tree.go:205-213 | a tree without nil children copies without crashing |
| Nodes.CopyIdempotent | tree.go:205-213 | a tree already in copied shape copies to itself |
| TreeText.AppendSelectors | tree.go:597-604 | appends the comma-separated parts of the text, each trimmed |
| TreeText.SelectorPartsShape | tree.go:597-604 | one part per comma plus one, each trimmed and comma-free |
| TreeText.GetSelectors | tree.go:573-595 | the backward loop over a run of selector lines yields the gathered parts reversed |
| TreeText.SelectorsOrder | tree.go:573-595 | the result lists the run's lines in source order with the parts of each line reversed |
| TreeText.SplitDeclarations | tree.go:606-620 | the loop yields exactly the declaration pieces of the text |
| TreeText.DeclarationPiecesShape | tree.go:606-620 | one piece per `;`, each trimmed and ending with its only `;`; the text after the last `;` is dropped |
| TreeText.MergeSelectors | tree.go:622-645 | the nested loops yield exactly the merge |
| TreeText.AppendRow | tree.go:630-641 | the inner loop appends one child selector combined with every parent |
| TreeText.MergeShape | tree.go:622-645 | the merge has kept-children times parents entries, entry `i*|parents|+j` combining parent `j` with kept child `i` |
| Builder.PieceNodes | tree.go:525-541 | one declaration or one mixin call per piece, in order, on the element's line |
| Builder.Finish | tree.go:472-497 | a closed frame becomes a selector or at-rule block with that frame's children |
| Builder.BuildTree | tree.go:510-571 | the loop over the elements builds exactly `Build` |
| Builder.BuildStep | tree.go:515-567 | one element is handled as the fold's step |
| Builder.AddPieces | tree.go:528-540 | the inner loops add the piece nodes one by one |
| Builder.FoldFailure | tree.go:515-567 | once a step crashes, the rest of the run crashes the same way |
| Outline.BuildOutline | tree.go:510-571 | for properly nested elements the build succeeds and the tree lists the elements in document order, with blocks left open closed at the end |
| Outline.ValidatedNested | parser.go:277-324 | classified lines that pass validation are properly nested, so tree building succeeds |
| Outline.CloseThenAddCrashes | tree.go:565-567 | a `}` at the top level leaves no context, and the next addition crashes |
| Passes.ExpandTree | tree.go:110-114 | the root keeps its kind and its flag |
| Passes.ExpandSpec | tree.go:174-180 | every selector holds its selectors merged with the list handed down, every at-rule that list, and nothing else changes |
| Passes.ExpandTreeSpec | tree.go:110-114 | from the root, with parent list `[""]`, the whole tree is expanded and otherwise unchanged |
| Passes.ExpandUnique | tree.go:351-356 | the expanded tree is the only tree that is expanded and agrees with the input apart from the expansion fields |
| Passes.RootSeed | tree.go:630-638 | under the root seed, each kept child selector stands alone (`&` replaced by the empty text) |
| Passes.CombineEmpty | tree.go:634-638 | a child without `&` under the empty parent is used verbatim |
| Passes.HideSpec | tree.go:182-192 | a block is hidden exactly when it has no declaration, import or mixin call below; the flags are consistent all the way down, and nothing else changes |
| Passes.HideAllSpec | tree.go:116-126 | over a list of children, the same facts hold for every child |
| PassMethods.ExpandSelectors | tree.go:174-180 | the method pass equals the expansion function |
| PassMethods.ExpandChildren | tree.go:351-356 | the loop over children equals the expansion of the list |
| PassMethods.ExpandTreeSelectors | tree.go:110-114 | the root pass equals the tree expansion |
| PassMethods.HideIfEmpty | tree.go:382-392 | the method pass equals the pruning function |
| PassMethods.HideChildren | tree.go:117-123 | every child is visited, without a short cut |
| PassMethods.RenderNode | tree.go:234-270 | the method renders exactly the lines of `Render` |
| PassMethods.RenderChildren | tree.go:128-132 | the children render in order |
| PassMethods.RenderOthersOf | tree.go:265-269 | the non-declaration children render after the declaration block |
| PassMethods.RenderRule | tree.go:239-263 | the selector header, the declarations and the brace, only when there is a declaration |
| PassMethods.CollectDeclarations | tree.go:239-244 | the declaration children, in order |
| PassMethods.RenderHead | tree.go:248-256 | the header loop gives the comma-separated selectors ending with `{` |
| PassMethods.RenderDeclarations | tree.go:258-260 | each declaration's text, in order |
| Output.HeadShape | tree.go:248-256 | one header line per selector; each but the last ends with `,`, and the last ends with ` {` |
| Output.AtRuleFramed | tree.go:394-429 | an at-rule always renders its header line first and `}` last |
| Output.RenderNoContent | tree.go:234-270 | without at-rules, a subtree with no declaration, import or mixin call renders nothing |
| Output.PruneKeepsOutput | tree.go:182-192 | without at-rules, pruning does not change the rendered CSS |
| Output.EmptyAtRuleDropped | tree.go:394-395 | pruning removes an empty at-rule nested in a selector block, whose header and brace were rendered before |
| Tailwind.Entry | tailwind.go:22-36 | a missing or empty entry gives nothing, otherwise a selector-free block holding one declaration of the stored text |
| Tailwind.EntryCopy | tailwind.go:28-35 | what a call inlines from a catalog entry is its one declaration |
| Tailwind.TailwindCollection.Get | tailwind.go:22-36 | the catalog lookup answers `Entry` for its table |
| Tailwind.TailwindCollection.Set | tailwind.go:38-40 | setting leaves the catalog unchanged |
| Tailwind.TailwindCollection.Add | tailwind.go:42-44 | one entry set, overwriting an earlier one |
| Tailwind.SetKey | tailwind.go:1198-1204 | the key is `.prefix`, with `-name` added unless the name is empty |
| Tailwind.Set2Key | tailwind.go:1206-1211 | the key is always `.prefix-name` |
| Tailwind.SetKeyInjective | tailwind.go:1198-1204 | under one prefix, different names give different keys |
| Tailwind.Helper.Set | tailwind.go:1198-1204 | adds the template with every `$1` replaced by the value, under `SetKey` |
| Tailwind.Helper.Set2 | tailwind.go:1206-1211 | adds the template with `$1` replaced and then `$2`, under `Set2Key` |
| Tailwind.SecondPassSeesFirstValue | tailwind.go:1207-1208 | the `$2` pass also rewrites a `$2` brought in by the first value |
| Mixins.Registered | mixins.go:78-82 | every registered name points at a child that defines it |
| Mixins.RegisteredLast | mixins.go:78-86 | a name is registered exactly when some child defines it, and it points at the last such child |
| Mixins.MixinsCollection.GetMixin | tree.go:194-203 | a single-selector block registers its selector without a trailing `()` |
| Mixins.MixinsCollection.Read | mixins.go:78-82 | registers every child, or crashes on a nil child |
| Mixins.MixinsCollection.Set | mixins.go:84-86 | one name bound, overwriting an earlier binding |
| Mixins.FindDef | mixins.go:65-76 | the innermost scope that defines the name, or none exactly when no scope does |
| Mixins.CatalogFirst | mixins.go:33-36 | a non-empty catalog entry wins over every user mixin of the same name |
| Mixins.NotFoundIff | mixins.go:33-40 | a call fails as not found exactly when neither the catalog nor any enclosing scope has the name |
| Mixins.InlineSpec | mixins.go:33-46 | a call fails only as not found, invalid parent or crash, and what it inlines holds no calls |
| Mixins.RecursiveResolveMixins | mixins.go:14-52 | the recursive method computes exactly the resolution walk |
| Mixins.ResolveChildren | mixins.go:18-49 | the loop over children computes the walk's rounds |
| Mixins.ResolveChild | mixins.go:21-46 | one child round: recurse into a non-call, or inline a call |
| Mixins.ResolveMixinsOf | mixins.go:10-12 | the entry point resolves from the root with the catalog's table |
| Mixins.WalkNoCalls | mixins.go:14-52 | after a successful walk no mixin call remains anywhere |
| Mixins.WalkIdentity | mixins.go:20-31 | a tree without calls and without nil children is left unchanged |
| Mixins.FirstFailure | mixins.go:25-28 | the first failing child's error is the walk's error |
| Mixins.LastRound | mixins.go:49 | on success the node's children are the collected new children |
| Mixins.SelfCallRejected | mixins.go:42-44 | when the catalog has no non-empty entry for the name, a definition whose first child calls it fails as an invalid parent mixin at the call's line |
| Mixins.NestedSelfCallRejected | mixins.go:20-44 | when the catalog has no non-empty entry for the name, a call at any depth inside its own definition, reached through blocks that are not themselves calls, fails as an invalid parent mixin at the call's line, or crashes when a nil child lies before the path; with no nil before the path it always fails as an invalid parent mixin |
| Mixins.SelfCall | mixins.go:42-44 | from the root, a self-calling mixin fails the whole run with that error |
| Mixins.SiblingInlined | mixins.go:33-46 | when the catalog has no non-empty entry for the name, a call, as its block's only child, to a nil-free sibling definition is replaced by the children of the definition's copy |
| Mixins.InlineOffPath | mixins.go:33-46 | when the catalog has no non-empty entry for the name, a call whose nil-free definition is found off the call's path inlines the children of the definition's copy, which are the definition's own children when it is already in copied shape |
| Mixins.OnlyCall | mixins.go:46-49 | a block whose only child is a resolvable call gets exactly the inlined nodes |
| Mixins.DefinitionKept | mixins.go:22-30 | a child without calls and without nil children is kept in place unchanged |
| Mixins.CallName | tree.go:328-330 | the call name drops the trailing `;` and then `()` |
| Variables.LookupChain | variables.go:39-50 | a lookup answers the first non-empty binding along the scope chain, and the empty text exactly when none exists |
| Variables.VariablesCollection.Get | variables.go:39-50 | an own non-empty value wins, otherwise the parent chain decides |
| Variables.VariablesCollection.Set | variables.go:58-60 | one name bound, overwriting an earlier binding |
| Variables.VariablesCollection.GetVariable | tree.go:148-158 | a variable line with one colon binds its trimmed name to its value without the trailing `;` |
| Variables.VariablesCollection.Read | variables.go:52-56 | every child is read in order, or a nil child crashes |
| Variables.DefinitionIff | tree.go:148-152 | a variable line defines something exactly when it has one colon |
| Variables.LastDefinitionWins | variables.go:52-60 | the last definition of a name in a block is the value bound |
| Variables.UndefinedKept | variables.go:52-56 | names no child defines keep their earlier binding |
| Variables.SecondColonIgnored | tree.go:149-152 | a variable line with two colons defines nothing |
| Variables.ReplaceText | tree.go:289-311 | the substitution loop computes exactly `Substitute` |
| Variables.SubstituteComplete | tree.go:292-297 | a successful substitution leaves no `@name` reference |
| Variables.SubstituteMissing | tree.go:302-307 | substitution fails only on an undefined name at the node's line, or by not ending |
| Variables.SelfReference | tree.go:292-310 | a variable whose value is itself makes substitution not end |
| Variables.SubstituteEnds | tree.go:292-310 | when no bound value contains `@` and the fuel is at least the number of `@`s in the text, substitution ends |
| Variables.SubstituteMonotone | tree.go:292-310 | once substitution ends with some fuel, every larger fuel gives the same result |
| Variables.SmallFuelCutsOff | tree.go:292-310 | with too little fuel a terminating substitution is reported as `EndlessSubstitution`, and one more round gives its value |
| Variables.ReplaceMonotone | tree.go:358-380 | once replacing a node's text ends with some fuel, every larger fuel gives the same result |
| Variables.ResolveMonotone | variables.go:9-26 | once resolving a tree ends with some fuel, every larger fuel gives the same tree or error |
| Variables.Replace | tree.go:358-380 | replacing text keeps the node's children |
| Variables.ReplaceVariables | tree.go:289-311 | the method computes exactly `Replace` |
| Variables.RecursiveResolveVariables | variables.go:9-26 | the recursive method computes exactly `Resolve` |
| Variables.ResolveChildren | variables.go:18-23 | children resolve in order, and the first failure stops the loop |
| Variables.ResolveSpec | variables.go:9-26 | on success only the texts change, and every declaration and at-rule text is resolved |
| Variables.ChildScope | variables.go:18-23 | each child resolves in the scope of its parent block |
| Variables.DeclarationScope | variables.go:9-23 | a declaration is substituted in the scope chain of its block's variables |
| Variables.AtRuleScope | tree.go:358-380 | an at-rule's text after the `@` is substituted with the at-rule's own variables in scope |
| Variables.CopiedBodyCrashes | tree.go:70-72 | an at-rule in a mixin body copies to nil, and resolving variables in a block holding that nil crashes |

## Left out

- Tree nodes are values, so in-place update of shared node objects and pointer identity are not captured. The mixin pass models the pointer check `IsParentOf` by the definition's position on the path from the root. The copy that `GetCopy` makes is a new value (`Nodes.CopyShape` states how it differs from the original); that it is a fresh object, not aliased with the definition, is not captured.
- The file I/O of `RemoveComments` is left out: the file is given as its sequence of raw lines. `Parse`, `copyFile`, the `Dump` printers and the `fmt.Println` debug line in `ValidateElements` are not part of this model.
- The literal utility tables in `tailwind.go` are not part of this model: a catalog starts from any table.
- Go's regular-expression engine is replaced by hand-written matchers for `@[0-9A-Za-z-_]+` and for the brace pattern.
- Variables.ReplaceText: the Go loop is unbounded; the model bounds it by `fuel`, and running out is reported as `EndlessSubstitution`. That failure means "the fuel ran out", not "the loop never ends": `SmallFuelCutsOff` shows a terminating substitution reported this way when the fuel is too small. The monotonicity lemmas show that a larger fuel never changes a result that ended, and `SubstituteEnds` shows that a fuel of at least the number of `@`s in the text is enough when no value contains `@`.
- Classifier.SplitIntoElements: requires every `@` line that is not a variable to be at least 7 characters long. The Go code slices `str[:7]` and crashes on a shorter one.
- Builder.BuildTree: requires that the first element is not `{`. The Go code reads the element before it and crashes.
- Other crashes (a nil child reached by a pass, `}` at the top level followed by more content) are modelled as the failure `Panic`.
- Strings are sequences of characters. UTF-8 byte offsets and `unicode.IsSpace` beyond the space characters listed in `Strings.IsSpace` are not modelled.
