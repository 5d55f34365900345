# sd-prompt-gen selection editor, modelled in Dafny

This project models the core of sd-prompt-gen, a page for building Stable
Diffusion prompts. The model has four parts.

- **Taxonomy.** The catalogue (`PromptCategory`, `Prompt`) is built once
  from a nested mapping whose leaves are `[japaneseText, text]` pairs.
  Every node gets a rank, the path of sibling indices from the root.
  Prompts are found by text, by Japanese text, or by an id derived from
  the rank.
- **Lookup maps.** At start-up the page builds two maps from the
  taxonomy's iteration order: id to prompt, and text to every prompt with
  that text.
- **Selection tree.** The prompts the user picked are kept in a tree
  (`PromptGroup`): groups of prompt leaves, nested, each group's children
  kept in rank order by `compareTo`. The model covers `append`, `remove`
  (with its upward pruning of emptied groups), `findGroup`, `getParents`,
  the `rank` getter, the iterator and `toString`.
- **Page handlers.** Ticking a prompt in the selector appends a one-prompt
  group. Unticking it removes the prompt from its group. "Add group"
  bundles the checked prompts under their common parent (`getCommonParent`).
  "Remove group" moves each checked prompt that sits below the root into a
  one-prompt group under the root.

Modules:

- `Ranks` (ranks.dfy): ranks, `compareTo`, the stable sort.
- `Taxonomy` (taxonomy.dfy): the catalogue.
- `Lookups` (lookups.dfy): the two maps.
- `Selection` (selection.dfy): the selection tree as a value.
- `Editor` (session.dfy): `getCommonParent` and the page object. The page
  object is the class `Session`; its click handlers are methods that
  replace the tree and advance the group-id counter.

Each group has a numeric id that stands for the object's identity. A
group's parent is the group whose children hold it. The tree invariant
(`Selection.Valid`) has three parts:

- the root is a group;
- no group below the root is empty;
- no group occurs twice.

`Editor.Session.Valid` adds two conditions:

- every id is below the counter;
- the lookups index the taxonomy.

Every handler preserves this invariant.

In six places the code behaves differently from the behaviour its design
describes. The model follows the code.

- **Ancestors can be left out of order.** `remove` re-sorts only the group
  it is called on and any group it prunes from. A group's rank is the rank
  of its first child, so removing that child can change the group's rank.
  The group's parent is not re-sorted, so it can be left out of rank
  order. `Selection.AncestorsLeftUnsorted` proves this on a concrete tree:
  select a, c and b, group a with c, then deselect a.
- **`getCommonParent` compares nearest-first.** It compares the ancestor
  chains index by index, starting from each prompt's own group. Prompts
  whose groups sit at different depths therefore never get a common
  parent, and the new group goes to the root
  (`Editor.CommonParentDepth`).
- **`toString` skips some parentheses.** It does not parenthesise a
  nested group with a single child. Only the page's element rendering
  does that.
- **`weight` is never set.** The code never assigns `weight`, so it is
  kept as an optional opaque token.
- **"Add group" re-wraps prompts instead of moving their groups.** The
  design moves each checked prompt's existing group, with its
  sub-grouping and weight, into the new group. The handler
  (main.js:124) builds a fresh one-prompt group per checked prompt
  instead. Any sub-grouping and weight of the old group stay behind,
  and the old group only loses the prompt (`Editor.Bundle`,
  `Editor.BundleFacts`).
- **There is no import parser.** The design describes a parser for the
  parenthesised text and a round trip through it. The code has only
  `toString`, so the model has no parser and no round trip.
  `Selection.RenderLists` states what `toString` produces instead.

## Model

| member | source | states |
|---|---|---|
| Ranks.CompareTo | common.js:223-233 | The comparison is negative exactly when the first rank is strictly before the second, zero exactly when they are equal, positive exactly when the second is before the first |
| Ranks.BeforeAtFirstDifference | common.js:226-231 | At the first padded index where two ranks differ (a missing entry read as -1), the smaller entry decides the order |
| Ranks.PrefixBefore | common.js:232 | A proper prefix sorts before each of its extensions |
| Ranks.BeforeIrreflexive | common.js:223-233 | No rank is before itself |
| Ranks.BeforeAsymmetric | common.js:223-233 | Two ranks are never each before the other (antisymmetric sign) |
| Ranks.BeforeTransitive | common.js:223-233 | The order is transitive |
| Ranks.BeforeTotal | common.js:223-233 | Any two ranks are equal or ordered one way |
| Ranks.SortByFacts | common.js:135 | Sorting children yields them in non-decreasing rank order and as a permutation of the input |
| Ranks.SortByStable | common.js:135 | The sort is stable: for every rank, the elements with that rank come out in the order they went in |
| Ranks.InsertStable | common.js:135 | Inserting into a sorted sequence puts the new element after all elements of its rank and leaves every other rank's elements in order |
| Ranks.SortBySorted | common.js:135 | Sorting children already in rank order leaves them unchanged |
| Taxonomy.NewCategory | common.js:19-35 | The constructor's loop, with its running sibling counter, builds exactly the category `Build` describes |
| Taxonomy.BuildWellRanked | common.js:19-35 | A category keeps the rank it is given, holds prompts exactly when built from an array, and gives its i-th child the rank `rank ++ [i]`, all the way down |
| Taxonomy.IterationOrdered | common.js:53-61 | Depth-first iteration yields prompts in strictly increasing rank order, each lying under the category's rank |
| Taxonomy.Find | common.js:41-51 | The search returns nothing exactly when no prompt matches, otherwise the first matching prompt in iteration order |
| Taxonomy.FindByText | common.js:49-51 | `findByText` returns the first prompt in iteration order with that text, or nothing exactly when none has it |
| Taxonomy.FindByJapaneseText | common.js:41-43 | `findByJapaneseText` returns the first prompt in iteration order with that Japanese text, or nothing exactly when none has it |
| Taxonomy.JoinInjective | common.js:90 | Joining rank entries with "-" never maps two different ranks to the same text |
| Taxonomy.IdInjective | common.js:89-91 | Two prompts have the same id exactly when they have the same rank |
| Lookups.IdLookup | main.js:19 | The id map's keys are exactly the prompts' ids, and every entry maps an id to a prompt carrying it |
| Lookups.IdLookupFinds | main.js:19 | When ranks are distinct, every prompt is found under its own id |
| Lookups.TaxonomyIdLookup | main.js:19 | For a taxonomy built from any mapping, every prompt is found under its own id |
| Lookups.TextLookup | main.js:20-26 | The text map's keys are exactly the prompts' texts, and each maps to all prompts with that text in iteration order |
| Lookups.TextLookupStep | main.js:21-25 | One step of the reduce keeps the text map equal to the list of prompts seen so far under each text |
| Selection.NewGroup | common.js:119-121 | A new group has the given id, no weight, and the given items as children, in rank order |
| Selection.AppendAt | common.js:125-136 | `append` keeps the root's id and weight, and changes nothing when the group is not in the tree |
| Selection.AppendEffect | common.js:125-136 | After `append` the group's children are in rank order and are its old children plus the appended items |
| Selection.AppendPrompts | common.js:125-136 | `append` adds exactly the appended items' prompts to the tree |
| Selection.AppendIds | common.js:125-136 | `append` adds exactly the appended groups' ids to the tree |
| Selection.AppendHasChild | common.js:125-136 | Every appended item becomes a child of the group `append` was called on |
| Selection.AppendKeepsLeaf | common.js:125-136 | `append` moves no prompt: a group that directly held a prompt still does |
| Selection.AppendValid | common.js:125-136 | Appending fresh, non-empty groups keeps the tree invariant |
| Selection.RemoveAt | common.js:140-146 | `remove` leaves a group's id and weight alone, and changes nothing when the group is not in the tree |
| Selection.RemovePrompts | common.js:140-146 | The tree loses exactly the prompts of the removed children, and a group that prunes itself holds no prompts |
| Selection.RemoveIds | common.js:140-146 | `remove` never adds a group to the tree |
| Selection.RemoveShape | common.js:140-146 | After `remove` no group below the root is empty, and a group asks its parent to prune it only when it has become empty |
| Selection.RemoveValid | common.js:140-146 | `remove` keeps the tree invariant; in particular the root is never pruned |
| Selection.RemoveTarget | common.js:140-146 | The group `remove` is called on is pruned when the filter empties it and it has a parent; otherwise it becomes its filtered, non-empty, re-sorted children |
| Selection.RemoveEffect | common.js:140-146 | The group disappears exactly when it has a parent and every child was the removed item; otherwise its children are in rank order, are the old children minus every occurrence of the item, and none of them is the item |
| Selection.RemoveAbsent | common.js:140-146 | Removing an item a group in rank order does not hold changes nothing |
| Selection.RemoveKeeps | common.js:140-146 | A subtree that does not contain the group `remove` is called on is left exactly as it was |
| Selection.RemoveKeepsChild | common.js:140-146 | A non-empty group that does not contain the group `remove` is called on stays a child of its parent |
| Selection.RemovePromptSet | common.js:140-146 | Removing a prompt keeps every other prompt in the tree and adds none |
| Selection.FirstOwner | common.js:151-163 | Reference search: the owner of the first entry for the prompt in the (prompt, owner) listing, nothing exactly when there is none |
| Selection.OwnedFollowsIterator | common.js:235-243 | The (prompt, owner) listing follows the iterator: its prompts are the tree's prompts in iteration order |
| Selection.FindGroup | common.js:151-163 | `findGroup` returns the reference search's answer: the group directly holding the prompt's first occurrence in depth-first child order |
| Selection.FindGroupNone | common.js:151-163 | `findGroup` returns nothing exactly when the prompt is nowhere in the tree |
| Selection.FindGroupOwner | common.js:151-163 | The group `findGroup` returns is in the tree, holds the prompt as a direct child, and owns its first occurrence in iteration order |
| Selection.Chain | common.js:209-215 | A group's chain (itself, then `getParents`) starts at the group and ends at the root; a group not in the tree has none |
| Selection.ChainSuffix | common.js:209-215 | Every suffix of a chain is the chain of its first group |
| Selection.ChainParent | common.js:209-215 | The second group of a chain is the parent of the first |
| Selection.ParentsAreAncestors | common.js:209-215 | `getParents` never yields the group itself, is empty exactly for the root, ends at the root, and yields each group's parent after it |
| Selection.RenderLists | common.js:165-175 | Without weights, `toString` lists the prompts' texts in iteration order, separated by ", ", and adds nothing but parentheses |
| Selection.RenderListsPlain | common.js:165-175 | Without weights, and with no parenthesis in any prompt text, deleting the parentheses from `toString`'s output leaves exactly the prompts' own texts joined by ", " in iteration order |
| Selection.GroupRankLeast | common.js:217-221 | A group with children in rank order has the least rank among its children |
| Selection.RankFirstPrompt | common.js:217-221 | A group with no empty group inside has the rank of the first prompt it yields in iteration order |
| Selection.RankLeastPrompt | common.js:217-221 | In a subtree with no empty group and every group's children in rank order, the subtree's rank is the least rank of any prompt it holds |
| Selection.AncestorsLeftUnsorted | common.js:140-146 | A valid tree with every group in rank order, where deselecting a prompt leaves an ancestor's children out of rank order and renders as "c, b" |
| Editor.MinLength | main.js:97 | The shortest chain length is at most every chain's length and equal to one of them |
| Editor.FirstAgreement | main.js:98-102 | The first index below the shortest length at which all chains hold the same group, or nothing exactly when there is no such index |
| Editor.GetCommonParent | main.js:91-104 | The loop returns the group the chains share at the first index where they agree, or nothing |
| Editor.CommonParentShared | main.js:92-100 | When every prompt sits directly in the same group, that group is the common parent |
| Editor.CommonParentDepth | main.js:92-103 | A common parent, when there is one, is in the tree and on every chain, and all chains have the same length |
| Editor.CommonParentUnequalDepths | main.js:97-103 | Owners at different depths have no common parent |
| Editor.Session.constructor | main.js:18-26 | Start-up builds the taxonomy from the loaded mapping, the two lookups over it and an empty selection, satisfying the invariant |
| Editor.SelectFacts | main.js:111-112 | Appending a fresh one-prompt group to the root keeps the invariant, makes that group a root child, and adds exactly that prompt |
| Editor.Session.Select | main.js:111-112 | Ticking appends one new one-prompt group to the root, adds exactly that prompt, and keeps the invariant |
| Editor.DeselectFacts | main.js:113-114 | `findGroup` fails exactly for a prompt not in the tree; otherwise removing from its group keeps the invariant, removes at least one occurrence and keeps every other prompt |
| Editor.Session.Deselect | main.js:113-114 | Unticking removes the prompt from the group `findGroup` reports, keeps all other prompts and the invariant; an absent prompt changes nothing |
| Editor.Session.ClickPromptSelector | main.js:106-117 | An unknown id is ignored; otherwise the catalogue prompt with that id is added when ticked and taken out of its group when unticked |
| Editor.SingletonsFacts | main.js:124 | `new PromptGroup(p)` per prompt gives one-prompt groups with consecutive fresh ids holding exactly the prompts, in order |
| Editor.BundleFacts | main.js:124 | The new group holds exactly the checked prompts, its ids are fresh and distinct, and none of its groups is empty |
| Editor.TargetInTree | main.js:123 | The group the bundle goes to (common parent or root) is in the tree |
| Editor.TargetShared | main.js:122-123 | Prompts that all sit directly in one group are bundled inside that group |
| Editor.RemoveEach | main.js:125 | The loop lets each group go of its prompt in order, yielding the removal fold |
| Editor.RemoveAllFacts | main.js:125 | Removals that only take out prompts also held in kept groups keep the invariant, keep those groups in place and keep the set of prompts |
| Editor.BundledFacts | main.js:119-128 | After grouping, the bundle is a child of the target, the invariant holds, and the same prompts are in the tree |
| Editor.BundledCount | main.js:119-128 | When no prompt is in the tree twice and none is checked twice, the grouped tree holds each prompt exactly as often as before, so a checked prompt is left only in the bundle and has left the group that held it |
| Editor.RemoveAllCount | main.js:125 | Each removal in the loop takes exactly its prompt out of the tree, once, and leaves the later prompts in the groups that hold them |
| Editor.BundleChecked | main.js:121-126 | The handler's steps compute the grouped tree: common parent or root, append the bundle, then the removals |
| Editor.Session.AddGroup | main.js:119-128 | With fewer than two checked prompts nothing changes; otherwise the bundle of fresh one-prompt groups is a child of the common parent or root, the prompt set is unchanged, and the invariant holds; when no prompt is in the tree or checked twice, every prompt is held exactly as often as before, so each checked prompt has left its former group |
| Editor.Away | main.js:132 | The filter keeps exactly the pairs whose group is not the root |
| Editor.UngroupedFacts | main.js:130-137 | After ungrouping, each moved prompt is alone in a fresh group directly under the root, the prompt set and the invariant are kept, and with nothing moved only the root's children are re-sorted |
| Editor.UngroupedCount | main.js:130-137 | When no prompt is in the tree twice and none is checked twice, the ungrouped tree holds each prompt exactly as often as before, so a moved prompt is left only in its new group and has left the group that held it |
| Editor.UngroupChecked | main.js:131-135 | The handler's steps compute the ungrouped tree: filter, append the one-prompt groups to the root, then the removals |
| Editor.Session.RemoveGroup | main.js:130-137 | Each checked prompt held below the root ends up alone in a fresh group under the root, no prompt is added or lost, and the invariant holds; when no prompt is in the tree or checked twice, every prompt is held exactly as often as before, so each moved prompt has left its former group |

## Left out

- `loadPrompt` is not part of this model. It is a network fetch plus a
  literal fallback taxonomy. The loaded mapping is the constructor's
  parameter.
- Page rendering and queries are not modelled: `toElements`,
  `writeSelectedPrompt`, `writePromptSelector`, `getCheckedPrompts`,
  event wiring and `console.log`. The checked prompts are a parameter of
  the group handlers.
- Group ids are random strings in the page. Here they come from a
  counter, and a group's identity is its id.
- `weight` is an opaque optional token. The code never assigns it, and
  the float-to-string formatting of a JS number is not modelled.
- script.js is an earlier revision of the page and is not part of this
  model.
- Object mutation in place, aliasing and the `parent` back-pointers are
  not modelled. The selection is a value tree, and a group's parent is
  derived from its position. `Prompt.parent` and `PromptCategory.parent`
  are dropped, and `Object.freeze` is implicit.
- `findGroup` compares with `==`, which is object identity for prompts.
  The model compares prompt values; catalogue prompts have distinct ranks,
  so the two agree.
- The taxonomy's object input is taken as an ordered list of named
  sub-mappings. JavaScript's key-ordering rules, which put integer-like
  keys first, are not modelled.
- Selection.AppendAt: does not model the detach branch of `append`
  (common.js:128-130), which removes an appended group from a former
  parent. The page only ever appends freshly built groups, so that branch
  never runs there.
- Editor.Session.AddGroup: states that a former owning group lets go of
  its prompt through a count: each prompt is held as often as before.
  This is stated only when no prompt is in the tree twice and none is
  checked twice. Otherwise a removal may hit a group already pruned (see
  Editor.RemoveAll below).
- Editor.Session.RemoveGroup: states the same count under the same
  condition, for the same reason.
- Editor.UngroupedFacts: with the prompt set it states only which
  prompts are in the tree. How often each is held is stated by
  Editor.UngroupedCount, under the condition above.
- Editor.Session.AddGroup: requires every checked prompt to be in the
  tree, because the page reads the checked prompts from the rendered tree.
  A prompt without a group would make the page throw after the append;
  that path is not modelled.
- Editor.Session.RemoveGroup: requires every checked prompt to be in the
  tree, for the same reason.
- Editor.Session.Deselect: models the page's error for a prompt no group
  holds as "nothing changes". In the page, `findGroup` returns
  `undefined` and the handler throws before re-rendering.
- Editor.RemoveAll: removing from a group that an earlier removal in the
  same handler has already pruned leaves the tree unchanged. In the page,
  the pruned object keeps its parent pointer and can re-sort its former
  parent's children. This needs the same prompt to be checked twice.
