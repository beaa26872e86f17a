# HTML include utility: a Dafny model

The repository is one browser script, `Content/js/includes.js`. When the
page is ready it finds every element carrying a `data-include` attribute
(a *placeholder*). It fetches the HTML fragment each attribute names and
splices the fragment's top-level nodes into the document in place of the
placeholder. A placeholder whose fragment cannot be loaded is simply
removed.

The model has three modules.

- `ChildLists` (`child_lists.dfy`) models one node's ordered child list as
  a sequence of node ids. It has the pure effect of `removeChild`
  (`Without`), of `insertBefore` (`PlacedBefore`), of moving a whole
  fragment node by node in front of the placeholder (`MoveEachBefore`) and
  of the intended replacement (`Spliced`). It proves how these relate.
- `Dom` (`dom.dfy`) holds the document tree as a class `Tree`.
  - It keeps one map from each node to its ordered children and one from
    each node to its parent.
  - It has the four DOM calls the script makes: `createElement`, the
    `innerHTML` setter on an empty element, `insertBefore` and
    `removeChild`.
  - It keeps one invariant: child lists and parent links agree, and no
    list holds a node twice.
  - New nodes get ids from a counter.
- `Includes` (`includes.dfy`) holds `loadInclude` and `initializeIncludes`.
  - The move loop is an imperative `while` loop.
  - The then/then/catch chain is split into `ReadBody`, `ReplaceWithMarkup`
    and `DropPlaceholder`.
  - The settling of all fetches is a loop over a completion order. That
    order is any permutation of the placeholders.

## Model

| member | source | states |
|---|---|---|
| ChildLists.Without | Content/js/includes.js:29 | removeChild leaves the parent's list with exactly one occurrence of the removed child fewer, as a multiset |
| ChildLists.WithoutAt | Content/js/includes.js:29 | removing the child that follows prefix `a` yields `a` followed by the rest, unchanged |
| ChildLists.WithoutDistinct | Content/js/includes.js:29 | after removeChild the list still has no duplicates and no longer contains the removed child |
| ChildLists.PlacedBefore | Content/js/includes.js:25 | insertBefore adds exactly the inserted node, as a multiset, and keeps the reference node |
| ChildLists.PlacedThenRemoved | Content/js/includes.js:25-29 | the inserted node sits where the reference node was, the reference node moves one place later, and removing the inserted node restores the list |
| ChildLists.Spliced | Content/js/includes.js:20-29 | replacing the placeholder removes it once and adds every fragment node, as a multiset |
| ChildLists.SplicedAt | Content/js/includes.js:20-29 | replacing the placeholder that follows prefix `a` yields the prefix, then the fragment in order, then the suffix |
| ChildLists.SplicedDistinct | Content/js/includes.js:20-29 | replacing the placeholder by new, distinct nodes leaves no duplicate and no placeholder |
| ChildLists.MoveEachBefore | Content/js/includes.js:24-26 | inserting each fragment node before the placeholder keeps every old node, adds every fragment node and keeps the placeholder |
| ChildLists.MoveEachShape | Content/js/includes.js:24-26 | moving the fragment node by node lays it out in its own order immediately before the placeholder |
| ChildLists.MoveEachThenRemove | Content/js/includes.js:23-29 | the move loop followed by removeChild of the placeholder is exactly the splice: prefix, fragment, suffix |
| Dom.NewIds | Content/js/includes.js:18 | the parser produces `count` distinct ids, all at or above the first unused id |
| Dom.ParsedConsistent | Content/js/includes.js:18 | filling an empty element with new childless nodes keeps child lists and parent links in agreement |
| Dom.RemovedConsistent | Content/js/includes.js:29 | removeChild keeps child lists and parent links in agreement |
| Dom.PlacedConsistent | Content/js/includes.js:25 | insertBefore of a node without a parent keeps child lists and parent links in agreement |
| Dom.Tree.CreateElement | Content/js/includes.js:17 | createElement adds a new node with no parent and no children, and nothing else changes |
| Dom.Tree.ParseInto | Content/js/includes.js:18 | the innerHTML setter gives the empty temporary container exactly the parsed new top-level nodes, in order |
| Dom.Tree.RemoveChild | Content/js/includes.js:29 | removeChild takes the child out of its parent's list and clears its parent link; nothing else changes |
| Dom.Tree.PlaceBefore | Content/js/includes.js:25 | insertBefore of a node without a parent puts it immediately before the reference child |
| Dom.Tree.InsertBefore | Content/js/includes.js:25 | insertBefore first detaches the node from its current parent, then places it immediately before the reference child |
| Includes.ReadBody | Content/js/includes.js:8-14 | markup is handed on exactly when the response is ok; a non-ok response becomes an error naming the path and the status text |
| Includes.MoveFirstChild | Content/js/includes.js:25 | one iteration moves the container's first child in front of the placeholder |
| Includes.MovingStep | Content/js/includes.js:24-26 | each iteration keeps the loop invariant: the container holds the rest of the fragment and the final list is unchanged |
| Includes.MovingDone | Content/js/includes.js:24-26 | once the container is empty, the whole fragment has moved |
| Includes.MoveChildrenBefore | Content/js/includes.js:23-26 | the loop empties the temporary container, moves its children before the placeholder and re-parents them; other lists are unchanged |
| Includes.ParsedFresh | Content/js/includes.js:17-18 | creating and filling the temporary container leaves every existing node's children and parent link untouched |
| Includes.MovedThenRemoved | Content/js/includes.js:23-29 | moving the fragment and then removing the placeholder replaces the placeholder by the fragment in the parent's list |
| Includes.DropPlaceholder | Content/js/includes.js:31-37 | the catch handler removes an attached placeholder from its parent and changes nothing for a detached one |
| Includes.ReplaceWithMarkup | Content/js/includes.js:15-30 | with a parent, the placeholder is replaced by the fragment and the container is left empty and detached; without one, the DOM calls throw before any existing node changes |
| Includes.ReplacedDropsPlaceholder | Content/js/includes.js:28-29 | after a replacement the placeholder is gone, the list has no duplicates, and its length is old length - 1 + fragment length |
| Includes.LoadInclude | Content/js/includes.js:7-38 | after loading, the placeholder is detached in every case. An ok response with a parent splices the fragment, whose `topLevel` new nodes become children of the placeholder's parent. A failed load removes an attached placeholder and changes nothing for a detached one. The placeholder's parent list becomes the splice of the fragment (nothing, on failure) in place of the placeholder; every other existing list is kept. Every other node keeps its parent, and a detached node never becomes attached |
| Includes.LoadOutcome | Content/js/includes.js:15-37 | in each of loadInclude's four outcomes, the placeholder's parent list has the fragment (nothing, on failure) spliced in where the placeholder stood, every other existing list and link is kept, detached nodes stay detached, and the fragment's new nodes are children of the placeholder's parent |
| Includes.IncludePaths | Content/js/includes.js:49-50 | each snapshot element is requested with its own data-include value, in snapshot order |
| Includes.NextNotDone | Content/js/includes.js:49-55 | the next continuation in a completion order belongs to a placeholder not loaded yet, and running it adds just that placeholder to the loaded ones |
| Includes.AllDone | Content/js/includes.js:49-55 | once the whole completion order has run, exactly the positions of the snapshot have been loaded |
| Includes.LoadsStep | Content/js/includes.js:7-38 | one more load keeps the driver's account: nodes outside the snapshot keep their parents, placeholders not yet loaded keep theirs, and each loaded placeholder is detached with its fragment under its old parent, or nothing added when its load failed |
| Includes.ExpandedNodes | Content/js/includes.js:49-55 | a list after the loads holds only its old nodes and nodes of loaded fragments, and keeps every old node that is not a loaded placeholder |
| Includes.ExpandedNone | Content/js/includes.js:44-46 | before any load, every list is as it was |
| Includes.ExpandedConcat | Content/js/includes.js:49-55 | the loads act on each part of a list separately |
| Includes.ExpandedElsewhere | Content/js/includes.js:20-29 | loading one placeholder leaves every list that does not hold it as it was |
| Includes.ExpandedSplice | Content/js/includes.js:20-29 | loading one more placeholder splices its fragment into its parent's list exactly where the placeholder stands, whatever was loaded before |
| Includes.ListsStep | Content/js/includes.js:49-55 | one more load keeps every existing list equal to its old list with the loaded placeholders replaced in place |
| Includes.AttachedAfter | Content/js/includes.js:49-55 | after all loads, a child of an existing node is an old child that is not a placeholder, or a node of some fragment |
| Includes.SettleNext | Content/js/includes.js:49-55 | running one more continuation keeps both accounts of the driver: the lists and the links |
| Includes.LoadAll | Content/js/includes.js:49-55 | after every continuation has run, in any completion order, every list has all placeholders replaced in place, and the links are as the driver's account says |
| Includes.InitializeIncludes | Content/js/includes.js:40-56 | an empty snapshot fetches nothing and changes nothing. Otherwise the i-th path requested is the i-th element's data-include value, and afterwards no snapshot element is attached. Every existing child list is its old list with each placeholder replaced in place by its fragment: the fragment's `topLevel` new nodes for an element attached at the start with an ok response, nothing otherwise. Every node outside the snapshot keeps its parent, an existing node without a parent still has none, and the only new children of existing nodes are fragment nodes |

## Left out

- Network and body reading are parameters. What fetch and `response.text()` settle to is a `FetchResult` passed in.
- HTML parsing and trimming are abstracted. A response is summarised by the number of top-level nodes its trimmed text parses into, and those nodes are modelled as new nodes whose own contents are not tracked.
- Concurrency is reduced to an order. Continuations of different placeholders run one whole `loadInclude` at a time, in an order chosen by the caller (`completion`, any permutation). The two `then` steps and the `catch` of one placeholder are not interleaved with those of another. Each touches only its own placeholder's position and new nodes.
- The promise values are not modelled: the `Promise.resolve()`/`Promise.all` results and the readiness signal (`window.includesLoaded`).
- The readiness wait is not modelled: the `document.readyState` check and the `DOMContentLoaded` listener, lines 58-69.
- `querySelectorAll` is a parameter. The snapshot of placeholders and their `data-include` values are inputs (`includes`, `dataInclude`). As a `querySelectorAll` result, the snapshot lists each element once (`Distinct(includes)`).
- `console.error` is left out. It only writes to the console. The error message is still built, in `ReadBody`.
- The tree does not track acyclicity. The nodes the script moves are new nodes, so they are never ancestors of the placeholder's parent, and that HierarchyRequestError case of `insertBefore` cannot arise.
- Dom.Tree.InsertBefore: node kinds are not modelled, so every parent accepts every child and `insertBefore` never throws. In a browser, when the placeholder is the root element (its parent is the Document itself), `insertBefore` throws a HierarchyRequestError as soon as the loop reaches a text or element node of the fragment, since a Document takes no text child and only one element child. There the nodes already moved stay in the Document and the catch handler removes the placeholder. The model treats every placeholder's parent as an element.
- The header comment says includes load "synchronously before other scripts run". The code does not do that: it loads asynchronously and only exposes a promise. The model follows the code.
- Includes.InitializeIncludes: no clause counts the loads of each element. That each is loaded exactly once follows from the loop visiting each position of the `completion` permutation once (`NextNotDone`, `AllDone`). The contract states the outcome of each element's load instead.
