# qTree, modelled in Dafny

qTree (`src/qtree.js`) is a browser tree widget. A call renders a forest of
user nodes into a container element as nested `UL`/`LI` elements. Each item
may carry a checkbox, an open or collapsed class, a selected class and an id
attribute. The widget then reacts to clicks and answers queries, and all of
its state lives in the DOM. This project models that state and proves what
the widget's operations do to it.

- **The tree** (`skeleton.dfy`). The rendered tree is numbered. Item 0 is the
  container, which the source tags as the "mega-root". Items 1.. are the
  `LI`s in document order. `Skeleton` records each item's parent and its
  child list, and it is fixed once the tree is rendered. `Anc` is the set of
  an item's ancestors.
- **Rendering** (`materialize.dfy`, `flatten.dfy`). `Render` turns a source
  node into the value of the `LI` it becomes. It applies the transform, the
  checkbox default and the expand rule, and drops rejected children.
  `Flatten` numbers the rendered forest in pre-order. The class constructor
  runs the imperative `FillRoot`/`MakeItem` loops and is proved equal to
  both.
- **Checkboxes** (`checkbox.dfy`). A checkbox is `NoBox` or
  `Box(checked, indeterminate)`.
  - `Cascaded` is the downward propagation.
  - `Climb` is the upward aggregation.
  - `Clicked` and `CheckedBy` combine them the way a user click and
    `setNodeChecked` do.
- **Walking** (`walk.dfy`). `WalkFrom` is the pre-order walk, steered by the
  four signals a visitor returns. `WalkSubTree` is its imperative
  counterpart.
- **Queries** (`queries.dfy`). `getAllChecked` and `getAllExpanded` are
  stated on values.
- **The widget** (`tree.dfy`). Class `Tree` holds the mutable state: the
  checkboxes, the open classes, the selected classes and the user events
  dispatched so far. Its methods are the event handlers and the public
  `treeDom` operations. The methods are proved against the functions above,
  and the class invariant `Valid` holds throughout.

Two modelling conventions hold throughout:

- A DOM element handed to the widget is a `Handle`. It can be the item
  element itself, its line `DIV`, its child `UL` (the "bag"), null, or an
  element outside the tree.
- An indeterminate checkbox is always stored unchecked, because the source
  always clears `checked` before it sets `indeterminate`.

## Model

| member | source | states |
|---|---|---|
| Materialize.ExpandLevels | src/qtree.js:44-46 | the number of levels opened regardless of the predicate is the least count that is neither negative nor below the expandLevels option: a negative option opens no level, any other opens exactly that many |
| Materialize.ExpandBand | src/qtree.js:83-86 | an item at a level below expandLevels starts open; at any other level funcIsNodeExpanded alone decides |
| Materialize.Survivors | src/qtree.js:261-268 | the indices of the source children that render (the transform did not reject them), increasing |
| Materialize.RenderListIsSurvivors | src/qtree.js:320-328 | the rendered child list is exactly the surviving children's items, in source order, with no gaps |
| Materialize.RenderedChildren | src/qtree.js:313-360 | an item has children (and an expand class) exactly when at least one child survived; it is open exactly when its level is below expandLevels or funcIsNodeExpanded holds |
| Materialize.RenderLeveled | src/qtree.js:261-265 | every rendered item records the level it was rendered at, and each child sits one level below its parent |
| Materialize.RenderListLeveled | src/qtree.js:322-323 | every item of a rendered child list carries that list's level |
| Materialize.RenderKeepsShape | src/qtree.js:261-360 | when the transform rejects and changes nothing, every node renders and the rendered tree has the source tree's shape: the same child counts, in the same order |
| Materialize.RenderListKeepsShape | src/qtree.js:322-328 | when the transform rejects and changes nothing, a child list renders element for element, each with its source node's shape |
| Materialize.DefaultRender | src/qtree.js:41-56 | with the default options every source node renders in the source's shape, starts collapsed, and has a checkbox only when the node asks for one |
| Materialize.MakeItem | src/qtree.js:261-371 | the imperative item builder, with its realChildrenCount loop, yields the value `Render` defines |
| Materialize.FillRoot | src/qtree.js:615-634 | the top-level loop renders the root children at level 0, as `RenderList` defines |
| Flattening.Place | src/qtree.js:322-326 | appending a rendered subtree numbers it right after the items already present, and makes it the last child of its parent |
| Flattening.PlaceList | src/qtree.js:322-328 | appending a child list keeps its order among the parent's children and keeps every earlier item intact |
| Flattening.Flatten | src/qtree.js:615-648 | the numbered tree has the container as item 0, one item per rendered node, and mirrors the rendered forest item by item |
| Flattening.RenderCoherent | src/qtree.js:313-360 | a rendered item has an expand state exactly when it has children |
| Flattening.RenderListCoherent | src/qtree.js:322-328 | every item of a rendered child list is coherent in that sense |
| Widget.Layout | src/qtree.js:615-652 | the container is item 0, holds the rendered forest and is mirrored by the numbering |
| Widget.InitialOpen | src/qtree.js:347-360 | right after rendering, an item carries an open or collapsed class exactly when it has children, and the container carries neither |
| Widget.Tree.constructor | src/qtree.js:24-78 | the options are read and the forest rendered; no checkbox is checked or indeterminate, nothing is selected and no event has been dispatched |
| Widget.Tree.ItemOf | src/qtree.js:179-188 | the item an element belongs to: itself, the item of a line or a bag, or none for null and foreign elements |
| Widget.Tree.RootOf | src/qtree.js:661-665 | a walk starts at the container when no root is given |
| Widget.Tree.ParentOf | src/qtree.js:190-199 | the parent item, and none for top-level items, the container, null and foreign elements |
| Widget.Tree.ChildrenOf | src/qtree.js:227-233 | exactly the items whose parent is the given item, in increasing item order (their document order), and none for null or foreign elements |
| Widget.Tree.HasCheckbox | src/qtree.js:700 | true exactly for an item that carries a checkbox, never for the container |
| Widget.Tree.IsChecked | src/qtree.js:707-713 | null without a checkbox or when indeterminate, otherwise the checked flag |
| Widget.Tree.IsExpanded | src/qtree.js:821-826 | null for null, foreign elements and items without children, otherwise whether the open class is present; false for the container |
| Widget.Tree.GetId | src/qtree.js:695-698 | the id attribute of an item of this tree, and nothing for the other handles the model knows (lines, checkboxes, the container) |
| Widget.Tree.FindById | src/qtree.js:689-692 | the first item in document order that carries the id: no item before it in document order carries the id, and none is returned exactly when no item carries it |
| Widget.Tree.FindByIdComplete | src/qtree.js:689-692 | the document-order search meets every item that carries the id |
| Checkboxes.ChildrenMatch | src/qtree.js:437-455 | children without a checkbox always match; a definite child matches exactly the value it reads; an indeterminate child matches null and also false, but never true |
| Checkboxes.ClimbFrame | src/qtree.js:474-541 | the upward aggregation changes only the items above the starting item |
| Checkboxes.ClimbIndeterminate | src/qtree.js:485-494 | once a state is indeterminate, every checkbox above becomes indeterminate (stored unchecked) and nothing else changes |
| Checkboxes.ClimbDefinite | src/qtree.js:497-540 | the parent becomes definite exactly when its children agree; otherwise it becomes indeterminate, and so does everything above it |
| Checkboxes.ClimbKeepsOk | src/qtree.js:474-541 | the aggregation never stores a checked indeterminate box and never gives the container a box |
| Checkboxes.PropagatedShape | src/qtree.js:545-568 | a propagated change of an item sets every checkbox below it to that state, leaves the item itself alone, and touches nothing outside its subtree and its ancestors |
| Checkboxes.ClickedOwn | src/qtree.js:545-555 | after a click the clicked checkbox is definite and flipped, whether or not propagation is on |
| Checkboxes.SiblingsScenario | src/qtree.js:474-541 | checking one of two siblings makes the parent indeterminate; checking the other then makes it checked |
| Checkboxes.LeafCascade | src/qtree.js:457-472 | cascading from an item without children changes nothing |
| Widget.Tree.SetChildrenNodesChecked | src/qtree.js:457-472 | every checkbox strictly below the item becomes definite, passing through items without one; everything else is unchanged |
| Widget.Tree.IsAllChildrenNodesCheckedStateMatch | src/qtree.js:437-455 | the loop answers exactly `ChildrenMatch` and changes nothing |
| Widget.Tree.SetParentNodesChecked | src/qtree.js:474-541 | the recursive aggregation yields `Climb` and keeps the invariant |
| Widget.Tree.OnCheckboxClick | src/qtree.js:545-555 | the boxes become `Clicked`, the clicked box is flipped and definite, and one checked event with the new value is dispatched |
| Widget.Tree.SetNodeChecked | src/qtree.js:557-568 | nothing happens without a checkbox; otherwise the boxes become `CheckedBy` and the box reads the given value |
| Widget.Tree.SetChecked | src/qtree.js:702-705 | the state defaults to checked; the item's checkbox then reads that state and, with propagation on, so does every checkbox below it |
| Widget.Tree.AddCheckbox | src/qtree.js:715-726 | an item other than the container ends up with a checkbox, which is set and propagated (unchecked by default) when it was new, and set only when a state is given otherwise; the container gets none |
| Widget.Tree.RemoveCheckbox | src/qtree.js:728-730 | the item's checkbox is removed and nothing else changes |
| Traversal.WalkFromBelow | src/qtree.js:661-678 | the walk visits only items strictly below its root |
| Traversal.WalkFromStop | src/qtree.js:669 | a stop signal ends the walk at once, with a false result |
| Traversal.WalkFromFails | src/qtree.js:661-678 | a walk returns false only when a visitor signalled stop, on the last visited item |
| Traversal.WalkGoParent | src/qtree.js:670 | go-parent on a child of the root ends the walk successfully at that child |
| Traversal.WalkFromSkip | src/qtree.js:671-675 | nothing below an item that signalled skip-children or go-parent is visited |
| Traversal.WalkFromVisits | src/qtree.js:661-678 | a visitor that never stops or goes up visits exactly the items below the root whose path from the root passes only continuing items |
| Traversal.WalkFromOnce | src/qtree.js:661-678 | whatever the visitor returns, the walk hands each item to it at most once |
| Traversal.PathOpenStep | src/qtree.js:667-675 | an item below the child `k` is reached from `k`'s parent exactly when the visitor answers continue at `k` and the path from `k` down to it is open |
| Traversal.WalkTameOk | src/qtree.js:661-678 | such a walk returns true |
| Traversal.WalkSubTree | src/qtree.js:661-678 | the imperative recursive walk yields exactly `WalkFrom` |
| Widget.Tree.Walk | src/qtree.js:732-734 | no visitor returns false; an element outside the tree returns true at once; otherwise it is `WalkFrom` from the root, visiting only items below it |
| Queries.Keep | src/qtree.js:741-778 | the collected items are exactly the visited items that satisfy the test |
| Queries.AllCheckedRoots | src/qtree.js:749-759 | with propagation on, exactly the checked items below the root that are reached only through items without a checkbox or with an indeterminate one |
| Queries.AllCheckedPlain | src/qtree.js:745-748 | with propagation off, exactly the checked items below the root |
| Queries.AllCheckedDisjoint | src/qtree.js:749-759 | with propagation on, no returned item lies below another |
| Queries.OpenBelowExactly | src/qtree.js:794-803 | exactly the items below the root that carry the open class, whether or not they are visible |
| Queries.DocOrder | src/qtree.js:794-796 | document order below an item lists every item of its subtree, each exactly once, and nothing else |
| Queries.OpenBelowInOrder | src/qtree.js:794-803 | the open items are listed each once, in document order |
| Queries.AllCheckedInOrder | src/qtree.js:741-778 | the checked items are listed each once, in the order the walk reaches them |
| Queries.KeepOnce | src/qtree.js:741-778 | filtering a list without repeats gives a list without repeats |
| Queries.KeepInOrder | src/qtree.js:741-778 | filtering keeps the relative order of the items it keeps |
| Queries.KeepFirst | src/qtree.js:689-692 | the first item kept is the first item of the list that passes the test |
| Widget.Tree.GetAllChecked | src/qtree.js:741-778 | the collecting loop returns the items the two characterisations above describe, each once and in the order the walk reaches them, and changes nothing |
| Widget.Tree.CollectChecked | src/qtree.js:743-777 | the pushes of the visitor keep exactly the visited items whose checkbox reads checked, in visiting order |
| Widget.Tree.SetAllChecked | src/qtree.js:780-789 | every checkbox below the root becomes definite with the given state (checked by default); nothing outside the subtree changes |
| Widget.Tree.SetEach | src/qtree.js:782-788 | each visited item's checkbox, if it has one, becomes definite with the given state; every other item and every other field is unchanged |
| Widget.Tree.GetAllExpanded | src/qtree.js:794-803 | exactly the open items below the root (the container when null), each once and in document order; none below a line element |
| Widget.SetAllCheckedAsWritten | src/qtree.js:780-789 | the operation as written sets every checkbox of the whole tree, whatever root it is given |
| Widget.SetAllCheckedLeaksOutside | src/qtree.js:780-789 | in the tree A(B, C), setting all checked below B also checks C, which is not below B |
| Widget.AddCheckboxOnContainerLoops | src/qtree.js:715-726 | with a checkbox added to the container, the stray `INPUT` resolves to the container, so its child list is the container's; for a non-empty forest the cascade from the container calls itself on that `INPUT` at every depth, so it only stops when the stack overflows; an empty forest gets no `INPUT` |
| Widget.Shown | src/qtree.js:392-404 | showing never leaves an item collapsed and neither adds nor removes the expand class |
| Widget.Hidden | src/qtree.js:378-390 | hiding never leaves an item open and neither adds nor removes the expand class |
| Widget.ShowHide | src/qtree.js:378-404 | showing and hiding are each idempotent, the later of two calls decides, and an item already in the target state is left alone |
| Widget.Tree.OnToggleClick | src/qtree.js:419-431 | an item with children flips between open and collapsed and dispatches one toggled event with the new state; one without children is left alone |
| Widget.Tree.SetExpanded | src/qtree.js:805-819 | the state defaults to expanded; an item with children ends in the requested state, the container and childless items are unchanged, and no event is dispatched |
| Widget.Tree.ShowExpandPath | src/qtree.js:828-837 | every item above the given one becomes open, and nothing else changes |
| Widget.FirstSelected | src/qtree.js:574-580 | the first item carrying the selected class, and none exactly when no item carries it |
| Widget.ClearedNone | src/qtree.js:574-580 | since at most one item is ever selected, clearing leaves no item selected |
| Widget.Tree.ClearSelected | src/qtree.js:574-580 | no item stays selected; the container's own selected class, which the `LI` query never finds, is kept |
| Widget.Tree.SetSelected | src/qtree.js:598-610 | null or a foreign element clears the selection; an already selected item is left alone; otherwise the item becomes the only selected one, and no event is dispatched |
| Widget.Tree.OnLineClick | src/qtree.js:582-596 | with selection on, an unselected item becomes the only selected one and one selected event is dispatched; with selection off the click reaches the item, which flips between open and collapsed with one toggled event if it has children and is left alone otherwise |

## Left out

- The DOM itself is not modelled: element creation, class strings, `style.display`, the text and html of a line, `className`, and the `qtree-level-N` classes. The model keeps only the state the operations read back.
- Event plumbing (`stopEventPropagation`, the handler objects) is not modelled. Dispatched events are appended to the `events` log, and a line click with selection off is modelled as reaching the item's own click handler.
- getRoot, getUserData, attachSourceNode, funcAttachDomNode and the userData field are not modelled. They hand back or attach opaque user values.
- needClearTarget is not modelled: the container is taken to be empty before rendering.
- useStyleDisplayForShowAndHide is not modelled: only the open and collapsed classes are.
- IDETERMINATE_BY_CLASS is not modelled. It is a false constant, so indeterminate always means the checkbox property.
- PROPAGATE_CHECK_VIA_NODES_WITHOUT_CHECKBOX is not modelled as a switch. It is a true constant, so the branches it disables are left out.
- Widget.Tree.FindById: the CSS escaping of the id (escapeCSSAttrValue replaces only the first occurrence of each special character) is not modelled. Ids are compared as plain strings.
- Null entries in a source children array are not modelled (the `userNode == null` guard).
- Materialize.Render: the transform (funcGetTreeNode) is required never to return a node larger than its input, because the model needs that for termination. The source does not demand it.
- Widget.Tree.AddCheckbox: on the container the model adds no checkbox and changes nothing. As written, the source inserts an `INPUT` into the top-level `UL`; that `INPUT` resolves back to the container (src/qtree.js:179-187), so for a non-empty forest with propagation on `setChildrenNodesChecked` (src/qtree.js:457-472) calls itself on it until the JavaScript stack overflows, leaving the `INPUT` in the list, and a later walk from the container recurses the same way. For an empty forest there is no top-level `UL` and nothing is added (src/qtree.js:242). See "## Findings".
- Widget.Tree.RemoveCheckbox: the source calls `cb.parentNode.removeNode(cb)` (src/qtree.js:257). `removeNode` is not a standard DOM method, so in current browsers this throws a TypeError and nothing is removed; in old Internet Explorer it would remove the checkbox's parent line element instead. The model removes just the checkbox, as the code evidently intends.
- Widget.Tree.GetId: the model requires a non-null handle. On null the source throws a TypeError when it calls `hasAttribute` (src/qtree.js:696); that failure is not modelled. The source also returns the `qtree-node-id` attribute of any element that carries one (an item of another tree instance, or user markup inside a line); the model returns None for every handle outside this tree.
- Widget.Tree.ShowExpandPath: the source's guard against a parent without children is left out, because a parent always has the child it was reached from.
- Visitors and predicates (the transform, funcIsNodeExpanded, walk callbacks) are modelled as pure functions. A callback that mutates the tree during a walk is not modelled.

## Findings

| source | as written | input that shows it | evidently intended | confidence | as-written member | corrected member |
|---|---|---|---|---|---|---|
| src/qtree.js:780-789 | setAllChecked starts its walk without passing `rootDomNode`, so every checkbox of the whole tree is set | a tree A(B, C) with three unchecked checkboxes; setAllChecked(true, B) also checks C | only the checkboxes below the given root are set, as in getAllChecked | not executed | Widget.SetAllCheckedAsWritten | Widget.Tree.SetAllChecked |
| src/qtree.js:715-726 | addCheckbox accepts the container: the new `INPUT` goes into the top-level `UL` and resolves back to the container, so the cascade that setNodeChecked starts recurses on that `INPUT` until the stack overflows | any non-empty forest with propagation on (the default); addCheckbox(container) | the container is not an item and gets no checkbox, as getParent already treats it | not executed | Widget.AddCheckboxOnContainerLoops | Widget.Tree.AddCheckbox |
