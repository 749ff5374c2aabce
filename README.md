# Artboard core in Dafny

Artboard is a drawing board. It holds a forest of components: Images and
Notes (leaves), Groups (composites with an ordered list of elements) and
Draggables (a decorator that wraps one component and makes it movable).
This project models the part of Artboard that walks and edits that forest:

- the component classes (`Model.js`, `Draggable.js`): the datatype
  `Model.Node`, plus the class `Model.GroupObject` for a Group whose
  `elements` are pushed to and filtered in place;
- the stack-based depth-first iterator (`Iterator.js`): the class
  `Iterator.TreeIterator`, whose fields `stack` and `visited` its methods
  update. Each method is proved against the pure walk
  `Iterator.Traversal`;
- the board's reducer and `getElement` lookup (`Context.js`);
- the two factories that draw ids from `getId` (`SimpleComponents.js`,
  `DraggableComponents.js`);
- the decision logic of the editing panel (`Side.js`): where `add` puts a
  new item, how `removeItem` finds what to remove from, the empty-URL
  guard, and the draggable-add handlers. These are the methods of the class
  `Side.Editor`. `Add`, `AddImage` (when the URL is not empty), `AddNote`
  and `AddGroup` are tied to the pure function `Side.AddTo`, and
  `RemoveItem` to `Side.RemoveFrom`. The properties are proved about those
  two functions. `AddImage` with an empty URL only sets the error message.
  The three draggable-add handlers are tied to the reducer's root append
  `Context.Reduce`, whatever the selection. `RemoveItem` and `Add` edit a
  Group inside the board through `Forest.Rewrite` on the forest value;
  `Model.GroupObject` models the `Group` class's own in-place
  `addElement`/`removeElement` on a single object, and the two are
  connected by `Forest.Apply`, which both follow.

Conventions:

- A stack's top is its last element.
- `None` stands for JavaScript's `undefined`, and also for a `null` selection.
- A Group object that sits inside the forest is mutated in place by the source.
  The model expresses that as a rewrite of the forest value at the Group's id
  (`Forest.Rewrite`). The board's invariant is that ids are unique
  (`Forest.UniqueIds`). Under it, the Group with that id is exactly the object
  the source mutates.

The walk's order follows the code. The iterator pushes a Group's elements in
array order onto a stack whose top is the last element. So a Group's
children come out last child first. The forest `[A, G{B, C}, D]` is walked
`A, G, C, B, D` (`Scenarios.RootsInOrderChildrenLastFirst`), not the
`A, G, B, C, D` a left-to-right pre-order would give. A Draggable around a
Group is produced, then the Group's children are produced. The wrapped Group
itself is never produced.

## Model

| member | source | states |
|---|---|---|
| Model.Node.IsDraggable | src/components/model/Draggable.js:21 | true exactly for the Draggable decorator; Image, Note and Group answer false |
| Model.Show | src/components/model/Draggable.js:18 | a template literal prints an undefined name as "undefined" and a defined one as itself |
| Model.Node.GetName | src/components/model/Draggable.js:15-19 | Image and Note are named "Image"/"Note"; a Group answers its own (possibly undefined) name; a Draggable is named "Draggable " followed by its item's name, printed "undefined" when that name is undefined |
| Model.Node.GetElements | src/components/model/Model.js:89 | defined exactly on Groups, where it is the Group's children |
| Model.NewImage | src/components/model/Model.js:17-21 | an Image with the given id and url, named "Image", not draggable, without elements |
| Model.NewNote | src/components/model/Model.js:42-46 | a Note with the given id; an omitted text becomes "Your notes...", a given one is kept |
| Model.NewGroup | src/components/model/Model.js:69-73 | a Group with the given id and no elements; only the empty name becomes "Group", any other (undefined included) is kept |
| Model.NewDraggable | src/components/model/Draggable.js:15-19 | a Draggable with its own id around exactly the given item; draggable, without elements of its own |
| Model.Without | src/components/model/Model.js:85-87 | keeps exactly the elements whose id differs from the given one, never grows, and leaves the list as it was when no id matches |
| Model.WithoutConcat | src/components/model/Model.js:86 | filtering distributes over concatenation, so the survivors keep their order |
| Model.AddThenRemove | src/components/model/Model.js:81-87 | pushing an element whose id is new to the list and then removing that id gives back the list |
| Model.GroupObject.constructor | src/components/model/Model.js:69-73 | a new Group object stands for the value `NewGroup(id, name)` |
| Model.GroupObject.AddElement | src/components/model/Model.js:81-83 | the element is appended, the others unchanged |
| Model.GroupObject.RemoveElement | src/components/model/Model.js:85-87 | the elements become `Without(old elements, id)` |
| Model.GroupObject.GetElements | src/components/model/Model.js:89 | is the Group value's `getElements` |
| Forest.Apply | src/components/model/Model.js:81-87 | adding appends the item after the unchanged children; removing keeps exactly the children with another id and never grows |
| Forest.Rewrite | src/components/Side.js:41-46 | editing the Group with a given id anywhere in a tree keeps the root's id and kind (Image, Note, Group or Draggable); that nothing but the edited Group's children changes is `Forest.MaskRewrite`, and what the edited Group then holds is `Subtrees.RewriteHasEdited` and `Subtrees.RewriteSub` |
| Forest.Mask | src/components/Side.js:41-46 | the tree seen without the children of the Groups with a given id: every node keeps its id and kind |
| Forest.MaskSeq | src/components/Side.js:41-46 | the same for a board: the roots keep their number, order and ids |
| Forest.MaskRewrite | src/components/model/Model.js:81-87 | an in-place edit of the Groups with a given id changes only their children: the nodes holding them keep their kind, name and child order, and every other node stays as it was |
| Forest.MaskSeqRewrite | src/components/model/Model.js:81-87 | the same for the whole board |
| Forest.RewriteSeq | src/components/Side.js:41-46 | editing a Group inside the forest keeps the number, order and ids of the roots |
| Forest.RewriteAbsent | src/components/Side.js:41-46 | editing a Group whose id is nowhere in the tree changes nothing |
| Forest.RewriteRoundTrip | src/components/model/Model.js:81-87 | adding a child with a fresh id under a Group and then removing that id from the same Group restores the tree |
| Forest.RewriteSeqRoundTrip | src/components/model/Model.js:81-87 | the same round trip for the whole forest |
| Forest.WithoutIds | src/components/model/Model.js:85-87 | removing elements keeps ids distinct and brings in no id |
| Forest.RewriteUnique | src/components/Side.js:41-46 | an in-place edit keeps ids unique when what it adds brings distinct, new ids; no other id appears |
| Forest.RewriteSeqUnique | src/components/Side.js:41-46 | the same for the whole forest |
| Iterator.Expansion | src/components/iterator/Iterator.js:46-51 | popping a Group pushes its children, popping a Draggable around a Group pushes that Group's children, popping anything else pushes nothing |
| Iterator.Container | src/components/iterator/Iterator.js:46-51 | a node gives access to a Group exactly when it is one or is a Draggable around one: a Group gives itself, a Draggable gives the Group it wraps; that Group's children are what the walk pushes |
| Iterator.ExpansionIds | src/components/iterator/Iterator.js:46-51 | the ids of what popping a node pushes, together with one copy of the node's own id, are among the ids of that node's tree |
| Iterator.Reverse | src/components/iterator/Iterator.js:12 | the i-th node of the copy is the i-th node from the end of the roots |
| Iterator.Traversal | src/components/iterator/Iterator.js:10-54 | what a fresh iterator over the roots produces by repeated `next()`: at least as many nodes as roots, the first root first |
| Iterator.HasElements | src/components/iterator/Iterator.js:31 | `x?.getElements !== undefined` holds exactly for a defined Group |
| Iterator.Visit | src/components/iterator/Iterator.js:41-54 | the walk from a node starts with that node |
| Iterator.Drain | src/components/iterator/Iterator.js:41-54 | the walk of a stack is at least as long as the stack and starts with its top |
| Iterator.DrainConcat | src/components/iterator/Iterator.js:47 | a stack made of two parts is walked upper part first |
| Iterator.TraversalRootOrder | src/components/iterator/Iterator.js:10-13 | the reversed copy of the roots, walked as a stack, yields each root's walk in turn, left to right |
| Iterator.VisitChildrenLastFirst | src/components/iterator/Iterator.js:47-50 | a Group's children, or a wrapped Group's, are walked last child first |
| Iterator.NextStep | src/components/iterator/Iterator.js:41-54 | popping the top and pushing its children leaves exactly the rest of the walk, and the popped node is the walk's next node |
| Iterator.TraversalConcat | src/components/iterator/Iterator.js:10-13 | walking two forests side by side walks the first, then the second |
| Iterator.TraversalHead | src/components/iterator/Iterator.js:20-22 | the first node produced for a non-empty board is its first root |
| Iterator.TraversalAccounting | src/components/iterator/Iterator.js:41-54 | every id of the forest is produced as often as it occurs, except the ids hidden behind a Draggable |
| Iterator.TraversalDistinct | src/components/iterator/Iterator.js:41-54 | with unique ids, the walk never produces the same id twice |
| Iterator.TraversalMember | src/components/iterator/Iterator.js:41-54 | every produced node comes from the walk of one root |
| Iterator.WrappedNeverProduced | src/components/iterator/Iterator.js:49-50 | with unique ids, the item wrapped by a produced Draggable is never produced |
| Iterator.ExpansionInside | src/components/iterator/Iterator.js:47-50 | a child pushed by a produced node lies strictly inside the tree it came from |
| Iterator.ParentIndex | src/components/iterator/Iterator.js:66-80 | the position of the first produced node owning a child with the id; no node before it does |
| Iterator.ParentIn | src/components/iterator/Iterator.js:63-81 | the answer is undefined exactly when no produced node owns such a child; otherwise it is the container of the first produced node that owns one (no earlier node does), a Group holding that child |
| Iterator.FindIn | src/components/helpers/Context.js:30-44 | the answer is undefined exactly when no produced node has the id; otherwise it is the first produced node with the id (no earlier node has it) |
| Iterator.NoParentForRootOrAbsent | src/components/iterator/Iterator.js:63-81 | with unique ids, the id of a root or an id absent from the board has no parent |
| Iterator.ParentCandidate | src/components/iterator/Iterator.js:68-79 | one step's test answers exactly when the node owns a child with the id, and answers with the node's container |
| Iterator.TreeIterator.constructor | src/components/iterator/Iterator.js:10-13 | nothing visited; the stack is the reversed roots, first root on top; what remains is the whole walk |
| Iterator.TreeIterator.First | src/components/iterator/Iterator.js:20-22 | the top of the stack, undefined exactly when nothing remains, otherwise the walk's next node |
| Iterator.TreeIterator.HasNext | src/components/iterator/Iterator.js:30-32 | true exactly when the stack, and so the rest of the walk, is non-empty |
| Iterator.TreeIterator.Next | src/components/iterator/Iterator.js:41-54 | pops and records the top, pushes its children; returns the walk's next node and leaves the rest of the walk |
| Iterator.TreeIterator.ParentOf | src/components/iterator/Iterator.js:63-81 | answers `ParentIn` of the remaining walk; the walk is consumed up to and including the first parent, or wholly |
| Context.Reduce | src/components/helpers/Context.js:11-20 | add appends the item; delete keeps exactly the roots with another id, and keeps the list when none matches; other actions keep the state |
| Context.DeleteKeepsOrder | src/components/helpers/Context.js:16 | deleting distributes over a split of the roots, so the survivors keep their order |
| Context.AddThenDelete | src/components/helpers/Context.js:14-16 | adding a root with a fresh id and deleting that id gives back the roots |
| Context.ReduceKeepsUnique | src/components/helpers/Context.js:11-20 | the reducer keeps ids unique when an added item brings new ids, and invents no id |
| Context.FindNothing | src/components/helpers/Context.js:30-44 | on an empty board, or for an id the walk never produces, nothing is found |
| Context.FindFirstRoot | src/components/helpers/Context.js:32-43 | a first root with the id is the answer |
| Context.GetElement | src/components/helpers/Context.js:30-44 | answers `FindIn` of the walk: the first produced node with the id, else undefined |
| Allocator.IdAllocator.GetId | src/components/factory/SimpleComponents.js:7 | hands out the counter's value and moves the counter past it |
| SimpleComponents.CreateImage | src/components/factory/SimpleComponents.js:6-9 | an Image with the next id and the url; one id used |
| SimpleComponents.CreateNote | src/components/factory/SimpleComponents.js:11-14 | a Note with the next id and the default text; one id used |
| SimpleComponents.CreateGroup | src/components/factory/SimpleComponents.js:16-19 | an empty Group with the next id and an undefined name; one id used |
| DraggableComponents.CreateImage | src/components/factory/DraggableComponents.js:7-12 | a Draggable with the second id around an Image with the first; exactly these two ids |
| DraggableComponents.CreateNote | src/components/factory/DraggableComponents.js:14-19 | the same around a Note with the text "Your notes (double click to activate)..." |
| DraggableComponents.CreateGroup | src/components/factory/DraggableComponents.js:21-26 | the same around an empty unnamed Group, so the wrapper is named "Draggable undefined" |
| Parents.EdgeChildIds | src/components/model/Model.js:81-83 | a child in any (Group, child) pair is a proper descendant, never the tree's own root |
| Parents.ProducedEdge | src/components/iterator/Iterator.js:46-51 | a produced node pairs its container with every child it pushes |
| Parents.RewriteEdges | src/components/model/Model.js:81-83 | adding a child into Group g creates the pair (g, child) and the pairs inside the child, nothing else |
| Parents.TraversalKeepsParent | src/components/iterator/Iterator.js:63-81 | after adding into a Group the walk reaches, the walk still produces a node owning the added child |
| Side.Truthy | src/components/Side.js:39 | a selection that is not truthy gives `+selected` = 0; a truthy one gives the element's id |
| Side.NumId | src/components/Side.js:113-120 | `+selected` is 0 exactly for a null or empty selection or the element id 0 |
| Side.Target | src/components/Side.js:39-46 | with no selection there is nothing to add into; with one, the selected element the walk finds first gives itself when it is a Group, the Group it wraps when it is a Draggable around one, and nothing when it is anything else or is not found |
| Side.AddTo | src/components/Side.js:38-59 | with no Group to add into the item is appended at the root; otherwise the roots keep their number and ids |
| Side.AddIntoGroupAppends | src/components/Side.js:39-46 | with unique ids and a fresh item, adding into a Group appends the item to that Group's children: `parentOf(item id)` answers the Group with children `old children + [item]`, it is the only node with that id, and the board gains exactly the item's ids |
| Side.RemoveFrom | src/components/Side.js:110-127 | never grows the roots; with no parent found it is the reducer's delete; with a parent found the roots keep their number and ids, and only the parent's children change (`Side.RemoveFromMask`) |
| Side.RemoveFromMask | src/components/Side.js:113-117 | with a parent found, the board seen without the parent's children is exactly as before: every node above the parent keeps its kind, name and child order, every other node stays |
| Side.AddToMask | src/components/Side.js:39-46 | adding into a Group changes only that Group's children: the board seen without them is exactly as before |
| Side.RemoveKeepsRest | src/components/Side.js:113-117 | with a parent found, every node of the board that does not hold the parent and does not sit inside a removed child is still on the board; the nodes that hold the parent are framed by `Side.RemoveFromMask` |
| Side.RemoveThroughParent | src/components/Side.js:113-117 | with unique ids and a parent found, the parent is a Group on the board; `removeItem` takes out exactly the ids of its child with the selected id, the selected id is gone, and the parent becomes the Group with its other children, the only node with its id |
| Side.AddToKeepsUnique | src/components/Side.js:38-59 | `add` keeps ids unique when the item brings new ids, and the board then holds only old ids and the item's |
| Side.RemoveFromKeepsUnique | src/components/Side.js:110-127 | `removeItem` keeps ids unique and brings in no id |
| Side.RemoveFromStaysBelow | src/components/Side.js:110-127 | a board whose ids are unique and below the counter stays so after `removeItem` |
| Side.RemoveRootOrAbsent | src/components/Side.js:115-121 | with unique ids, removing a root's id deletes exactly the roots with that id, and removing an absent id changes nothing |
| Side.AddRootThenRemove | src/components/Side.js:38-59 | an item added at the root and then removed by its id leaves the board as it was |
| Side.AddIntoGroupFindsGroup | src/components/Side.js:41-46 | after adding into a Group, `parentOf(item id)` finds that very Group holding the item |
| Side.AddIntoGroupThenRemove | src/components/Side.js:110-127 | so removing the item again takes it out of that Group and restores the board |
| Side.AddThenRemoveRestores | src/components/Side.js:110-127 | with unique ids and a fresh item, `add` then `removeItem` on the item restores the board, wherever the item went |
| Side.Editor.constructor | src/components/Side.js:15-17 | empty board, no selection, empty URL and error; ids unique |
| Side.Editor.Add | src/components/Side.js:38-59 | the forest becomes `AddTo` of the old forest and selection; the selection is cleared |
| Side.Editor.RemoveItem | src/components/Side.js:110-127 | the forest becomes `RemoveFrom` of the old forest and `+selected`; the selection is cleared; unique ids are kept |
| Side.Editor.AddImage | src/components/Side.js:63-74 | an empty URL sets "Please provide an URL" and changes nothing else; otherwise a new Image is added, URL and error cleared |
| Side.Editor.AddNote | src/components/Side.js:76-79 | a new Note with the default text is added as `add` decides |
| Side.Editor.AddGroup | src/components/Side.js:81-84 | a new empty unnamed Group is added as `add` decides |
| Side.Editor.AddDraggableImage | src/components/Side.js:88-92 | a draggable Image is appended at the root whatever the selection, with no URL check, and the URL is cleared |
| Side.Editor.AddDraggableNote | src/components/Side.js:94-97 | a draggable Note is appended at the root whatever the selection |
| Side.Editor.AddDraggableGroup | src/components/Side.js:99-102 | a draggable empty Group is appended at the root whatever the selection |
| Scenarios.RootsInOrderChildrenLastFirst | src/components/iterator/Iterator.js:41-54 | `[A, G{B, C}, D]` is walked A, G, C, B, D |
| Scenarios.DraggableGroupIsTransparent | src/components/iterator/Iterator.js:74-78 | a Draggable around a Group is produced, its children follow, and `parentOf` a child answers the wrapped Group |
| Scenarios.NestedDraggableHidesAll | src/components/iterator/Iterator.js:49 | a Draggable around a Draggable hides everything inside: no parent is found |
| Scenarios.NestedGroupWalk | src/components/iterator/Iterator.js:63-81 | `[G1{G2{L}}]` is walked G1, G2, L, and `parentOf(L)` answers G2 |
| Scenarios.RemoveFromNestedGroup | src/components/Side.js:110-127 | removing L from `[G1{G2{L}}]` gives `[G1{G2{}}]`: only the inner Group loses the leaf |
| Scenarios.MaskSeesChildOrder | src/components/Side.js:113-117 | a board whose children above the parent are swapped differs from the original once the parent's children are left out, so the frame of `removeItem` rules it out |
| Subtrees.TraversalSub | src/components/iterator/Iterator.js:41-54 | every node the walk produces sits inside one of the board's roots |
| Subtrees.ProducedContainerSub | src/components/iterator/Iterator.js:46-51 | the Group a produced node gives access to sits inside one of the roots |
| Subtrees.ParentSub | src/components/iterator/Iterator.js:63-81 | the parent `parentOf` answers is a Group on the board |
| Subtrees.SubIds | src/components/model/Model.js:89 | a node inside a tree holds a sub-multiset of the tree's ids, its own id included, and a proper one sits below the root |
| Subtrees.Edited | src/components/model/Model.js:81-87 | the Group after an edit keeps its id and name and holds the edited children |
| Subtrees.ApplyIdsFrom | src/components/model/Model.js:81-87 | the children after an edit hold only old ids or the added item's |
| Subtrees.WithoutOne | src/components/model/Model.js:85-87 | with unique ids, removing a child by id takes out exactly that child's ids |
| Subtrees.RewriteIds | src/components/Side.js:41-46 | with unique ids, editing a Group inside a tree trades the Group's old children's ids for its new children's ids; no other id changes |
| Subtrees.RewriteSeqIds | src/components/Side.js:41-46 | the same for the whole board |
| Subtrees.RewriteHasEdited | src/components/Side.js:41-46 | with unique ids, after editing a Group inside a tree the edited Group is in the tree |
| Subtrees.RewriteSeqHasEdited | src/components/Side.js:41-46 | the same for the whole board |
| Subtrees.RewriteSub | src/components/Side.js:41-46 | with unique ids and an edit that brings in no second copy of the Group's id, the edited Group is the only node of the tree with that id |
| Subtrees.RewriteSeqSub | src/components/Side.js:41-46 | the same for the whole board |
| Subtrees.EditedOnly | src/components/Side.js:41-46 | with unique ids, the edited Group is on the edited board and is the only node there with its id |
| Subtrees.RemoveChildIds | src/components/Side.js:115-116 | with unique ids, removing a child of a Group on the board takes out exactly the child's ids, its own id included |
| Subtrees.RemoveKeepsOutside | src/components/model/Model.js:85-87 | removing a child by id from the Groups with a given id leaves in the tree every node that does not hold such a Group and does not sit inside a removed child |
| Subtrees.RemoveSeqKeepsOutside | src/components/model/Model.js:85-87 | the same for the whole board |
| Subtrees.AddChildIds | src/components/Side.js:41-46 | adding a child to a Group on a board with unique ids adds exactly the child's ids |

## Left out

- Rendering (`display`), mouse dragging (`drag`), `Board.js`, `saveBoard`
  and the image export are left out: they are presentation and browser I/O.
- The React plumbing is left out: `useReducer`, `useState`, the `useEffect`
  that recomputes `selectedElement`, `removeSelection` with its class-list
  edit, `console.log`, and the `try`/`catch` around `removeItem`.
  `Side.Editor.Add` looks the selected element up when it runs. So a stale
  `selectedElement` from an earlier render is not modelled.
- The selection is taken to be either `None` or an element id:
  - `None` stands for `null` and for the empty id of the board itself.
  - An element's DOM id is a non-empty string, so `if (selected)` holds for
    any element, even id 0.
  - Converting string ids to numbers (`+id`) is not modelled. Ids are integers
    throughout, and `+null` and `+""` both become 0.
- `getId` is defined in `Constants.js`, which is not part of this model. It is
  modelled as a counter that starts anywhere and counts up by one
  (`Allocator.IdAllocator`).
- Aliasing is not modelled. The source mutates the Group object it found, and
  every holder of that object sees the change. The model rewrites the forest
  value by Group id instead. Under `Forest.UniqueIds`, the Group with that id
  is the same object the source mutates. Without unique ids, `Forest.Rewrite`
  edits every Group with that id, where the source edits only the first one
  found.
- The iterator's constructor reverses its argument in place (`reverse()`
  before `slice`). Every caller passes a fresh copy, so the model gives the
  constructor a value and does not model the reversal of the caller's array.
- `hasNext`'s second disjunct is kept. On an empty stack it reads the top of
  the stack, which is undefined, so it never changes the answer.
- Group objects held by Draggables are not modelled as objects.
  `Model.GroupObject` models one Group object and its in-place element list.
  Inside the forest, Groups are values edited by `Forest.Rewrite`.
- The walk is not a left-to-right pre-order walk (`A, G, B, C, D` for
  `[A, G{B, C}, D]`). The iterator pushes a Group's children in array order
  onto a stack whose top is its last element, so it walks them last first
  (`A, G, C, B, D`). The model walks them in that order.
