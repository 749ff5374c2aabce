/**
 * The editing panel's decision logic: where `add` puts a new item, how
 * `removeItem` finds what to remove from, the empty-URL guard of
 * `addImage`, and the draggable-add handlers, over an editor state that
 * holds the forest, the selection, the URL field and the error message.
 */
module Side {
  import opened Model
  import opened Forest
  import opened Iterator
  import opened Context
  import opened Allocator
  import opened Parents
  import opened Subtrees
  import SimpleComponents
  import DraggableComponents

  const MissingUrlError: string := "Please provide an URL"

  /**
   * The selection is the clicked element's DOM id, a string. `None` stands
   * for both null (nothing clicked yet, or cleared) and the empty id of the
   * board itself; `Some(v)` for an element's id, which prints as a
   * non-empty string and so is truthy even when `v` is 0.
   */
  predicate Truthy(selected: Option<int>)
    ensures !Truthy(selected) ==> NumId(selected) == 0
    ensures Truthy(selected) ==> NumId(selected) == selected.value
  {
    selected.Some?
  }

  /** The number `+selected` gives: null and the empty string count as 0. */
  function NumId(selected: Option<int>): (r: int)
    ensures r == 0 <==> selected.None? || selected.value == 0
  {
    if selected.None? then 0 else selected.value
  }

  /**
   * The Group that `add` adds into: the selected element when it is a
   * Group, the Group it wraps when it is a Draggable around a Group.
   */
  function Target(f: seq<Node>, selected: Option<int>): (r: Option<Node>)
    ensures r.Some? ==> Truthy(selected) && r.value.Group?
    ensures !Truthy(selected) ==> r == None
    ensures Truthy(selected) ==>
      var found := FindIn(Traversal(f), selected.value);
      && (found.None? ==> r == None)
      && (found.Some? && found.value.Group? ==> r == found)
      && (found.Some? && found.value.Draggable? && found.value.item.Group? ==> r == Some(found.value.item))
      && (found.Some? && !found.value.Group? && !(found.value.Draggable? && found.value.item.Group?) ==> r == None)
  {
    if !Truthy(selected) then None
    else
      match FindIn(Traversal(f), selected.value)
      case None => None
      case Some(n) => Container(n)
  }

  /** The forest after `add(item)`. */
  function AddTo(f: seq<Node>, selected: Option<int>, item: Node): (r: seq<Node>)
    ensures Target(f, selected).None? ==> r == Reduce(f, AddAction(item))
    ensures Target(f, selected).Some? ==>
      |r| == |f| && forall i :: 0 <= i < |f| ==> r[i].id == f[i].id
  {
    match Target(f, selected)
    case None => Reduce(f, AddAction(item))
    case Some(g) => RewriteSeq(f, g.id, AddChild(item))
  }

  /** The forest after `removeItem()` with `id` selected. */
  function RemoveFrom(f: seq<Node>, id: int): (r: seq<Node>)
    ensures |r| <= |f|
    ensures ParentIn(Traversal(f), id).None? ==> r == Reduce(f, DeleteAction(id))
    ensures ParentIn(Traversal(f), id).Some? ==>
      |r| == |f| && forall i :: 0 <= i < |f| ==> r[i].id == f[i].id
  {
    match ParentIn(Traversal(f), id)
    case None => Reduce(f, DeleteAction(id))
    case Some(p) => RewriteSeq(f, p.id, RemoveChild(id))
  }

  /**
   * `add` keeps ids unique when the item brings ids new to the board,
   * and the forest afterwards holds only old ids and the item's.
   */
  lemma AddToKeepsUnique(f: seq<Node>, selected: Option<int>, item: Node)
    requires UniqueIds(f)
    requires Distinct(NodeIds(item)) && Disjoint(ForestIds(f), NodeIds(item))
    ensures UniqueIds(AddTo(f, selected, item))
    ensures forall v :: v in ForestIds(AddTo(f, selected, item)) ==>
      v in ForestIds(f) || v in NodeIds(item)
  {
    match Target(f, selected)
    case None =>
      ReduceKeepsUnique(f, AddAction(item));
    case Some(g) =>
      RewriteSeqUnique(f, g.id, AddChild(item));
  }

  /** `removeItem` keeps ids unique and never brings in an id. */
  lemma RemoveFromKeepsUnique(f: seq<Node>, id: int)
    requires UniqueIds(f)
    ensures UniqueIds(RemoveFrom(f, id))
    ensures forall v :: v in ForestIds(RemoveFrom(f, id)) ==> v in ForestIds(f)
  {
    match ParentIn(Traversal(f), id)
    case None =>
      ReduceKeepsUnique(f, DeleteAction(id));
    case Some(p) =>
      assert Extra(RemoveChild(id)) == [];
      RewriteSeqUnique(f, p.id, RemoveChild(id));
  }

  /** So a board whose ids are unique and below a bound stays so after `removeItem`. */
  lemma RemoveFromStaysBelow(f: seq<Node>, id: int, bound: int)
    requires UniqueIds(f) && forall v :: v in ForestIds(f) ==> v < bound
    ensures UniqueIds(RemoveFrom(f, id)) && forall v :: v in ForestIds(RemoveFrom(f, id)) ==> v < bound
  {
    RemoveFromKeepsUnique(f, id);
  }

  /**
   * When `parentOf` finds a parent, `removeItem` takes the child with the
   * selected id out of that Group, and with it exactly that child's ids:
   * the selected id is gone from the board, the parent Group (which sits
   * on the board) now holds its other children, and it is the only node
   * left with its id.
   */
  lemma RemoveThroughParent(f: seq<Node>, d: int)
    requires UniqueIds(f) && ParentIn(Traversal(f), d).Some?
    ensures
      var p := ParentIn(Traversal(f), d).value;
      && SubIn(f, p)
      && exists c :: (c in p.children && c.id == d
           && multiset(ForestIds(RemoveFrom(f, d))) + multiset(NodeIds(c)) == multiset(ForestIds(f)))
    ensures d !in ForestIds(RemoveFrom(f, d))
    ensures
      var p := ParentIn(Traversal(f), d).value;
      SubIn(RemoveFrom(f, d), Group(p.id, p.name, Without(p.children, d)))
    ensures
      var p := ParentIn(Traversal(f), d).value;
      forall q :: SubIn(RemoveFrom(f, d), q) && q.id == p.id ==> q == Group(p.id, p.name, Without(p.children, d))
  {
    var p := ParentIn(Traversal(f), d).value;
    var r := RemoveFrom(f, d);
    assert r == RewriteSeq(f, p.id, RemoveChild(d));
    ParentSub(f, d);
    var c :| c in p.children && c.id == d;
    RemoveChildIds(f, p, c);
    EditedOnly(f, p, RemoveChild(d));
  }

  /**
   * `removeItem` through a parent changes nothing else: every node of the
   * board that does not hold the parent and does not sit inside a removed
   * child is still on the board afterwards.
   */
  lemma RemoveKeepsRest(f: seq<Node>, d: int, q: Node)
    requires ParentIn(Traversal(f), d).Some?
    requires SubIn(f, q) && ParentIn(Traversal(f), d).value.id !in NodeIds(q)
    requires forall g, c ::
      (SubIn(f, g) && g.Group? && g.id == ParentIn(Traversal(f), d).value.id && c in g.children && c.id == d)
      ==> !Sub(c, q)
    ensures SubIn(RemoveFrom(f, d), q)
  {
    var p := ParentIn(Traversal(f), d).value;
    assert RemoveFrom(f, d) == RewriteSeq(f, p.id, RemoveChild(d));
    RemoveSeqKeepsOutside(f, p.id, d, q);
  }

  /**
   * `removeItem` through a parent changes only that parent's children:
   * seen without the children of the Groups with the parent's id, the
   * board is exactly as it was, the nodes holding the parent included.
   */
  lemma RemoveFromMask(f: seq<Node>, d: int)
    requires ParentIn(Traversal(f), d).Some?
    ensures
      var p := ParentIn(Traversal(f), d).value;
      MaskSeq(RemoveFrom(f, d), p.id) == MaskSeq(f, p.id)
  {
    var p := ParentIn(Traversal(f), d).value;
    assert RemoveFrom(f, d) == RewriteSeq(f, p.id, RemoveChild(d));
    MaskSeqRewrite(f, p.id, RemoveChild(d));
  }

  /** Likewise `add` into a Group changes only that Group's children. */
  lemma AddToMask(f: seq<Node>, selected: Option<int>, item: Node)
    requires Target(f, selected).Some?
    ensures
      var g := Target(f, selected).value;
      MaskSeq(AddTo(f, selected, item), g.id) == MaskSeq(f, g.id)
  {
    var g := Target(f, selected).value;
    assert AddTo(f, selected, item) == RewriteSeq(f, g.id, AddChild(item));
    MaskSeqRewrite(f, g.id, AddChild(item));
  }

  /**
   * Removing an id that is nowhere on the board leaves the board as it
   * was; with unique ids, removing a root's id deletes exactly that root.
   */
  lemma RemoveRootOrAbsent(f: seq<Node>, id: int)
    requires id !in ForestIds(f) || (UniqueIds(f) && exists i :: 0 <= i < |f| && f[i].id == id)
    ensures RemoveFrom(f, id) == Without(f, id)
    ensures id !in ForestIds(f) ==> RemoveFrom(f, id) == f
  {
    NoParentForRootOrAbsent(f, id);
    if id !in ForestIds(f) {
      forall x | x in f ensures x.id != id {
        MemberIds(f, x);
      }
    }
  }

  /**
   * With nothing to add into, `add` puts the item at the root, and
   * removing it again with the item selected restores the board.
   */
  lemma AddRootThenRemove(f: seq<Node>, selected: Option<int>, item: Node)
    requires UniqueIds(f)
    requires Distinct(NodeIds(item)) && Disjoint(ForestIds(f), NodeIds(item))
    requires Target(f, selected).None?
    ensures RemoveFrom(AddTo(f, selected, item), item.id) == f
  {
    var g := f + [item];
    AddToKeepsUnique(f, selected, item);
    assert g[|f|].id == item.id;
    RemoveRootOrAbsent(g, item.id);
    forall x | x in f ensures x.id != item.id {
      MemberIds(f, x);
    }
    AddThenRemove(f, item);
  }

  /**
   * When there is a Group to add into, the item lands among that Group's
   * children: walking the new board finds that Group as the item's parent.
   */
  lemma AddIntoGroupFindsGroup(f: seq<Node>, selected: Option<int>, item: Node)
    requires Distinct(NodeIds(item)) && Disjoint(ForestIds(f), NodeIds(item))
    requires Target(f, selected).Some?
    ensures
      var p := ParentIn(Traversal(AddTo(f, selected, item)), item.id);
      p.Some? && p.value.id == Target(f, selected).value.id && HasChild(p.value.children, item.id)
  {
    var g := Target(f, selected).value;
    var n := FindIn(Traversal(f), selected.value).value;
    var f' := RewriteSeq(f, g.id, AddChild(item));
    assert AddTo(f, selected, item) == f';
    TraversalKeepsParent(f, n, g, item);
    var ts := Traversal(f');
    var k := ParentIndex(ts, item.id);
    assert k < |ts|;
    var c :| c in Expansion(ts[k]) && c.id == item.id;
    ForestProducedEdge(f', ts[k], c);
    var p := Container(ts[k]).value;
    assert ParentIn(ts, item.id) == Some(p);
    RewriteSeqEdges(f, g.id, item);
    assert item.id in NodeIds(item);
    if (p.id, item.id) in ForestEdges(f) {
      ForestEdgeIds(f);
      assert false;
    } else if (p.id, item.id) in Edges(item) {
      EdgeChildIds(item);
      assert false;
    }
  }

  /**
   * With unique ids, adding into a Group appends the item to that Group's
   * children: walking the new board answers the extended Group as the
   * item's parent, it is the only node with the Group's id, and the board
   * gains exactly the item's ids.
   */
  lemma AddIntoGroupAppends(f: seq<Node>, selected: Option<int>, item: Node)
    requires UniqueIds(f)
    requires Distinct(NodeIds(item)) && Disjoint(ForestIds(f), NodeIds(item))
    requires Target(f, selected).Some?
    ensures
      var g := Target(f, selected).value;
      ParentIn(Traversal(AddTo(f, selected, item)), item.id) == Some(Group(g.id, g.name, g.children + [item]))
    ensures
      var g := Target(f, selected).value;
      forall q :: SubIn(AddTo(f, selected, item), q) && q.id == g.id ==> q == Group(g.id, g.name, g.children + [item])
    ensures multiset(ForestIds(AddTo(f, selected, item))) == multiset(ForestIds(f)) + multiset(NodeIds(item))
  {
    var g := Target(f, selected).value;
    var r := AddTo(f, selected, item);
    assert r == RewriteSeq(f, g.id, AddChild(item));
    var n := FindIn(Traversal(f), selected.value).value;
    ProducedContainerSub(f, n);
    SubInIds(f, g);
    EditedOnly(f, g, AddChild(item));
    AddChildIds(f, g, item);
    AddIntoGroupFindsGroup(f, selected, item);
    ParentSub(r, item.id);
  }

  /**
   * So removing the item with it selected takes it out of that Group
   * again and restores the board.
   */
  lemma AddIntoGroupThenRemove(f: seq<Node>, selected: Option<int>, item: Node)
    requires Distinct(NodeIds(item)) && Disjoint(ForestIds(f), NodeIds(item))
    requires Target(f, selected).Some?
    ensures RemoveFrom(AddTo(f, selected, item), item.id) == f
  {
    AddIntoGroupFindsGroup(f, selected, item);
    assert item.id in NodeIds(item);
    RewriteSeqRoundTrip(f, Target(f, selected).value.id, item);
  }

  /**
   * `add` followed by `removeItem` with the new item selected gives back
   * the board, wherever the item went.
   */
  lemma AddThenRemoveRestores(f: seq<Node>, selected: Option<int>, item: Node)
    requires UniqueIds(f)
    requires Distinct(NodeIds(item)) && Disjoint(ForestIds(f), NodeIds(item))
    ensures RemoveFrom(AddTo(f, selected, item), item.id) == f
  {
    if Target(f, selected).Some? {
      AddIntoGroupThenRemove(f, selected, item);
    } else {
      AddRootThenRemove(f, selected, item);
    }
  }

  /**
   * The editor's state. `ids` is the counter behind `getId`; the forest
   * is a value, and mutating a Group reachable from it is a rewrite.
   */
  class Editor {
    var elements: seq<Node>
    var selected: Option<int>
    var url: string
    var error: string
    const ids: IdAllocator

    /** Ids are unique and all below the counter, so fresh ids are new to the board. */
    predicate Valid()
      reads this, ids
    {
      && UniqueIds(elements)
      && forall v :: v in ForestIds(elements) ==> v < ids.next
    }

    constructor (ids: IdAllocator)
      ensures this.ids == ids
      ensures elements == [] && selected == None && url == "" && error == ""
      ensures Valid()
    {
      this.ids := ids;
      elements := [];
      selected := None;
      url := "";
      error := "";
    }

    /** `add(item)`: the selection decides where the item goes, then is cleared. */
    method Add(item: Node)
      modifies this
      ensures elements == AddTo(old(elements), old(selected), item)
      ensures selected == None && url == old(url) && error == old(error)
    {
      if Truthy(selected) {
        var selectedElement := GetElement(elements, selected.value);
        if selectedElement.Some? && selectedElement.value.GetElements().Some? {
          elements := RewriteSeq(elements, selectedElement.value.id, AddChild(item));
        } else if selectedElement.Some? && selectedElement.value.IsDraggable()
               && selectedElement.value.item.GetElements().Some? {
          elements := RewriteSeq(elements, selectedElement.value.item.id, AddChild(item));
        } else {
          elements := Reduce(elements, AddAction(item));
        }
        selected := None;
      } else {
        elements := Reduce(elements, AddAction(item));
        selected := None;
      }
    }

    /**
     * Adds a node just built from fresh ids, keeping the invariant.
     */
    method AddFresh(item: Node, low: int)
      modifies this
      requires Distinct(NodeIds(item))
      requires forall v :: v in NodeIds(item) ==> low <= v < ids.next
      requires forall v :: v in ForestIds(elements) ==> v < low
      requires UniqueIds(elements)
      ensures elements == AddTo(old(elements), old(selected), item)
      ensures selected == None && url == old(url) && error == old(error)
      ensures Valid()
    {
      assert Disjoint(ForestIds(elements), NodeIds(item));
      AddToKeepsUnique(elements, selected, item);
      ghost var before := elements;
      assert NodeIds(item)[0] in NodeIds(item);
      Add(item);
      forall v | v in ForestIds(elements) ensures v < ids.next {
        assert v in ForestIds(before) || v in NodeIds(item);
      }
    }

    /** `removeItem()`: through the parent found by walking, else from the roots. */
    method RemoveItem()
      modifies this
      ensures elements == RemoveFrom(old(elements), NumId(old(selected)))
      ensures selected == None && url == old(url) && error == old(error)
      ensures old(Valid()) ==> Valid()
    {
      var target := NumId(selected);
      ghost var before := elements;
      var walker := new TreeIterator(elements);
      var parent := walker.ParentOf(target);
      assert parent == ParentIn(Traversal(before), target);
      if parent.Some? {
        elements := RewriteSeq(elements, parent.value.id, RemoveChild(target));
      } else {
        elements := Reduce(elements, DeleteAction(target));
      }
      selected := None;
      if old(Valid()) {
        RemoveFromStaysBelow(before, target, ids.next);
      }
    }

    /** `addImage()`: refuses an empty URL; otherwise adds an Image and clears the form. */
    method AddImage()
      modifies this, ids
      requires Valid()
      ensures Valid()
      ensures old(url) == "" ==>
        && elements == old(elements) && selected == old(selected)
        && error == MissingUrlError && url == old(url) && ids.next == old(ids.next)
      ensures old(url) != "" ==>
        && elements == AddTo(old(elements), old(selected), NewImage(old(ids.next), old(url)))
        && selected == None && url == "" && error == "" && ids.next == old(ids.next) + 1
    {
      if url != "" {
        var low := ids.next;
        var item := SimpleComponents.CreateImage(ids, url);
        AddFresh(item, low);
        url := "";
        error := "";
      } else {
        error := MissingUrlError;
      }
    }

    /** `addNote()` */
    method AddNote()
      modifies this, ids
      requires Valid()
      ensures Valid()
      ensures elements == AddTo(old(elements), old(selected), NewNote(old(ids.next), None))
      ensures selected == None && url == old(url) && error == old(error)
      ensures ids.next == old(ids.next) + 1
    {
      var low := ids.next;
      var item := SimpleComponents.CreateNote(ids);
      AddFresh(item, low);
    }

    /** `addGroup()` */
    method AddGroup()
      modifies this, ids
      requires Valid()
      ensures Valid()
      ensures elements == AddTo(old(elements), old(selected), NewGroup(old(ids.next), None))
      ensures selected == None && url == old(url) && error == old(error)
      ensures ids.next == old(ids.next) + 1
    {
      var low := ids.next;
      var item := SimpleComponents.CreateGroup(ids);
      AddFresh(item, low);
    }

    /** Appends a freshly built draggable at the root; the selection is left alone. */
    method AddRoot(item: Node, low: int)
      modifies this
      requires Distinct(NodeIds(item))
      requires forall v :: v in NodeIds(item) ==> low <= v < ids.next
      requires forall v :: v in ForestIds(elements) ==> v < low
      requires UniqueIds(elements)
      ensures elements == Reduce(old(elements), AddAction(item))
      ensures selected == old(selected) && url == old(url) && error == old(error)
      ensures Valid()
    {
      assert Disjoint(ForestIds(elements), NodeIds(item));
      ReduceKeepsUnique(elements, AddAction(item));
      ghost var before := elements;
      assert NodeIds(item)[0] in NodeIds(item);
      elements := Reduce(elements, AddAction(item));
      forall v | v in ForestIds(elements) ensures v < ids.next {
        assert v in ForestIds(before) || v in NodeIds(item);
      }
    }

    /** `addDraggableImage()`: no URL check; the field is cleared afterwards. */
    method AddDraggableImage()
      modifies this, ids
      requires Valid()
      ensures Valid()
      ensures elements == old(elements) + [NewDraggable(old(ids.next) + 1, NewImage(old(ids.next), old(url)))]
      ensures selected == old(selected) && url == "" && error == old(error)
      ensures ids.next == old(ids.next) + 2
    {
      var low := ids.next;
      var item := DraggableComponents.CreateImage(ids, url);
      AddRoot(item, low);
      url := "";
    }

    /** `addDraggableNote()` */
    method AddDraggableNote()
      modifies this, ids
      requires Valid()
      ensures Valid()
      ensures elements == old(elements) + [NewDraggable(old(ids.next) + 1,
        NewNote(old(ids.next), Some(DraggableComponents.DraggableNoteText)))]
      ensures selected == old(selected) && url == old(url) && error == old(error)
      ensures ids.next == old(ids.next) + 2
    {
      var low := ids.next;
      var item := DraggableComponents.CreateNote(ids);
      AddRoot(item, low);
    }

    /** `addDraggableGroup()` */
    method AddDraggableGroup()
      modifies this, ids
      requires Valid()
      ensures Valid()
      ensures elements == old(elements) + [NewDraggable(old(ids.next) + 1, NewGroup(old(ids.next), None))]
      ensures selected == old(selected) && url == old(url) && error == old(error)
      ensures ids.next == old(ids.next) + 2
    {
      var low := ids.next;
      var item := DraggableComponents.CreateGroup(ids);
      AddRoot(item, low);
    }
  }
}
