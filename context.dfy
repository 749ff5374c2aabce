/**
 * The board's shared state: the reducer over the list of roots and the
 * `getElement` lookup, which walks the forest with a fresh iterator.
 */
module Context {
  import opened Model
  import opened Forest
  import opened Iterator

  /** The reducer's commands; every other action type is `OtherAction`. */
  datatype Action = AddAction(item: Node) | DeleteAction(target: int) | OtherAction

  /** `reducer(state, action)`: a new root list, the old one untouched. */
  function Reduce(state: seq<Node>, action: Action): (r: seq<Node>)
    ensures action.AddAction? ==>
      |r| == |state| + 1 && r[..|state|] == state && r[|state|] == action.item
    ensures action.DeleteAction? ==>
      |r| <= |state| && forall x :: x in r <==> x in state && x.id != action.target
    ensures action.DeleteAction? && (forall x :: x in state ==> x.id != action.target) ==>
      r == state
    ensures action.OtherAction? ==> r == state
  {
    match action
    case AddAction(item) => state + [item]
    case DeleteAction(target) => Without(state, target)
    case OtherAction => state
  }

  /** Deleting a root keeps the survivors in their order: deleting distributes over a split. */
  lemma DeleteKeepsOrder(a: seq<Node>, b: seq<Node>, target: int)
    ensures Reduce(a + b, DeleteAction(target))
         == Reduce(a, DeleteAction(target)) + Reduce(b, DeleteAction(target))
  {
    WithoutConcat(a, b, target);
  }

  /** Adding a root with a fresh id and then deleting that id gives back the old roots. */
  lemma AddThenDelete(state: seq<Node>, item: Node)
    requires forall x :: x in state ==> x.id != item.id
    ensures Reduce(Reduce(state, AddAction(item)), DeleteAction(item.id)) == state
  {
    AddThenRemove(state, item);
  }

  /**
   * The reducer keeps ids unique, provided an added item brings ids of
   * its own that are new to the board; it never invents an id.
   */
  lemma ReduceKeepsUnique(state: seq<Node>, action: Action)
    requires UniqueIds(state)
    requires action.AddAction? ==>
      Distinct(NodeIds(action.item)) && Disjoint(ForestIds(state), NodeIds(action.item))
    ensures UniqueIds(Reduce(state, action))
    ensures forall v :: v in ForestIds(Reduce(state, action)) ==>
      v in ForestIds(state) || (action.AddAction? && v in NodeIds(action.item))
  {
    match action
    case AddAction(item) =>
      ForestIdsSnoc(state, item);
      DistinctConcat(ForestIds(state), NodeIds(item));
    case DeleteAction(target) =>
      WithoutIds(state, target);
    case OtherAction =>
  }

  /** `getElement(id)` on an empty board, or for an id the walk never produces, finds nothing. */
  lemma FindNothing(elements: seq<Node>, id: int)
    requires elements == [] || id !in IdsOf(Traversal(elements))
    ensures FindIn(Traversal(elements), id) == None
  {
    if elements == [] {
      assert Reverse(elements) == [];
    } else {
      forall t | t in Traversal(elements) ensures t.id != id {
        var k :| 0 <= k < |Traversal(elements)| && Traversal(elements)[k] == t;
        assert IdsOf(Traversal(elements))[k] == t.id;
      }
    }
  }

  /** A first root with the id is the answer, before anything nested. */
  lemma FindFirstRoot(elements: seq<Node>, id: int)
    requires elements != [] && elements[0].id == id
    ensures FindIn(Traversal(elements), id) == Some(elements[0])
  {
    TraversalHead(elements);
  }

  /** The first match in a walk is found at its position, after the misses before it. */
  lemma {:induction false} FindAt(ts: seq<Node>, i: int, id: int)
    requires 0 <= i < |ts| && ts[i].id == id
    requires forall j :: 0 <= j < i ==> ts[j].id != id
    ensures FindIn(ts, id) == Some(ts[i])
  {
    if i > 0 {
      FindAt(ts[1..], i - 1, id);
    }
  }

  /**
   * `getElement(id)`: peeks at the first root; if its id differs, walks
   * the whole forest and answers with the first node whose id matches.
   */
  method GetElement(elements: seq<Node>, id: int) returns (r: Option<Node>)
    ensures r == FindIn(Traversal(elements), id)
  {
    var walker := new TreeIterator(elements);
    ghost var rem := walker.Remaining();
    var current := walker.First();
    if current.None? || current.value.id != id {
      ghost var i := 0;
      var more := walker.HasNext();
      while more
        invariant 0 <= i <= |rem|
        invariant walker.Remaining() == rem[i..]
        invariant more <==> i < |rem|
        invariant forall j :: 0 <= j < i ==> rem[j].id != id
        decreases |rem| - i
      {
        var next := walker.Next();
        assert rem[i + 1..] == rem[i..][1..];
        if next.value.id == id {
          FindAt(rem, i, id);
          return next;
        }
        i := i + 1;
        more := walker.HasNext();
      }
      r := None;
    } else {
      FindAt(rem, 0, id);
      r := current;
    }
  }
}
