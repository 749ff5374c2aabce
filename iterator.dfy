/**
 * The stack-based depth-first walk over the board's forest. The stack's
 * top is its last element. Popping a Group (or a Draggable around a
 * Group) pushes its children in array order, so the children come out
 * last child first, and the wrapped Group itself is never produced.
 */
module Iterator {
  import opened Model
  import opened Forest

  /** The nodes that popping `n` pushes onto the stack, bottom first. */
  function Expansion(n: Node): (r: seq<Node>)
    ensures n.Group? ==> r == n.children
    ensures n.Draggable? && n.item.Group? ==> r == n.item.children
    ensures !n.Group? && !(n.Draggable? && n.item.Group?) ==> r == []
  {
    match n
    case Group(_, _, cs) => cs
    case Draggable(_, Group(_, _, cs)) => cs
    case _ => []
  }

  /**
   * The container a node gives access to, tested as the source tests it:
   * a node with `getElements` is its own; a Draggable whose item has
   * `getElements` gives that item; nothing else has one.
   */
  function Container(n: Node): (r: Option<Node>)
    ensures r.Some? <==> n.Group? || (n.Draggable? && n.item.Group?)
    ensures r.Some? ==> r.value.Group? && r.value.children == Expansion(n)
    ensures n.Group? ==> r == Some(n)
    ensures n.Draggable? && n.item.Group? ==> r == Some(n.item)
  {
    if n.GetElements().Some? then Some(n)
    else if n.IsDraggable() && n.item.GetElements().Some? then Some(n.item)
    else None
  }

  /** What the walk produces from `n` once `n` is on top of the stack. */
  function Visit(n: Node): (r: seq<Node>)
    ensures |r| >= 1 && r[0] == n
  {
    match n
    case Group(_, _, cs) => [n] + Drain(cs)
    case Draggable(_, Group(_, _, cs)) => [n] + Drain(cs)
    case _ => [n]
  }

  /** What the walk produces from a whole stack, top (last element) first. */
  function Drain(stack: seq<Node>): (r: seq<Node>)
    ensures |r| >= |stack|
    ensures stack != [] ==> r[0] == stack[|stack| - 1]
  {
    if stack == [] then [] else Visit(stack[|stack| - 1]) + Drain(stack[..|stack| - 1])
  }

  lemma VisitExpansion(n: Node)
    ensures Visit(n) == [n] + Drain(Expansion(n))
  {
  }

  function Reverse(s: seq<Node>): (r: seq<Node>)
    ensures |r| == |s|
    ensures forall i :: 0 <= i < |s| ==> r[i] == s[|s| - 1 - i]
  {
    if s == [] then [] else Reverse(s[1..]) + [s[0]]
  }

  /** What a fresh iterator over the roots `f` produces: their reversed copy, drained. */
  function Traversal(f: seq<Node>): (r: seq<Node>)
    ensures |r| >= |f|
    ensures f != [] ==> r[0] == f[0]
  {
    Drain(Reverse(f))
  }

  /** Reference order of a forest: each root's walk in turn, roots left to right. */
  function Flatten(f: seq<Node>): seq<Node>
  {
    if f == [] then [] else Visit(f[0]) + Flatten(f[1..])
  }

  /** Draining a stack built from two parts drains the upper part first. */
  lemma {:induction false} DrainConcat(a: seq<Node>, b: seq<Node>)
    ensures Drain(a + b) == Drain(b) + Drain(a)
  {
    if b == [] {
      assert a + b == a;
    } else {
      var p := b[..|b| - 1];
      assert (a + b)[..|a + b| - 1] == a + p;
      assert (a + b)[|a + b| - 1] == b[|b| - 1];
      DrainConcat(a, p);
    }
  }

  /** The reversed copy of the roots, drained as a stack, yields the roots in order. */
  lemma {:induction false} TraversalRootOrder(f: seq<Node>)
    ensures Traversal(f) == Flatten(f)
  {
    if f != [] {
      var r := Reverse(f[1..]) + [f[0]];
      assert r[..|r| - 1] == Reverse(f[1..]);
      TraversalRootOrder(f[1..]);
    }
  }

  lemma {:induction false} ReverseConcat(a: seq<Node>, b: seq<Node>)
    ensures Reverse(a + b) == Reverse(b) + Reverse(a)
  {
    if a == [] {
      assert a + b == b;
    } else {
      assert (a + b)[1..] == a[1..] + b;
      ReverseConcat(a[1..], b);
    }
  }

  lemma {:induction false} ReverseReverse(s: seq<Node>)
    ensures Reverse(Reverse(s)) == s
  {
    if s != [] {
      ReverseConcat(Reverse(s[1..]), [s[0]]);
      ReverseReverse(s[1..]);
      assert s == [s[0]] + s[1..];
    }
  }

  /** A Group's children (or a wrapped Group's) are walked last child first. */
  lemma VisitChildrenLastFirst(n: Node)
    ensures Visit(n) == [n] + Flatten(Reverse(Expansion(n)))
  {
    var cs := Expansion(n);
    ReverseReverse(cs);
    TraversalRootOrder(Reverse(cs));
  }

  /**
   * Popping the top and pushing what it expands to leaves exactly the rest
   * of the walk, and the popped node is the walk's next node.
   */
  lemma NextStep(s: seq<Node>)
    requires s != []
    ensures Drain(s)[0] == s[|s| - 1]
    ensures Drain(s[..|s| - 1] + Expansion(s[|s| - 1])) == Drain(s)[1..]
  {
    var rest, top := s[..|s| - 1], s[|s| - 1];
    var e := Expansion(top);
    var x, y := Drain(e), Drain(rest);
    assert Drain(s) == Visit(top) + y;
    assert Visit(top) == [top] + x by { VisitExpansion(top); }
    assert Drain(rest + e) == x + y by { DrainConcat(rest, e); }
    SeqAssoc([top], x, y);
  }

  lemma SeqAssoc(a: seq<Node>, b: seq<Node>, c: seq<Node>)
    ensures (a + b) + c == a + (b + c)
  {
  }

  lemma {:induction false} FlattenConcat(a: seq<Node>, b: seq<Node>)
    ensures Flatten(a + b) == Flatten(a) + Flatten(b)
  {
    if a == [] {
      assert a + b == b;
    } else {
      assert (a + b)[1..] == a[1..] + b;
      FlattenConcat(a[1..], b);
    }
  }

  /** Walking two forests side by side walks the first, then the second. */
  lemma TraversalConcat(a: seq<Node>, b: seq<Node>)
    ensures Traversal(a + b) == Traversal(a) + Traversal(b)
  {
    TraversalRootOrder(a + b);
    TraversalRootOrder(a);
    TraversalRootOrder(b);
    FlattenConcat(a, b);
  }

  /** The first node produced for a non-empty forest is its first root. */
  lemma TraversalHead(f: seq<Node>)
    requires f != []
    ensures |Traversal(f)| >= |f| && Traversal(f)[0] == f[0]
  {
    TraversalRootOrder(f);
  }

  // ---------------------------------------------------------------------
  // What the walk produces, counted by id

  /** The ids of a sequence of nodes, in order. */
  function IdsOf(ts: seq<Node>): (r: seq<int>)
    ensures |r| == |ts|
    ensures forall i :: 0 <= i < |ts| ==> r[i] == ts[i].id
  {
    if ts == [] then [] else [ts[0].id] + IdsOf(ts[1..])
  }

  lemma IdsOfConcat(a: seq<Node>, b: seq<Node>)
    ensures IdsOf(a + b) == IdsOf(a) + IdsOf(b)
  {
  }

  /** The ids in a node's subtree that the walk from that node never produces. */
  function HiddenIds(n: Node): seq<int>
  {
    match n
    case Group(_, _, cs) => ForestHidden(cs)
    case Draggable(_, Group(gid, _, cs)) => [gid] + ForestHidden(cs)
    case Draggable(_, item) => NodeIds(item)
    case _ => []
  }

  function ForestHidden(s: seq<Node>): seq<int>
  {
    if s == [] then [] else ForestHidden(s[..|s| - 1]) + HiddenIds(s[|s| - 1])
  }

  lemma {:induction false} ForestHiddenConcat(a: seq<Node>, b: seq<Node>)
    ensures ForestHidden(a + b) == ForestHidden(a) + ForestHidden(b)
  {
    if b == [] {
      assert a + b == a;
    } else {
      var p := b[..|b| - 1];
      assert (a + b)[..|a + b| - 1] == a + p;
      ForestHiddenConcat(a, p);
    }
  }

  /**
   * Every id of a tree is produced by its walk exactly as often as it
   * occurs, except the ids of nodes hidden behind a Draggable.
   */
  lemma {:induction false} VisitAccounting(n: Node)
    ensures multiset(IdsOf(Visit(n))) + multiset(HiddenIds(n)) == multiset(NodeIds(n))
    decreases n, 1
  {
    if n.Group? {
      DrainAccounting(n.children);
      ConsAccounting(n, Drain(n.children), ForestHidden(n.children), ForestIds(n.children));
    } else if n.Draggable? && n.item.Group? {
      WrappedAccounting(n);
    }
  }

  /** A Draggable around a Group: the Group's id is hidden, its children are walked. */
  lemma {:induction false} WrappedAccounting(n: Node)
    requires n.Draggable? && n.item.Group?
    ensures multiset(IdsOf(Visit(n))) + multiset(HiddenIds(n)) == multiset(NodeIds(n))
    decreases n, 0
  {
    var g := n.item;
    var cs := g.children;
    DrainAccounting(cs);
    assert NodeIds(g) == [g.id] + ForestIds(cs);
    assert HiddenIds(n) == [g.id] + ForestHidden(cs);
    assert Visit(n) == [n] + Drain(cs);
    ConsAccounting(n, Drain(cs), HiddenIds(n), NodeIds(g));
  }

  /** Putting one node in front of a walk adds its id on both sides of the accounting. */
  lemma ConsAccounting(n: Node, ts: seq<Node>, hidden: seq<int>, ids: seq<int>)
    requires multiset(IdsOf(ts)) + multiset(hidden) == multiset(ids)
    ensures multiset(IdsOf([n] + ts)) + multiset(hidden) == multiset([n.id] + ids)
  {
    IdsOfConcat([n], ts);
  }

  lemma {:induction false} DrainAccounting(s: seq<Node>)
    ensures multiset(IdsOf(Drain(s))) + multiset(ForestHidden(s)) == multiset(ForestIds(s))
    decreases s, 2
  {
    if s != [] {
      var p, last := s[..|s| - 1], s[|s| - 1];
      DrainAccounting(p);
      VisitAccounting(last);
      IdsOfConcat(Visit(last), Drain(p));
    }
  }

  lemma {:induction false} FlattenAccounting(f: seq<Node>)
    ensures multiset(IdsOf(Flatten(f))) + multiset(ForestHidden(f)) == multiset(ForestIds(f))
  {
    if f != [] {
      assert f == [f[0]] + f[1..];
      FlattenAccounting(f[1..]);
      VisitAccounting(f[0]);
      IdsOfConcat(Visit(f[0]), Flatten(f[1..]));
      ForestHiddenConcat([f[0]], f[1..]);
      ForestIdsConcat([f[0]], f[1..]);
      assert ForestHidden([f[0]]) == HiddenIds(f[0]);
      assert ForestIds([f[0]]) == NodeIds(f[0]);
    }
  }

  /** The forest-level accounting: the walk produces each visible id once and no hidden one. */
  lemma TraversalAccounting(f: seq<Node>)
    ensures multiset(IdsOf(Traversal(f))) + multiset(ForestHidden(f)) == multiset(ForestIds(f))
  {
    TraversalRootOrder(f);
    FlattenAccounting(f);
  }

  /** With unique ids the walk never produces the same node twice. */
  lemma TraversalDistinct(f: seq<Node>)
    requires UniqueIds(f)
    ensures Distinct(IdsOf(Traversal(f)))
  {
    TraversalAccounting(f);
    SubDistinct(IdsOf(Traversal(f)), ForestIds(f));
  }

  // ---------------------------------------------------------------------
  // Where a produced node comes from

  lemma {:induction false} DrainMember(s: seq<Node>, t: Node)
    requires t in Drain(s)
    ensures exists k :: k in s && t in Visit(k)
  {
    var p, last := s[..|s| - 1], s[|s| - 1];
    assert s == p + [last];
    if t !in Visit(last) {
      DrainMember(p, t);
    }
  }

  lemma {:induction false} FlattenMember(f: seq<Node>, t: Node)
    requires t in Flatten(f)
    ensures exists j :: 0 <= j < |f| && t in Visit(f[j])
  {
    if t !in Visit(f[0]) {
      FlattenMember(f[1..], t);
      var j :| 0 <= j < |f[1..]| && t in Visit(f[1..][j]);
      assert f[1..][j] == f[j + 1];
    }
  }

  /** Every produced node comes from the walk of one of the roots. */
  lemma TraversalMember(f: seq<Node>, t: Node)
    requires t in Traversal(f)
    ensures exists j :: 0 <= j < |f| && t in Visit(f[j])
  {
    TraversalRootOrder(f);
    FlattenMember(f, t);
  }

  lemma {:induction false} MemberHidden(s: seq<Node>, k: Node)
    requires k in s
    ensures multiset(HiddenIds(k)) <= multiset(ForestHidden(s))
  {
    var p := s[..|s| - 1];
    assert s == p + [s[|s| - 1]];
    if k != s[|s| - 1] {
      MemberHidden(p, k);
    }
  }

  /** A produced node hides no more than the tree it was produced from. */
  lemma {:induction false} VisitHidden(n: Node, t: Node)
    requires t in Visit(n)
    ensures multiset(HiddenIds(t)) <= multiset(HiddenIds(n))
  {
    if t != n {
      VisitExpansion(n);
      DrainMember(Expansion(n), t);
      var k :| k in Expansion(n) && t in Visit(k);
      VisitHidden(k, t);
      MemberHidden(Expansion(n), k);
    }
  }

  /** The wrapped node of a produced Draggable is never produced, given unique ids. */
  lemma WrappedNeverProduced(f: seq<Node>, d: Node)
    requires UniqueIds(f)
    requires d in Traversal(f) && d.Draggable?
    ensures d.item !in Traversal(f)
  {
    TraversalMember(f, d);
    var j :| 0 <= j < |f| && d in Visit(f[j]);
    VisitHidden(f[j], d);
    MemberHidden(f, f[j]);
    var v := d.item.id;
    assert v in HiddenIds(d);
    assert multiset(ForestHidden(f))[v] >= 1;
    TraversalAccounting(f);
    DistinctCount(ForestIds(f), v);
    assert multiset(IdsOf(Traversal(f)))[v] == 0;
  }

  /** A child pushed by a produced node lies strictly inside the tree it came from. */
  lemma {:induction false} ExpansionInside(n: Node, t: Node, c: Node)
    requires t in Visit(n) && c in Expansion(t)
    ensures multiset(NodeIds(c)) + multiset{n.id} <= multiset(NodeIds(n))
  {
    if t == n {
      match n
      case Group(_, _, cs) =>
        MemberIds(cs, c);
      case Draggable(_, item) =>
        MemberIds(item.children, c);
    } else {
      VisitExpansion(n);
      DrainMember(Expansion(n), t);
      var k :| k in Expansion(n) && t in Visit(k);
      ExpansionInside(k, t, c);
      MemberIds(Expansion(n), k);
      ExpansionIds(n);
      var mc, mk, me := multiset(NodeIds(c)), multiset(NodeIds(k)), multiset(ForestIds(Expansion(n)));
      assert mc <= mk <= me;
      assert mc + multiset{n.id} <= me + multiset{n.id};
    }
  }

  /** What popping a node pushes holds ids of that node's tree other than its own. */
  lemma ExpansionIds(n: Node)
    ensures multiset(ForestIds(Expansion(n))) + multiset{n.id} <= multiset(NodeIds(n))
  {
    match n
    case Group(_, _, cs) =>
      assert NodeIds(n) == [n.id] + ForestIds(cs);
    case Draggable(_, item) =>
      assert NodeIds(n) == [n.id] + NodeIds(item);
      if item.Group? {
        assert NodeIds(item) == [item.id] + ForestIds(item.children);
      }
    case _ =>
  }

  // ---------------------------------------------------------------------
  // The two queries answered by walking

  predicate HasChild(cs: seq<Node>, id: int)
  {
    exists c :: c in cs && c.id == id
  }

  /** `t` owns, directly or through the Group it wraps, a child with this id. */
  predicate IsParentOf(t: Node, id: int)
  {
    HasChild(Expansion(t), id)
  }

  /** Position of the first produced node that is a parent of `id`, or |ts|. */
  function ParentIndex(ts: seq<Node>, id: int): (k: nat)
    ensures k <= |ts|
    ensures k < |ts| ==> IsParentOf(ts[k], id)
    ensures forall j :: 0 <= j < k ==> !IsParentOf(ts[j], id)
  {
    if ts == [] then 0
    else if IsParentOf(ts[0], id) then 0
    else 1 + ParentIndex(ts[1..], id)
  }

  /** The container the `parentOf` query answers with, from a produced sequence. */
  function ParentIn(ts: seq<Node>, id: int): (r: Option<Node>)
    ensures r.None? <==> forall t :: t in ts ==> !IsParentOf(t, id)
    ensures r.Some? ==> r.value.Group? && HasChild(r.value.children, id)
    ensures r.Some? ==>
      exists k :: (0 <= k < |ts| && IsParentOf(ts[k], id) && r == Container(ts[k])
        && forall j :: 0 <= j < k ==> !IsParentOf(ts[j], id))
  {
    var k := ParentIndex(ts, id);
    if k < |ts| then Container(ts[k]) else None
  }

  /** Position of the first produced node with this id, or |ts|. */
  function FirstIndex(ts: seq<Node>, id: int): (k: nat)
    ensures k <= |ts|
    ensures k < |ts| ==> ts[k].id == id
    ensures forall j :: 0 <= j < k ==> ts[j].id != id
  {
    if ts == [] then 0
    else if ts[0].id == id then 0
    else 1 + FirstIndex(ts[1..], id)
  }

  /** The first produced node with this id, if any. */
  function FindIn(ts: seq<Node>, id: int): (r: Option<Node>)
    ensures r.None? <==> forall t :: t in ts ==> t.id != id
    ensures r.Some? ==> r.value in ts && r.value.id == id
    ensures r.Some? ==>
      exists k :: (0 <= k < |ts| && ts[k] == r.value
        && forall j :: 0 <= j < k ==> ts[j].id != id)
  {
    var k := FirstIndex(ts, id);
    if k < |ts| then Some(ts[k]) else None
  }

  /**
   * An id in no tree at all has no parent in the walk, and neither has the
   * id of a root when ids are unique.
   */
  lemma NoParentForRootOrAbsent(f: seq<Node>, id: int)
    requires id !in ForestIds(f) || (UniqueIds(f) && exists i :: 0 <= i < |f| && f[i].id == id)
    ensures ParentIn(Traversal(f), id) == None
  {
    forall t | t in Traversal(f) ensures !IsParentOf(t, id) {
      if IsParentOf(t, id) {
        var c :| c in Expansion(t) && c.id == id;
        TraversalMember(f, t);
        var j :| 0 <= j < |f| && t in Visit(f[j]);
        ExpansionInside(f[j], t, c);
        MemberIds(f, f[j]);
        assert id in multiset(NodeIds(c));
        if id in ForestIds(f) {
          var i :| 0 <= i < |f| && f[i].id == id;
          if i == j {
            assert multiset(NodeIds(f[j]))[id] >= 2;
          } else {
            TwoRootsIds(f, i, j);
            assert id in multiset(NodeIds(f[i]));
            assert multiset(ForestIds(f))[id] >= 2;
          }
          DistinctCount(ForestIds(f), id);
        }
        assert false;
      }
    }
  }

  /** The first parent in a walk is found at its position, after the nodes before it. */
  lemma {:induction false} ParentAt(ts: seq<Node>, i: int, id: int)
    requires 0 <= i < |ts| && IsParentOf(ts[i], id)
    requires forall j :: 0 <= j < i ==> !IsParentOf(ts[j], id)
    ensures ParentIndex(ts, id) == i
  {
    if i > 0 {
      ParentAt(ts[1..], i - 1, id);
    }
  }

  /** A walk none of whose nodes is a parent of `id` answers undefined. */
  lemma NoParentAtAll(ts: seq<Node>, id: int)
    requires forall j :: 0 <= j < |ts| ==> !IsParentOf(ts[j], id)
    ensures ParentIndex(ts, id) == |ts| && ParentIn(ts, id) == None
  {
  }

  // ---------------------------------------------------------------------
  // The walk as the source runs it

  /**
   * What `parentOf` answers with for one produced node: the node itself when
   * it has `getElements` and a child with the id, the wrapped Group when it
   * is a Draggable around a Group with such a child, otherwise nothing.
   */
  function ParentCandidate(t: Node, id: int): (r: Option<Node>)
    ensures r.Some? <==> IsParentOf(t, id)
    ensures r.Some? ==> r == Container(t)
  {
    if t.GetElements().Some? then
      if HasChild(t.GetElements().value, id) then Some(t) else None
    else if t.IsDraggable() && t.item.GetElements().Some? then
      if HasChild(t.item.GetElements().value, id) then Some(t.item) else None
    else None
  }

  /** One step of a walk: the consumed prefix grows by the produced node. */
  lemma WalkStep(before: seq<Node>, rem: seq<Node>, i: int)
    requires 0 <= i < |rem|
    ensures (before + rem[..i]) + [rem[i]] == before + rem[..i + 1]
    ensures rem[i..][1..] == rem[i + 1..]
  {
    assert rem[..i + 1] == rem[..i] + [rem[i]];
  }

  /** `x?.getElements !== undefined` on a possibly undefined node. */
  predicate HasElements(x: Option<Node>)
    ensures HasElements(x) <==> x.Some? && x.value.Group?
  {
    match x
    case None => false
    case Some(n) => n.GetElements().Some?
  }

  class TreeIterator {
    var stack: seq<Node>
    var visited: seq<Node>

    /** Everything the remaining calls to `Next` will produce, in order. */
    function Remaining(): seq<Node>
      reads this
    {
      Drain(stack)
    }

    /** Takes a reversed copy of the roots, so the first root is on top. */
    constructor (collection: seq<Node>)
      ensures visited == [] && stack == Reverse(collection)
      ensures collection != [] ==> stack[|stack| - 1] == collection[0]
      ensures Remaining() == Traversal(collection)
    {
      visited := [];
      stack := Reverse(collection);
    }

    /** Peeks at the top of the stack. */
    method First() returns (r: Option<Node>)
      ensures stack == [] ==> r == None
      ensures stack != [] ==> r == Some(stack[|stack| - 1])
      ensures r.None? <==> Remaining() == []
      ensures r.Some? ==> r.value == Remaining()[0]
    {
      r := if |stack| > 0 then Some(stack[|stack| - 1]) else None;
    }

    /** The second disjunct reads the top of an empty stack, which is undefined. */
    method HasNext() returns (b: bool)
      ensures b <==> stack != []
      ensures b <==> Remaining() != []
    {
      var top: Option<Node> := if |stack| > 0 then Some(stack[|stack| - 1]) else None;
      b := |stack| > 0 || HasElements(top);
    }

    method Next() returns (r: Option<Node>)
      modifies this
      ensures old(stack) == [] ==> r == None && stack == old(stack) && visited == old(visited)
      ensures old(stack) != [] ==>
        var top := old(stack)[|old(stack)| - 1];
        && r == Some(top)
        && visited == old(visited) + [top]
        && stack == old(stack)[..|old(stack)| - 1] + Expansion(top)
      ensures old(Remaining()) != [] ==>
        r == Some(old(Remaining())[0]) && Remaining() == old(Remaining())[1..]
    {
      var more := HasNext();
      if more {
        var current := stack[|stack| - 1];
        var rest := stack[..|stack| - 1];
        stack := rest;
        visited := visited + [current];
        var kids: seq<Node> := [];
        if current.GetElements().Some? {
          kids := current.GetElements().value;
        } else if current.IsDraggable() && current.item.GetElements().Some? {
          kids := current.item.GetElements().value;
        }
        assert kids == Expansion(current);
        var i := 0;
        while i < |kids|
          invariant 0 <= i <= |kids|
          invariant stack == rest + kids[..i]
          invariant visited == old(visited) + [current]
        {
          stack := stack + [kids[i]];
          i := i + 1;
        }
        assert kids[..i] == kids;
        r := Some(current);
        NextStep(old(stack));
      } else {
        r := None;
      }
    }

    /**
     * Drives the walk until a produced node owns a child with this id and
     * answers with that node's container, or exhausts the walk.
     */
    method ParentOf(id: int) returns (r: Option<Node>)
      modifies this
      ensures r == ParentIn(old(Remaining()), id)
      ensures
        var rem, k := old(Remaining()), ParentIndex(old(Remaining()), id);
        var used := if k < |rem| then k + 1 else |rem|;
        visited == old(visited) + rem[..used] && Remaining() == rem[used..]
    {
      ghost var rem := Remaining();
      ghost var i := 0;
      var more := HasNext();
      while more
        invariant 0 <= i <= |rem|
        invariant visited == old(visited) + rem[..i] && Remaining() == rem[i..]
        invariant more <==> i < |rem|
        invariant forall j :: 0 <= j < i ==> !IsParentOf(rem[j], id)
        decreases |rem| - i
      {
        var nextElement := Next();
        WalkStep(old(visited), rem, i);
        var found := ParentCandidate(nextElement.value, id);
        if found.Some? {
          ParentAt(rem, i, id);
          r := found;
          return;
        }
        assert forall j :: 0 <= j < i + 1 ==> !IsParentOf(rem[j], id);
        i := i + 1;
        more := HasNext();
      }
      NoParentAtAll(rem, id);
      r := None;
    }
  }
}
