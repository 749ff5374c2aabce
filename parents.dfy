/**
 * Parenthood in the forest: which Group holds which child. Used to show
 * that after adding a child into a Group, the walk finds exactly that
 * Group as the child's parent.
 */
module Parents {
  import opened Model
  import opened Forest
  import opened Iterator

  /** The (Group id, child id) pairs of a Group's own children. */
  function ChildEdges(id: int, cs: seq<Node>): set<(int, int)>
  {
    set c | c in cs :: (id, c.id)
  }

  /** Every (Group id, child id) pair in a tree, a wrapped Group's included. */
  function Edges(n: Node): set<(int, int)>
  {
    match n
    case Image(_, _) => {}
    case Note(_, _) => {}
    case Group(id, _, cs) => ChildEdges(id, cs) + ForestEdges(cs)
    case Draggable(_, item) => Edges(item)
  }

  function ForestEdges(s: seq<Node>): set<(int, int)>
  {
    if s == [] then {} else ForestEdges(s[..|s| - 1]) + Edges(s[|s| - 1])
  }

  lemma {:induction false} MemberEdges(s: seq<Node>, k: Node)
    requires k in s
    ensures Edges(k) <= ForestEdges(s)
  {
    var p := s[..|s| - 1];
    assert s == p + [s[|s| - 1]];
    if k != s[|s| - 1] {
      MemberEdges(p, k);
    }
  }

  /** A child in a pair is a proper descendant: never the tree's own root. */
  lemma {:induction false} EdgeChildIds(n: Node)
    ensures forall e :: e in Edges(n) ==> e.1 in NodeIds(n)[1..]
  {
    match n
    case Image(_, _) =>
    case Note(_, _) =>
    case Group(id, _, cs) =>
      assert NodeIds(n)[1..] == ForestIds(cs);
      ForestEdgeIds(cs);
      forall c | c in cs ensures c.id in ForestIds(cs) {
        MemberIds(cs, c);
        assert NodeIds(c)[0] in NodeIds(c);
      }
    case Draggable(_, item) =>
      assert NodeIds(n)[1..] == NodeIds(item);
      EdgeChildIds(item);
      forall e | e in Edges(item) ensures e.1 in NodeIds(item) {
        assert e.1 in NodeIds(item)[1..];
      }
  }

  lemma {:induction false} ForestEdgeIds(s: seq<Node>)
    ensures forall e :: e in ForestEdges(s) ==> e.1 in ForestIds(s)
  {
    if s != [] {
      var p, last := s[..|s| - 1], s[|s| - 1];
      ForestEdgeIds(p);
      EdgeChildIds(last);
      forall e | e in Edges(last) ensures e.1 in NodeIds(last) {
        assert e.1 in NodeIds(last)[1..];
      }
    }
  }

  /** A node produced by the walk pairs its container with each child it pushes. */
  lemma {:induction false} ProducedEdge(n: Node, t: Node, c: Node)
    requires t in Visit(n) && c in Expansion(t)
    ensures Container(t).Some? && (Container(t).value.id, c.id) in Edges(n)
  {
    if t == n {
      match n
      case Group(id, _, cs) =>
        assert (id, c.id) in ChildEdges(id, cs);
      case Draggable(_, item) =>
        assert (item.id, c.id) in ChildEdges(item.id, item.children);
    } else {
      VisitExpansion(n);
      DrainMember(Expansion(n), t);
      var k :| k in Expansion(n) && t in Visit(k);
      ProducedEdge(k, t, c);
      MemberEdges(Expansion(n), k);
      match n
      case Group(_, _, _) =>
      case Draggable(_, _) =>
    }
  }

  lemma ForestProducedEdge(f: seq<Node>, t: Node, c: Node)
    requires t in Traversal(f) && c in Expansion(t)
    ensures Container(t).Some? && (Container(t).value.id, c.id) in ForestEdges(f)
  {
    TraversalMember(f, t);
    var j :| 0 <= j < |f| && t in Visit(f[j]);
    ProducedEdge(f[j], t, c);
    MemberEdges(f, f[j]);
  }

  /** Adding `x` into Group `g` creates the pair (g, x.id) and the pairs inside `x`, nothing else. */
  lemma {:induction false} RewriteEdges(n: Node, g: int, x: Node)
    ensures forall e :: e in Edges(Rewrite(n, g, AddChild(x))) ==>
      e in Edges(n) || e == (g, x.id) || e in Edges(x)
  {
    match n
    case Image(_, _) =>
    case Note(_, _) =>
    case Group(id, nm, cs) =>
      if id == g {
        assert (cs + [x])[..|cs + [x]| - 1] == cs;
        assert ForestEdges(cs + [x]) == ForestEdges(cs) + Edges(x);
      } else {
        var rs := RewriteSeq(cs, g, AddChild(x));
        RewriteSeqEdges(cs, g, x);
        forall e | e in ChildEdges(id, rs) ensures e in ChildEdges(id, cs) {
          var c :| c in rs && e == (id, c.id);
          var i :| 0 <= i < |rs| && rs[i] == c;
          assert cs[i] in cs;
        }
      }
    case Draggable(_, item) =>
      RewriteEdges(item, g, x);
  }

  lemma {:induction false} RewriteSeqEdges(s: seq<Node>, g: int, x: Node)
    ensures forall e :: e in ForestEdges(RewriteSeq(s, g, AddChild(x))) ==>
      e in ForestEdges(s) || e == (g, x.id) || e in Edges(x)
  {
    if s != [] {
      var p, last := s[..|s| - 1], s[|s| - 1];
      var r := RewriteSeq(s, g, AddChild(x));
      assert r[..|r| - 1] == RewriteSeq(p, g, AddChild(x));
      RewriteSeqEdges(p, g, x);
      RewriteEdges(last, g, x);
    }
  }

  // ---------------------------------------------------------------------
  // The Group added into stays reachable by the walk

  lemma {:induction false} DrainHas(s: seq<Node>, k: Node, t: Node)
    requires k in s && t in Visit(k)
    ensures t in Drain(s)
  {
    var p := s[..|s| - 1];
    assert s == p + [s[|s| - 1]];
    if k != s[|s| - 1] {
      DrainHas(p, k, t);
    }
  }

  lemma {:induction false} FlattenHas(f: seq<Node>, j: int, t: Node)
    requires 0 <= j < |f| && t in Visit(f[j])
    ensures t in Flatten(f)
  {
    if j > 0 {
      FlattenHas(f[1..], j - 1, t);
    }
  }

  lemma {:induction false} RewriteSeqHas(s: seq<Node>, k: Node, g: int, e: Edit)
    requires k in s
    ensures Rewrite(k, g, e) in RewriteSeq(s, g, e)
  {
    var p := s[..|s| - 1];
    assert s == p + [s[|s| - 1]];
    if k != s[|s| - 1] {
      RewriteSeqHas(p, k, g, e);
    }
  }

  /** Away from the target itself, a rewrite reaches what the walk pushes by rewriting it. */
  lemma ExpansionRewrite(n: Node, g: int, e: Edit)
    requires !(n.Group? && n.id == g) && !(n.Draggable? && n.item.Group? && n.item.id == g)
    ensures Expansion(Rewrite(n, g, e)) == RewriteSeq(Expansion(n), g, e)
  {
  }

  /**
   * If the walk of `n` produces a node whose container is `grp`, then the
   * walk of `n` with `x` added into `grp` produces a node that owns `x`.
   */
  lemma {:induction false} RewriteKeepsParent(n: Node, t: Node, grp: Node, x: Node)
    requires t in Visit(n) && Container(t) == Some(grp)
    ensures exists t' :: t' in Visit(Rewrite(n, grp.id, AddChild(x))) && IsParentOf(t', x.id)
  {
    var g := grp.id;
    var n' := Rewrite(n, g, AddChild(x));
    if n.Group? && n.id == g {
      assert Expansion(n') == n.children + [x];
      assert n' in Visit(n');
    } else if n.Draggable? && n.item.Group? && n.item.id == g {
      var inner := n.item;
      assert Rewrite(inner, g, AddChild(x)) == Group(g, inner.name, inner.children + [x]);
      assert n' == Draggable(n.id, Group(g, inner.name, inner.children + [x]));
      assert Expansion(n') == inner.children + [x];
      assert n' in Visit(n');
    } else {
      VisitExpansion(n);
      DrainMember(Expansion(n), t);
      var k :| k in Expansion(n) && t in Visit(k);
      RewriteKeepsParent(k, t, grp, x);
      var t' :| t' in Visit(Rewrite(k, g, AddChild(x))) && IsParentOf(t', x.id);
      ExpansionRewrite(n, g, AddChild(x));
      RewriteSeqHas(Expansion(n), k, g, AddChild(x));
      DrainHas(Expansion(n'), Rewrite(k, g, AddChild(x)), t');
      VisitExpansion(n');
    }
  }

  /** Lifted to the forest: the walk still finds an owner of the added child. */
  lemma TraversalKeepsParent(f: seq<Node>, t: Node, grp: Node, x: Node)
    requires t in Traversal(f) && Container(t) == Some(grp)
    ensures exists t' :: t' in Traversal(RewriteSeq(f, grp.id, AddChild(x))) && IsParentOf(t', x.id)
  {
    var f' := RewriteSeq(f, grp.id, AddChild(x));
    TraversalMember(f, t);
    var j :| 0 <= j < |f| && t in Visit(f[j]);
    RewriteKeepsParent(f[j], t, grp, x);
    var t' :| t' in Visit(Rewrite(f[j], grp.id, AddChild(x))) && IsParentOf(t', x.id);
    RewriteSeqAt(f, j, grp.id, AddChild(x));
    FlattenHas(f', j, t');
    TraversalRootOrder(f');
  }

  lemma {:induction false} RewriteSeqAt(s: seq<Node>, j: int, g: int, e: Edit)
    requires 0 <= j < |s|
    ensures RewriteSeq(s, g, e)[j] == Rewrite(s[j], g, e)
  {
    var p := s[..|s| - 1];
    if j < |s| - 1 {
      RewriteSeqAt(p, j, g, e);
    }
  }
}
