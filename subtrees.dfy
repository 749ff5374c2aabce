/**
 * Which nodes sit inside which, and what an in-place edit of one Group
 * does to the forest: under unique ids exactly that Group changes its
 * children, and every other id of the board stays where it was.
 */
module Subtrees {
  import opened Model
  import opened Forest
  import opened Iterator
  import opened Parents

  /** `g` is `n` itself or sits somewhere inside it, a wrapped item included. */
  predicate Sub(n: Node, g: Node)
  {
    n == g ||
    match n
    case Group(_, _, cs) => SubIn(cs, g)
    case Draggable(_, item) => Sub(item, g)
    case _ => false
  }

  /** `g` sits inside one of the trees of `s`. */
  predicate SubIn(s: seq<Node>, g: Node)
  {
    exists c :: c in s && Sub(c, g)
  }

  lemma SubInSnoc(s: seq<Node>, g: Node)
    requires s != []
    ensures SubIn(s, g) <==> SubIn(s[..|s| - 1], g) || Sub(s[|s| - 1], g)
  {
    var p, last := s[..|s| - 1], s[|s| - 1];
    assert s == p + [last];
    if SubIn(s, g) && !Sub(last, g) {
      var c :| c in s && Sub(c, g);
      assert c in p;
    }
  }

  /** A subtree's ids are among the tree's, and a proper subtree's id is not the root's slot. */
  lemma {:induction false} SubIds(n: Node, g: Node)
    requires Sub(n, g)
    ensures multiset(NodeIds(g)) <= multiset(NodeIds(n))
    ensures g.id in NodeIds(n)
    ensures g != n ==> g.id in NodeIds(n)[1..]
    decreases n, 1
  {
    assert NodeIds(g)[0] == g.id;
    if g != n {
      match n
      case Group(_, _, cs) =>
        SubInIds(cs, g);
        assert NodeIds(n) == [n.id] + ForestIds(cs);
      case Draggable(_, item) =>
        SubIds(item, g);
        assert NodeIds(n) == [n.id] + NodeIds(item);
    }
  }

  lemma {:induction false} SubInIds(s: seq<Node>, g: Node)
    requires SubIn(s, g)
    ensures multiset(NodeIds(g)) <= multiset(ForestIds(s))
    ensures g.id in ForestIds(s)
    decreases s, 2
  {
    var c :| c in s && Sub(c, g);
    SubIds(c, g);
    MemberIds(s, c);
    assert g.id in multiset(NodeIds(g));
  }

  /** A subtree of a board with unique ids has unique ids itself. */
  lemma SubInDistinct(s: seq<Node>, g: Node)
    requires SubIn(s, g) && Distinct(ForestIds(s))
    ensures Distinct(NodeIds(g))
  {
    SubInIds(s, g);
    SubDistinct(NodeIds(g), ForestIds(s));
  }

  lemma {:induction false} SubTrans(a: Node, b: Node, c: Node)
    requires Sub(a, b) && Sub(b, c)
    ensures Sub(a, c)
  {
    if a != b {
      match a
      case Group(_, _, cs) =>
        var k :| k in cs && Sub(k, b);
        SubTrans(k, b, c);
        assert SubIn(cs, c);
      case Draggable(_, item) =>
        SubTrans(item, b, c);
    }
  }

  /** Every node the walk produces from `n` sits inside `n`. */
  lemma {:induction false} VisitSub(n: Node, t: Node)
    requires t in Visit(n)
    ensures Sub(n, t)
  {
    if t != n {
      VisitExpansion(n);
      DrainMember(Expansion(n), t);
      var k :| k in Expansion(n) && t in Visit(k);
      VisitSub(k, t);
      match n
      case Group(_, _, cs) =>
        assert SubIn(cs, t);
      case Draggable(_, item) =>
        assert SubIn(item.children, t);
        assert Sub(item, t);
    }
  }

  /** The container of a node sits inside it. */
  lemma ContainerSub(t: Node)
    requires Container(t).Some?
    ensures Sub(t, Container(t).value)
  {
    if t.Draggable? {
      assert Sub(t.item, t.item);
    }
  }

  /** Every node the walk of a board produces sits inside one of its roots. */
  lemma TraversalSub(f: seq<Node>, t: Node)
    requires t in Traversal(f)
    ensures SubIn(f, t)
  {
    TraversalMember(f, t);
    var j :| 0 <= j < |f| && t in Visit(f[j]);
    VisitSub(f[j], t);
    assert f[j] in f;
  }

  /** The container of a produced node sits inside one of the roots. */
  lemma ProducedContainerSub(f: seq<Node>, t: Node)
    requires t in Traversal(f) && Container(t).Some?
    ensures SubIn(f, Container(t).value)
  {
    TraversalSub(f, t);
    var c :| c in f && Sub(c, t);
    ContainerSub(t);
    SubTrans(c, t, Container(t).value);
  }

  /** The parent `parentOf` answers with is a Group on the board. */
  lemma ParentSub(f: seq<Node>, id: int)
    requires ParentIn(Traversal(f), id).Some?
    ensures SubIn(f, ParentIn(Traversal(f), id).value)
  {
    var ts := Traversal(f);
    var k := ParentIndex(ts, id);
    ProducedContainerSub(f, ts[k]);
  }

  // ---------------------------------------------------------------------
  // What an edit of one Group does

  /** The Group with id `g.id` after the edit. */
  function Edited(g: Node, e: Edit): (r: Node)
    requires g.Group?
    ensures r.Group? && r.id == g.id && r.name == g.name && r.children == Apply(g.children, e)
  {
    Group(g.id, g.name, Apply(g.children, e))
  }

  /** The ids an edit's result holds come from the old children or from what it adds. */
  lemma ApplyIdsFrom(cs: seq<Node>, e: Edit)
    requires Distinct(ForestIds(cs))
    ensures forall i :: i in ForestIds(Apply(cs, e)) ==> i in ForestIds(cs) || i in Extra(e)
  {
    match e
    case AddChild(x) =>
      ForestIdsSnoc(cs, x);
    case RemoveChild(d) =>
      WithoutIds(cs, d);
  }

  /** Removing a child by id, with unique ids, takes out exactly that child's ids. */
  lemma {:induction false} WithoutOne(cs: seq<Node>, c: Node)
    requires Distinct(ForestIds(cs)) && c in cs
    ensures multiset(ForestIds(Without(cs, c.id))) + multiset(NodeIds(c)) == multiset(ForestIds(cs))
  {
    var p, last := cs[..|cs| - 1], cs[|cs| - 1];
    assert cs == p + [last];
    ForestIdsSnoc(p, last);
    DistinctConcat(ForestIds(p), NodeIds(last));
    if last.id == c.id {
      WithoutLast(p, last);
      assert c == last;
    } else {
      assert c in p;
      WithoutOne(p, c);
      var w := Without(p, c.id);
      assert Without(cs, c.id) == w + [last];
      ForestIdsSnoc(w, last);
      Swap(multiset(ForestIds(w)), multiset(NodeIds(last)), multiset(NodeIds(c)));
    }
  }

  lemma Swap(a: multiset<int>, b: multiset<int>, c: multiset<int>)
    ensures (a + b) + c == (a + c) + b
  {
    assert b + c == c + b;
  }

  /** With unique ids, only the last tree carries the last tree's id, so removing that id drops just it. */
  lemma WithoutLast(p: seq<Node>, last: Node)
    requires Distinct(ForestIds(p)) && Disjoint(ForestIds(p), NodeIds(last))
    ensures forall x :: x in p ==> x.id != last.id
    ensures Without(p + [last], last.id) == p
  {
    assert last.id in NodeIds(last);
    forall x | x in p ensures x.id != last.id {
      MemberIds(p, x);
      assert x.id in NodeIds(x);
    }
    assert (p + [last])[..|p|] == p;
  }

  /** Adding the same ids on both sides of a balance keeps it balanced. */
  lemma Balance(h: multiset<int>, a: multiset<int>, b: multiset<int>, c: multiset<int>, d: multiset<int>)
    requires a + c == b + d
    ensures (h + a) + c == (h + b) + d && (a + h) + c == (b + h) + d
  {
    assert (h + a) + c == h + (a + c);
    assert (h + b) + d == h + (b + d);
    assert a + h == h + a && b + h == h + b;
  }

  /** The same balance, for id lists that gain one more id in front. */
  lemma PrependBalance(id: int, x: seq<int>, y: seq<int>, c: multiset<int>, d: multiset<int>)
    requires multiset(x) + c == multiset(y) + d
    ensures multiset([id] + x) + c == multiset([id] + y) + d
  {
    assert multiset([id] + x) == multiset{id} + multiset(x);
    assert multiset([id] + y) == multiset{id} + multiset(y);
    Balance(multiset{id}, multiset(x), multiset(y), c, d);
  }

  /**
   * An edit of a Group inside a tree with unique ids trades that Group's
   * children's ids for the ids of its new children; nothing else changes.
   */
  lemma {:induction false} RewriteIds(n: Node, g: Node, e: Edit)
    requires Distinct(NodeIds(n)) && Sub(n, g) && g.Group?
    ensures multiset(NodeIds(Rewrite(n, g.id, e))) + multiset(ForestIds(g.children))
         == multiset(NodeIds(n)) + multiset(ForestIds(Apply(g.children, e)))
    decreases n, 1
  {
    match n
    case Group(id, nm, cs) =>
      var before, after := multiset(ForestIds(g.children)), multiset(ForestIds(Apply(g.children, e)));
      if n == g {
        assert NodeIds(Rewrite(n, g.id, e)) == [id] + ForestIds(Apply(cs, e));
        PrependBalance(id, ForestIds(Apply(cs, e)), ForestIds(cs), before, after);
      } else {
        DistinctConcat([id], ForestIds(cs));
        SubInIds(cs, g);
        RewriteSeqIds(cs, g, e);
        assert NodeIds(Rewrite(n, g.id, e)) == [id] + ForestIds(RewriteSeq(cs, g.id, e));
        PrependBalance(id, ForestIds(RewriteSeq(cs, g.id, e)), ForestIds(cs), before, after);
      }
    case Draggable(id, item) =>
      DistinctConcat([id], NodeIds(item));
      assert Sub(item, g);
      RewriteIds(item, g, e);
      assert NodeIds(Rewrite(n, g.id, e)) == [id] + NodeIds(Rewrite(item, g.id, e));
      PrependBalance(id, NodeIds(Rewrite(item, g.id, e)), NodeIds(item),
        multiset(ForestIds(g.children)), multiset(ForestIds(Apply(g.children, e))));
  }

  lemma {:induction false} RewriteSeqIds(s: seq<Node>, g: Node, e: Edit)
    requires Distinct(ForestIds(s)) && SubIn(s, g) && g.Group?
    ensures multiset(ForestIds(RewriteSeq(s, g.id, e))) + multiset(ForestIds(g.children))
         == multiset(ForestIds(s)) + multiset(ForestIds(Apply(g.children, e)))
    decreases s, 2
  {
    var p, last := s[..|s| - 1], s[|s| - 1];
    var rp, rl := RewriteSeq(p, g.id, e), Rewrite(last, g.id, e);
    assert s == p + [last];
    assert RewriteSeq(s, g.id, e) == rp + [rl];
    ForestIdsSnoc(rp, rl);
    ForestIdsSnoc(p, last);
    SubInSnoc(s, g);
    DistinctConcat(ForestIds(p), NodeIds(last));
    var before, after := multiset(ForestIds(g.children)), multiset(ForestIds(Apply(g.children, e)));
    if Sub(last, g) {
      SubIds(last, g);
      RewriteSeqAbsent(p, g.id, e);
      RewriteIds(last, g, e);
      assert rp == p;
      Balance(multiset(ForestIds(p)), multiset(NodeIds(rl)), multiset(NodeIds(last)), before, after);
    } else {
      SubInIds(p, g);
      RewriteAbsent(last, g.id, e);
      RewriteSeqIds(p, g, e);
      assert rl == last;
      Balance(multiset(NodeIds(last)), multiset(ForestIds(rp)), multiset(ForestIds(p)), before, after);
    }
  }

  /** With unique ids, the edited Group is in the edited tree. */
  lemma {:induction false} RewriteHasEdited(n: Node, g: Node, e: Edit)
    requires Distinct(NodeIds(n)) && Sub(n, g) && g.Group?
    ensures Sub(Rewrite(n, g.id, e), Edited(g, e))
    decreases n, 1
  {
    match n
    case Group(id, nm, cs) =>
      DistinctConcat([id], ForestIds(cs));
      if n != g {
        SubInIds(cs, g);
        RewriteSeqHasEdited(cs, g, e);
      }
    case Draggable(id, item) =>
      DistinctConcat([id], NodeIds(item));
      RewriteHasEdited(item, g, e);
  }

  lemma {:induction false} RewriteSeqHasEdited(s: seq<Node>, g: Node, e: Edit)
    requires Distinct(ForestIds(s)) && SubIn(s, g) && g.Group?
    ensures SubIn(RewriteSeq(s, g.id, e), Edited(g, e))
    decreases s, 2
  {
    var p, last := s[..|s| - 1], s[|s| - 1];
    assert s == p + [last];
    SubInSnoc(s, g);
    DistinctConcat(ForestIds(p), NodeIds(last));
    var r := RewriteSeq(s, g.id, e);
    if Sub(last, g) {
      RewriteHasEdited(last, g, e);
      assert r[|r| - 1] in r;
    } else {
      RewriteSeqHasEdited(p, g, e);
      var c :| c in RewriteSeq(p, g.id, e) && Sub(c, Edited(g, e));
      assert c in r;
    }
  }

  /**
   * With unique ids, and an edit that brings in no second node with the
   * Group's id, the edited Group is the only node of the tree with that id.
   */
  lemma {:induction false} RewriteSub(n: Node, g: Node, e: Edit, q: Node)
    requires Distinct(NodeIds(n)) && Sub(n, g) && g.Group? && g.id !in Extra(e)
    requires Sub(Rewrite(n, g.id, e), q) && q.id == g.id
    ensures q == Edited(g, e)
    decreases n, 1
  {
    match n
    case Group(id, nm, cs) =>
      DistinctConcat([id], ForestIds(cs));
      if n == g {
        if q != Edited(g, e) {
          SubInIds(Apply(cs, e), q);
          ApplyIdsFrom(cs, e);
          assert false;
        }
      } else {
        SubInIds(cs, g);
        RewriteSeqSub(cs, g, e, q);
      }
    case Draggable(id, item) =>
      DistinctConcat([id], NodeIds(item));
      SubIds(item, g);
      RewriteSub(item, g, e, q);
  }

  lemma {:induction false} RewriteSeqSub(s: seq<Node>, g: Node, e: Edit, q: Node)
    requires Distinct(ForestIds(s)) && SubIn(s, g) && g.Group? && g.id !in Extra(e)
    requires SubIn(RewriteSeq(s, g.id, e), q) && q.id == g.id
    ensures q == Edited(g, e)
    decreases s, 2
  {
    var p, last := s[..|s| - 1], s[|s| - 1];
    assert s == p + [last];
    SubInSnoc(s, g);
    DistinctConcat(ForestIds(p), NodeIds(last));
    var r := RewriteSeq(s, g.id, e);
    assert r[..|r| - 1] == RewriteSeq(p, g.id, e);
    SubInSnoc(r, q);
    if Sub(last, g) {
      UntouchedBefore(p, last, g, e, q);
      RewriteSub(last, g, e, q);
    } else {
      UntouchedLast(p, last, g, e, q);
      RewriteSeqSub(p, g, e, q);
    }
  }

  // ---------------------------------------------------------------------
  // The two edits the editing panel makes, on a whole board

  /** Cancelling the same ids on both sides of a balance. */
  lemma Cancel(x: multiset<int>, y: multiset<int>, a: multiset<int>)
    requires x + a == y + a
    ensures x == y
  {
    forall v ensures x[v] == y[v] {
      assert (x + a)[v] == (y + a)[v];
    }
  }

  /**
   * With unique ids, the edited Group is on the edited board and is the
   * only node there with its id.
   */
  lemma EditedOnly(f: seq<Node>, g: Node, e: Edit)
    requires Distinct(ForestIds(f)) && SubIn(f, g) && g.Group? && g.id !in Extra(e)
    ensures SubIn(RewriteSeq(f, g.id, e), Edited(g, e))
    ensures forall q :: SubIn(RewriteSeq(f, g.id, e), q) && q.id == g.id ==> q == Edited(g, e)
  {
    RewriteSeqHasEdited(f, g, e);
    forall q | SubIn(RewriteSeq(f, g.id, e), q) && q.id == g.id ensures q == Edited(g, e) {
      RewriteSeqSub(f, g, e, q);
    }
  }

  /**
   * With unique ids, removing a child of a Group on the board takes out
   * exactly that child's ids, the child's own id included.
   */
  lemma RemoveChildIds(f: seq<Node>, g: Node, c: Node)
    requires Distinct(ForestIds(f)) && SubIn(f, g) && g.Group? && c in g.children
    ensures multiset(ForestIds(RewriteSeq(f, g.id, RemoveChild(c.id)))) + multiset(NodeIds(c))
         == multiset(ForestIds(f))
    ensures c.id !in ForestIds(RewriteSeq(f, g.id, RemoveChild(c.id)))
  {
    var r := RewriteSeq(f, g.id, RemoveChild(c.id));
    var now, kept, gone := multiset(ForestIds(r)), multiset(ForestIds(Without(g.children, c.id))), multiset(NodeIds(c));
    assert now + (kept + gone) == multiset(ForestIds(f)) + kept by {
      SubInDistinct(f, g);
      assert NodeIds(g) == [g.id] + ForestIds(g.children);
      DistinctConcat([g.id], ForestIds(g.children));
      WithoutOne(g.children, c);
      RewriteSeqIds(f, g, RemoveChild(c.id));
    }
    assert (now + gone) + kept == multiset(ForestIds(f)) + kept;
    Cancel(now + gone, multiset(ForestIds(f)), kept);
    assert c.id in NodeIds(c) by {
      assert NodeIds(c)[0] == c.id;
    }
    GoneAbsent(ForestIds(r), NodeIds(c), ForestIds(f), c.id);
  }

  /** A value taken out of a list without repetitions is not left behind. */
  lemma GoneAbsent(xs: seq<int>, ys: seq<int>, zs: seq<int>, v: int)
    requires multiset(xs) + multiset(ys) == multiset(zs) && Distinct(zs) && v in ys
    ensures v !in xs
  {
    DistinctCount(zs, v);
    assert v in multiset(ys);
    assert v in xs <==> v in multiset(xs);
  }

  /** Adding a child to a Group on a board with unique ids adds exactly the child's ids. */
  lemma AddChildIds(f: seq<Node>, g: Node, x: Node)
    requires Distinct(ForestIds(f)) && SubIn(f, g) && g.Group?
    ensures multiset(ForestIds(RewriteSeq(f, g.id, AddChild(x)))) == multiset(ForestIds(f)) + multiset(NodeIds(x))
  {
    var r := RewriteSeq(f, g.id, AddChild(x));
    RewriteSeqIds(f, g, AddChild(x));
    ForestIdsSnoc(g.children, x);
    var now, had, extra := multiset(ForestIds(r)), multiset(ForestIds(g.children)), multiset(NodeIds(x));
    assert now + had == multiset(ForestIds(f)) + (had + extra);
    assert now + had == (multiset(ForestIds(f)) + extra) + had;
    Cancel(now, multiset(ForestIds(f)) + extra, had);
  }

  /** When the Group sits in the last tree, the trees before it hold no node with its id, edited or not. */
  lemma UntouchedBefore(p: seq<Node>, last: Node, g: Node, e: Edit, q: Node)
    requires Disjoint(ForestIds(p), NodeIds(last)) && Sub(last, g) && q.id == g.id
    ensures !SubIn(RewriteSeq(p, g.id, e), q)
  {
    SubIds(last, g);
    RewriteSeqAbsent(p, g.id, e);
    if SubIn(p, q) {
      SubInIds(p, q);
      assert false;
    }
  }

  /** When the Group sits in the trees before the last, the last tree holds no node with its id. */
  lemma UntouchedLast(p: seq<Node>, last: Node, g: Node, e: Edit, q: Node)
    requires Disjoint(ForestIds(p), NodeIds(last)) && SubIn(p, g) && q.id == g.id
    ensures !Sub(Rewrite(last, g.id, e), q)
  {
    SubInIds(p, g);
    RewriteAbsent(last, g.id, e);
    if Sub(last, q) {
      SubIds(last, q);
      assert false;
    }
  }

  /**
   * Removing a child with id `d` from the Groups with id `t` leaves in
   * place every node that does not hold such a Group and does not sit
   * inside a removed child: the rest of the tree is unchanged.
   */
  lemma {:induction false} RemoveKeepsOutside(n: Node, t: int, d: int, q: Node)
    requires Sub(n, q) && t !in NodeIds(q)
    requires forall g, c :: Sub(n, g) && g.Group? && g.id == t && c in g.children && c.id == d ==> !Sub(c, q)
    ensures Sub(Rewrite(n, t, RemoveChild(d)), q)
    decreases n
  {
    var e := RemoveChild(d);
    if n == q {
      RewriteAbsent(q, t, e);
    } else {
      match n
      case Group(id, nm, cs) =>
        var c :| c in cs && Sub(c, q);
        assert Sub(n, c) by {
          assert Sub(c, c);
        }
        if id == t {
          assert c.id != d;
          assert c in Without(cs, d);
        } else {
          forall g, k | Sub(c, g) && g.Group? && g.id == t && k in g.children && k.id == d ensures !Sub(k, q) {
            SubTrans(n, c, g);
          }
          RemoveKeepsOutside(c, t, d, q);
          RewriteSeqHas(cs, c, t, e);
          assert SubIn(RewriteSeq(cs, t, e), q);
        }
      case Draggable(id, item) =>
        assert Sub(n, item) by {
          assert Sub(item, item);
        }
        forall g, k | Sub(item, g) && g.Group? && g.id == t && k in g.children && k.id == d ensures !Sub(k, q) {
          SubTrans(n, item, g);
        }
        RemoveKeepsOutside(item, t, d, q);
    }
  }

  /** The same for a whole board: nodes away from the removal stay on it. */
  lemma RemoveSeqKeepsOutside(s: seq<Node>, t: int, d: int, q: Node)
    requires SubIn(s, q) && t !in NodeIds(q)
    requires forall g, c :: SubIn(s, g) && g.Group? && g.id == t && c in g.children && c.id == d ==> !Sub(c, q)
    ensures SubIn(RewriteSeq(s, t, RemoveChild(d)), q)
  {
    var k :| k in s && Sub(k, q);
    forall g, c | Sub(k, g) && g.Group? && g.id == t && c in g.children && c.id == d ensures !Sub(c, q) {
      assert SubIn(s, g);
    }
    RemoveKeepsOutside(k, t, d, q);
    RewriteSeqHas(s, k, t, RemoveChild(d));
  }
}
