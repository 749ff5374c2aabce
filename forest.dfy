/**
 * Forest-wide notions: the ids a tree carries, the uniqueness of ids the
 * board relies on, and the effect of mutating one Group object in place
 * (`addElement`/`removeElement` on a Group that sits somewhere in the
 * forest), expressed on values as a rewrite of the tree by target id.
 */
module Forest {
  import opened Model

  /** Every id in a node's subtree, its own first; wrapped items included. */
  function NodeIds(n: Node): (r: seq<int>)
    ensures |r| >= 1 && r[0] == n.id
  {
    match n
    case Image(id, _) => [id]
    case Note(id, _) => [id]
    case Group(id, _, cs) => [id] + ForestIds(cs)
    case Draggable(id, item) => [id] + NodeIds(item)
  }

  /** Every id in a sequence of trees. */
  function ForestIds(s: seq<Node>): seq<int>
  {
    if s == [] then [] else ForestIds(s[..|s| - 1]) + NodeIds(s[|s| - 1])
  }

  predicate Distinct(xs: seq<int>)
  {
    forall i, j :: 0 <= i < j < |xs| ==> xs[i] != xs[j]
  }

  predicate Disjoint(a: seq<int>, b: seq<int>)
  {
    forall x :: x in a ==> x !in b
  }

  /** The board's invariant: no id occurs twice anywhere in the forest. */
  predicate UniqueIds(s: seq<Node>)
  {
    Distinct(ForestIds(s))
  }

  lemma DistinctConcat(a: seq<int>, b: seq<int>)
    ensures Distinct(a + b) <==> Distinct(a) && Distinct(b) && Disjoint(a, b)
  {
    var ab := a + b;
    if Distinct(a) && Distinct(b) && Disjoint(a, b) {
      forall i, j | 0 <= i < j < |ab| ensures ab[i] != ab[j] {
        if j < |a| {
          assert ab[i] == a[i] && ab[j] == a[j];
        } else if i >= |a| {
          assert ab[i] == b[i - |a|] && ab[j] == b[j - |a|];
        } else {
          assert ab[i] == a[i] && ab[j] == b[j - |a|] && a[i] in a;
        }
      }
    }
    if Distinct(ab) {
      forall i, j | 0 <= i < j < |a| ensures a[i] != a[j] {
        assert a[i] == ab[i] && a[j] == ab[j];
      }
      forall i, j | 0 <= i < j < |b| ensures b[i] != b[j] {
        assert b[i] == ab[i + |a|] && b[j] == ab[j + |a|];
      }
      forall i, j | 0 <= i < |a| && 0 <= j < |b| ensures a[i] != b[j] {
        assert a[i] == ab[i] && b[j] == ab[j + |a|];
      }
    }
  }

  lemma ForestIdsSnoc(s: seq<Node>, x: Node)
    ensures ForestIds(s + [x]) == ForestIds(s) + NodeIds(x)
  {
    assert (s + [x])[..|s + [x]| - 1] == s;
  }

  lemma {:induction false} ForestIdsConcat(a: seq<Node>, b: seq<Node>)
    ensures ForestIds(a + b) == ForestIds(a) + ForestIds(b)
  {
    if b == [] {
      assert a + b == a;
    } else {
      var p, last := b[..|b| - 1], b[|b| - 1];
      assert a + b == (a + p) + [last];
      ForestIdsSnoc(a + p, last);
      ForestIdsConcat(a, p);
      ForestIdsSnoc(p, last);
      assert b == p + [last];
    }
  }

  /** A tree in a sequence contributes all of its ids to the sequence's ids. */
  lemma {:induction false} MemberIds(s: seq<Node>, c: Node)
    requires c in s
    ensures multiset(NodeIds(c)) <= multiset(ForestIds(s))
    ensures forall i :: i in NodeIds(c) ==> i in ForestIds(s)
  {
    var p := s[..|s| - 1];
    assert s == p + [s[|s| - 1]];
    if c != s[|s| - 1] {
      MemberIds(p, c);
    }
    forall i | i in NodeIds(c) ensures i in ForestIds(s) {
      assert i in multiset(NodeIds(c));
    }
  }

  /** Two different roots contribute their ids to two different parts of the forest's ids. */
  lemma TwoRootsIds(f: seq<Node>, i: int, j: int)
    requires 0 <= i < |f| && 0 <= j < |f| && i != j
    ensures multiset(NodeIds(f[i])) + multiset(NodeIds(f[j])) <= multiset(ForestIds(f))
  {
    if i < j {
      OrderedRootsIds(f, i, j);
    } else {
      OrderedRootsIds(f, j, i);
    }
  }

  lemma OrderedRootsIds(f: seq<Node>, lo: int, hi: int)
    requires 0 <= lo < hi < |f|
    ensures multiset(NodeIds(f[lo])) + multiset(NodeIds(f[hi])) <= multiset(ForestIds(f))
  {
    var a, b := f[..hi], f[hi..];
    assert f == a + b;
    ForestIdsConcat(a, b);
    assert a[lo] == f[lo] && b[0] == f[hi];
    MemberIds(a, f[lo]);
    MemberIds(b, f[hi]);
  }

  /** In a list without repetitions every value occurs at most once. */
  lemma {:induction false} DistinctCount(xs: seq<int>, v: int)
    requires Distinct(xs)
    ensures multiset(xs)[v] <= 1
  {
    if xs != [] {
      DistinctConcat([xs[0]], xs[1..]);
      assert xs == [xs[0]] + xs[1..];
      DistinctCount(xs[1..], v);
    }
  }

  /** A list whose values occur at most as often as in a list without repetitions has none either. */
  lemma SubDistinct(ys: seq<int>, xs: seq<int>)
    requires Distinct(xs) && multiset(ys) <= multiset(xs)
    ensures Distinct(ys)
  {
    forall i, j | 0 <= i < j < |ys| ensures ys[i] != ys[j] {
      if ys[i] == ys[j] {
        var v := ys[i];
        assert ys == ys[..j] + [ys[j]] + ys[j + 1..];
        assert v in ys[..j];
        assert multiset(ys)[v] >= 2;
        DistinctCount(xs, v);
        assert false;
      }
    }
  }

  /** What one in-place mutation of a Group does to its `elements`. */
  datatype Edit = AddChild(item: Node) | RemoveChild(childId: int)

  function Apply(cs: seq<Node>, e: Edit): (r: seq<Node>)
    ensures e.AddChild? ==> |r| == |cs| + 1 && r[..|cs|] == cs && r[|cs|] == e.item
    ensures e.RemoveChild? ==> |r| <= |cs| && forall x :: x in r <==> x in cs && x.id != e.childId
  {
    match e
    case AddChild(x) => cs + [x]
    case RemoveChild(d) => Without(cs, d)
  }

  /** The ids an edit brings into the tree. */
  function Extra(e: Edit): seq<int>
  {
    match e
    case AddChild(x) => NodeIds(x)
    case RemoveChild(_) => []
  }

  /**
   * Apply `e` to the children of the Group whose id is `t`, wherever it
   * sits, a wrapped Group included. The root keeps its id and kind; that
   * nothing but the edited children changes is `MaskRewrite`.
   */
  function Rewrite(n: Node, t: int, e: Edit): (r: Node)
    ensures r.id == n.id && r.Group? == n.Group? && r.Draggable? == n.Draggable?
    ensures r.Image? == n.Image? && r.Note? == n.Note?
  {
    match n
    case Image(_, _) => n
    case Note(_, _) => n
    case Group(id, nm, cs) =>
      if id == t then Group(id, nm, Apply(cs, e)) else Group(id, nm, RewriteSeq(cs, t, e))
    case Draggable(id, item) => Draggable(id, Rewrite(item, t, e))
  }

  /** Rewrite every tree of a sequence; the roots keep their number, order and ids. */
  function RewriteSeq(s: seq<Node>, t: int, e: Edit): (r: seq<Node>)
    ensures |r| == |s|
    ensures forall i :: 0 <= i < |s| ==> r[i].id == s[i].id
  {
    if s == [] then [] else RewriteSeq(s[..|s| - 1], t, e) + [Rewrite(s[|s| - 1], t, e)]
  }

  lemma RewriteSeqSnoc(s: seq<Node>, x: Node, t: int, e: Edit)
    ensures RewriteSeq(s + [x], t, e) == RewriteSeq(s, t, e) + [Rewrite(x, t, e)]
  {
    assert (s + [x])[..|s + [x]| - 1] == s;
  }

  /**
   * The tree seen with the children of every Group whose id is `t` left
   * out: every other node, with its kind, name, content and child order.
   */
  function Mask(n: Node, t: int): (r: Node)
    ensures r.id == n.id && r.Group? == n.Group? && r.Draggable? == n.Draggable?
    ensures r.Image? == n.Image? && r.Note? == n.Note?
  {
    match n
    case Image(_, _) => n
    case Note(_, _) => n
    case Group(id, nm, cs) =>
      if id == t then Group(id, nm, []) else Group(id, nm, MaskSeq(cs, t))
    case Draggable(id, item) => Draggable(id, Mask(item, t))
  }

  function MaskSeq(s: seq<Node>, t: int): (r: seq<Node>)
    ensures |r| == |s|
    ensures forall i :: 0 <= i < |s| ==> r[i].id == s[i].id
  {
    if s == [] then [] else MaskSeq(s[..|s| - 1], t) + [Mask(s[|s| - 1], t)]
  }

  /**
   * An edit of the Groups with id `t` changes nothing outside their
   * children: the nodes holding them keep their kind, name and child
   * order, and every other node stays as it was.
   */
  lemma {:induction false} MaskRewrite(n: Node, t: int, e: Edit)
    ensures Mask(Rewrite(n, t, e), t) == Mask(n, t)
  {
    match n
    case Image(_, _) =>
    case Note(_, _) =>
    case Group(id, nm, cs) =>
      if id != t {
        MaskSeqRewrite(cs, t, e);
      }
    case Draggable(id, item) =>
      MaskRewrite(item, t, e);
  }

  lemma {:induction false} MaskSeqRewrite(s: seq<Node>, t: int, e: Edit)
    ensures MaskSeq(RewriteSeq(s, t, e), t) == MaskSeq(s, t)
  {
    if s != [] {
      var p, last := s[..|s| - 1], s[|s| - 1];
      var r := RewriteSeq(s, t, e);
      assert r[..|r| - 1] == RewriteSeq(p, t, e);
      MaskSeqRewrite(p, t, e);
      MaskRewrite(last, t, e);
    }
  }

  /** A rewrite whose target id is nowhere in the tree changes nothing. */
  lemma {:induction false} RewriteAbsent(n: Node, t: int, e: Edit)
    requires t !in NodeIds(n)
    ensures Rewrite(n, t, e) == n
  {
    match n
    case Image(_, _) =>
    case Note(_, _) =>
    case Group(id, nm, cs) =>
      RewriteSeqAbsent(cs, t, e);
    case Draggable(id, item) =>
      RewriteAbsent(item, t, e);
  }

  lemma {:induction false} RewriteSeqAbsent(s: seq<Node>, t: int, e: Edit)
    requires t !in ForestIds(s)
    ensures RewriteSeq(s, t, e) == s
  {
    if s != [] {
      var p := s[..|s| - 1];
      RewriteSeqAbsent(p, t, e);
      RewriteAbsent(s[|s| - 1], t, e);
      assert s == p + [s[|s| - 1]];
    }
  }

  /**
   * Adding a child under a target and then removing that child by id
   * restores the tree, whenever the child's id was fresh in the tree.
   */
  lemma {:induction false} RewriteRoundTrip(n: Node, t: int, x: Node)
    requires x.id !in NodeIds(n)
    ensures Rewrite(Rewrite(n, t, AddChild(x)), t, RemoveChild(x.id)) == n
  {
    match n
    case Image(_, _) =>
    case Note(_, _) =>
    case Group(id, nm, cs) =>
      if id == t {
        FreshAmongChildren(cs, x);
        AddThenRemove(cs, x);
      } else {
        RewriteSeqRoundTrip(cs, t, x);
      }
    case Draggable(id, item) =>
      RewriteRoundTrip(item, t, x);
  }

  lemma {:induction false} RewriteSeqRoundTrip(s: seq<Node>, t: int, x: Node)
    requires x.id !in ForestIds(s)
    ensures RewriteSeq(RewriteSeq(s, t, AddChild(x)), t, RemoveChild(x.id)) == s
  {
    if s != [] {
      var p, last := s[..|s| - 1], s[|s| - 1];
      RewriteSeqRoundTrip(p, t, x);
      RewriteRoundTrip(last, t, x);
      RewriteSeqSnoc(RewriteSeq(p, t, AddChild(x)), Rewrite(last, t, AddChild(x)), t, RemoveChild(x.id));
      assert s == p + [last];
    }
  }

  lemma FreshAmongChildren(cs: seq<Node>, x: Node)
    requires x.id !in ForestIds(cs)
    ensures forall c :: c in cs ==> c.id != x.id
  {
    forall c | c in cs ensures c.id != x.id {
      MemberIds(cs, c);
    }
  }

  /** Removing children keeps the ids distinct and brings in no new id. */
  lemma {:induction false} WithoutIds(cs: seq<Node>, d: int)
    requires Distinct(ForestIds(cs))
    ensures Distinct(ForestIds(Without(cs, d)))
    ensures forall i :: i in ForestIds(Without(cs, d)) ==> i in ForestIds(cs)
  {
    if cs != [] {
      var p, last := cs[..|cs| - 1], cs[|cs| - 1];
      assert cs == p + [last];
      DistinctConcat(ForestIds(p), NodeIds(last));
      WithoutIds(p, d);
      if last.id != d {
        ForestIdsSnoc(Without(p, d), last);
        DistinctConcat(ForestIds(Without(p, d)), NodeIds(last));
      }
    }
  }

  /**
   * An in-place edit keeps ids unique as long as what it adds brings
   * distinct ids not already in the tree; it brings in no other id.
   */
  lemma {:induction false} RewriteUnique(n: Node, t: int, e: Edit)
    requires Distinct(NodeIds(n)) && Distinct(Extra(e)) && Disjoint(NodeIds(n), Extra(e))
    ensures Distinct(NodeIds(Rewrite(n, t, e)))
    ensures forall i :: i in NodeIds(Rewrite(n, t, e)) ==> i in NodeIds(n) || i in Extra(e)
  {
    match n
    case Image(_, _) =>
    case Note(_, _) =>
    case Group(id, nm, cs) =>
      DistinctConcat([id], ForestIds(cs));
      if id == t {
        ApplyUnique(cs, e);
        DistinctConcat([id], ForestIds(Apply(cs, e)));
      } else {
        RewriteSeqUnique(cs, t, e);
        DistinctConcat([id], ForestIds(RewriteSeq(cs, t, e)));
      }
    case Draggable(id, item) =>
      DistinctConcat([id], NodeIds(item));
      RewriteUnique(item, t, e);
      DistinctConcat([id], NodeIds(Rewrite(item, t, e)));
  }

  /** The children-level half of `RewriteUnique`, at the target itself. */
  lemma ApplyUnique(cs: seq<Node>, e: Edit)
    requires Distinct(ForestIds(cs)) && Distinct(Extra(e)) && Disjoint(ForestIds(cs), Extra(e))
    ensures Distinct(ForestIds(Apply(cs, e)))
    ensures forall i :: i in ForestIds(Apply(cs, e)) ==> i in ForestIds(cs) || i in Extra(e)
  {
    match e
    case AddChild(x) =>
      ForestIdsSnoc(cs, x);
      DistinctConcat(ForestIds(cs), NodeIds(x));
    case RemoveChild(d) =>
      WithoutIds(cs, d);
  }

  lemma {:induction false} RewriteSeqUnique(s: seq<Node>, t: int, e: Edit)
    requires Distinct(ForestIds(s)) && Distinct(Extra(e)) && Disjoint(ForestIds(s), Extra(e))
    ensures Distinct(ForestIds(RewriteSeq(s, t, e)))
    ensures forall i :: i in ForestIds(RewriteSeq(s, t, e)) ==> i in ForestIds(s) || i in Extra(e)
  {
    if s != [] {
      var p, last := s[..|s| - 1], s[|s| - 1];
      assert s == p + [last];
      var a, b := ForestIds(p), NodeIds(last);
      DistinctConcat(a, b);
      RewriteSeqUnique(p, t, e);
      RewriteUnique(last, t, e);
      var a', b' := ForestIds(RewriteSeq(p, t, e)), NodeIds(Rewrite(last, t, e));
      RewriteSeqSnoc(p, last, t, e);
      ForestIdsSnoc(RewriteSeq(p, t, e), Rewrite(last, t, e));
      if e.AddChild? {
        if t in b {
          RewriteSeqAbsent(p, t, e);
        } else {
          RewriteAbsent(last, t, e);
        }
      }
      DistinctConcat(a', b');
    }
  }
}
