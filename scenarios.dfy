/**
 * Small boards walked by hand: the orders and answers the walk gives on
 * concrete trees, following the definitions step by step.
 */
module Scenarios {
  import opened Model
  import opened Forest
  import opened Iterator
  import Side

  /** Roots come out in order, a Group's children last child first: A, G, C, B, D. */
  lemma RootsInOrderChildrenLastFirst()
    ensures
      var a, b, c, d := Image(1, "a"), Note(3, "b"), Image(4, "c"), Note(5, "d");
      var g := Group(2, Some("g"), [b, c]);
      Traversal([a, g, d]) == [a, g, c, b, d]
  {
    var a, b, c, d := Image(1, "a"), Note(3, "b"), Image(4, "c"), Note(5, "d");
    var g := Group(2, Some("g"), [b, c]);
    TraversalRootOrder([a, g, d]);
    assert [a, g, d][1..] == [g, d] && [g, d][1..] == [d];
    assert Drain([b]) == [b] by {
      assert [b][..0] == [];
    }
    assert Drain([b, c]) == [c, b] by {
      assert [b, c][..1] == [b];
    }
    assert Visit(g) == [g, c, b];
    assert Flatten([d]) == [d] by {
      assert [d][1..] == [];
    }
    assert Flatten([g, d]) == [g, c, b, d];
  }

  /**
   * A Draggable around a Group is produced, its children follow, the
   * wrapped Group is skipped, and the Group is what `parentOf` answers.
   */
  lemma DraggableGroupIsTransparent()
    ensures
      var x, y := Image(12, "x"), Note(13, "y");
      var inner := Group(11, None, [x, y]);
      var m := Draggable(10, inner);
      && Traversal([m]) == [m, y, x]
      && ParentIn(Traversal([m]), 12) == Some(inner)
  {
    var x, y := Image(12, "x"), Note(13, "y");
    var inner := Group(11, None, [x, y]);
    var m := Draggable(10, inner);
    assert Drain([x]) == [x] by {
      assert [x][..0] == [];
    }
    assert Drain([x, y]) == [y, x] by {
      assert [x, y][..1] == [x];
    }
    assert Visit(m) == [m, y, x];
    TraversalRootOrder([m]);
    assert Flatten([m]) == [m, y, x] by {
      assert [m][1..] == [];
    }
    assert IsParentOf(m, 12) by {
      assert x in Expansion(m);
    }
    assert ParentIndex([m, y, x], 12) == 0;
  }

  /**
   * A Draggable around a Draggable around a Group hides the whole inner
   * part: only the outer wrapper is produced and no parent is found.
   */
  lemma NestedDraggableHidesAll()
    ensures
      var z := Image(23, "z");
      var outer := Draggable(20, Draggable(21, Group(22, None, [z])));
      && Traversal([outer]) == [outer]
      && ParentIn(Traversal([outer]), 23) == None
  {
    var z := Image(23, "z");
    var outer := Draggable(20, Draggable(21, Group(22, None, [z])));
    TraversalRootOrder([outer]);
    assert Flatten([outer]) == [outer] by {
      assert [outer][1..] == [];
    }
    assert Expansion(outer) == [];
  }

  /**
   * A leaf two Groups deep: the walk gives outer, inner, leaf, and the
   * inner Group is the leaf's parent.
   */
  lemma NestedGroupWalk()
    ensures
      var leaf := Image(3, "l");
      var inner := Group(2, None, [leaf]);
      var outer := Group(1, None, [inner]);
      && Traversal([outer]) == [outer, inner, leaf]
      && ParentIn(Traversal([outer]), 3) == Some(inner)
  {
    var leaf := Image(3, "l");
    var inner := Group(2, None, [leaf]);
    var outer := Group(1, None, [inner]);
    var ts := [outer, inner, leaf];
    assert Traversal([outer]) == ts by {
      assert Drain([inner]) == [inner, leaf] by {
        assert [inner][..0] == [];
        assert Drain([leaf]) == [leaf] by {
          assert [leaf][..0] == [];
        }
      }
      assert Visit(outer) == ts;
      TraversalRootOrder([outer]);
      assert [outer][1..] == [];
    }
    assert ParentIn(ts, 3) == Some(inner) by {
      assert !IsParentOf(outer, 3) by {
        assert Expansion(outer) == [inner];
      }
      assert IsParentOf(inner, 3) by {
        assert leaf in Expansion(inner);
      }
      assert ParentIndex(ts, 3) == 1 by {
        assert ts[1..] == [inner, leaf];
      }
    }
  }

  /** So removing the leaf takes it out of the inner Group only. */
  lemma RemoveFromNestedGroup()
    ensures
      var leaf := Image(3, "l");
      Side.RemoveFrom([Group(1, None, [Group(2, None, [leaf])])], 3) == [Group(1, None, [Group(2, None, [])])]
  {
    var leaf := Image(3, "l");
    var inner := Group(2, None, [leaf]);
    var outer := Group(1, None, [inner]);
    NestedGroupWalk();
    assert Without([leaf], 3) == [] by {
      assert [leaf][..0] == [];
    }
    assert RewriteSeq([inner], 2, RemoveChild(3)) == [Group(2, None, [])] by {
      assert [inner][..0] == [];
    }
    assert RewriteSeq([outer], 2, RemoveChild(3)) == [Group(1, None, [Group(2, None, [])])] by {
      assert [outer][..0] == [];
    }
  }

  /**
   * The frame of `removeItem` sees the order of the children of a node
   * above the parent: a board with those children swapped is told apart.
   */
  lemma MaskSeesChildOrder()
    ensures
      var f := [Group(0, None, [Image(5, "a"), Group(1, None, [Image(2, "x")])])];
      var w := [Group(0, None, [Group(1, None, []), Image(5, "a")])];
      MaskSeq(w, 1) != MaskSeq(f, 1)
  {
    var f := [Group(0, None, [Image(5, "a"), Group(1, None, [Image(2, "x")])])];
    var w := [Group(0, None, [Group(1, None, []), Image(5, "a")])];
    assert MaskSeq(f, 1)[0].children[0].id == 5 by {
      assert f[..0] == [];
      assert MaskSeq(f, 1)[0] == Mask(f[0], 1);
    }
    assert MaskSeq(w, 1)[0].children[0].id == 1 by {
      assert w[..0] == [];
      assert MaskSeq(w, 1)[0] == Mask(w[0], 1);
    }
  }
}
