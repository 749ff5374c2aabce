/**
 * The factory for draggable components: each call takes two ids, the
 * first for the inner node and the second for the wrapper around it.
 */
module DraggableComponents {
  import opened Model
  import opened Forest
  import opened Allocator

  const DraggableNoteText: string := "Your notes (double click to activate)..."

  /** A wrapped leaf or empty group carries exactly its two ids, inner first. */
  lemma WrapperIds(inner: Node, id: int)
    requires !inner.Draggable? && (inner.Group? ==> inner.children == [])
    ensures NodeIds(NewDraggable(id, inner)) == [id, inner.id]
  {
    if inner.Group? {
      assert ForestIds(inner.children) == [];
    }
  }

  /** `createImage(url)` */
  method CreateImage(ids: IdAllocator, url: string) returns (r: Node)
    modifies ids
    ensures r == NewDraggable(old(ids.next) + 1, NewImage(old(ids.next), url))
    ensures ids.next == old(ids.next) + 2
    ensures NodeIds(r) == [old(ids.next) + 1, old(ids.next)]
  {
    var id1 := ids.GetId();
    var id2 := ids.GetId();
    var img := NewImage(id1, url);
    r := NewDraggable(id2, img);
    WrapperIds(img, id2);
  }

  /** `createNote()`: the inner note gets the draggable placeholder text. */
  method CreateNote(ids: IdAllocator) returns (r: Node)
    modifies ids
    ensures r == NewDraggable(old(ids.next) + 1, NewNote(old(ids.next), Some(DraggableNoteText)))
    ensures r.item.text == DraggableNoteText
    ensures ids.next == old(ids.next) + 2
    ensures NodeIds(r) == [old(ids.next) + 1, old(ids.next)]
  {
    var id1 := ids.GetId();
    var id2 := ids.GetId();
    var note := NewNote(id1, Some(DraggableNoteText));
    r := NewDraggable(id2, note);
    WrapperIds(note, id2);
  }

  /**
   * `createGroup()`: the inner group is built without a name, so the
   * wrapper is named "Draggable undefined".
   */
  method CreateGroup(ids: IdAllocator) returns (r: Node)
    modifies ids
    ensures r == NewDraggable(old(ids.next) + 1, NewGroup(old(ids.next), None))
    ensures r.item.children == [] && r.GetName() == Some("Draggable undefined")
    ensures ids.next == old(ids.next) + 2
    ensures NodeIds(r) == [old(ids.next) + 1, old(ids.next)]
  {
    var id1 := ids.GetId();
    var id2 := ids.GetId();
    var grp := NewGroup(id1, None);
    r := NewDraggable(id2, grp);
    assert "Draggable " + Show(grp.GetName()) == "Draggable undefined";
    WrapperIds(grp, id2);
  }
}
