/**
 * The factory for plain components: each call takes exactly one id from
 * the allocator and builds one node with it.
 */
module SimpleComponents {
  import opened Model
  import opened Allocator

  /** `createImage(url)` */
  method CreateImage(ids: IdAllocator, url: string) returns (r: Node)
    modifies ids
    ensures r == NewImage(old(ids.next), url)
    ensures ids.next == old(ids.next) + 1
  {
    var id := ids.GetId();
    r := NewImage(id, url);
  }

  /** `createNote()`: no text is passed, so the placeholder default applies. */
  method CreateNote(ids: IdAllocator) returns (r: Node)
    modifies ids
    ensures r == NewNote(old(ids.next), None)
    ensures r.text == DefaultNoteText
    ensures ids.next == old(ids.next) + 1
  {
    var id := ids.GetId();
    r := NewNote(id, None);
  }

  /** `createGroup()`: no name is passed, so the name stays undefined. */
  method CreateGroup(ids: IdAllocator) returns (r: Node)
    modifies ids
    ensures r == NewGroup(old(ids.next), None)
    ensures r.children == [] && r.GetName() == None
    ensures ids.next == old(ids.next) + 1
  {
    var id := ids.GetId();
    r := NewGroup(id, None);
  }
}
