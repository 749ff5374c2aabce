/**
 * The board's components: the two leaves (Image, Note), the composite
 * (Group) and the decorator (Draggable), as one tagged value type.
 * `None` plays the part of JavaScript's `undefined`.
 */
module Model {

  datatype Option<+T> = None | Some(value: T)

  const ImageName: string := "Image"
  const NoteName: string := "Note"
  const DefaultGroupName: string := "Group"
  const DefaultNoteText: string := "Your notes..."

  /** How a template literal prints a possibly undefined string. */
  function Show(s: Option<string>): (r: string)
    ensures s.None? ==> r == "undefined"
    ensures s.Some? ==> r == s.value
  {
    match s
    case None => "undefined"
    case Some(v) => v
  }

  /**
   * A Group's name may be undefined: the factories build `new Group(id)`
   * without a name, and only an explicit "" is replaced by "Group".
   */
  datatype Node =
    | Image(id: int, url: string)
    | Note(id: int, text: string)
    | Group(id: int, name: Option<string>, children: seq<Node>)
    | Draggable(id: int, item: Node)
  {
    /** `isDraggable()`: false on the three plain kinds, true on the decorator. */
    function IsDraggable(): (r: bool)
      ensures r <==> Draggable?
    {
      match this
      case Image(_, _) => false
      case Note(_, _) => false
      case Group(_, _, _) => false
      case Draggable(_, _) => true
    }

    /** `getName()`, or the `name` field a Draggable copies from its item. */
    function GetName(): (r: Option<string>)
      ensures Image? ==> r == Some(ImageName)
      ensures Note? ==> r == Some(NoteName)
      ensures Group? ==> r == name
      ensures Draggable? ==> r.Some? && r.value == "Draggable " + Show(item.GetName())
    {
      match this
      case Image(_, _) => Some(ImageName)
      case Note(_, _) => Some(NoteName)
      case Group(_, n, _) => n
      case Draggable(_, inner) => Some("Draggable " + Show(inner.GetName()))
    }

    /**
     * `getElements()`: only a Group defines it. A Draggable has no
     * `getElements` of its own; its item's is reached through `item`.
     */
    function GetElements(): (r: Option<seq<Node>>)
      ensures r.Some? <==> Group?
      ensures Group? ==> r == Some(children)
    {
      if Group? then Some(children) else None
    }
  }

  /** `new Image(id, url)` */
  function NewImage(id: int, url: string): (r: Node)
    ensures r.Image? && r.id == id && r.url == url
    ensures r.GetName() == Some(ImageName) && !r.IsDraggable() && r.GetElements() == None
  {
    Image(id, url)
  }

  /** `new Note(id, text)`, where an omitted text takes the placeholder default. */
  function NewNote(id: int, text: Option<string>): (r: Node)
    ensures r.Note? && r.id == id
    ensures text.None? ==> r.text == DefaultNoteText
    ensures text.Some? ==> r.text == text.value
    ensures r.GetName() == Some(NoteName) && !r.IsDraggable() && r.GetElements() == None
  {
    Note(id, if text.None? then DefaultNoteText else text.value)
  }

  /** `new Group(id, name)`: starts empty; only the empty name is defaulted. */
  function NewGroup(id: int, name: Option<string>): (r: Node)
    ensures r.Group? && r.id == id && r.GetElements() == Some([])
    ensures name == Some("") ==> r.GetName() == Some(DefaultGroupName)
    ensures name != Some("") ==> r.GetName() == name
    ensures !r.IsDraggable()
  {
    Group(id, if name == Some("") then Some(DefaultGroupName) else name, [])
  }

  /** `new Draggable(id, item)`: keeps its own id and exactly the given item. */
  function NewDraggable(id: int, item: Node): (r: Node)
    ensures r.Draggable? && r.id == id && r.item == item
    ensures r.IsDraggable() && r.GetElements() == None
    ensures r.GetName() == Some("Draggable " + Show(item.GetName()))
  {
    Draggable(id, item)
  }

  /**
   * The children left by `removeElement(id)` (and the roots left by the
   * reducer's delete): those whose id differs from `id`, in order.
   */
  function Without(cs: seq<Node>, id: int): (r: seq<Node>)
    ensures |r| <= |cs|
    ensures forall x :: x in r <==> x in cs && x.id != id
    ensures (forall x :: x in cs ==> x.id != id) ==> r == cs
  {
    if cs == [] then []
    else
      var rest := Without(cs[..|cs| - 1], id);
      var last := cs[|cs| - 1];
      assert cs == cs[..|cs| - 1] + [last];
      if last.id == id then rest else rest + [last]
  }

  /** Filtering distributes over concatenation, so the survivors keep their order. */
  lemma {:induction false} WithoutConcat(a: seq<Node>, b: seq<Node>, id: int)
    ensures Without(a + b, id) == Without(a, id) + Without(b, id)
  {
    if b == [] {
      assert a + b == a;
    } else {
      var b' := b[..|b| - 1];
      assert (a + b)[..|a + b| - 1] == a + b';
      WithoutConcat(a, b', id);
    }
  }

  /** `addElement(e)` then `removeElement(e.id)` restores the children when e.id was fresh among them. */
  lemma AddThenRemove(cs: seq<Node>, e: Node)
    requires forall c :: c in cs ==> c.id != e.id
    ensures Without(cs + [e], e.id) == cs
  {
    assert (cs + [e])[..|cs + [e]| - 1] == cs;
  }

  /**
   * A Group object as the source keeps it: `elements` is updated in place
   * by `addElement` (push) and `removeElement` (reassigned filter).
   */
  class GroupObject {
    const id: int
    const name: Option<string>
    var elements: seq<Node>

    /** The node this object stands for in the tree. */
    function Value(): (r: Node)
      reads this
      ensures r.Group? && r.id == id && r.children == elements
    {
      Group(id, name, elements)
    }

    constructor (id: int, name: Option<string>)
      ensures Value() == NewGroup(id, name)
    {
      this.id := id;
      this.name := if name == Some("") then Some(DefaultGroupName) else name;
      this.elements := [];
    }

    method AddElement(element: Node)
      modifies this
      ensures elements == old(elements) + [element]
    {
      elements := elements + [element];
    }

    method RemoveElement(elementId: int)
      modifies this
      ensures elements == Without(old(elements), elementId)
    {
      elements := Without(elements, elementId);
    }

    function GetElements(): (r: seq<Node>)
      reads this
      ensures Value().GetElements() == Some(r)
    {
      elements
    }
  }
}
