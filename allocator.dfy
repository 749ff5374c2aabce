/**
 * The shared id counter behind `getId`. Its definition is not part of
 * this model; it is taken to hand out consecutive integers from an
 * arbitrary starting value.
 */
module Allocator {

  class IdAllocator {
    /** The id the next call hands out. */
    var next: int

    constructor (start: int)
      ensures next == start
    {
      next := start;
    }

    /** `getId()`: a fresh id, above every id handed out before. */
    method GetId() returns (id: int)
      modifies this
      ensures id == old(next) && next == id + 1
    {
      id := next;
      next := next + 1;
    }
  }
}
