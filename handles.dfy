/** file_t: an open file's handle as an object whose fields the operations
    update in place. */
module Handles {

  import opened Layout
  import opened Streams

  /** file_t without its is_locked flag. */
  class File {
    var node: Node
    var mode: bv8
    var ptrLocal: nat
    var ptrGlobal: nat

    /** The handle's fields as one value. */
    function Value(): Handle
      reads this
    {
      Handle(node, mode, ptrLocal, ptrGlobal)
    }

    constructor (h: Handle)
      ensures Value() == h
    {
      node, mode, ptrLocal, ptrGlobal := h.node, h.mode, h.ptrLocal, h.ptrGlobal;
    }
  }
}
