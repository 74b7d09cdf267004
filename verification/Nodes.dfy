/** The nodes that the timer heap and the queues link together. */
module Nodes {

  /**
   A uv_timer_t, or the head of a queue. Its `node` field is a union: three words
   that are left, right and parent while the node is in a heap, and of which the
   first two are next and prev while it is in a queue. Queue code therefore uses
   `left` as next and `right` as prev.
   */
  class Node {
    var left: Node?
    var right: Node?
    var parent: Node?
    var timeout: nat
    var startId: nat
    var repeat: nat
    var callback: nat   // 0 is NULL
    var active: bool
    var ref: bool
    var closing: bool
    const internal: bool

    constructor (isInternal: bool := false)
      ensures !active && !closing && callback == 0
    {
      left, right, parent := null, null, null;
      timeout, startId, repeat, callback := 0, 0, 0, 0;
      active, ref, closing := false, false, false;
      internal := isInternal;
    }
  }

  ghost function Elems(nodes: seq<Node>): set<Node> { set x | x in nodes }
}
