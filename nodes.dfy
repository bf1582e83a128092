/** Nodes of the skip list and the handles that address them.

    Every node lives in an arena and is addressed by its index there. Handle 0
    is the head sentinel; nullptr is the handle -1. A node's immutable
    part (key, value, level) is a `Node` record; its `forward_` vector is kept
    beside it in the arena as a sequence of handles, one per level. */
module Nodes {

  type Handle = int

  /** Stands for nullptr. */
  const Null: Handle := -1

  /** The sentinel head node is always the first node of the arena. */
  const Head: Handle := 0

  /** Key, value and level of a node; level is the number of forward slots. */
  datatype Node<V> = Node(key: int, value: V, level: nat)

  /** The forward vector of a freshly constructed node: `level` null slots. */
  function Nulls(level: nat): (r: seq<Handle>)
    ensures |r| == level
    ensures forall i :: 0 <= i < level ==> r[i] == Null
  {
    seq(level, _ => Null)
  }
}
