/** A node of the insertion tree. Only the child links are ever reassigned;
    every other field is fixed when the node is created. */
module Nodes {

  class Node {
    const value: int
    var left: Node?
    var right: Node?
    /** Non-owning back reference to the structural parent (null for the root). */
    const parent: Node?
    /** Depth in the tree: 0 for the root. */
    const level: nat
    /** Vertical drawing coordinate: the root's start coordinate plus 100 per level. */
    const y: int
    /** Creation-order identifier, handed out by the tree's counter. */
    const index: nat

    constructor (value: int, level: nat, parent: Node?, y: int, index: nat)
      ensures this.value == value && this.level == level && this.parent == parent
      ensures this.y == y && this.index == index
      ensures left == null && right == null
    {
      this.value := value;
      this.parent := parent;
      this.left := null;
      this.right := null;
      this.level := level;
      this.y := y;
      this.index := index;
    }
  }
}
