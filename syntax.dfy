/**
 * The read-only view of a tree-sitter syntax tree that the colouring walk consumes:
 * every node has a type, a start and an (exclusive) end position, and its children.
 */
module Syntax {

  /** A zero-based (row, column) point in the source text. */
  datatype Position = Position(row: nat, column: nat)

  datatype Node = Node(kind: string, startPosition: Position, endPosition: Position, children: seq<Node>)

  /** Document order: rows first, then columns. */
  predicate AtOrBefore(a: Position, b: Position) {
    a.row < b.row || (a.row == b.row && a.column <= b.column)
  }

  /**
   * What tree-sitter guarantees about a tree: every node ends no earlier than it starts,
   * its children lie inside it, and the children follow one another without overlap.
   */
  ghost predicate WellFormed(n: Node)
    decreases n
  {
    AtOrBefore(n.startPosition, n.endPosition) &&
    (forall i :: 0 <= i < |n.children| ==>
       AtOrBefore(n.startPosition, n.children[i].startPosition) &&
       AtOrBefore(n.children[i].endPosition, n.endPosition) &&
       WellFormed(n.children[i])) &&
    (forall i :: 0 < i < |n.children| ==>
       AtOrBefore(n.children[i - 1].endPosition, n.children[i].startPosition))
  }
}
