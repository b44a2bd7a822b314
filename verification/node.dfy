/** The search-tree cell of `node.py`. The iterative strategy keeps its nodes
    in an arena (a list of records), so `children` holds arena positions of
    the child nodes rather than the nodes themselves. */
module Nodes {
  import opened Basics

  datatype Node<S, M> = Node(state: S, move: Option<M>, children: seq<nat>, score: Option<int>)

  /** `Node(current_state, move)`: a node for `state`, reached by `move`, not
      yet expanded and not yet scored. */
  function NewNode<S, M>(state: S, move: Option<M>): (n: Node<S, M>)
    ensures n.state == state && n.move == move
    ensures n.children == [] && n.score == None
  {
    Node(state, move, [], None)
  }

  /** `__eq__`: same type, and the state, children, move and score all equal. */
  predicate Equals<S(==), M(==)>(n: Node<S, M>, other: Operand<Node<S, M>>)
    ensures Equals(n, other) <==>
      && other.Instance?
      && n.state == other.obj.state
      && n.children == other.obj.children
      && n.move == other.obj.move
      && n.score == other.obj.score
  {
    other.Instance? && n == other.obj
  }

  /** The doctests of `__eq__`: a node equals itself, nodes built from different
      moves differ, and a node never equals an object of another type. */
  lemma EqualsDoctest<S, M>(n: Node<S, M>, state: S, a: M, b: M)
    requires a != b
    ensures Equals(n, Instance(n))
    ensures !Equals(NewNode(state, Some(a)), Instance(NewNode(state, Some(b))))
    ensures !Equals(n, OtherType)
  {
  }
}
