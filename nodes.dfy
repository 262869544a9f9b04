/**
 * The node store of the red-black tree.
 *
 * In the Java program every node is a heap object (TreeNode) holding five
 * mutable fields, and the tree algorithms share and rewire these objects by
 * reference.  Here the heap is an arena: a node is identified by its index in
 * `nodes`, a reference is such an index, and Java's `null` is `Nil`.  Writing
 * a field of a node is an update of one arena slot.
 */
module Nodes {

  /** The two colours of Color.java. */
  datatype Color = RED | BLACK

  /** A reference to a node: an arena index, or Nil for null. */
  type Ptr = int

  const Nil: Ptr := -1

  /** The five fields of one TreeNode. */
  datatype TreeNode = TreeNode(left: Ptr, right: Ptr, parent: Ptr, value: int, color: Color)

  /** `new TreeNode(value)`: a RED node with the given value and no links. */
  function NewNode(value: int): (n: TreeNode)
    ensures n.value == value && n.color == RED
    ensures n.left == Nil && n.right == Nil && n.parent == Nil
  {
    TreeNode(Nil, Nil, Nil, value, RED)
  }

  /** `new TreeNode()`: a RED node with no links; the value keeps Java's default 0. */
  function DefaultNode(): (n: TreeNode)
    ensures n.color == RED && n.left == Nil && n.right == Nil && n.parent == Nil
    ensures n.value == 0
  {
    TreeNode(Nil, Nil, Nil, 0, RED)
  }

  /** The whole mutable state of a RedBlackTree: its node arena and its root field. */
  datatype State = State(nodes: seq<TreeNode>, root: Ptr)

  /** `p` refers to a node of the arena. */
  predicate IsNode(s: State, p: Ptr)
  {
    0 <= p < |s.nodes|
  }

  /** `p` is null or refers to a node of the arena. */
  predicate IsPtr(s: State, p: Ptr)
  {
    p == Nil || IsNode(s, p)
  }

  /** Every reference stored in the state is null or refers to a node of the arena. */
  predicate Closed(s: State)
  {
    IsPtr(s, s.root) &&
    forall i :: 0 <= i < |s.nodes| ==>
      IsPtr(s, s.nodes[i].left) && IsPtr(s, s.nodes[i].right) && IsPtr(s, s.nodes[i].parent)
  }

  /** Arena `t` equals arena `s` except possibly at node `n`. */
  predicate SameExcept(s: State, t: State, n: Ptr)
  {
    |t.nodes| == |s.nodes| && t.root == s.root &&
    forall i :: 0 <= i < |s.nodes| && i != n ==> t.nodes[i] == s.nodes[i]
  }

  // The getters of TreeNode.java: reading a field has no side effect.

  function Left(s: State, n: Ptr): Ptr
    requires IsNode(s, n)
  {
    s.nodes[n].left
  }

  function Right(s: State, n: Ptr): Ptr
    requires IsNode(s, n)
  {
    s.nodes[n].right
  }

  function Parent(s: State, n: Ptr): Ptr
    requires IsNode(s, n)
  {
    s.nodes[n].parent
  }

  function Value(s: State, n: Ptr): int
    requires IsNode(s, n)
  {
    s.nodes[n].value
  }

  function ColorAt(s: State, n: Ptr): Color
    requires IsNode(s, n)
  {
    s.nodes[n].color
  }

  // The setters of TreeNode.java: each one changes its own field of one node
  // and nothing else, and keeps every stored reference inside the arena.

  function SetLeft(s: State, n: Ptr, l: Ptr): (t: State)
    requires IsNode(s, n)
    ensures SameExcept(s, t, n)
    ensures Left(t, n) == l && Right(t, n) == Right(s, n) && Parent(t, n) == Parent(s, n)
    ensures Value(t, n) == Value(s, n) && ColorAt(t, n) == ColorAt(s, n)
    ensures Closed(s) && IsPtr(s, l) ==> Closed(t)
  {
    State(s.nodes[n := s.nodes[n].(left := l)], s.root)
  }

  function SetRight(s: State, n: Ptr, r: Ptr): (t: State)
    requires IsNode(s, n)
    ensures SameExcept(s, t, n)
    ensures Right(t, n) == r && Left(t, n) == Left(s, n) && Parent(t, n) == Parent(s, n)
    ensures Value(t, n) == Value(s, n) && ColorAt(t, n) == ColorAt(s, n)
    ensures Closed(s) && IsPtr(s, r) ==> Closed(t)
  {
    State(s.nodes[n := s.nodes[n].(right := r)], s.root)
  }

  function SetParent(s: State, n: Ptr, p: Ptr): (t: State)
    requires IsNode(s, n)
    ensures SameExcept(s, t, n)
    ensures Parent(t, n) == p && Left(t, n) == Left(s, n) && Right(t, n) == Right(s, n)
    ensures Value(t, n) == Value(s, n) && ColorAt(t, n) == ColorAt(s, n)
    ensures Closed(s) && IsPtr(s, p) ==> Closed(t)
  {
    State(s.nodes[n := s.nodes[n].(parent := p)], s.root)
  }

  function SetValue(s: State, n: Ptr, v: int): (t: State)
    requires IsNode(s, n)
    ensures SameExcept(s, t, n)
    ensures Value(t, n) == v && Left(t, n) == Left(s, n) && Right(t, n) == Right(s, n)
    ensures Parent(t, n) == Parent(s, n) && ColorAt(t, n) == ColorAt(s, n)
    ensures Closed(s) ==> Closed(t)
  {
    State(s.nodes[n := s.nodes[n].(value := v)], s.root)
  }

  function SetColor(s: State, n: Ptr, c: Color): (t: State)
    requires IsNode(s, n)
    ensures SameExcept(s, t, n)
    ensures ColorAt(t, n) == c && Left(t, n) == Left(s, n) && Right(t, n) == Right(s, n)
    ensures Parent(t, n) == Parent(s, n) && Value(t, n) == Value(s, n)
    ensures Closed(s) ==> Closed(t)
  {
    State(s.nodes[n := s.nodes[n].(color := c)], s.root)
  }

  /** Assigning the tree's root field. */
  function SetRoot(s: State, r: Ptr): (t: State)
    ensures t.nodes == s.nodes && t.root == r
    ensures Closed(s) && IsPtr(s, r) ==> Closed(t)
  {
    State(s.nodes, r)
  }

  /** `setNull(current)`: clears the three links of a node (a no-op on null). */
  function SetNull(s: State, n: Ptr): (t: State)
    requires IsPtr(s, n)
    ensures n == Nil ==> t == s
    ensures n != Nil ==> SameExcept(s, t, n) && Left(t, n) == Nil && Right(t, n) == Nil && Parent(t, n) == Nil
    ensures n != Nil ==> Value(t, n) == Value(s, n) && ColorAt(t, n) == ColorAt(s, n)
    ensures Closed(s) ==> Closed(t)
  {
    if n == Nil then s else SetLeft(SetRight(SetParent(s, n, Nil), n, Nil), n, Nil)
  }

  /** Appending a freshly constructed node to the arena (Java's `new TreeNode(value)`). */
  function Allocate(s: State, value: int): (t: State)
    ensures |t.nodes| == |s.nodes| + 1 && t.root == s.root
    ensures t.nodes[..|s.nodes|] == s.nodes && t.nodes[|s.nodes|] == NewNode(value)
    ensures Closed(s) ==> Closed(t)
  {
    State(s.nodes + [NewNode(value)], s.root)
  }

  /**
   * A getter returns what the matching setter stored last, and a setter leaves
   * every other field, of this and of every other node, as it was.
   */
  lemma {:induction false} GetAfterSet(s: State, n: Ptr, m: Ptr, p: Ptr)
    requires IsNode(s, n) && IsNode(s, m)
    ensures Left(SetLeft(s, n, p), m) == if m == n then p else Left(s, m)
    ensures Right(SetLeft(s, n, p), m) == Right(s, m)
    ensures Right(SetRight(s, n, p), m) == if m == n then p else Right(s, m)
    ensures Left(SetRight(s, n, p), m) == Left(s, m)
    ensures Parent(SetParent(s, n, p), m) == if m == n then p else Parent(s, m)
    ensures Left(SetParent(s, n, p), m) == Left(s, m)
    ensures Value(SetValue(s, n, p), m) == if m == n then p else Value(s, m)
    ensures Parent(SetValue(s, n, p), m) == Parent(s, m)
  {
  }
}
