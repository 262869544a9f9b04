/**
 * The read-only operations of RedBlackTree.java: lookup, height and the
 * relatives of a node.  Each one walks the node arena exactly as the Java
 * method walks the object graph; the lemmas say what the result is in terms
 * of the represented tree.
 */
module Queries {
  import opened Nodes
  import opened Trees
  import opened Layout

  /**
   * `getNodeRecursive(current, value)`: binary-search descent from `current`.
   * On a search tree the result is a node exactly when the key is present,
   * and then it is the node holding that key.
   */
  function GetNodeRecursive(s: State, cur: Ptr, v: int, ghost t: Tree): (r: Ptr)
    requires Shape(s, t) && cur == RootOf(t)
    ensures r == Nil || (r in Ids(t) && r < |s.nodes| && s.nodes[r].value == v)
    ensures Ordered(t) ==> (r != Nil <==> v in Keys(t))
    decreases t
  {
    if cur == Nil then Nil
    else if s.nodes[cur].value == v then cur
    else if s.nodes[cur].value < v then
      KeysAtNode(t);
      GetNodeRecursive(s, s.nodes[cur].right, v, t.right)
    else
      KeysAtNode(t);
      GetNodeRecursive(s, s.nodes[cur].left, v, t.left)
  }

  /** KeysOfOrdered, stated for any node so that it can be used before the order is known. */
  lemma KeysAtNode(t: Tree)
    requires t.Node?
    ensures Keys(t) == Keys(t.left) + {t.key} + Keys(t.right)
    ensures Ordered(t) ==> Ordered(t.left) && Ordered(t.right)
    ensures Ordered(t) ==> (forall x :: x in Keys(t.left) ==> x < t.key) && (forall x :: x in Keys(t.right) ==> t.key < x)
  {
    if Ordered(t) {
      KeysOfOrdered(t);
    }
  }

  /** `getNode(value)`: null on an empty tree, otherwise the lookup from the root. */
  function GetNode(s: State, v: int, ghost t: Tree): (r: Ptr)
    requires Represents(s, t)
    ensures t.Leaf? ==> r == Nil
    ensures r == Nil || (r in Ids(t) && r < |s.nodes| && s.nodes[r].value == v)
    ensures Ordered(t) ==> (r != Nil <==> v in Keys(t))
  {
    if s.root == Nil then Nil else GetNodeRecursive(s, s.root, v, t)
  }

  /** `getHeight(current)`: the number of nodes on a longest downward path (one node has height 1). */
  function HeightAt(s: State, cur: Ptr, ghost t: Tree): (r: nat)
    requires Shape(s, t) && cur == RootOf(t)
    ensures r == Height(t)
    ensures r <= Size(t)
    ensures cur != Nil ==> r >= 1
    decreases t
  {
    if cur == Nil then 0
    else
      var lh := HeightAt(s, s.nodes[cur].left, t.left);
      var rh := HeightAt(s, s.nodes[cur].right, t.right);
      (if lh > rh then lh else rh) + 1
  }

  /** `getHeight()`: the height of the whole tree, logarithmic in its size when it is well coloured. */
  function GetHeight(s: State, ghost t: Tree): (r: nat)
    requires Represents(s, t)
    ensures r == Height(t) && r <= Size(t)
    ensures WellColored(t) ==> Pow2((r + 1) / 2) <= Size(t) + 1
  {
    WellColoredHeight(t);
    HeightAt(s, s.root, t)
  }

  lemma WellColoredHeight(t: Tree)
    ensures WellColored(t) ==> Pow2((Height(t) + 1) / 2) <= Size(t) + 1
  {
    if WellColored(t) {
      HeightBound(t);
    }
  }

  /** `grandPaNode(current)`: the parent of the parent; Java requires both to exist. */
  function GrandPa(s: State, cur: Ptr): (r: Ptr)
    requires IsNode(s, cur) && IsNode(s, Parent(s, cur))
    ensures Closed(s) ==> IsPtr(s, r)
  {
    Parent(s, Parent(s, cur))
  }

  /** `uncleNode(current)`: the other child of the grandparent; Java requires the grandparent to exist. */
  function Uncle(s: State, cur: Ptr): (r: Ptr)
    requires IsNode(s, cur) && IsNode(s, Parent(s, cur)) && IsNode(s, GrandPa(s, cur))
    ensures r == Left(s, GrandPa(s, cur)) || r == Right(s, GrandPa(s, cur))
    ensures Left(s, GrandPa(s, cur)) == Parent(s, cur) || Right(s, GrandPa(s, cur)) == Parent(s, cur) ==>
              {Left(s, GrandPa(s, cur)), Right(s, GrandPa(s, cur))} == {Parent(s, cur), r}
  {
    var p := Parent(s, cur);
    var g := GrandPa(s, cur);
    if Left(s, g) == p then Right(s, g) else Left(s, g)
  }

  /** `siblingNode(current)`: the other child of the parent, or null without a node or a parent. */
  function Sibling(s: State, cur: Ptr): (r: Ptr)
    requires Closed(s) && IsPtr(s, cur)
    ensures IsPtr(s, r)
    ensures cur == Nil || Parent(s, cur) == Nil ==> r == Nil
    ensures cur != Nil && Parent(s, cur) != Nil && (Left(s, Parent(s, cur)) == cur || Right(s, Parent(s, cur)) == cur) ==>
              {Left(s, Parent(s, cur)), Right(s, Parent(s, cur))} == {cur, r}
  {
    if cur == Nil then Nil
    else if Parent(s, cur) == Nil then Nil
    else if Left(s, Parent(s, cur)) == cur then Right(s, Parent(s, cur))
    else Left(s, Parent(s, cur))
  }

  /** `getChild(current)`: the left child when there is one, otherwise the right child (null for null). */
  function GetChild(s: State, cur: Ptr): (r: Ptr)
    requires IsPtr(s, cur)
    ensures r == Nil <==> cur == Nil || (Left(s, cur) == Nil && Right(s, cur) == Nil)
    ensures r != Nil ==> r == Left(s, cur) || (Left(s, cur) == Nil && r == Right(s, cur))
  {
    if cur == Nil then Nil
    else if Left(s, cur) != Nil then Left(s, cur)
    else Right(s, cur)
  }

  /** `isBlackNode(current)`: null counts as BLACK. */
  predicate IsBlackNode(s: State, cur: Ptr)
    requires IsPtr(s, cur)
    ensures cur == Nil ==> IsBlackNode(s, cur)
    ensures cur != Nil ==> (IsBlackNode(s, cur) <==> ColorAt(s, cur) != RED)
  {
    cur == Nil || ColorAt(s, cur) == BLACK
  }

  // ---------------------------------------------------------------------
  // What the queries mean on a represented tree

  /** The subtree rooted at the parent of the position. */
  function Up(p: Path, t: Tree): (u: Tree)
    requires !p.Top?
    ensures u.Node? && u.id == p.id
  {
    match p
    case LeftOf(_, i, k, c, r) => Node(t, i, k, c, r)
    case RightOf(l, i, k, c, _) => Node(l, i, k, c, t)
  }

  /** Plugging at a position is plugging the parent's subtree one level up. */
  lemma PlugUp(p: Path, t: Tree)
    requires !p.Top?
    ensures Plug(p, t) == Plug(p.up, Up(p, t))
    ensures Up(p, t).left == (if p.LeftOf? then t else p.left)
    ensures Up(p, t).right == (if p.LeftOf? then p.right else t)
  {
  }

  /**
   * How a node of the represented tree sits in the arena: its own fields,
   * its parent reference, and on which side its parent holds it.
   */
  lemma Position(s: State, p: Path, t: Tree)
    requires Represents(s, Plug(p, t)) && t.Node?
    ensures IsNode(s, t.id)
    ensures s.nodes[t.id] == TreeNode(RootOf(t.left), RootOf(t.right), ParentId(p), t.key, t.color)
    ensures p.Top? <==> s.root == t.id
    ensures !p.Top? ==> IsNode(s, p.id) && p.id != t.id
    ensures !p.Top? ==> (Left(s, p.id) == t.id <==> p.LeftOf?) && (Right(s, p.id) == t.id <==> p.RightOf?)
    ensures !p.Top? ==> Left(s, p.id) == RootOf(Up(p, t).left) && Right(s, p.id) == RootOf(Up(p, t).right)
    ensures !p.Top? ==> ColorAt(s, p.id) == p.color && Value(s, p.id) == p.key
  {
    NodeAt(s, p, t);
    RepPlug(s, p, t);
    UniquePlug(p, t);
    assert t.id in Ids(t);
    if !p.Top? {
      assert p.id in PathIds(p);
      RootInPath(s, p, t.id);
      RootOfIn(SiblingTree(p));
      NodeAt(s, p.up, Up(p, t));
    } else {
      assert s.root == t.id;
    }
  }

  /** The root of a subtree is null or one of its nodes. */
  lemma RootOfIn(t: Tree)
    ensures t.Node? ==> RootOf(t) in Ids(t)
    ensures t.Leaf? ==> RootOf(t) == Nil
  {
  }

  /** siblingNode returns the root of the parent's other subtree. */
  lemma SiblingOf(s: State, p: Path, t: Tree)
    requires Closed(s) && Represents(s, Plug(p, t)) && t.Node?
    ensures IsNode(s, t.id)
    ensures Sibling(s, t.id) == if p.Top? then Nil else RootOf(SiblingTree(p))
  {
    Position(s, p, t);
  }

  /** grandPaNode and uncleNode two levels below the top: the grandparent and the grandparent's other subtree. */
  lemma UncleOf(s: State, p: Path, t: Tree)
    requires Represents(s, Plug(p, t)) && t.Node? && !p.Top? && !p.up.Top?
    ensures IsNode(s, t.id) && Parent(s, t.id) == p.id && IsNode(s, p.id) && IsNode(s, GrandPa(s, t.id))
    ensures GrandPa(s, t.id) == p.up.id
    ensures Uncle(s, t.id) == RootOf(SiblingTree(p.up))
    ensures (Left(s, GrandPa(s, t.id)) == p.id <==> p.up.LeftOf?) && (Right(s, GrandPa(s, t.id)) == p.id <==> p.up.RightOf?)
  {
    Position(s, p, t);
    PlugUp(p, t);
    Position(s, p.up, Up(p, t));
  }

  /** isBlackNode agrees with the colour of the subtree, an empty subtree counting as BLACK. */
  lemma IsBlackNodeOf(s: State, t: Tree, par: Ptr)
    requires Rep(s, t, par)
    ensures IsPtr(s, RootOf(t))
    ensures IsBlackNode(s, RootOf(t)) <==> ColorOf(t) == BLACK
  {
  }

  /** getChild of a node with at most one child returns the root of the non-empty subtree, if any. */
  lemma GetChildOf(s: State, t: Tree, par: Ptr)
    requires Rep(s, t, par) && t.Node? && (t.left.Leaf? || t.right.Leaf?)
    ensures IsNode(s, t.id)
    ensures GetChild(s, t.id) == if t.left.Node? then t.left.id else RootOf(t.right)
  {
  }
}
