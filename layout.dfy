/**
 * How an abstract `Tree` is laid out in the node arena.
 *
 * `Represents(s, t)` says that the arena and root field of `s` hold exactly
 * the tree `t`: every node of `t` stores its key, its colour, references to
 * the roots of its two subtrees and a parent reference that points back to
 * the node holding it as a child (null at the root), and no node occurs twice.
 * This is the consistency that every structural mutation of RedBlackTree.java
 * has to keep between the child links and the parent back-references.
 */
module Layout {
  import opened Nodes
  import opened Trees

  /** The root of `t`, if any, has parent reference `par`. */
  ghost predicate ParentIs(s: State, t: Tree, par: Ptr)
  {
    t.Leaf? || (t.id < |s.nodes| && s.nodes[t.id].parent == par)
  }

  /** Every node of `t` is stored with its key, colour and child links; children point back. */
  ghost predicate Shape(s: State, t: Tree)
  {
    match t
    case Leaf => true
    case Node(l, i, k, c, r) =>
      i < |s.nodes| &&
      s.nodes[i].left == RootOf(l) && s.nodes[i].right == RootOf(r) &&
      s.nodes[i].value == k && s.nodes[i].color == c &&
      ParentIs(s, l, i) && ParentIs(s, r, i) && Shape(s, l) && Shape(s, r)
  }

  /** `t` is laid out in `s` as a subtree hanging below `par`. */
  ghost predicate Rep(s: State, t: Tree, par: Ptr)
  {
    Shape(s, t) && ParentIs(s, t, par)
  }

  /** The ancestors on path `p` are laid out in `s`, the innermost one holding `child` on the focus side. */
  ghost predicate PathShape(s: State, p: Path, child: Ptr)
  {
    match p
    case Top => s.root == child
    case LeftOf(up, i, k, c, r) =>
      i < |s.nodes| && s.nodes[i] == TreeNode(child, RootOf(r), ParentId(up), k, c) &&
      Rep(s, r, i) && PathShape(s, up, i)
    case RightOf(l, i, k, c, up) =>
      i < |s.nodes| && s.nodes[i] == TreeNode(RootOf(l), child, ParentId(up), k, c) &&
      Rep(s, l, i) && PathShape(s, up, i)
  }

  /** The state holds exactly the tree `t`. */
  ghost predicate Represents(s: State, t: Tree)
  {
    Rep(s, t, Nil) && s.root == RootOf(t) && Unique(t)
  }

  ghost predicate SameNode(s: State, s': State, j: int)
  {
    0 <= j < |s.nodes| && j < |s'.nodes| && s'.nodes[j] == s.nodes[j]
  }

  /** Node `j` has the same key, colour and child links in both states (its parent may differ). */
  ghost predicate SameBelow(s: State, s': State, j: int)
  {
    0 <= j < |s.nodes| && j < |s'.nodes| &&
    s'.nodes[j].left == s.nodes[j].left && s'.nodes[j].right == s.nodes[j].right &&
    s'.nodes[j].value == s.nodes[j].value && s'.nodes[j].color == s.nodes[j].color
  }

  /** Splitting a represented tree at a position. */
  lemma {:induction false} RepPlug(s: State, p: Path, t: Tree)
    ensures Rep(s, Plug(p, t), Nil) && s.root == RootOf(Plug(p, t)) <==>
            Rep(s, t, ParentId(p)) && PathShape(s, p, RootOf(t))
    decreases p
  {
    match p
    case Top =>
    case LeftOf(up, i, k, c, r) => RepPlug(s, up, Node(t, i, k, c, r));
    case RightOf(l, i, k, c, up) => RepPlug(s, up, Node(l, i, k, c, t));
  }

  lemma {:induction false} IdsInArena(s: State, t: Tree)
    requires Shape(s, t)
    ensures forall j :: j in Ids(t) ==> j < |s.nodes|
    decreases t
  {
    match t
    case Leaf =>
    case Node(l, _, _, _, r) =>
      IdsInArena(s, l);
      IdsInArena(s, r);
  }

  lemma {:induction false} PathIdsInArena(s: State, p: Path, child: Ptr)
    requires PathShape(s, p, child)
    ensures forall j :: j in PathIds(p) ==> j < |s.nodes|
    decreases p
  {
    match p
    case Top =>
    case LeftOf(up, i, _, _, r) =>
      IdsInArena(s, r);
      PathIdsInArena(s, up, i);
    case RightOf(l, i, _, _, up) =>
      IdsInArena(s, l);
      PathIdsInArena(s, up, i);
  }

  /**
   * The layout of `t` depends only on its own nodes, and on its root node
   * only through the fields below it (not its parent reference).
   */
  lemma {:induction false} ShapeFrame(s: State, s': State, t: Tree)
    requires Shape(s, t) && Unique(t)
    requires forall j :: j in Ids(t) && j != RootOf(t) ==> SameNode(s, s', j)
    requires t.Node? ==> SameBelow(s, s', t.id)
    ensures Shape(s', t)
    decreases t
  {
    match t
    case Leaf =>
    case Node(l, i, _, _, r) =>
      assert forall j :: j in Ids(l) ==> j in Ids(t) && j != i;
      assert forall j :: j in Ids(r) ==> j in Ids(t) && j != i;
      ShapeFrame(s, s', l);
      ShapeFrame(s, s', r);
  }

  lemma RepFrame(s: State, s': State, t: Tree, par: Ptr)
    requires Rep(s, t, par) && Unique(t)
    requires forall j :: j in Ids(t) ==> SameNode(s, s', j)
    ensures Rep(s', t, par)
  {
    if t.Node? {
      assert t.id in Ids(t) && SameNode(s, s', t.id);
    }
    ShapeFrame(s, s', t);
  }

  lemma {:induction false} PathShapeFrame(s: State, s': State, p: Path, child: Ptr)
    requires PathShape(s, p, child) && UniquePath(p)
    requires forall j :: j in PathIds(p) ==> SameNode(s, s', j)
    requires s'.root == s.root
    ensures PathShape(s', p, child)
    decreases p
  {
    match p
    case Top =>
    case LeftOf(up, i, _, _, r) =>
      assert i in PathIds(p) && SameNode(s, s', i);
      RepFrame(s, s', r, i);
      PathShapeFrame(s, s', up, i);
    case RightOf(l, i, _, _, up) =>
      assert i in PathIds(p) && SameNode(s, s', i);
      RepFrame(s, s', l, i);
      PathShapeFrame(s, s', up, i);
  }

  /** Below the root, the root field refers to the outermost ancestor of the position. */
  lemma {:induction false} RootInPath(s: State, p: Path, child: Ptr)
    requires PathShape(s, p, child) && !p.Top?
    ensures s.root in PathIds(p)
    decreases p
  {
    if !p.up.Top? {
      RootInPath(s, p.up, p.id);
    }
  }

  /** What the arena stores for a node of the represented tree. */
  lemma NodeAt(s: State, p: Path, t: Tree)
    requires Represents(s, Plug(p, t)) && t.Node?
    ensures t.id < |s.nodes|
    ensures s.nodes[t.id] == TreeNode(RootOf(t.left), RootOf(t.right), ParentId(p), t.key, t.color)
  {
    RepPlug(s, p, t);
  }

  /**
   * Overwriting the key or colour of one node of the tree: the state then
   * represents the same tree with that node's key and colour replaced.
   */
  lemma ReplaceNodeRep(s: State, p: Path, t: Tree, n: TreeNode)
    requires Represents(s, Plug(p, t)) && t.Node?
    requires n.left == RootOf(t.left) && n.right == RootOf(t.right) && n.parent == ParentId(p)
    ensures t.id < |s.nodes|
    ensures Represents(State(s.nodes[t.id := n], s.root), Plug(p, t.(key := n.value, color := n.color)))
  {
    RepPlug(s, p, t);
    UniquePlug(p, t);
    var s' := State(s.nodes[t.id := n], s.root);
    var t' := t.(key := n.value, color := n.color);
    IdsInArena(s, t);
    PathIdsInArena(s, p, t.id);
    forall j | j in Ids(t.left) || j in Ids(t.right) || j in PathIds(p)
      ensures SameNode(s, s', j)
    {
      assert j != t.id;
    }
    RepFrame(s, s', t.left, t.id);
    RepFrame(s, s', t.right, t.id);
    PathShapeFrame(s, s', p, t.id);
    assert Rep(s', t', ParentId(p));
    RepPlug(s', p, t');
    ReplaceUnique(p, t, t');
  }

  lemma RecolorRep(s: State, p: Path, t: Tree, c: Color)
    requires Represents(s, Plug(p, t)) && t.Node?
    ensures IsNode(s, t.id)
    ensures Represents(SetColor(s, t.id, c), Plug(p, t.(color := c)))
  {
    NodeAt(s, p, t);
    ReplaceNodeRep(s, p, t, s.nodes[t.id].(color := c));
  }

  lemma RevalueRep(s: State, p: Path, t: Tree, v: int)
    requires Represents(s, Plug(p, t)) && t.Node?
    ensures IsNode(s, t.id)
    ensures Represents(SetValue(s, t.id, v), Plug(p, t.(key := v)))
  {
    NodeAt(s, p, t);
    ReplaceNodeRep(s, p, t, s.nodes[t.id].(value := v));
  }

  /** Node `n` with its child link on the focus side of position `p` set to `c`. */
  function WithFocus(n: TreeNode, p: Path, c: Ptr): TreeNode
  {
    if p.LeftOf? then n.(left := c) else n.(right := c)
  }

  /**
   * The ancestors keep their layout when the innermost one (or the root
   * field, at the top) is made to hold `child'` instead of `child` and no
   * other node on the path changes.
   */
  lemma PathFocus(s: State, s': State, p: Path, child: Ptr, child': Ptr)
    requires PathShape(s, p, child) && UniquePath(p)
    requires p.Top? ==> s'.root == child'
    requires !p.Top? ==> s'.root == s.root && p.id < |s'.nodes| && s'.nodes[p.id] == WithFocus(s.nodes[p.id], p, child')
    requires forall j :: j in PathIds(p) && j != ParentId(p) ==> SameNode(s, s', j)
    ensures PathShape(s', p, child')
  {
    match p
    case Top =>
    case LeftOf(up, i, _, _, r) =>
      PathIdsInArena(s, p, child);
      assert forall j :: j in Ids(r) ==> j in PathIds(p) && j != i;
      RepFrame(s, s', r, i);
      assert forall j :: j in PathIds(up) ==> j in PathIds(p) && j != i;
      PathShapeFrame(s, s', up, i);
    case RightOf(l, i, _, _, up) =>
      PathIdsInArena(s, p, child);
      assert forall j :: j in Ids(l) ==> j in PathIds(p) && j != i;
      RepFrame(s, s', l, i);
      assert forall j :: j in PathIds(up) ==> j in PathIds(p) && j != i;
      PathShapeFrame(s, s', up, i);
  }
}
