/**
 * rotateLeft and rotateRight of RedBlackTree.java (lines 594-654), as
 * functions on the whole state.  Each one is the exact sequence of field
 * writes of the Java method, so it is defined on every state in which the
 * Java code would not dereference null; the lemmas then say what the
 * rotation does to a represented tree when the pivot is a right (left) child.
 */
module Rotations {
  import opened Nodes
  import opened Trees
  import opened Layout

  /**
   * `rotateLeft(current)`: `current` takes the place of its parent, the parent
   * becomes its left child, and its former left child becomes the parent's
   * right child.  The parent must exist (Java dereferences it).
   */
  function RotateLeft(s: State, x: Ptr): (t: State)
    requires Closed(s) && IsNode(s, x) && Parent(s, x) != Nil
    ensures Closed(t) && |t.nodes| == |s.nodes|
    ensures t.root == if s.root == Parent(s, x) then x else s.root
    ensures forall j :: 0 <= j < |s.nodes| && j !in {x, Parent(s, x), Left(s, x), Parent(s, Parent(s, x))} ==>
      t.nodes[j] == s.nodes[j]
  {
    var p := Parent(s, x);
    var g := Parent(s, p);
    var xl := Left(s, x);
    var s1 := SetRight(s, p, xl);
    var s2 := if xl != Nil then SetParent(s1, xl, p) else s1;
    var s3 := SetLeft(s2, x, p);
    var s4 := SetParent(s3, p, x);
    var s5 := if s4.root == p then SetRoot(s4, x) else s4;
    var s6 := SetParent(s5, x, g);
    if g != Nil then
      (if Right(s6, g) == p then SetRight(s6, g, x) else SetLeft(s6, g, x))
    else s6
  }

  /** `rotateRight(current)`: the mirror image of RotateLeft. */
  function RotateRight(s: State, x: Ptr): (t: State)
    requires Closed(s) && IsNode(s, x) && Parent(s, x) != Nil
    ensures Closed(t) && |t.nodes| == |s.nodes|
    ensures t.root == if s.root == Parent(s, x) then x else s.root
    ensures forall j :: 0 <= j < |s.nodes| && j !in {x, Parent(s, x), Right(s, x), Parent(s, Parent(s, x))} ==>
      t.nodes[j] == s.nodes[j]
  {
    var p := Parent(s, x);
    var g := Parent(s, p);
    var xr := Right(s, x);
    var s1 := SetLeft(s, p, xr);
    var s2 := if xr != Nil then SetParent(s1, xr, p) else s1;
    var s3 := SetRight(s2, x, p);
    var s4 := SetParent(s3, p, x);
    var s5 := if s4.root == p then SetRoot(s4, x) else s4;
    var s6 := SetParent(s5, x, g);
    if g != Nil then
      (if Right(s6, g) == p then SetRight(s6, g, x) else SetLeft(s6, g, x))
    else s6
  }

  /** The four nodes a left rotation writes, when they are four different nodes. */
  lemma RotateLeftEffect(s: State, x: Ptr)
    requires Closed(s) && IsNode(s, x) && Parent(s, x) != Nil
    requires Parent(s, x) != x
    requires Left(s, x) != x && Left(s, x) != Parent(s, x)
    requires Parent(s, Parent(s, x)) != x && Parent(s, Parent(s, x)) != Parent(s, x)
    requires Left(s, x) == Nil || Left(s, x) != Parent(s, Parent(s, x))
    ensures var p, g, xl, t := Parent(s, x), Parent(s, Parent(s, x)), Left(s, x), RotateLeft(s, x);
      t.nodes[p] == s.nodes[p].(right := xl, parent := x) &&
      t.nodes[x] == s.nodes[x].(left := p, parent := g) &&
      (xl != Nil ==> t.nodes[xl] == s.nodes[xl].(parent := p)) &&
      (g != Nil ==> t.nodes[g] == if s.nodes[g].right == p then s.nodes[g].(right := x) else s.nodes[g].(left := x))
  {
  }

  /** The four nodes a right rotation writes, when they are four different nodes. */
  lemma RotateRightEffect(s: State, x: Ptr)
    requires Closed(s) && IsNode(s, x) && Parent(s, x) != Nil
    requires Parent(s, x) != x
    requires Right(s, x) != x && Right(s, x) != Parent(s, x)
    requires Parent(s, Parent(s, x)) != x && Parent(s, Parent(s, x)) != Parent(s, x)
    requires Right(s, x) == Nil || Right(s, x) != Parent(s, Parent(s, x))
    ensures var p, g, xr, t := Parent(s, x), Parent(s, Parent(s, x)), Right(s, x), RotateRight(s, x);
      t.nodes[p] == s.nodes[p].(left := xr, parent := x) &&
      t.nodes[x] == s.nodes[x].(right := p, parent := g) &&
      (xr != Nil ==> t.nodes[xr] == s.nodes[xr].(parent := p)) &&
      (g != Nil ==> t.nodes[g] == if s.nodes[g].right == p then s.nodes[g].(right := x) else s.nodes[g].(left := x))
  {
  }

  /** The subtree rooted at `p` after rotating its right child `x` above it. */
  function RotatedLeft(t: Tree): (r: Tree)
    requires t.Node? && t.right.Node?
    ensures r.Node? && r.left.Node? && r.id == t.right.id && r.left.id == t.id
    ensures InOrder(r) == InOrder(t) && Ids(r) == Ids(t)
  {
    var Node(a, p, kp, cp, Node(b, x, kx, cx, c)) := t;
    Node(Node(a, p, kp, cp, b), x, kx, cx, c)
  }

  /** The subtree rooted at `p` after rotating its left child `x` above it. */
  function RotatedRight(t: Tree): (r: Tree)
    requires t.Node? && t.left.Node?
    ensures r.Node? && r.right.Node? && r.id == t.left.id && r.right.id == t.id
    ensures InOrder(r) == InOrder(t) && Ids(r) == Ids(t)
  {
    var Node(Node(a, x, kx, cx, b), p, kp, cp, c) := t;
    Node(a, x, kx, cx, Node(b, p, kp, cp, c))
  }

  /**
   * The writes of a left rotation at `x`, the right child of the root `p` of
   * subtree `t` at position `path`, stated in terms of the represented tree.
   */
  ghost predicate LeftRotatedAt(s: State, s': State, path: Path, t: Tree)
    requires t.Node? && t.right.Node?
  {
    var p, x, b, g := t.id, t.right.id, t.right.left, ParentId(path);
    |s'.nodes| == |s.nodes| && p < |s.nodes| && x < |s.nodes| &&
    s'.root == (if path.Top? then x else s.root) &&
    s'.nodes[p] == s.nodes[p].(right := RootOf(b), parent := x) &&
    s'.nodes[x] == s.nodes[x].(left := p, parent := g) &&
    (b.Node? ==> b.id < |s.nodes| && s'.nodes[b.id] == s.nodes[b.id].(parent := p)) &&
    (g != Nil ==> Relinked(s, s', g, p, x)) &&
    forall j :: 0 <= j < |s.nodes| && j !in {x, p, RootOf(b), g} ==> SameNode(s, s', j)
  }

  /** Mirror image of LeftRotatedAt. */
  ghost predicate RightRotatedAt(s: State, s': State, path: Path, t: Tree)
    requires t.Node? && t.left.Node?
  {
    var p, x, b, g := t.id, t.left.id, t.left.right, ParentId(path);
    |s'.nodes| == |s.nodes| && p < |s.nodes| && x < |s.nodes| &&
    s'.root == (if path.Top? then x else s.root) &&
    s'.nodes[p] == s.nodes[p].(left := RootOf(b), parent := x) &&
    s'.nodes[x] == s.nodes[x].(right := p, parent := g) &&
    (b.Node? ==> b.id < |s.nodes| && s'.nodes[b.id] == s.nodes[b.id].(parent := p)) &&
    (g != Nil ==> Relinked(s, s', g, p, x)) &&
    forall j :: 0 <= j < |s.nodes| && j !in {x, p, RootOf(b), g} ==> SameNode(s, s', j)
  }

  /** On a represented tree, rotateLeft of a right child performs exactly the writes of LeftRotatedAt. */
  lemma RotateLeftWrites(s: State, path: Path, t: Tree)
    requires Closed(s) && t.Node? && t.right.Node?
    requires Represents(s, Plug(path, t))
    ensures IsNode(s, t.right.id) && Parent(s, t.right.id) == t.id
    ensures LeftRotatedAt(s, RotateLeft(s, t.right.id), path, t)
  {
    var Node(a, p, _, _, xt) := t;
    var Node(b, x, _, _, c) := xt;
    var g := ParentId(path);
    RepPlug(s, path, t);
    UniquePlug(path, t);
    IdsInArena(s, t);
    PathIdsInArena(s, path, p);
    assert x in Ids(t) && p in Ids(t);
    assert g != Nil ==> g in PathIds(path);
    assert Rep(s, xt, p) && Rep(s, b, x);
    assert b.Node? ==> b.id in Ids(b) && b.id in Ids(t);
    if !path.Top? {
      RootInPath(s, path, p);
    }
    RotateLeftEffect(s, x);
    var s' := RotateLeft(s, x);
    forall j | 0 <= j < |s.nodes| && j !in {x, p, RootOf(b), g}
      ensures SameNode(s, s', j)
    {
      assert j != x && j != p && j != RootOf(b) && j != g;
    }
  }

  /** On a represented tree, rotateRight of a left child performs exactly the writes of RightRotatedAt. */
  lemma RotateRightWrites(s: State, path: Path, t: Tree)
    requires Closed(s) && t.Node? && t.left.Node?
    requires Represents(s, Plug(path, t))
    ensures IsNode(s, t.left.id) && Parent(s, t.left.id) == t.id
    ensures RightRotatedAt(s, RotateRight(s, t.left.id), path, t)
  {
    var Node(xt, p, _, _, c) := t;
    var Node(a, x, _, _, b) := xt;
    var g := ParentId(path);
    RepPlug(s, path, t);
    UniquePlug(path, t);
    IdsInArena(s, t);
    PathIdsInArena(s, path, p);
    assert x in Ids(t) && p in Ids(t);
    assert g != Nil ==> g in PathIds(path);
    assert Rep(s, xt, p) && Rep(s, b, x);
    assert b.Node? ==> b.id in Ids(b) && b.id in Ids(t);
    if !path.Top? {
      RootInPath(s, path, p);
    }
    RotateRightEffect(s, x);
    var s' := RotateRight(s, x);
    forall j | 0 <= j < |s.nodes| && j !in {x, p, RootOf(b), g}
      ensures SameNode(s, s', j)
    {
      assert j != x && j != p && j != RootOf(b) && j != g;
    }
  }

  /** Rotating keeps the node ids of a subtree unique. */
  lemma RotatedUnique(t: Tree)
    requires Unique(t) && t.Node?
    ensures t.right.Node? ==> Unique(RotatedLeft(t))
    ensures t.left.Node? ==> Unique(RotatedRight(t))
  {
  }

  /** Below the grandparent, the writes of LeftRotatedAt lay out the rotated subtree. */
  lemma LeftRotatedLocal(s: State, s': State, path: Path, t: Tree)
    requires t.Node? && t.right.Node?
    requires Rep(s, t, ParentId(path)) && Unique(t) && ParentId(path) !in Ids(t)
    requires LeftRotatedAt(s, s', path, t)
    ensures Rep(s', RotatedLeft(t), ParentId(path)) && Unique(RotatedLeft(t))
  {
    var Node(a, p, kp, cp, xt) := t;
    var Node(b, x, kx, cx, c) := xt;
    var g := ParentId(path);
    RotatedUnique(t);
    assert Rep(s, xt, p) && Unique(xt);
    IdsInArena(s, t);
    forall j | j in Ids(a) || j in Ids(c) || (j in Ids(b) && j != RootOf(b))
      ensures SameNode(s, s', j)
    {
      assert j in Ids(t) && j != x && j != p && j != RootOf(b) && j != g;
    }
    RepFrame(s, s', a, p);
    RepFrame(s, s', c, x);
    ShapeFrame(s, s', b);
    assert Rep(s', Node(a, p, kp, cp, b), x);
  }

  /** Below the grandparent, the writes of RightRotatedAt lay out the rotated subtree. */
  lemma RightRotatedLocal(s: State, s': State, path: Path, t: Tree)
    requires t.Node? && t.left.Node?
    requires Rep(s, t, ParentId(path)) && Unique(t) && ParentId(path) !in Ids(t)
    requires RightRotatedAt(s, s', path, t)
    ensures Rep(s', RotatedRight(t), ParentId(path)) && Unique(RotatedRight(t))
  {
    var Node(xt, p, kp, cp, c) := t;
    var Node(a, x, kx, cx, b) := xt;
    var g := ParentId(path);
    RotatedUnique(t);
    assert Rep(s, xt, p) && Unique(xt);
    IdsInArena(s, t);
    forall j | j in Ids(a) || j in Ids(c) || (j in Ids(b) && j != RootOf(b))
      ensures SameNode(s, s', j)
    {
      assert j in Ids(t) && j != x && j != p && j != RootOf(b) && j != g;
    }
    RepFrame(s, s', a, x);
    RepFrame(s, s', c, p);
    ShapeFrame(s, s', b);
    assert Rep(s', Node(b, p, kp, cp, c), x);
  }

  /** The writes of LeftRotatedAt turn the represented tree into the rotated one. */
  lemma LeftRotatedRep(s: State, s': State, path: Path, t: Tree)
    requires t.Node? && t.right.Node?
    requires Represents(s, Plug(path, t)) && LeftRotatedAt(s, s', path, t)
    ensures Represents(s', Plug(path, RotatedLeft(t)))
  {
    var p, x, b, g := t.id, t.right.id, t.right.left, ParentId(path);
    RepPlug(s, path, t);
    UniquePlug(path, t);
    assert g != Nil ==> g in PathIds(path);
    LeftRotatedLocal(s, s', path, t);
    assert forall j :: j in PathIds(path) && j != g ==> j !in {x, p, RootOf(b), g};
    PathIdsInArena(s, path, p);
    PathAfterRelink(s, s', path, p, x);
    RepPlug(s', path, RotatedLeft(t));
    ReplaceUnique(path, t, RotatedLeft(t));
  }

  /** The writes of RightRotatedAt turn the represented tree into the rotated one. */
  lemma RightRotatedRep(s: State, s': State, path: Path, t: Tree)
    requires t.Node? && t.left.Node?
    requires Represents(s, Plug(path, t)) && RightRotatedAt(s, s', path, t)
    ensures Represents(s', Plug(path, RotatedRight(t)))
  {
    var p, x, b, g := t.id, t.left.id, t.left.right, ParentId(path);
    RepPlug(s, path, t);
    UniquePlug(path, t);
    assert g != Nil ==> g in PathIds(path);
    RightRotatedLocal(s, s', path, t);
    assert forall j :: j in PathIds(path) && j != g ==> j !in {x, p, RootOf(b), g};
    PathIdsInArena(s, path, p);
    PathAfterRelink(s, s', path, p, x);
    RepPlug(s', path, RotatedRight(t));
    ReplaceUnique(path, t, RotatedRight(t));
  }

  /**
   * Rotating left the right child `x` of a node `p` of the represented tree:
   * `x` takes `p`'s slot under the grandparent (or becomes the root), every
   * parent reference agrees with the child links again, and the in-order
   * sequence of keys is unchanged.
   */
  lemma RotateLeftRep(s: State, path: Path, t: Tree)
    requires Closed(s) && t.Node? && t.right.Node?
    requires Represents(s, Plug(path, t))
    ensures IsNode(s, t.right.id) && Parent(s, t.right.id) == t.id
    ensures Represents(RotateLeft(s, t.right.id), Plug(path, RotatedLeft(t)))
    ensures InOrder(Plug(path, RotatedLeft(t))) == InOrder(Plug(path, t))
  {
    RotateLeftWrites(s, path, t);
    LeftRotatedRep(s, RotateLeft(s, t.right.id), path, t);
    ReplaceInOrder(path, t, RotatedLeft(t));
  }

  /** Mirror image of RotateLeftRep. */
  lemma RotateRightRep(s: State, path: Path, t: Tree)
    requires Closed(s) && t.Node? && t.left.Node?
    requires Represents(s, Plug(path, t))
    ensures IsNode(s, t.left.id) && Parent(s, t.left.id) == t.id
    ensures Represents(RotateRight(s, t.left.id), Plug(path, RotatedRight(t)))
    ensures InOrder(Plug(path, RotatedRight(t))) == InOrder(Plug(path, t))
  {
    RotateRightWrites(s, path, t);
    RightRotatedRep(s, RotateRight(s, t.left.id), path, t);
    ReplaceInOrder(path, t, RotatedRight(t));
  }

  /** Node `g` of `s'` is node `g` of `s` with its child link to `p` redirected to `x`. */
  ghost predicate Relinked(s: State, s': State, g: Ptr, p: Ptr, x: Ptr)
  {
    0 <= g < |s.nodes| && g < |s'.nodes| &&
    s'.nodes[g] == if s.nodes[g].right == p then s.nodes[g].(right := x) else s.nodes[g].(left := x)
  }

  /**
   * The ancestors keep their layout when the child `p` of the innermost one
   * is replaced by `x` on the same side (or the root field is moved from `p`
   * to `x`), and nothing else on the path changed.
   */
  lemma PathAfterRelink(s: State, s': State, path: Path, p: Ptr, x: Ptr)
    requires PathShape(s, path, p) && UniquePath(path) && p != Nil && p !in PathIds(path)
    requires path.Top? ==> s'.root == x
    requires !path.Top? ==> s'.root == s.root
    requires !path.Top? ==> Relinked(s, s', path.id, p, x)
    requires forall j :: j in PathIds(path) && j != ParentId(path) ==> SameNode(s, s', j)
    ensures PathShape(s', path, x)
  {
    match path
    case Top =>
    case LeftOf(up, i, _, _, r) =>
      PathIdsInArena(s, path, p);
      assert p !in Ids(r);
      assert forall j :: j in Ids(r) ==> j in PathIds(path) && j != i;
      RepFrame(s, s', r, i);
      assert forall j :: j in PathIds(up) ==> j in PathIds(path) && j != i;
      PathShapeFrame(s, s', up, i);
    case RightOf(l, i, _, _, up) =>
      PathIdsInArena(s, path, p);
      assert forall j :: j in Ids(l) ==> j in PathIds(path) && j != i;
      RepFrame(s, s', l, i);
      assert forall j :: j in PathIds(up) ==> j in PathIds(path) && j != i;
      PathShapeFrame(s, s', up, i);
  }
}
