/**
 * The proof side of `adjust_insert` (RedBlackTree.java, lines 226-301).
 *
 * After a RED node has been attached as a leaf, the tree may have one red-red
 * edge, between the node `current` and its parent.  `InsertInv` is that
 * situation, written on the abstract tree; each case of adjust_insert either
 * removes the bad edge (cases 1, 2, 4.1-4.4, giving a well-coloured tree) or
 * moves it two levels up (case 3).  The lemmas below prove this for the abstract
 * trees and then for the arena, replaying the exact writes the Java code makes.
 */
module InsertFixup {
  import opened Nodes
  import opened Trees
  import opened Layout
  import opened Rotations
  import opened Queries

  /**
   * The subtree `sub` rooted at `current` is RED and otherwise a red-black
   * subtree, the rest of the tree fits around it by black height, the only
   * possible red-red edge is the one from `current` to its parent, and the
   * root of the whole tree is BLACK unless it is `current` itself.
   */
  ghost predicate InsertInv(p: Path, sub: Tree)
  {
    sub.Node? && sub.color == RED && NoRedRed(sub) && BlackBalanced(sub) &&
    PathBalanced(p, BlackHeight(sub)) && PathNoRedRedAbove(p) &&
    (!p.Top? ==> ColorOf(Plug(p, sub)) == BLACK)
  }

  /** A fresh RED leaf put in place of a nil leaf of a well-coloured tree satisfies the invariant. */
  lemma InsertStart(p: Path, n: nat, v: int)
    requires WellColored(Plug(p, Leaf))
    ensures InsertInv(p, Node(Leaf, n, v, RED, Leaf))
  {
    BalancedPlug(p, Leaf);
    NoRedRedPlug(p, Leaf);
    PathNoRedRedBlack(p, BLACK);
    if !p.Top? {
      ColorPlug(p, Leaf, Node(Leaf, n, v, RED, Leaf));
    }
  }

  /** Case 1: at the root, painting `current` BLACK finishes. */
  lemma Case1Tree(sub: Tree)
    requires InsertInv(Top, sub)
    ensures WellColored(sub.(color := BLACK))
  {
  }

  /** Case 2: under a BLACK parent there is no red-red edge left. */
  lemma Case2Tree(p: Path, sub: Tree)
    requires InsertInv(p, sub) && !p.Top? && p.color == BLACK
    ensures WellColored(Plug(p, sub))
  {
    BalancedPlug(p, sub);
    NoRedRedPlug(p, sub);
  }

  /** With a RED parent, the parent is not the root and the grandparent is BLACK. */
  lemma ParentRed(p: Path, sub: Tree)
    requires InsertInv(p, sub) && !p.Top? && p.color == RED
    ensures !p.up.Top? && p.up.color == BLACK
  {
    PlugUp(p, sub);
  }

  /** The grandparent's subtree after case 3 painted parent and uncle BLACK and the grandparent RED. */
  function RepaintedTree(p: Path, sub: Tree): (g: Tree)
    requires !p.Top? && !p.up.Top? && SiblingTree(p.up).Node?
    ensures g.Node? && g.id == p.up.id && g.color == RED
  {
    var t := Up(p, sub);
    var pt := Node(t.left, t.id, t.key, BLACK, t.right);
    var u := SiblingTree(p.up).(color := BLACK);
    if p.up.LeftOf? then Node(pt, p.up.id, p.up.key, RED, u) else Node(u, p.up.id, p.up.key, RED, pt)
  }

  /** Case 3 (RED uncle): the red-red edge moves up to the grandparent, keys untouched. */
  lemma Case3Tree(p: Path, sub: Tree)
    requires InsertInv(p, sub) && !p.Top? && p.color == RED
    requires !p.up.Top? && SiblingTree(p.up).Node? && SiblingTree(p.up).color == RED
    ensures InsertInv(p.up.up, RepaintedTree(p, sub))
    ensures Plug(p, sub) == Plug(p.up.up, Up(p.up, Up(p, sub)))
    ensures InOrder(Plug(p.up.up, RepaintedTree(p, sub))) == InOrder(Plug(p, sub))
    ensures Depth(p.up.up) < Depth(p)
  {
    var h := BlackHeight(sub);
    var pt := Up(p, sub);
    var gt := Up(p.up, pt);
    var u := SiblingTree(p.up);
    var g' := RepaintedTree(p, sub);
    PlugUp(p, sub);
    PlugUp(p.up, pt);
    ParentRed(p, sub);
    SiblingFacts(p, h, RED);
    SiblingFacts(p.up, h, BLACK);
    assert BlackHeight(Node(pt.left, pt.id, pt.key, BLACK, pt.right)) == h + 1;
    assert BlackHeight(u.(color := BLACK)) == h + 1;
    assert BlackHeight(g') == h + 1;
    PathNoRedRedBlack(p.up.up, BLACK);
    if !p.up.up.Top? {
      ColorPlug(p.up.up, gt, g');
    }
    assert InOrder(g') == InOrder(gt);
    ReplaceInOrder(p.up.up, gt, g');
  }

  /**
   * What the path says about the subtree hanging off the parent, when the
   * focus has black height `h` and no red-red edge above the parent is open:
   * the sibling has black height `h` and no red-red edge, and the parent's own
   * position is constrained by the parent's colour.
   */
  lemma SiblingFacts(p: Path, h: nat, c: Color)
    requires !p.Top? && PathBalanced(p, h) && PathNoRedRedAbove(p)
    ensures BlackBalanced(SiblingTree(p)) && BlackHeight(SiblingTree(p)) == h && NoRedRed(SiblingTree(p))
    ensures p.color == RED ==> ColorOf(SiblingTree(p)) == BLACK
    ensures PathBalanced(p.up, h + if p.color == BLACK then 1 else 0) && PathNoRedRed(p.up, p.color)
    ensures PathNoRedRedAbove(p.up)
  {
    PathNoRedRedBlack(p.up, p.color);
  }

  /** Case 4.1 (BLACK uncle, left-left): the tree after the recolouring and the right rotation is well coloured. */
  lemma Case41Tree(p: Path, sub: Tree)
    requires InsertInv(p, sub) && p.LeftOf? && p.color == RED && !p.up.Top? && p.up.LeftOf?
    requires ColorOf(p.up.right) == BLACK
    ensures WellColored(Plug(p.up.up, Node(sub, p.id, p.key, BLACK, Node(p.right, p.up.id, p.up.key, RED, p.up.right))))
  {
    var LeftOf(LeftOf(up, g, kg, cg, u), i, k, _, c) := p;
    var r := Node(sub, i, k, BLACK, Node(c, g, kg, RED, u));
    ParentRed(p, sub);
    SiblingFacts(p, BlackHeight(sub), RED);
    SiblingFacts(p.up, BlackHeight(sub), BLACK);
    assert BlackHeight(r) == BlackHeight(sub) + 1 && BlackBalanced(r) && NoRedRed(r);
    BalancedPlug(up, r);
    NoRedRedPlug(up, r);
    assert Plug(p, sub) == Plug(up, Node(Node(sub, i, k, RED, c), g, kg, cg, u));
    if !up.Top? {
      ColorPlug(up, r, Node(Node(sub, i, k, RED, c), g, kg, cg, u));
    }
  }

  /** Case 4.4 (BLACK uncle, right-right): mirror image of case 4.1. */
  lemma Case44Tree(p: Path, sub: Tree)
    requires InsertInv(p, sub) && p.RightOf? && p.color == RED && !p.up.Top? && p.up.RightOf?
    requires ColorOf(p.up.left) == BLACK
    ensures WellColored(Plug(p.up.up, Node(Node(p.up.left, p.up.id, p.up.key, RED, p.left), p.id, p.key, BLACK, sub)))
  {
    var RightOf(c, i, k, _, RightOf(u, g, kg, cg, up)) := p;
    var r := Node(Node(u, g, kg, RED, c), i, k, BLACK, sub);
    ParentRed(p, sub);
    SiblingFacts(p, BlackHeight(sub), RED);
    SiblingFacts(p.up, BlackHeight(sub), BLACK);
    assert BlackHeight(r) == BlackHeight(sub) + 1 && BlackBalanced(r) && NoRedRed(r);
    BalancedPlug(up, r);
    NoRedRedPlug(up, r);
    assert Plug(p, sub) == Plug(up, Node(u, g, kg, cg, Node(c, i, k, RED, sub)));
    if !up.Top? {
      ColorPlug(up, r, Node(u, g, kg, cg, Node(c, i, k, RED, sub)));
    }
  }

  /**
   * Case 4.2 (BLACK uncle, parent a left child, `current` a right child):
   * after the two rotations `current` holds the parent and the grandparent as
   * its children; painted BLACK over a RED grandparent the tree is well coloured.
   */
  lemma Case42Tree(p: Path, sub: Tree)
    requires InsertInv(p, sub) && p.RightOf? && p.color == RED && !p.up.Top? && p.up.LeftOf?
    requires ColorOf(p.up.right) == BLACK
    ensures WellColored(Plug(p.up.up,
      Node(Node(p.left, p.id, p.key, RED, sub.left), sub.id, sub.key, BLACK, Node(sub.right, p.up.id, p.up.key, RED, p.up.right))))
  {
    var RightOf(a, i, k, _, LeftOf(up, g, kg, cg, u)) := p;
    var Node(b, x, kx, _, c) := sub;
    var r := Node(Node(a, i, k, RED, b), x, kx, BLACK, Node(c, g, kg, RED, u));
    assert NoRedRed(b) && NoRedRed(c) && BlackBalanced(b) && BlackBalanced(c);
    ParentRed(p, sub);
    SiblingFacts(p, BlackHeight(sub), RED);
    SiblingFacts(p.up, BlackHeight(sub), BLACK);
    assert BlackBalanced(Node(a, i, k, RED, b)) && NoRedRed(Node(a, i, k, RED, b));
    assert BlackBalanced(Node(c, g, kg, RED, u)) && NoRedRed(Node(c, g, kg, RED, u));
    assert BlackHeight(r) == BlackHeight(sub) + 1 && BlackBalanced(r) && NoRedRed(r);
    BalancedPlug(up, r);
    NoRedRedPlug(up, r);
    assert Plug(p, sub) == Plug(up, Node(Node(a, i, k, RED, sub), g, kg, cg, u));
    if !up.Top? {
      ColorPlug(up, r, Node(Node(a, i, k, RED, sub), g, kg, cg, u));
    }
  }

  /** Case 4.3 (BLACK uncle, parent a right child, `current` a left child): mirror image of case 4.2. */
  lemma Case43Tree(p: Path, sub: Tree)
    requires InsertInv(p, sub) && p.LeftOf? && p.color == RED && !p.up.Top? && p.up.RightOf?
    requires ColorOf(p.up.left) == BLACK
    ensures WellColored(Plug(p.up.up,
      Node(Node(p.up.left, p.up.id, p.up.key, RED, sub.left), sub.id, sub.key, BLACK, Node(sub.right, p.id, p.key, RED, p.right))))
  {
    var LeftOf(RightOf(u, g, kg, cg, up), i, k, _, c) := p;
    var Node(a, x, kx, _, b) := sub;
    var r := Node(Node(u, g, kg, RED, a), x, kx, BLACK, Node(b, i, k, RED, c));
    assert NoRedRed(a) && NoRedRed(b) && BlackBalanced(a) && BlackBalanced(b);
    ParentRed(p, sub);
    SiblingFacts(p, BlackHeight(sub), RED);
    SiblingFacts(p.up, BlackHeight(sub), BLACK);
    assert BlackBalanced(Node(u, g, kg, RED, a)) && NoRedRed(Node(u, g, kg, RED, a));
    assert BlackBalanced(Node(b, i, k, RED, c)) && NoRedRed(Node(b, i, k, RED, c));
    assert BlackHeight(r) == BlackHeight(sub) + 1 && BlackBalanced(r) && NoRedRed(r);
    BalancedPlug(up, r);
    NoRedRedPlug(up, r);
    assert Plug(p, sub) == Plug(up, Node(u, g, kg, cg, Node(sub, i, k, RED, c)));
    if !up.Top? {
      ColorPlug(up, r, Node(u, g, kg, cg, Node(sub, i, k, RED, c)));
    }
  }

  // ---------------------------------------------------------------------
  // The same cases on the arena: the exact writes of the Java code

  /** The position of the sibling, when the focus holds `t`. */
  function Aside(p: Path, t: Tree): (q: Path)
    requires !p.Top?
    ensures Plug(q, SiblingTree(p)) == Plug(p, t)
    ensures Depth(q) == Depth(p)
  {
    match p
    case LeftOf(up, i, k, c, r) => RightOf(t, i, k, c, up)
    case RightOf(l, i, k, c, up) => LeftOf(up, i, k, c, t)
  }

  /** The node of the parent of a position, also when the position is a nil leaf. */
  lemma ParentAt(s: State, p: Path, t: Tree)
    requires Represents(s, Plug(p, t)) && !p.Top?
    ensures IsNode(s, p.id)
    ensures s.nodes[p.id] == TreeNode(RootOf(Up(p, t).left), RootOf(Up(p, t).right), ParentId(p.up), p.key, p.color)
  {
    PlugUp(p, t);
    NodeAt(s, p.up, Up(p, t));
  }

  /** `new TreeNode(value)` leaves the represented tree as it is; the new node is not part of it. */
  lemma AllocateRep(s: State, t: Tree, v: int)
    requires Represents(s, t)
    ensures Represents(Allocate(s, v), t) && |s.nodes| !in Ids(t)
  {
    IdsInArena(s, t);
    RepFrame(s, Allocate(s, v), t, Nil);
  }

  /** Lines 185-187: the first node of an empty tree becomes its RED root. */
  lemma AttachRootWrites(s: State, v: int)
    requires Closed(s) && Represents(s, Leaf)
    ensures Represents(SetRoot(Allocate(s, v), |s.nodes|), Node(Leaf, |s.nodes|, v, RED, Leaf))
  {
  }

  /**
   * Lines 202-212: a new RED node hung below `parent` on the side the search
   * went, with its parent reference set.
   */
  lemma AttachWrites(s: State, p: Path, v: int)
    requires Closed(s) && Represents(s, Plug(p, Leaf)) && !p.Top?
    ensures IsNode(s, p.id) && Value(s, p.id) == p.key
    ensures
      var n := |s.nodes|;
      var s1 := Allocate(s, v);
      var s2 := if p.LeftOf? then SetLeft(s1, p.id, n) else SetRight(s1, p.id, n);
      Represents(SetParent(s2, n, p.id), Plug(p, Node(Leaf, n, v, RED, Leaf)))
  {
    var n := |s.nodes|;
    var s1 := Allocate(s, v);
    var leaf := Node(Leaf, n, v, RED, Leaf);
    AllocateRep(s, Plug(p, Leaf), v);
    IdsPlug(p, Leaf);
    ParentAt(s, p, Leaf);
    var s3 := AttachEffect(s1, p, n);
    RepPlug(s1, p, Leaf);
    UniquePlug(p, Leaf);
    PathIdsInArena(s1, p, Nil);
    assert p.id in PathIds(p);
    assert Rep(s3, leaf, p.id);
    PathFocus(s1, s3, p, Nil, n);
    RepPlug(s3, p, leaf);
    ReplaceUnique(p, Leaf, leaf);
  }

  /** The two link writes of lines 202-212 on the arena holding the new node `n`. */
  lemma AttachEffect(s1: State, p: Path, n: nat) returns (s3: State)
    requires !p.Top? && p.id < n && n < |s1.nodes|
    ensures s3 == SetParent(if p.LeftOf? then SetLeft(s1, p.id, n) else SetRight(s1, p.id, n), n, p.id)
    ensures |s3.nodes| == |s1.nodes| && s3.root == s1.root
    ensures s3.nodes[n] == s1.nodes[n].(parent := p.id)
    ensures s3.nodes[p.id] == WithFocus(s1.nodes[p.id], p, n)
    ensures forall j :: 0 <= j < |s1.nodes| && j != n && j != p.id ==> SameNode(s1, s3, j)
  {
    s3 := SetParent(if p.LeftOf? then SetLeft(s1, p.id, n) else SetRight(s1, p.id, n), n, p.id);
  }

  /** Lines 250-252: case 3 paints the parent and the uncle BLACK and the grandparent RED. */
  lemma Case3Writes(s: State, p: Path, sub: Tree)
    requires Represents(s, Plug(p, sub)) && !p.Top? && !p.up.Top? && SiblingTree(p.up).Node?
    ensures IsNode(s, p.id) && IsNode(s, p.up.id) && IsNode(s, SiblingTree(p.up).id)
    ensures Represents(SetColor(SetColor(SetColor(s, p.id, BLACK), SiblingTree(p.up).id, BLACK), p.up.id, RED),
                       Plug(p.up.up, RepaintedTree(p, sub)))
  {
    var pt := Up(p, sub);
    var pt1 := pt.(color := BLACK);
    var u := SiblingTree(p.up);
    PlugUp(p, sub);
    RecolorRep(s, p.up, pt, BLACK);
    var s1 := SetColor(s, p.id, BLACK);
    var q := Aside(p.up, pt1);
    RecolorRep(s1, q, u, BLACK);
    var s2 := SetColor(s1, u.id, BLACK);
    var g2 := Up(p.up, pt1);
    PlugUp(p.up, pt1);
    var u1 := u.(color := BLACK);
    assert g2 == if p.up.LeftOf? then Node(pt1, p.up.id, p.up.key, p.up.color, u) else Node(u, p.up.id, p.up.key, p.up.color, pt1);
    var g3 := if p.up.LeftOf? then Node(pt1, p.up.id, p.up.key, p.up.color, u1) else Node(u1, p.up.id, p.up.key, p.up.color, pt1);
    assert Plug(q, u1) == Plug(p.up.up, g3);
    RecolorRep(s2, p.up.up, g3, RED);
  }

  /** Lines 271-273: case 4.1 paints the parent BLACK and the grandparent RED and rotates the parent right. */
  lemma Case41Writes(s: State, p: Path, sub: Tree)
    requires Closed(s) && Represents(s, Plug(p, sub)) && sub.Node? && p.LeftOf? && !p.up.Top? && p.up.LeftOf?
    ensures IsNode(s, p.id) && IsNode(s, p.up.id)
    ensures
      var s2 := SetColor(SetColor(s, p.id, BLACK), p.up.id, RED);
      var r := Node(sub, p.id, p.key, BLACK, Node(p.right, p.up.id, p.up.key, RED, p.up.right));
      Closed(s2) && IsNode(s2, p.id) && Parent(s2, p.id) != Nil &&
      Represents(RotateRight(s2, p.id), Plug(p.up.up, r)) && InOrder(Plug(p.up.up, r)) == InOrder(Plug(p, sub))
  {
    var LeftOf(LeftOf(up, g, kg, cg, u), i, k, c, r) := p;
    var pt := Node(sub, i, k, BLACK, r);
    RecolorRep(s, p.up, Up(p, sub), BLACK);
    var s1 := SetColor(s, i, BLACK);
    RecolorRep(s1, up, Node(pt, g, kg, cg, u), RED);
    var s2 := SetColor(s1, g, RED);
    var gt := Node(pt, g, kg, RED, u);
    RotateRightRep(s2, up, gt);
    ReplaceInOrder(up, gt, Node(Node(sub, i, k, c, r), g, kg, cg, u));
  }

  /** Lines 295-297: case 4.4, the mirror image of case 4.1. */
  lemma Case44Writes(s: State, p: Path, sub: Tree)
    requires Closed(s) && Represents(s, Plug(p, sub)) && sub.Node? && p.RightOf? && !p.up.Top? && p.up.RightOf?
    ensures IsNode(s, p.id) && IsNode(s, p.up.id)
    ensures
      var s2 := SetColor(SetColor(s, p.id, BLACK), p.up.id, RED);
      var r := Node(Node(p.up.left, p.up.id, p.up.key, RED, p.left), p.id, p.key, BLACK, sub);
      Closed(s2) && IsNode(s2, p.id) && Parent(s2, p.id) != Nil &&
      Represents(RotateLeft(s2, p.id), Plug(p.up.up, r)) && InOrder(Plug(p.up.up, r)) == InOrder(Plug(p, sub))
  {
    var RightOf(l, i, k, c, RightOf(u, g, kg, cg, up)) := p;
    var pt := Node(l, i, k, BLACK, sub);
    RecolorRep(s, p.up, Up(p, sub), BLACK);
    var s1 := SetColor(s, i, BLACK);
    RecolorRep(s1, up, Node(u, g, kg, cg, pt), RED);
    var s2 := SetColor(s1, g, RED);
    var gt := Node(u, g, kg, RED, pt);
    RotateLeftRep(s2, up, gt);
    ReplaceInOrder(up, gt, Node(u, g, kg, cg, Node(l, i, k, c, sub)));
  }

  /** The two rotations of case 4.2: `current` is rotated up past its parent and then past its grandparent. */
  lemma Case42Rotations(s: State, p: Path, sub: Tree)
    requires Closed(s) && Represents(s, Plug(p, sub)) && sub.Node? && p.RightOf? && !p.up.Top? && p.up.LeftOf?
    ensures IsNode(s, sub.id) && Parent(s, sub.id) != Nil
    ensures
      var x := sub.id;
      var s1 := RotateLeft(s, x);
      IsNode(s1, x) && Parent(s1, x) != Nil &&
      var t2 := Node(Node(p.left, p.id, p.key, p.color, sub.left), x, sub.key, sub.color, Node(sub.right, p.up.id, p.up.key, p.up.color, p.up.right));
      Represents(RotateRight(s1, x), Plug(p.up.up, t2)) && InOrder(Plug(p.up.up, t2)) == InOrder(Plug(p, sub))
  {
    var RightOf(a, i, k, c, LeftOf(up, g, kg, cg, u)) := p;
    var Node(b, x, kx, cx, d) := sub;
    var pt := Node(a, i, k, c, sub);
    RotateLeftRep(s, p.up, pt);
    var s1 := RotateLeft(s, x);
    var t1 := Node(Node(a, i, k, c, b), x, kx, cx, d);
    var gt := Node(t1, g, kg, cg, u);
    assert Plug(p.up, t1) == Plug(up, gt);
    RotateRightRep(s1, up, gt);
    assert InOrder(Plug(p, sub)) == InOrder(Plug(p.up, pt));
  }

  /** The two rotations of case 4.3, the mirror image of case 4.2. */
  lemma Case43Rotations(s: State, p: Path, sub: Tree)
    requires Closed(s) && Represents(s, Plug(p, sub)) && sub.Node? && p.LeftOf? && !p.up.Top? && p.up.RightOf?
    ensures IsNode(s, sub.id) && Parent(s, sub.id) != Nil
    ensures
      var x := sub.id;
      var s1 := RotateRight(s, x);
      IsNode(s1, x) && Parent(s1, x) != Nil &&
      var t2 := Node(Node(p.up.left, p.up.id, p.up.key, p.up.color, sub.left), x, sub.key, sub.color, Node(sub.right, p.id, p.key, p.color, p.right));
      Represents(RotateLeft(s1, x), Plug(p.up.up, t2)) && InOrder(Plug(p.up.up, t2)) == InOrder(Plug(p, sub))
  {
    var LeftOf(RightOf(u, g, kg, cg, up), i, k, c, e) := p;
    var Node(a, x, kx, cx, b) := sub;
    var pt := Node(sub, i, k, c, e);
    RotateRightRep(s, p.up, pt);
    var s1 := RotateRight(s, x);
    var t1 := Node(a, x, kx, cx, Node(b, i, k, c, e));
    var gt := Node(u, g, kg, cg, t1);
    assert Plug(p.up, t1) == Plug(up, gt);
    RotateLeftRep(s1, up, gt);
    assert InOrder(Plug(p, sub)) == InOrder(Plug(p.up, pt));
  }

  /** Painting the new top of a three-node configuration BLACK and one of its children RED. */
  lemma RecolorTopAndChild(s: State, up: Path, t: Tree, left: bool)
    requires Represents(s, Plug(up, t)) && t.Node? && (if left then t.left.Node? else t.right.Node?)
    ensures IsNode(s, t.id) && IsNode(s, if left then t.left.id else t.right.id)
    ensures
      var s3 := SetColor(s, t.id, BLACK);
      (if left then Left(s3, t.id) else Right(s3, t.id)) == (if left then t.left.id else t.right.id) &&
      var t' := if left then Node(t.left.(color := RED), t.id, t.key, BLACK, t.right)
                else Node(t.left, t.id, t.key, BLACK, t.right.(color := RED));
      Represents(SetColor(s3, if left then t.left.id else t.right.id, RED), Plug(up, t')) &&
      InOrder(Plug(up, t')) == InOrder(Plug(up, t))
  {
    RecolorRep(s, up, t, BLACK);
    var s3 := SetColor(s, t.id, BLACK);
    var tb := t.(color := BLACK);
    NodeAt(s3, up, tb);
    if left {
      var q := LeftOf(up, t.id, t.key, BLACK, t.right);
      assert Plug(q, t.left) == Plug(up, tb);
      RecolorRep(s3, q, t.left, RED);
      ReplaceInOrder(up, t, Node(t.left.(color := RED), t.id, t.key, BLACK, t.right));
    } else {
      var q := RightOf(t.left, t.id, t.key, BLACK, up);
      assert Plug(q, t.right) == Plug(up, tb);
      RecolorRep(s3, q, t.right, RED);
      ReplaceInOrder(up, t, Node(t.left, t.id, t.key, BLACK, t.right.(color := RED)));
    }
  }

  /**
   * Lines 279-282: case 4.2 rotates `current` left and then right, paints it
   * BLACK and paints its new right child, the old grandparent, RED.
   */
  lemma Case42Writes(s: State, p: Path, sub: Tree)
    requires Closed(s) && Represents(s, Plug(p, sub)) && sub.Node? && p.RightOf? && !p.up.Top? && p.up.LeftOf?
    ensures IsNode(s, sub.id) && Parent(s, sub.id) != Nil
    ensures
      var x := sub.id;
      var s1 := RotateLeft(s, x);
      IsNode(s1, x) && Parent(s1, x) != Nil &&
      var s3 := SetColor(RotateRight(s1, x), x, BLACK);
      Right(s3, x) == p.up.id &&
      var r := Node(Node(p.left, p.id, p.key, p.color, sub.left), x, sub.key, BLACK, Node(sub.right, p.up.id, p.up.key, RED, p.up.right));
      Represents(SetColor(s3, p.up.id, RED), Plug(p.up.up, r)) && InOrder(Plug(p.up.up, r)) == InOrder(Plug(p, sub))
  {
    Case42Rotations(s, p, sub);
    var t2 := Node(Node(p.left, p.id, p.key, p.color, sub.left), sub.id, sub.key, sub.color, Node(sub.right, p.up.id, p.up.key, p.up.color, p.up.right));
    RecolorTopAndChild(RotateRight(RotateLeft(s, sub.id), sub.id), p.up.up, t2, false);
  }

  /** Lines 287-290: case 4.3, the mirror image of case 4.2. */
  lemma Case43Writes(s: State, p: Path, sub: Tree)
    requires Closed(s) && Represents(s, Plug(p, sub)) && sub.Node? && p.LeftOf? && !p.up.Top? && p.up.RightOf?
    ensures IsNode(s, sub.id) && Parent(s, sub.id) != Nil
    ensures
      var x := sub.id;
      var s1 := RotateRight(s, x);
      IsNode(s1, x) && Parent(s1, x) != Nil &&
      var s3 := SetColor(RotateLeft(s1, x), x, BLACK);
      Left(s3, x) == p.up.id &&
      var r := Node(Node(p.up.left, p.up.id, p.up.key, RED, sub.left), x, sub.key, BLACK, Node(sub.right, p.id, p.key, p.color, p.right));
      Represents(SetColor(s3, p.up.id, RED), Plug(p.up.up, r)) && InOrder(Plug(p.up.up, r)) == InOrder(Plug(p, sub))
  {
    Case43Rotations(s, p, sub);
    var t2 := Node(Node(p.up.left, p.up.id, p.up.key, p.up.color, sub.left), sub.id, sub.key, sub.color, Node(sub.right, p.id, p.key, p.color, p.right));
    RecolorTopAndChild(RotateLeft(RotateRight(s, sub.id), sub.id), p.up.up, t2, true);
  }

  // ---------------------------------------------------------------------
  // The search of insert (lines 189-201) on the abstract tree

  /** Every key before the position is below `v`, every key after it above `v`. */
  ghost predicate Brackets(p: Path, v: int)
  {
    (forall x :: x in Before(p) ==> x < v) && (forall x :: x in After(p) ==> v < x)
  }

  /** One step of the search keeps `v` bracketed: left below a larger key, right below a smaller one. */
  lemma Descend(p: Path, t: Tree, v: int)
    requires Ordered(Plug(p, t)) && t.Node? && t.key != v && Brackets(p, v)
    ensures t.key > v ==> Brackets(LeftOf(p, t.id, t.key, t.color, t.right), v)
    ensures t.key < v ==> Brackets(RightOf(t.left, t.id, t.key, t.color, p), v)
  {
    InOrderPlug(p, t);
    DescendSeq(Before(p), InOrder(t.left), t.key, InOrder(t.right), After(p), v);
  }

  /** Descend on the in-order sequence: the keys of the side not taken lie beyond the bracket. */
  lemma DescendSeq(b: seq<int>, l: seq<int>, k: int, r: seq<int>, a: seq<int>, v: int)
    requires Ascending(b + (l + [k] + r) + a) && k != v
    requires (forall x :: x in b ==> x < v) && (forall x :: x in a ==> v < x)
    ensures k > v ==> forall x :: x in [k] + r + a ==> v < x
    ensures k < v ==> forall x :: x in b + l + [k] ==> x < v
  {
    var s := b + (l + [k] + r) + a;
    var ik := |b| + |l|;
    assert s[ik] == k;
    if k > v {
      forall x | x in [k] + r + a ensures v < x {
        if x in r {
          var i :| 0 <= i < |r| && r[i] == x;
          assert s[ik + 1 + i] == x;
        }
      }
    } else {
      forall x | x in b + l + [k] ensures x < v {
        if x in l {
          var i :| 0 <= i < |l| && l[i] == x;
          assert s[|b| + i] == x;
        }
      }
    }
  }

  /** The search stops at a node holding `v` only when `v` is a key of the tree. */
  lemma Found(p: Path, t: Tree)
    requires t.Node?
    ensures t.key in Keys(Plug(p, t))
  {
    InOrderPlug(p, t);
    assert InOrder(t)[|InOrder(t.left)|] == t.key;
    assert InOrder(Plug(p, t))[|Before(p)| + |InOrder(t.left)|] == t.key;
  }

  lemma AscendingParts(a: seq<int>, b: seq<int>)
    requires Ascending(a + b)
    ensures Ascending(a) && Ascending(b)
  {
    assert forall i :: 0 <= i < |a| ==> (a + b)[i] == a[i];
    assert forall i :: 0 <= i < |b| ==> (a + b)[|a| + i] == b[i];
  }

  /**
   * A bracketed nil leaf of a search tree is where `v` belongs: putting a
   * node with key `v` there gives a search tree whose keys are the old ones and `v`.
   */
  lemma InsertKeys(p: Path, n: nat, c: Color, v: int)
    requires Ordered(Plug(p, Leaf)) && Brackets(p, v)
    ensures v !in Keys(Plug(p, Leaf))
    ensures Ordered(Plug(p, Node(Leaf, n, v, c, Leaf)))
    ensures Keys(Plug(p, Node(Leaf, n, v, c, Leaf))) == Keys(Plug(p, Leaf)) + {v}
  {
    InOrderPlug(p, Leaf);
    InOrderPlug(p, Node(Leaf, n, v, c, Leaf));
    InsertSeq(Before(p), After(p), v);
  }

  /** InsertKeys on the in-order sequence: `v` fits between the keys before and after the leaf. */
  lemma InsertSeq(b: seq<int>, a: seq<int>, v: int)
    requires Ascending(b + [] + a)
    requires (forall x :: x in b ==> x < v) && (forall x :: x in a ==> v < x)
    ensures v !in b + [] + a
    ensures Ascending(b + ([] + [v] + []) + a)
    ensures (set x | x in b + ([] + [v] + []) + a) == (set x | x in b + [] + a) + {v}
  {
    assert b + [] + a == b + a;
    assert b + ([] + [v] + []) + a == b + [v] + a;
    AscendingParts(b, a);
    AscendingJoin(b, v, a);
  }
}
