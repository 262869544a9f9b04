/**
 * The proof side of `adjust_delete` (RedBlackTree.java, lines 445-547).
 *
 * After a BLACK node without children has been unlinked, the subtree at its
 * position is one BLACK node short.  `DelInv` is that situation on the
 * abstract tree: the subtree `n` at position `p` is a black-rooted red-black
 * subtree whose black height is one less than its sibling's, and everything
 * else fits.  Cases 4, 5 and 6 repair the deficit; cases 7 to 10 rearrange
 * the sibling so that a repairing case applies next; case 11 moves the deficit
 * up to the parent.  `Rank` and the depth of the position give the measure
 * under which the recursion terminates.
 *
 * Cases 9 and 10 are stated here with `parent.getRight()` (case 10:
 * `parent.getLeft()`) as the new sibling; the source passes a child of the
 * old sibling instead, which is exhibited in module AsWritten.
 */
module DeleteFixup {
  import opened Nodes
  import opened Trees
  import opened Layout
  import opened Rotations
  import opened Queries
  import opened InsertFixup
  import opened Removal

  /** The subtree `n` is one BLACK node short of its sibling and otherwise everything is red-black. */
  ghost predicate DelInv(p: Path, n: Tree)
  {
    ColorOf(n) == BLACK && NoRedRed(n) && BlackBalanced(n) &&
    (!p.Top? ==>
      var sib := SiblingTree(p);
      BlackBalanced(sib) && NoRedRed(sib) && BlackHeight(sib) == BlackHeight(n) + 1 &&
      (p.color == RED ==> ColorOf(sib) == BLACK) &&
      PathBalanced(p.up, BlackHeight(n) + 1 + (if p.color == BLACK then 1 else 0)) &&
      PathNoRedRed(p.up, p.color) &&
      ColorOf(Plug(p, n)) == BLACK)
  }

  /**
   * How far the configuration at `p` is from a repairing case: 3 for a RED
   * sibling (cases 9, 10) and for an all-BLACK neighbourhood (case 11), 1 for
   * the configurations of cases 7 and 8, 0 otherwise.
   */
  ghost function Rank(p: Path): nat
  {
    if p.Top? then 0
    else
      var sib := SiblingTree(p);
      if sib.Leaf? then 0
      else if sib.color == RED then 3
      else if p.color == BLACK && ColorOf(sib.left) == BLACK && ColorOf(sib.right) == BLACK then 3
      else if p.LeftOf? && ColorOf(sib.right) == BLACK && ColorOf(sib.left) == RED then 1
      else if p.RightOf? && ColorOf(sib.left) == BLACK && ColorOf(sib.right) == RED then 1
      else 0
  }

  /** The subtree of the parent of position `p`, holding `t` at the focus, with colour `c` and other child `sib`. */
  function Join(p: Path, t: Tree, c: Color, sib: Tree): (j: Tree)
    requires !p.Top?
    ensures j.Node? && j.id == p.id && j.key == p.key && j.color == c
  {
    if p.LeftOf? then Node(t, p.id, p.key, c, sib) else Node(sib, p.id, p.key, c, t)
  }

  /** Below the top the sibling exists, since it holds at least one BLACK node. */
  lemma SiblingExists(p: Path, n: Tree)
    requires DelInv(p, n) && !p.Top?
    ensures SiblingTree(p).Node?
  {
  }

  /** The parent subtree with the same colours is `Up`, and plugging it one level up is plugging `n`. */
  lemma JoinUp(p: Path, n: Tree)
    requires !p.Top?
    ensures Join(p, n, p.color, SiblingTree(p)) == Up(p, n)
    ensures Plug(p.up, Up(p, n)) == Plug(p, n)
    ensures InOrder(Plug(p.up, Join(p, n, BLACK, Recolored(SiblingTree(p), RED)))) == InOrder(Plug(p, n))
  {
    PlugUp(p, n);
    ReplaceInOrder(p.up, Up(p, n), Join(p, n, BLACK, Recolored(SiblingTree(p), RED)));
  }

  // ---------------------------------------------------------------------
  // The cases on the abstract tree

  /** Case 4: RED parent, BLACK sibling with BLACK children; swapping their colours repairs the deficit. */
  lemma Case4Tree(p: Path, n: Tree)
    requires DelInv(p, n) && !p.Top? && p.color == RED
    requires SiblingTree(p).Node? && SiblingTree(p).color == BLACK
    requires ColorOf(SiblingTree(p).left) == BLACK && ColorOf(SiblingTree(p).right) == BLACK
    ensures WellColored(Plug(p.up, Join(p, n, BLACK, Recolored(SiblingTree(p), RED))))
  {
    var j := Join(p, n, BLACK, Recolored(SiblingTree(p), RED));
    var sib := SiblingTree(p);
    assert BlackHeight(sib.left) == BlackHeight(n) && BlackHeight(sib.right) == BlackHeight(n);
    assert BlackHeight(Recolored(sib, RED)) == BlackHeight(n) && NoRedRed(Recolored(sib, RED));
    assert BlackBalanced(Recolored(sib, RED));
    assert BlackBalanced(j) && NoRedRed(j) && BlackHeight(j) == BlackHeight(n) + 1;
    BalancedPlug(p.up, j);
    PathNoRedRedBlack(p.up, RED);
    NoRedRedPlug(p.up, j);
    JoinUp(p, n);
    if !p.up.Top? {
      ColorPlug(p.up, j, Up(p, n));
    }
  }

  /** Case 11: everything around is BLACK; painting the sibling RED moves the deficit to the parent. */
  lemma Case11Tree(p: Path, n: Tree)
    requires DelInv(p, n) && !p.Top? && p.color == BLACK
    requires SiblingTree(p).Node? && SiblingTree(p).color == BLACK
    requires ColorOf(SiblingTree(p).left) == BLACK && ColorOf(SiblingTree(p).right) == BLACK
    ensures DelInv(p.up, Join(p, n, BLACK, Recolored(SiblingTree(p), RED)))
    ensures InOrder(Plug(p.up, Join(p, n, BLACK, Recolored(SiblingTree(p), RED)))) == InOrder(Plug(p, n))
    ensures Depth(p.up) < Depth(p)
  {
    var j := Join(p, n, BLACK, Recolored(SiblingTree(p), RED));
    var sib := SiblingTree(p);
    assert BlackHeight(sib.left) == BlackHeight(n) && BlackHeight(sib.right) == BlackHeight(n);
    assert BlackHeight(Recolored(sib, RED)) == BlackHeight(n) && NoRedRed(Recolored(sib, RED));
    assert BlackBalanced(Recolored(sib, RED));
    assert BlackBalanced(j) && NoRedRed(j) && BlackHeight(j) == BlackHeight(n) + 1;
    JoinUp(p, n);
    if !p.up.Top? {
      PathNoRedRedBlack(p.up, BLACK);
      SiblingFacts(p.up, BlackHeight(j) + 1, BLACK);
      ColorPlug(p.up, j, Up(p, n));
    }
  }

  /**
   * Case 5 (`current` a left child, BLACK sibling with RED right child):
   * after the recolouring and the left rotation the deficit is gone.
   */
  lemma Case5Tree(p: Path, n: Tree)
    requires DelInv(p, n) && p.LeftOf? && p.right.Node? && p.right.color == BLACK && ColorOf(p.right.right) == RED
    ensures WellColored(Plug(p.up,
      Node(Node(n, p.id, p.key, BLACK, p.right.left), p.right.id, p.right.key, p.color, p.right.right.(color := BLACK))))
  {
    var LeftOf(up, i, k, c, Node(sl, si, sk, _, sr)) := p;
    var r := Node(Node(n, i, k, BLACK, sl), si, sk, c, sr.(color := BLACK));
    assert BlackBalanced(sl) && BlackBalanced(sr) && NoRedRed(sl) && NoRedRed(sr);
    assert BlackBalanced(sr.(color := BLACK)) && NoRedRed(sr.(color := BLACK));
    assert BlackBalanced(r) && NoRedRed(r);
    assert BlackHeight(r) == BlackHeight(n) + 1 + (if c == BLACK then 1 else 0);
    BalancedPlug(up, r);
    NoRedRedPlug(up, r);
    assert Plug(p, n) == Plug(up, Up(p, n));
    if !up.Top? {
      ColorPlug(up, r, Up(p, n));
    }
  }

  /** Case 6: the mirror image of case 5 for a right child. */
  lemma Case6Tree(p: Path, n: Tree)
    requires DelInv(p, n) && p.RightOf? && p.left.Node? && p.left.color == BLACK && ColorOf(p.left.left) == RED
    ensures WellColored(Plug(p.up,
      Node(p.left.left.(color := BLACK), p.left.id, p.left.key, p.color, Node(p.left.right, p.id, p.key, BLACK, n))))
  {
    var RightOf(Node(sl, si, sk, _, sr), i, k, c, up) := p;
    var r := Node(sl.(color := BLACK), si, sk, c, Node(sr, i, k, BLACK, n));
    assert BlackBalanced(sl) && BlackBalanced(sr) && NoRedRed(sl) && NoRedRed(sr);
    assert BlackBalanced(sl.(color := BLACK)) && NoRedRed(sl.(color := BLACK));
    assert BlackBalanced(r) && NoRedRed(r);
    assert BlackHeight(r) == BlackHeight(n) + 1 + (if c == BLACK then 1 else 0);
    BalancedPlug(up, r);
    NoRedRedPlug(up, r);
    assert Plug(p, n) == Plug(up, Up(p, n));
    if !up.Top? {
      ColorPlug(up, r, Up(p, n));
    }
  }

  /** The sibling after case 7: its RED left child rotated up above it and painted BLACK. */
  function Case7Sibling(sib: Tree): Tree
    requires sib.Node? && sib.left.Node?
  {
    Node(sib.left.left, sib.left.id, sib.left.key, BLACK, Node(sib.left.right, sib.id, sib.key, RED, sib.right))
  }

  /** The sibling after case 8: the mirror image of Case7Sibling. */
  function Case8Sibling(sib: Tree): Tree
    requires sib.Node? && sib.right.Node?
  {
    Node(Node(sib.left, sib.id, sib.key, RED, sib.right.left), sib.right.id, sib.right.key, BLACK, sib.right.right)
  }

  /**
   * Case 7 (`current` a left child, BLACK sibling whose right child is BLACK
   * and left child RED): the right rotation gives a sibling with a RED right
   * child, the configuration of case 5.
   */
  lemma Case7Tree(p: Path, n: Tree)
    requires DelInv(p, n) && p.LeftOf? && p.right.Node? && p.right.color == BLACK
    requires ColorOf(p.right.right) == BLACK && p.right.left.Node? && p.right.left.color == RED
    ensures DelInv(p.(right := Case7Sibling(p.right)), n)
    ensures ColorOf(Case7Sibling(p.right).right) == RED
    ensures Plug(p.(right := Case7Sibling(p.right)), n) == Plug(p.up, Node(n, p.id, p.key, p.color, Case7Sibling(p.right)))
    ensures InOrder(Plug(p.(right := Case7Sibling(p.right)), n)) == InOrder(Plug(p, n))
    ensures Rank(p.(right := Case7Sibling(p.right))) < Rank(p)
  {
    var LeftOf(up, i, k, c, sib) := p;
    var Node(Node(a, li, lk, _, b), si, sk, _, sr) := sib;
    assert NoRedRed(sib.left) && BlackBalanced(sib.left);
    assert BlackHeight(sib) == BlackHeight(sib.left) + 1 && BlackHeight(sib.left) == BlackHeight(a);
    var sib' := Case7Sibling(sib);
    assert sib' == Node(a, li, lk, BLACK, Node(b, si, sk, RED, sr));
    assert BlackHeight(sib') == BlackHeight(a) + 1;
    assert NoRedRed(a) && NoRedRed(b) && BlackBalanced(a) && BlackBalanced(b);
    assert BlackBalanced(sib') && NoRedRed(sib') && BlackHeight(sib') == BlackHeight(sib);
    var p' := p.(right := sib');
    if !up.Top? {
      ColorPlug(up, Up(p', n), Up(p, n));
    }
    assert InOrder(sib') == InOrder(sib);
    ReplaceInOrder(up, Up(p, n), Up(p', n));
  }

  /** Case 8: the mirror image of case 7, leading to case 6. */
  lemma Case8Tree(p: Path, n: Tree)
    requires DelInv(p, n) && p.RightOf? && p.left.Node? && p.left.color == BLACK
    requires ColorOf(p.left.left) == BLACK && p.left.right.Node? && p.left.right.color == RED
    ensures DelInv(p.(left := Case8Sibling(p.left)), n)
    ensures ColorOf(Case8Sibling(p.left).left) == RED
    ensures Plug(p.(left := Case8Sibling(p.left)), n) == Plug(p.up, Node(Case8Sibling(p.left), p.id, p.key, p.color, n))
    ensures InOrder(Plug(p.(left := Case8Sibling(p.left)), n)) == InOrder(Plug(p, n))
    ensures Rank(p.(left := Case8Sibling(p.left))) < Rank(p)
  {
    var RightOf(sib, i, k, c, up) := p;
    var Node(sl, si, sk, _, Node(a, ri, rk, _, b)) := sib;
    assert NoRedRed(sib.right) && BlackBalanced(sib.right);
    assert BlackHeight(sib) == BlackHeight(sl) + 1;
    var sib' := Case8Sibling(sib);
    assert sib' == Node(Node(sl, si, sk, RED, a), ri, rk, BLACK, b);
    assert BlackHeight(sib') == BlackHeight(sl) + 1;
    assert NoRedRed(a) && NoRedRed(b) && BlackBalanced(a) && BlackBalanced(b);
    assert BlackBalanced(sib') && NoRedRed(sib') && BlackHeight(sib') == BlackHeight(sib);
    var p' := p.(left := sib');
    if !up.Top? {
      ColorPlug(up, Up(p', n), Up(p, n));
    }
    assert InOrder(sib') == InOrder(sib);
    ReplaceInOrder(up, Up(p', n), Up(p, n));
  }

  /** The position of `current` after case 9: below the RED old parent, below the old sibling. */
  function Case9Path(p: Path): Path
    requires p.LeftOf? && p.right.Node?
  {
    LeftOf(LeftOf(p.up, p.right.id, p.right.key, p.color, p.right.right), p.id, p.key, RED, p.right.left)
  }

  /** The position of `current` after case 10: the mirror image of Case9Path. */
  function Case10Path(p: Path): Path
    requires p.RightOf? && p.left.Node?
  {
    RightOf(p.left.right, p.id, p.key, RED, RightOf(p.left.left, p.left.id, p.left.key, p.color, p.up))
  }

  /**
   * Case 9 (`current` a left child, RED sibling): after the left rotation the
   * deficit sits one level lower, below a RED parent, with the old sibling's
   * left child as its BLACK sibling; no RED-sibling or all-BLACK case can follow.
   */
  lemma Case9Tree(p: Path, n: Tree)
    requires DelInv(p, n) && p.LeftOf? && p.right.Node? && p.right.color == RED
    ensures p.color == BLACK
    ensures DelInv(Case9Path(p), n)
    ensures Plug(Case9Path(p), n) == Plug(p.up, Node(Node(n, p.id, p.key, RED, p.right.left), p.right.id, p.right.key, p.color, p.right.right))
    ensures InOrder(Plug(Case9Path(p), n)) == InOrder(Plug(p, n))
    ensures Depth(Case9Path(p)) + Rank(Case9Path(p)) < Depth(p) + Rank(p)
  {
    var LeftOf(up, i, k, c, Node(sl, si, sk, _, sr)) := p;
    var q := Case9Path(p);
    assert NoRedRed(sl) && NoRedRed(sr) && BlackBalanced(sl) && BlackBalanced(sr);
    assert PathBalanced(q.up, BlackHeight(n) + 1);
    var w := Node(Up(q, n), si, sk, c, sr);
    if !up.Top? {
      ColorPlug(up, w, Up(p, n));
    }
    assert Plug(q, n) == Plug(up, w);
    assert InOrder(w) == InOrder(Up(p, n));
    ReplaceInOrder(up, Up(p, n), w);
  }

  /** Case 10: the mirror image of case 9. */
  lemma Case10Tree(p: Path, n: Tree)
    requires DelInv(p, n) && p.RightOf? && p.left.Node? && p.left.color == RED
    ensures p.color == BLACK
    ensures DelInv(Case10Path(p), n)
    ensures Plug(Case10Path(p), n) == Plug(p.up, Node(p.left.left, p.left.id, p.left.key, p.color, Node(p.left.right, p.id, p.key, RED, n)))
    ensures InOrder(Plug(Case10Path(p), n)) == InOrder(Plug(p, n))
    ensures Depth(Case10Path(p)) + Rank(Case10Path(p)) < Depth(p) + Rank(p)
  {
    var RightOf(Node(sl, si, sk, _, sr), i, k, c, up) := p;
    var q := Case10Path(p);
    assert NoRedRed(sl) && NoRedRed(sr) && BlackBalanced(sl) && BlackBalanced(sr);
    assert PathBalanced(q.up, BlackHeight(n) + 1);
    var w := Node(sl, si, sk, c, Up(q, n));
    if !up.Top? {
      ColorPlug(up, w, Up(p, n));
    }
    assert Plug(q, n) == Plug(up, w);
    assert InOrder(w) == InOrder(Up(p, n));
    ReplaceInOrder(up, Up(p, n), w);
  }

  /**
   * The remaining cases exhaust the possibilities: below the top, one of
   * cases 4, 5 or 6, 7 or 8, 9 or 10, 11 applies.
   */
  lemma CasesExhaustive(p: Path, n: Tree)
    requires DelInv(p, n) && !p.Top?
    ensures var sib := SiblingTree(p);
      sib.Node? &&
      ((p.color == RED && sib.color == BLACK && ColorOf(sib.left) == BLACK && ColorOf(sib.right) == BLACK) ||
       (p.LeftOf? && sib.color == BLACK && ColorOf(sib.right) == RED) ||
       (p.RightOf? && sib.color == BLACK && ColorOf(sib.left) == RED) ||
       (p.LeftOf? && sib.color == BLACK && ColorOf(sib.left) == RED) ||
       (p.RightOf? && sib.color == BLACK && ColorOf(sib.right) == RED) ||
       sib.color == RED ||
       (p.color == BLACK && sib.color == BLACK && ColorOf(sib.left) == BLACK && ColorOf(sib.right) == BLACK))
  {
  }

  /** One of the cases that end adjust_delete without a rotation into a further step (cases 4, 5 and 6) applies. */
  predicate Terminal(p: Path)
    requires !p.Top? && SiblingTree(p).Node?
  {
    var sib := SiblingTree(p);
    (p.color == RED && sib.color == BLACK && ColorOf(sib.left) == BLACK && ColorOf(sib.right) == BLACK) ||
    (p.LeftOf? && sib.color == BLACK && ColorOf(sib.right) == RED) ||
    (p.RightOf? && sib.color == BLACK && ColorOf(sib.left) == RED)
  }

  /**
   * Where adjust_delete starts (lines 364-383): a BLACK node with at most one
   * child and no RED child has no child at all, and unlinking it leaves the
   * deficit described by DelInv (or the empty tree, at the root).
   */
  lemma DeleteStart(p: Path, d: Tree)
    requires WellColored(Plug(p, d)) && d.Node? && d.color == BLACK && (d.left.Leaf? || d.right.Leaf?)
    requires ColorOf(ChildTree(d)) == BLACK
    ensures d.left.Leaf? && d.right.Leaf?
    ensures DelInv(p, Leaf)
  {
    BalancedPlug(p, d);
    NoRedRedPlug(p, d);
    if !p.Top? {
      PathNoRedRedBlack(p, BLACK);
      SiblingFacts(p, 1, BLACK);
      ColorPlug(p, Leaf, d);
    }
  }

  /** What the arena says about a node with at most one child that `delete` is about to remove. */
  lemma RemovalFacts(s: State, p: Path, d: Tree)
    requires Closed(s) && Represents(s, Plug(p, d)) && WellColored(Plug(p, d)) && d.Node? && (d.left.Leaf? || d.right.Leaf?)
    ensures IsNode(s, d.id) && ColorAt(s, d.id) == d.color && Parent(s, d.id) == ParentId(p)
    ensures GetChild(s, d.id) == RootOf(ChildTree(d)) && IsPtr(s, RootOf(ChildTree(d)))
    ensures ChildTree(d).Node? ==> ColorAt(s, ChildTree(d).id) == ChildTree(d).color
    ensures d.color == RED ==> !p.Top?
    ensures Sibling(s, d.id) == if p.Top? then Nil else RootOf(SiblingTree(p))
    ensures !p.Top? ==> (Right(s, p.id) == d.id <==> p.RightOf?)
  {
    ReplaceWrites(s, p, d);
    Position(s, p, d);
    RepPlug(s, p, d);
    assert Rep(s, d.left, d.id) && Rep(s, d.right, d.id);
    IsBlackNodeOf(s, ChildTree(d), d.id);
    SiblingOf(s, p, d);
    if d.color == RED {
      RedRemoval(p, d);
    }
  }

  /** The tree the two shortcut cases of delete_simple_case leave: the child, painted BLACK under a BLACK node, in the node's place. */
  function Shortcut(p: Path, d: Tree): Tree
    requires d.Node?
  {
    Plug(p, if d.color == RED then ChildTree(d) else Recolored(ChildTree(d), BLACK))
  }

  /**
   * Cases 1 and 2 of delete_simple_case (lines 397-436) leave a state that
   * represents the shortcut tree, which is well coloured and has the in-order
   * sequence of the tree without the node.
   */
  lemma ShortcutRep(s: State, s': State, p: Path, d: Tree)
    requires Closed(s) && Represents(s, Plug(p, d)) && WellColored(Plug(p, d)) && d.Node? && (d.left.Leaf? || d.right.Leaf?)
    requires IsNode(s, d.id)
    requires d.color == RED ==> s' == Removal.Replace(s, d.id)
    requires d.color == BLACK ==> ColorOf(ChildTree(d)) == RED && GetChild(s, d.id) != Nil && s' == PromoteChild(s, d.id)
    ensures Represents(s', Shortcut(p, d)) && WellColored(Shortcut(p, d))
    ensures InOrder(Shortcut(p, d)) == InOrder(Plug(p, ChildTree(d)))
  {
    var c := ChildTree(d);
    if d.color == RED {
      RedRemoval(p, d);
      ReplaceWrites(s, p, d);
      SplicedRep(s, s', p, d, ColorOf(c));
      assert Recolored(c, ColorOf(c)) == c;
    } else {
      BlackRemoval(p, d);
      PromoteChildWrites(s, p, d);
      SplicedRep(s, s', p, d, BLACK);
      ReplaceInOrder(p, c, Recolored(c, BLACK));
    }
  }

  // ---------------------------------------------------------------------
  // The same cases on the arena: the exact writes of the Java code

  /** What adjust_delete reads around the deficit: the parent, the sibling and the sibling's children. */
  lemma Around(s: State, p: Path, n: Tree)
    requires Represents(s, Plug(p, n)) && !p.Top? && SiblingTree(p).Node?
    ensures IsNode(s, p.id) && ColorAt(s, p.id) == p.color && Parent(s, p.id) == ParentId(p.up)
    ensures Left(s, p.id) == RootOf(Up(p, n).left) && Right(s, p.id) == RootOf(Up(p, n).right)
    ensures var sib := SiblingTree(p);
      IsNode(s, sib.id) && ColorAt(s, sib.id) == sib.color && Parent(s, sib.id) == p.id &&
      Left(s, sib.id) == RootOf(sib.left) && Right(s, sib.id) == RootOf(sib.right) &&
      IsPtr(s, RootOf(sib.left)) && IsPtr(s, RootOf(sib.right)) &&
      (IsBlackNode(s, RootOf(sib.left)) <==> ColorOf(sib.left) == BLACK) &&
      (IsBlackNode(s, RootOf(sib.right)) <==> ColorOf(sib.right) == BLACK)
  {
    ParentAt(s, p, n);
    var sib := SiblingTree(p);
    var q := Aside(p, n);
    NodeAt(s, q, sib);
    RepPlug(s, q, sib);
    assert Rep(s, sib.left, sib.id) && Rep(s, sib.right, sib.id);
    IsBlackNodeOf(s, sib.left, sib.id);
    IsBlackNodeOf(s, sib.right, sib.id);
  }

  /** Lines 458-459: case 4 paints the parent BLACK and the sibling RED. */
  lemma Case4Writes(s: State, p: Path, n: Tree)
    requires Represents(s, Plug(p, n)) && !p.Top? && SiblingTree(p).Node?
    ensures IsNode(s, p.id) && IsNode(s, SiblingTree(p).id)
    ensures Represents(SetColor(SetColor(s, p.id, BLACK), SiblingTree(p).id, RED),
                       Plug(p.up, Join(p, n, BLACK, Recolored(SiblingTree(p), RED))))
  {
    var sib := SiblingTree(p);
    JoinUp(p, n);
    RecolorRep(s, p.up, Up(p, n), BLACK);
    var s1 := SetColor(s, p.id, BLACK);
    var j1 := Join(p, n, BLACK, sib);
    assert Up(p, n).(color := BLACK) == j1;
    var q := if p.LeftOf? then RightOf(n, p.id, p.key, BLACK, p.up) else LeftOf(p.up, p.id, p.key, BLACK, n);
    assert Plug(q, sib) == Plug(p.up, j1);
    RecolorRep(s1, q, sib, RED);
    assert Plug(q, sib.(color := RED)) == Plug(p.up, Join(p, n, BLACK, Recolored(sib, RED)));
  }

  /** Line 529: case 11 paints the sibling RED. */
  lemma Case11Writes(s: State, p: Path, n: Tree)
    requires Represents(s, Plug(p, n)) && !p.Top? && SiblingTree(p).Node? && p.color == BLACK
    ensures IsNode(s, SiblingTree(p).id)
    ensures Represents(SetColor(s, SiblingTree(p).id, RED), Plug(p.up, Join(p, n, BLACK, Recolored(SiblingTree(p), RED))))
  {
    var sib := SiblingTree(p);
    var q := Aside(p, n);
    RecolorRep(s, q, sib, RED);
    assert Plug(q, sib.(color := RED)) == Plug(p.up, Join(p, n, BLACK, Recolored(sib, RED)));
  }

  /**
   * Lines 467-470: case 5 gives the sibling the parent's colour, paints the
   * parent and the sibling's right child BLACK, and rotates the sibling left.
   */
  lemma Case5Writes(s: State, p: Path, n: Tree)
    requires Closed(s) && Represents(s, Plug(p, n)) && p.LeftOf? && p.right.Node? && p.right.right.Node?
    ensures IsNode(s, p.id) && IsNode(s, p.right.id) && IsNode(s, p.right.right.id)
    ensures
      var s3 := SetColor(SetColor(SetColor(s, p.right.id, p.color), p.id, BLACK), p.right.right.id, BLACK);
      var r := Node(Node(n, p.id, p.key, BLACK, p.right.left), p.right.id, p.right.key, p.color, p.right.right.(color := BLACK));
      Closed(s3) && IsNode(s3, p.right.id) && Parent(s3, p.right.id) != Nil &&
      Represents(RotateLeft(s3, p.right.id), Plug(p.up, r)) && InOrder(Plug(p.up, r)) == InOrder(Plug(p, n))
  {
    var LeftOf(up, i, k, c, sib) := p;
    var Node(sl, si, sk, sc, sr) := sib;
    var q := RightOf(n, i, k, c, up);
    RecolorRep(s, q, sib, c);
    var s1 := SetColor(s, si, c);
    var t1 := Node(n, i, k, c, Node(sl, si, sk, c, sr));
    assert Plug(q, sib.(color := c)) == Plug(up, t1);
    RecolorRep(s1, up, t1, BLACK);
    var s2 := SetColor(s1, i, BLACK);
    var q2 := RightOf(sl, si, sk, c, RightOf(n, i, k, BLACK, up));
    assert Plug(q2, sr) == Plug(up, t1.(color := BLACK));
    RecolorRep(s2, q2, sr, BLACK);
    var s3 := SetColor(s2, sr.id, BLACK);
    var t3 := Node(n, i, k, BLACK, Node(sl, si, sk, c, sr.(color := BLACK)));
    assert Plug(q2, sr.(color := BLACK)) == Plug(up, t3);
    RotateLeftRep(s3, up, t3);
    assert Plug(p, n) == Plug(up, Up(p, n));
    assert InOrder(sr.(color := BLACK)) == InOrder(sr);
    assert InOrder(t3) == InOrder(Up(p, n));
    ReplaceInOrder(up, Up(p, n), t3);
  }

  /** Lines 477-480: case 6, the mirror image of case 5. */
  lemma Case6Writes(s: State, p: Path, n: Tree)
    requires Closed(s) && Represents(s, Plug(p, n)) && p.RightOf? && p.left.Node? && p.left.left.Node?
    ensures IsNode(s, p.id) && IsNode(s, p.left.id) && IsNode(s, p.left.left.id)
    ensures
      var s3 := SetColor(SetColor(SetColor(s, p.left.id, p.color), p.id, BLACK), p.left.left.id, BLACK);
      var r := Node(p.left.left.(color := BLACK), p.left.id, p.left.key, p.color, Node(p.left.right, p.id, p.key, BLACK, n));
      Closed(s3) && IsNode(s3, p.left.id) && Parent(s3, p.left.id) != Nil &&
      Represents(RotateRight(s3, p.left.id), Plug(p.up, r)) && InOrder(Plug(p.up, r)) == InOrder(Plug(p, n))
  {
    var RightOf(sib, i, k, c, up) := p;
    var Node(sl, si, sk, sc, sr) := sib;
    var q := LeftOf(up, i, k, c, n);
    RecolorRep(s, q, sib, c);
    var s1 := SetColor(s, si, c);
    var t1 := Node(Node(sl, si, sk, c, sr), i, k, c, n);
    assert Plug(q, sib.(color := c)) == Plug(up, t1);
    RecolorRep(s1, up, t1, BLACK);
    var s2 := SetColor(s1, i, BLACK);
    var q2 := LeftOf(LeftOf(up, i, k, BLACK, n), si, sk, c, sr);
    assert Plug(q2, sl) == Plug(up, t1.(color := BLACK));
    RecolorRep(s2, q2, sl, BLACK);
    var s3 := SetColor(s2, sl.id, BLACK);
    var t3 := Node(Node(sl.(color := BLACK), si, sk, c, sr), i, k, BLACK, n);
    assert Plug(q2, sl.(color := BLACK)) == Plug(up, t3);
    RotateRightRep(s3, up, t3);
    assert Plug(p, n) == Plug(up, Up(p, n));
    assert InOrder(sl.(color := BLACK)) == InOrder(sl);
    assert InOrder(t3) == InOrder(Up(p, n));
    ReplaceInOrder(up, Up(p, n), t3);
  }

  /** Lines 487-490: case 7 paints the sibling RED and its left child BLACK and rotates that child right. */
  lemma Case7Writes(s: State, p: Path, n: Tree)
    requires Closed(s) && Represents(s, Plug(p, n)) && p.LeftOf? && p.right.Node? && p.right.left.Node?
    ensures IsNode(s, p.right.id) && IsNode(s, p.right.left.id)
    ensures
      var s2 := SetColor(SetColor(s, p.right.id, RED), p.right.left.id, BLACK);
      Closed(s2) && IsNode(s2, p.right.left.id) && Parent(s2, p.right.left.id) != Nil &&
      Represents(RotateRight(s2, p.right.left.id), Plug(p.(right := Case7Sibling(p.right)), n))
  {
    var LeftOf(up, i, k, c, sib) := p;
    var q := RightOf(n, i, k, c, up);
    RecolorRep(s, q, sib, RED);
    var s1 := SetColor(s, sib.id, RED);
    var q2 := LeftOf(q, sib.id, sib.key, RED, sib.right);
    assert Plug(q2, sib.left) == Plug(q, sib.(color := RED));
    RecolorRep(s1, q2, sib.left, BLACK);
    var s2 := SetColor(s1, sib.left.id, BLACK);
    var t2 := Node(sib.left.(color := BLACK), sib.id, sib.key, RED, sib.right);
    assert Plug(q2, sib.left.(color := BLACK)) == Plug(q, t2);
    RotateRightRep(s2, q, t2);
    assert Plug(q, Case7Sibling(sib)) == Plug(p.(right := Case7Sibling(sib)), n);
  }

  /** Lines 498-501: case 8, the mirror image of case 7. */
  lemma Case8Writes(s: State, p: Path, n: Tree)
    requires Closed(s) && Represents(s, Plug(p, n)) && p.RightOf? && p.left.Node? && p.left.right.Node?
    ensures IsNode(s, p.left.id) && IsNode(s, p.left.right.id)
    ensures
      var s2 := SetColor(SetColor(s, p.left.id, RED), p.left.right.id, BLACK);
      Closed(s2) && IsNode(s2, p.left.right.id) && Parent(s2, p.left.right.id) != Nil &&
      Represents(RotateLeft(s2, p.left.right.id), Plug(p.(left := Case8Sibling(p.left)), n))
  {
    var RightOf(sib, i, k, c, up) := p;
    var q := LeftOf(up, i, k, c, n);
    RecolorRep(s, q, sib, RED);
    var s1 := SetColor(s, sib.id, RED);
    var q2 := RightOf(sib.left, sib.id, sib.key, RED, q);
    assert Plug(q2, sib.right) == Plug(q, sib.(color := RED));
    RecolorRep(s1, q2, sib.right, BLACK);
    var s2 := SetColor(s1, sib.right.id, BLACK);
    var t2 := Node(sib.left, sib.id, sib.key, RED, sib.right.(color := BLACK));
    assert Plug(q2, sib.right.(color := BLACK)) == Plug(q, t2);
    RotateLeftRep(s2, q, t2);
    assert Plug(q, Case8Sibling(sib)) == Plug(p.(left := Case8Sibling(sib)), n);
  }

  /**
   * Lines 509-511: case 9 gives the sibling the parent's colour, paints the
   * parent RED and rotates the sibling left.  Afterwards the parent's right
   * child is the new sibling of `current`, and the old sibling's left child
   * is the parent itself.
   */
  lemma Case9Writes(s: State, p: Path, n: Tree)
    requires Closed(s) && Represents(s, Plug(p, n)) && p.LeftOf? && p.right.Node?
    ensures IsNode(s, p.id) && IsNode(s, p.right.id)
    ensures
      var s2 := SetColor(SetColor(s, p.right.id, p.color), p.id, RED);
      Closed(s2) && IsNode(s2, p.right.id) && Parent(s2, p.right.id) != Nil &&
      var s3 := RotateLeft(s2, p.right.id);
      Represents(s3, Plug(Case9Path(p), n)) && IsNode(s3, p.id) && IsNode(s3, p.right.id) &&
      Right(s3, p.id) == RootOf(p.right.left) && Left(s3, p.right.id) == p.id
  {
    var LeftOf(up, i, k, c, sib) := p;
    var Node(sl, si, sk, sc, sr) := sib;
    var q := RightOf(n, i, k, c, up);
    RecolorRep(s, q, sib, c);
    var s1 := SetColor(s, si, c);
    var t1 := Node(n, i, k, c, sib.(color := c));
    assert Plug(q, sib.(color := c)) == Plug(up, t1);
    RecolorRep(s1, up, t1, RED);
    var s2 := SetColor(s1, i, RED);
    var t2 := Node(n, i, k, RED, sib.(color := c));
    RotateLeftRep(s2, up, t2);
    var s3 := RotateLeft(s2, si);
    assert Plug(up, RotatedLeft(t2)) == Plug(Case9Path(p), n);
    NodeAt(s3, up, RotatedLeft(t2));
    NodeAt(s3, LeftOf(up, si, sk, c, sr), Node(n, i, k, RED, sl));
  }

  /** Lines 519-521: case 10, the mirror image of case 9. */
  lemma Case10Writes(s: State, p: Path, n: Tree)
    requires Closed(s) && Represents(s, Plug(p, n)) && p.RightOf? && p.left.Node?
    ensures IsNode(s, p.id) && IsNode(s, p.left.id)
    ensures
      var s2 := SetColor(SetColor(s, p.left.id, p.color), p.id, RED);
      Closed(s2) && IsNode(s2, p.left.id) && Parent(s2, p.left.id) != Nil &&
      var s3 := RotateRight(s2, p.left.id);
      Represents(s3, Plug(Case10Path(p), n)) && IsNode(s3, p.id) && IsNode(s3, p.left.id) &&
      Left(s3, p.id) == RootOf(p.left.right) && Right(s3, p.left.id) == p.id
  {
    var RightOf(sib, i, k, c, up) := p;
    var Node(sl, si, sk, sc, sr) := sib;
    var q := LeftOf(up, i, k, c, n);
    RecolorRep(s, q, sib, c);
    var s1 := SetColor(s, si, c);
    var t1 := Node(sib.(color := c), i, k, c, n);
    assert Plug(q, sib.(color := c)) == Plug(up, t1);
    RecolorRep(s1, up, t1, RED);
    var s2 := SetColor(s1, i, RED);
    var t2 := Node(sib.(color := c), i, k, RED, n);
    RotateRightRep(s2, up, t2);
    var s3 := RotateRight(s2, si);
    assert Plug(up, RotatedRight(t2)) == Plug(Case10Path(p), n);
    NodeAt(s3, up, RotatedRight(t2));
    NodeAt(s3, RightOf(sl, si, sk, c, up), Node(sr, i, k, RED, n));
  }
}
