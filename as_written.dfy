/**
 * `adjust_delete` exactly as RedBlackTree.java writes it (lines 449-549),
 * including cases 9 and 10 as they stand: after rotating the RED sibling
 * above the parent, they continue with `sibling.getLeft()` (case 10:
 * `sibling.getRight()`).  After that rotation this child of the old sibling
 * is the parent itself, so the next activation runs with the parent as its
 * own sibling.  The lemmas below show this for every state in which case 9
 * or 10 is taken, and exhibit a concrete tree (the keys 1 to 6 inserted in
 * order, then 1 deleted) on which the following activations corrupt the
 * links and end in a null dereference inside a rotation.
 *
 * The corrected cases continue with `parent.getRight()` (case 10:
 * `parent.getLeft()`); they are RedBlack.RedBlackTree.DeleteCase9 and
 * DeleteCase10, which the rest of the model uses.
 */
module AsWritten {
  import opened Nodes
  import opened Trees
  import opened Layout
  import opened Rotations
  import opened Queries
  import Removal
  import opened DeleteFixup

  /** How one activation of adjust_delete ends. */
  datatype Outcome =
    | Returned(s: State)
    | Recurse(s: State, current: Ptr, parent: Ptr, sibling: Ptr, flag: bool)
    | NullDereference

  /** The outcome keeps every stored reference inside the unchanged-size arena, and so do the arguments of a recursive call. */
  predicate InRange(s: State, o: Outcome)
  {
    (o.Returned? ==> Closed(o.s) && |o.s.nodes| == |s.nodes|) &&
    (o.Recurse? ==> Closed(o.s) && |o.s.nodes| == |s.nodes| && IsPtr(o.s, o.parent) && IsPtr(o.s, o.sibling))
  }

  /**
   * One activation of adjust_delete as written: the final state, or the
   * arguments of the recursive call it ends with, or a null dereference (a
   * rotation whose pivot has no parent: `parent.getParent()` in
   * rotateLeft/rotateRight).  The case tests are those of lines 451-528, in
   * their order; each case body is one of the functions below.
   */
  function Step(s: State, current: Ptr, parent: Ptr, sibling: Ptr, flag: bool): (o: Outcome)
    requires Closed(s) && IsPtr(s, parent) && IsPtr(s, sibling)
    ensures InRange(s, o)
    ensures parent == Nil ==> o == Returned(s)
  {
    if parent == Nil then Returned(s)
    // case 4
    else if ColorAt(s, parent) == RED && sibling != Nil && ColorAt(s, sibling) == BLACK &&
            IsBlackNode(s, Left(s, sibling)) && IsBlackNode(s, Right(s, sibling)) then
      Case4(s, parent, sibling)
    // case 5
    else if flag && sibling != Nil && ColorAt(s, sibling) == BLACK && Right(s, sibling) != Nil && ColorAt(s, Right(s, sibling)) == RED then
      Case5(s, parent, sibling)
    // case 6
    else if !flag && sibling != Nil && ColorAt(s, sibling) == BLACK && Left(s, sibling) != Nil && ColorAt(s, Left(s, sibling)) == RED then
      Case6(s, parent, sibling)
    // case 7
    else if flag && sibling != Nil && ColorAt(s, sibling) == BLACK && Left(s, sibling) != Nil && ColorAt(s, Left(s, sibling)) == RED then
      Case7(s, current, parent, sibling)
    // case 8
    else if !flag && sibling != Nil && ColorAt(s, sibling) == BLACK && Right(s, sibling) != Nil && ColorAt(s, Right(s, sibling)) == RED then
      Case8(s, current, parent, sibling)
    // case 9
    else if flag && sibling != Nil && ColorAt(s, sibling) == RED then
      Case9(s, current, parent, sibling)
    // case 10
    else if !flag && sibling != Nil && ColorAt(s, sibling) == RED then
      Case10(s, current, parent, sibling)
    // case 11
    else if ColorAt(s, parent) == BLACK && sibling != Nil && ColorAt(s, sibling) == BLACK &&
            IsBlackNode(s, Left(s, sibling)) && IsBlackNode(s, Right(s, sibling)) then
      Case11(s, parent, sibling)
    else Returned(s)
  }

  /** Case 4, lines 458-460: the parent is painted BLACK and the sibling RED. */
  function Case4(s: State, parent: Ptr, sibling: Ptr): (o: Outcome)
    requires Closed(s) && IsNode(s, parent) && IsNode(s, sibling)
    ensures InRange(s, o) && o.Returned?
    ensures ColorAt(o.s, sibling) == RED && (sibling != parent ==> ColorAt(o.s, parent) == BLACK)
  {
    Returned(SetColor(SetColor(s, parent, BLACK), sibling, RED))
  }

  /** Case 5, lines 467-471: recolouring, then `rotateLeft(sibling)`. */
  function Case5(s: State, parent: Ptr, sibling: Ptr): (o: Outcome)
    requires Closed(s) && IsNode(s, parent) && IsNode(s, sibling) && Right(s, sibling) != Nil
    ensures InRange(s, o) && !o.Recurse?
  {
    var s1 := SetColor(SetColor(s, sibling, ColorAt(s, parent)), parent, BLACK);
    var s2 := SetColor(s1, Right(s1, sibling), BLACK);
    if Parent(s2, sibling) == Nil then NullDereference else Returned(RotateLeft(s2, sibling))
  }

  /** Case 6, lines 477-481: the mirror image of case 5. */
  function Case6(s: State, parent: Ptr, sibling: Ptr): (o: Outcome)
    requires Closed(s) && IsNode(s, parent) && IsNode(s, sibling) && Left(s, sibling) != Nil
    ensures InRange(s, o) && !o.Recurse?
  {
    var s1 := SetColor(SetColor(s, sibling, ColorAt(s, parent)), parent, BLACK);
    var s2 := SetColor(s1, Left(s1, sibling), BLACK);
    if Parent(s2, sibling) == Nil then NullDereference else Returned(RotateRight(s2, sibling))
  }

  /** Case 7, lines 487-491: recolouring, `rotateRight(temp)`, and the call with `temp` as the sibling. */
  function Case7(s: State, current: Ptr, parent: Ptr, sibling: Ptr): (o: Outcome)
    requires Closed(s) && IsNode(s, parent) && IsNode(s, sibling) && Left(s, sibling) != Nil
    ensures InRange(s, o) && !o.Returned?
    ensures o.Recurse? ==> o.parent == parent && o.sibling == Left(s, sibling) && o.flag
  {
    var s1 := SetColor(s, sibling, RED);
    var s2 := SetColor(s1, Left(s1, sibling), BLACK);
    var temp := Left(s2, sibling);
    if Parent(s2, temp) == Nil then NullDereference else Recurse(RotateRight(s2, temp), current, parent, temp, true)
  }

  /** Case 8, lines 498-502: the mirror image of case 7. */
  function Case8(s: State, current: Ptr, parent: Ptr, sibling: Ptr): (o: Outcome)
    requires Closed(s) && IsNode(s, parent) && IsNode(s, sibling) && Right(s, sibling) != Nil
    ensures InRange(s, o) && !o.Returned?
    ensures o.Recurse? ==> o.parent == parent && o.sibling == Right(s, sibling) && !o.flag
  {
    var s1 := SetColor(s, sibling, RED);
    var s2 := SetColor(s1, Right(s1, sibling), BLACK);
    var temp := Right(s2, sibling);
    if Parent(s2, temp) == Nil then NullDereference else Recurse(RotateLeft(s2, temp), current, parent, temp, false)
  }

  /** Case 9 as written, lines 509-512: after `rotateLeft(sibling)` it continues with `sibling.getLeft()`. */
  function Case9(s: State, current: Ptr, parent: Ptr, sibling: Ptr): (o: Outcome)
    requires Closed(s) && IsNode(s, parent) && IsNode(s, sibling)
    ensures InRange(s, o) && !o.Returned?
    ensures o.Recurse? ==> o.parent == parent && o.sibling == Left(o.s, sibling) && o.flag
  {
    var s1 := SetColor(SetColor(s, sibling, ColorAt(s, parent)), parent, RED);
    if Parent(s1, sibling) == Nil then NullDereference
    else
      var s2 := RotateLeft(s1, sibling);
      Recurse(s2, current, parent, Left(s2, sibling), true)
  }

  /** Case 10 as written, lines 519-522: after `rotateRight(sibling)` it continues with `sibling.getRight()`. */
  function Case10(s: State, current: Ptr, parent: Ptr, sibling: Ptr): (o: Outcome)
    requires Closed(s) && IsNode(s, parent) && IsNode(s, sibling)
    ensures InRange(s, o) && !o.Returned?
    ensures o.Recurse? ==> o.parent == parent && o.sibling == Right(o.s, sibling) && !o.flag
  {
    var s1 := SetColor(SetColor(s, sibling, ColorAt(s, parent)), parent, RED);
    if Parent(s1, sibling) == Nil then NullDereference
    else
      var s2 := RotateRight(s1, sibling);
      Recurse(s2, current, parent, Right(s2, sibling), false)
  }

  /**
   * Case 11, lines 529-545: the sibling is painted RED and the call moves up
   * to the parent, with the parent's own sibling and side.
   */
  function Case11(s: State, parent: Ptr, sibling: Ptr): (o: Outcome)
    requires Closed(s) && IsNode(s, parent) && IsNode(s, sibling)
    ensures InRange(s, o) && o.Recurse? && o.current == parent && o.parent == Parent(s, parent)
    ensures o.parent != Nil ==> o.flag == (Right(s, o.parent) != parent)
  {
    var s1 := SetColor(s, sibling, RED);
    var tempParent := Parent(s1, parent);
    if tempParent == Nil then Recurse(s1, parent, Nil, Nil, true)
    else if Right(s1, tempParent) == parent then Recurse(s1, parent, tempParent, Left(s1, tempParent), false)
    else Recurse(s1, parent, tempParent, Right(s1, tempParent), true)
  }

  /** At most `fuel + 1` activations of adjust_delete as written; a `Recurse` result means the fuel ran out. */
  function Run(s: State, current: Ptr, parent: Ptr, sibling: Ptr, flag: bool, fuel: nat): (o: Outcome)
    requires Closed(s) && IsPtr(s, parent) && IsPtr(s, sibling)
    ensures InRange(s, o)
    decreases fuel
  {
    var o := Step(s, current, parent, sibling, flag);
    if o.Recurse? && fuel > 0 then Run(o.s, o.current, o.parent, o.sibling, o.flag, fuel - 1) else o
  }

  /**
   * Whenever case 9 is taken (the deficit on the left, a RED sibling), the
   * source continues with the parent as the sibling, whereas the sibling of
   * the rebalanced position is the root of the old sibling's left subtree.
   */
  lemma Case9SiblingIsParent(s: State, p: Path, n: Tree)
    requires Closed(s) && Represents(s, Plug(p, n)) && DelInv(p, n)
    requires p.LeftOf? && p.right.Node? && p.right.color == RED
    ensures IsNode(s, p.id) && IsNode(s, p.right.id)
    ensures var o := Step(s, RootOf(n), p.id, p.right.id, true);
      o.Recurse? && o.parent == p.id && o.sibling == p.id && o.flag
  {
    Around(s, p, n);
    Case9Tree(p, n);
    Case9Writes(s, p, n);
  }

  /** The mirror image: case 10 continues with the parent as the sibling too. */
  lemma Case10SiblingIsParent(s: State, p: Path, n: Tree)
    requires Closed(s) && Represents(s, Plug(p, n)) && DelInv(p, n)
    requires p.RightOf? && p.left.Node? && p.left.color == RED
    ensures IsNode(s, p.id) && IsNode(s, p.left.id)
    ensures var o := Step(s, RootOf(n), p.id, p.left.id, false);
      o.Recurse? && o.parent == p.id && o.sibling == p.id && !o.flag
  {
    Around(s, p, n);
    Case10Tree(p, n);
    Case10Writes(s, p, n);
  }

  // ---------------------------------------------------------------------
  // A concrete run: insert 1, 2, 3, 4, 5, 6, then delete 1.  Node i holds key i + 1.

  /**
   * The tree the six insertions build: 2 (BLACK) over 1 (BLACK) and 4 (RED);
   * 4 over 3 and 5 (BLACK); 6 (RED) right of 5.  Through `insert` and
   * `adjust_insert` (lines 183-301): 1 becomes the BLACK root
   * (case 1); 2 hangs below a BLACK parent (case 2); 3 triggers case 4.4,
   * a left rotation at 2; 4 triggers case 3, which recolours 1, 3 and 2
   * and ends in case 1 at the root; 5 triggers case 4.4 at 4; 6 triggers
   * case 3, which recolours 3, 5 and 4 and ends in case 2 below the root.
   * This derivation is not part of the proofs: `SixIsRedBlack` only shows
   * that the result is a valid red-black tree.  Nodes are allocated in
   * insertion order, so node i holds key i + 1.
   */
  function SixTree(): Tree
  {
    Node(Node(Leaf, 0, 1, BLACK, Leaf), 1, 2, BLACK,
         Node(Node(Leaf, 2, 3, BLACK, Leaf), 3, 4, RED, Node(Leaf, 4, 5, BLACK, Node(Leaf, 5, 6, RED, Leaf))))
  }

  function Six(): State
  {
    State([TreeNode(Nil, Nil, 1, 1, BLACK), TreeNode(0, 3, Nil, 2, BLACK), TreeNode(Nil, Nil, 3, 3, BLACK),
           TreeNode(2, 4, 1, 4, RED), TreeNode(Nil, 5, 3, 5, BLACK), TreeNode(Nil, Nil, 4, 6, RED)], 1)
  }

  /** The state after `replace` has unlinked node 0, just before `adjust_delete(null, node 1, node 3, true)`. */
  function Unlinked(): State
  {
    State([TreeNode(Nil, Nil, Nil, 1, BLACK), TreeNode(Nil, 3, Nil, 2, BLACK), TreeNode(Nil, Nil, 3, 3, BLACK),
           TreeNode(2, 4, 1, 4, RED), TreeNode(Nil, 5, 3, 5, BLACK), TreeNode(Nil, Nil, 4, 6, RED)], 1)
  }

  /** The position of the removed node: the left child of the root. */
  function Hole(): Path
  {
    LeftOf(Top, 1, 2, BLACK, SixTree().right)
  }

  /** The six insertions leave a red-black search tree, laid out as Six() holds it. */
  lemma SixIsRedBlack()
    ensures Represents(Six(), SixTree()) && IsRedBlack(SixTree())
  {
    SixLayout();
    SixColors();
  }

  lemma SixLayout()
    ensures Represents(Six(), SixTree())
  {
  }

  lemma SixColors()
    ensures IsRedBlack(SixTree())
  {
    assert InOrder(SixTree()) == [1, 2, 3, 4, 5, 6];
  }

  /** `delete(1)` finds node 0, a BLACK leaf, and `replace` unlinks it. */
  lemma DeleteOneUnlinks()
    ensures Closed(Six()) && Represents(Six(), SixTree())
    ensures GetNode(Six(), 1, SixTree()) == 0 && Unlinked() == Removal.Replace(Six(), 0)
  {
    StatesClosed();
    SixLayout();
    FindOne();
    UnlinkOne();
  }

  lemma FindOne()
    ensures Represents(Six(), SixTree()) && GetNode(Six(), 1, SixTree()) == 0
  {
    SixLayout();
  }

  lemma UnlinkOne()
    ensures Closed(Six()) && IsNode(Six(), 0) && Unlinked() == Removal.Replace(Six(), 0)
  {
    StatesClosed();
  }

  /** Every state of the trace keeps its references inside the arena. */
  lemma StatesClosed()
    ensures Closed(Six()) && Closed(Unlinked()) && Closed(FirstCase9()) && Closed(SecondCase9())
  {
  }

  /** The unlinked state meets the precondition of the corrected adjust_delete. */
  lemma UnlinkedHasDeficit()
    ensures Closed(Unlinked()) && Represents(Unlinked(), Plug(Hole(), Leaf)) && DelInv(Hole(), Leaf)
  {
    assert Plug(Hole(), Leaf) == Node(Leaf, 1, 2, BLACK, SixTree().right);
  }

  /** After the first case 9: node 3 is the root, and node 1 (now RED) is passed as its own sibling. */
  function FirstCase9(): State
  {
    State([TreeNode(Nil, Nil, Nil, 1, BLACK), TreeNode(Nil, 2, 3, 2, RED), TreeNode(Nil, Nil, 1, 3, BLACK),
           TreeNode(1, 4, Nil, 4, BLACK), TreeNode(Nil, 5, 3, 5, BLACK), TreeNode(Nil, Nil, 4, 6, RED)], 3)
  }

  /** After the second case 9: node 1 is the root, nodes 1 and 3 are each other's left child and parent, and nodes 4, 5 are lost. */
  function SecondCase9(): State
  {
    State([TreeNode(Nil, Nil, Nil, 1, BLACK), TreeNode(3, 2, Nil, 2, RED), TreeNode(Nil, Nil, 1, 3, BLACK),
           TreeNode(1, Nil, 1, 4, BLACK), TreeNode(Nil, 5, 3, 5, BLACK), TreeNode(Nil, Nil, 4, 6, RED)], 1)
  }

  lemma FirstStep()
    ensures Closed(Unlinked()) && Step(Unlinked(), Nil, 1, 3, true) == Recurse(FirstCase9(), Nil, 1, 1, true)
  {
    StatesClosed();
    var s1 := SetColor(SetColor(Unlinked(), 3, BLACK), 1, RED);
    RotateLeftEffect(s1, 3);
    assert RotateLeft(s1, 3) == FirstCase9();
  }

  lemma SecondStep()
    ensures Closed(FirstCase9()) && Step(FirstCase9(), Nil, 1, 1, true) == Recurse(SecondCase9(), Nil, 1, 3, true)
  {
    StatesClosed();
    var s1 := SetColor(SetColor(FirstCase9(), 1, RED), 1, RED);
    RotateLeftEffect(s1, 1);
    assert RotateLeft(s1, 1) == SecondCase9();
  }

  /** Case 7 then paints node 3 RED and node 1 BLACK and rotates node 1, which has no parent. */
  lemma ThirdStep()
    ensures Closed(SecondCase9()) && Step(SecondCase9(), Nil, 1, 3, true) == NullDereference
  {
    StatesClosed();
  }

  /**
   * Deleting 1 from the tree of the keys 1 to 6 reaches adjust_delete with
   * its precondition met (the corrected version then restores the tree),
   * but as written: case 9 continues with node 1 as its own sibling, case 9
   * again rotates node 1 above node 3 and leaves node 3's left link pointing
   * back to node 1, and case 7 then rotates node 1, which now has no parent.
   */
  lemma DeleteOneFromOneToSix()
    ensures Closed(Six()) && Closed(Unlinked())
    ensures Represents(Six(), SixTree()) && IsRedBlack(SixTree())
    ensures GetNode(Six(), 1, SixTree()) == 0 && Unlinked() == Removal.Replace(Six(), 0)
    ensures Represents(Unlinked(), Plug(Hole(), Leaf)) && DelInv(Hole(), Leaf)
    ensures Step(Unlinked(), Nil, 1, 3, true).Recurse? && Step(Unlinked(), Nil, 1, 3, true).sibling == 1
    ensures Run(Unlinked(), Nil, 1, 3, true, 2) == NullDereference
  {
    StatesClosed();
    SixIsRedBlack();
    DeleteOneUnlinks();
    UnlinkedHasDeficit();
    FirstStep();
    SecondStep();
    ThirdStep();
  }
}
