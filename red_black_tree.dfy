/**
 * The class RedBlackTree of RedBlackTree.java with its mutable state: the
 * arena of TreeNode records (the Java heap objects) and the `root` field.
 *
 * The ghost field `tree` is the abstract tree the arena holds.  `Valid()` is
 * the class invariant: every stored reference is null or a node of the
 * arena, the arena lays out `tree` with consistent parent references, and
 * `tree` is a red-black search tree.  Every public operation keeps it.
 */
module RedBlack {
  import opened Nodes
  import opened Trees
  import opened Layout
  import opened Rotations
  import opened Queries
  import opened InsertFixup
  import opened Removal
  import opened DeleteFixup

  class RedBlackTree {
    var nodes: seq<TreeNode>
    var root: Ptr
    ghost var tree: Tree

    /** The arena and the root field as one value. */
    function Model(): State
      reads this
    {
      State(nodes, root)
    }

    ghost predicate Valid()
      reads this
    {
      Closed(Model()) && Represents(Model(), tree) && IsRedBlack(tree)
    }

    /** `RedBlackTree()`: the empty tree. */
    constructor ()
      ensures Valid() && tree == Leaf && root == Nil && nodes == []
    {
      nodes := [];
      root := Nil;
      tree := Leaf;
    }

    // -------------------------------------------------------------------
    // TreeNode: construction and the setters, each one a write to one slot

    /** `new TreeNode(value)`: a fresh RED node without links. */
    method NewTreeNode(value: int) returns (n: Ptr)
      modifies this
      ensures n == |old(nodes)| && Model() == Allocate(old(Model()), value) && tree == old(tree)
    {
      n := |nodes|;
      nodes := nodes + [NewNode(value)];
    }

    method SetLeft(n: Ptr, l: Ptr)
      requires IsNode(Model(), n)
      modifies this
      ensures Model() == Nodes.SetLeft(old(Model()), n, l) && tree == old(tree)
    {
      nodes := nodes[n := nodes[n].(left := l)];
    }

    method SetRight(n: Ptr, r: Ptr)
      requires IsNode(Model(), n)
      modifies this
      ensures Model() == Nodes.SetRight(old(Model()), n, r) && tree == old(tree)
    {
      nodes := nodes[n := nodes[n].(right := r)];
    }

    method SetParent(n: Ptr, p: Ptr)
      requires IsNode(Model(), n)
      modifies this
      ensures Model() == Nodes.SetParent(old(Model()), n, p) && tree == old(tree)
    {
      nodes := nodes[n := nodes[n].(parent := p)];
    }

    method SetValue(n: Ptr, v: int)
      requires IsNode(Model(), n)
      modifies this
      ensures Model() == Nodes.SetValue(old(Model()), n, v) && tree == old(tree)
    {
      nodes := nodes[n := nodes[n].(value := v)];
    }

    method SetColor(n: Ptr, c: Color)
      requires IsNode(Model(), n)
      modifies this
      ensures Model() == Nodes.SetColor(old(Model()), n, c) && tree == old(tree)
    {
      nodes := nodes[n := nodes[n].(color := c)];
    }

    /** `setNull(current)`: clears the parent, right and left links of a node; nothing on null. */
    method SetNull(n: Ptr)
      requires IsPtr(Model(), n)
      modifies this
      ensures Model() == Nodes.SetNull(old(Model()), n) && tree == old(tree)
    {
      if n != Nil {
        SetParent(n, Nil);
        SetRight(n, Nil);
        SetLeft(n, Nil);
      }
    }

    // -------------------------------------------------------------------
    // Rotations

    /** `rotateLeft(current)`: the writes of lines 596-620, in their order. */
    method RotateLeft(current: Ptr)
      requires Closed(Model()) && IsNode(Model(), current) && Parent(Model(), current) != Nil
      modifies this
      ensures Model() == Rotations.RotateLeft(old(Model()), current) && tree == old(tree)
    {
      var parent := Parent(Model(), current);
      var grandpa := Parent(Model(), parent);
      var currentLeft := Left(Model(), current);
      SetRight(parent, currentLeft);
      if currentLeft != Nil {
        SetParent(currentLeft, parent);
      }
      SetLeft(current, parent);
      SetParent(parent, current);
      if root == parent {
        root := current;
      }
      SetParent(current, grandpa);
      if grandpa != Nil {
        if Right(Model(), grandpa) == parent {
          SetRight(grandpa, current);
        } else {
          SetLeft(grandpa, current);
        }
      }
    }

    /** `rotateRight(current)`: the writes of lines 630-653, in their order. */
    method RotateRight(current: Ptr)
      requires Closed(Model()) && IsNode(Model(), current) && Parent(Model(), current) != Nil
      modifies this
      ensures Model() == Rotations.RotateRight(old(Model()), current) && tree == old(tree)
    {
      var parent := Parent(Model(), current);
      var grandpa := Parent(Model(), parent);
      var currentRight := Right(Model(), current);
      SetLeft(parent, currentRight);
      if currentRight != Nil {
        SetParent(currentRight, parent);
      }
      SetRight(current, parent);
      SetParent(parent, current);
      if root == parent {
        root := current;
      }
      SetParent(current, grandpa);
      if grandpa != Nil {
        if Right(Model(), grandpa) == parent {
          SetRight(grandpa, current);
        } else {
          SetLeft(grandpa, current);
        }
      }
    }

    // -------------------------------------------------------------------
    // In-order traversal

    /**
     * `inOrder(current, data)`: appends the keys of the subtree at `current`
     * to `data`, left subtree first.  The Java list is passed and returned as a value.
     */
    method InOrderInto(current: Ptr, data: seq<int>, ghost t: Tree) returns (out: seq<int>)
      requires Shape(Model(), t) && current == RootOf(t)
      ensures out == data + InOrder(t)
      decreases t
    {
      if current == Nil {
        return data;
      }
      out := InOrderInto(Left(Model(), current), data, t.left);
      out := out + [Value(Model(), current)];
      out := InOrderInto(Right(Model(), current), out, t.right);
    }

    /** `inOrder()`: the keys of the tree in ascending order, each one once. */
    method InOrderList() returns (data: seq<int>)
      requires Valid()
      ensures data == InOrder(tree) && Ascending(data)
      ensures forall x :: x in data <==> x in Keys(tree)
      ensures |data| == Size(tree)
    {
      data := InOrderInto(root, [], tree);
      InOrderLength(tree);
    }

    // -------------------------------------------------------------------
    // Insertion

    /**
     * `insert(value)`: a binary-search descent from the root; an existing
     * value leaves the tree as it was, otherwise a RED node is hung where the
     * search fell off the tree and adjust_insert restores the colouring.
     */
    method Insert(value: int)
      requires Valid()
      modifies this
      ensures Valid()
      ensures Keys(tree) == old(Keys(tree)) + {value}
      ensures value in old(Keys(tree)) ==> nodes == old(nodes) && root == old(root) && tree == old(tree)
      ensures value !in old(Keys(tree)) ==> |nodes| == |old(nodes)| + 1
    {
      var current: Ptr := Nil;
      ghost var path: Path := Top;
      ghost var sub: Tree;
      if root == Nil {
        AttachRootWrites(Model(), value);
        var n := NewTreeNode(value);
        root := n;
        current := root;
        sub := Node(Leaf, n, value, RED, Leaf);
        InsertStart(Top, n, value);
        InsertKeys(Top, n, RED, value);
      } else {
        var temp := root;
        var parent: Ptr := Nil;
        ghost var below := tree;
        while temp != Nil
          invariant Model() == old(Model()) && tree == old(tree)
          invariant tree == Plug(path, below) && temp == RootOf(below) && parent == ParentId(path)
          invariant path.Top? ==> temp != Nil
          invariant !path.Top? ==> (path.LeftOf? <==> path.key > value)
          invariant Brackets(path, value)
          decreases below
        {
          NodeAt(Model(), path, below);
          parent := temp;
          if Value(Model(), temp) == value {
            Found(path, below);
            return;
          } else if Value(Model(), temp) > value {
            Descend(path, below, value);
            temp := Left(Model(), temp);
            path := LeftOf(path, below.id, below.key, below.color, below.right);
            below := below.left;
          } else {
            Descend(path, below, value);
            temp := Right(Model(), temp);
            path := RightOf(below.left, below.id, below.key, below.color, path);
            below := below.right;
          }
        }
        ghost var s := Model();
        AttachWrites(s, path, value);
        var n := NewTreeNode(value);
        if Value(Model(), parent) > value {
          SetLeft(parent, n);
          current := Left(Model(), parent);
        } else {
          SetRight(parent, n);
          current := Right(Model(), parent);
        }
        SetParent(current, parent);
        sub := Node(Leaf, n, value, RED, Leaf);
        InsertStart(path, n, value);
        InsertKeys(path, n, RED, value);
      }
      ghost var inserted := Plug(path, sub);
      AdjustInsert(current, path, sub);
      assert Keys(tree) == Keys(inserted) by {
        assert InOrder(tree) == InOrder(inserted);
      }
    }

    /**
     * `adjust_insert(current)`: `current` is RED and its subtree is a
     * red-black subtree; the only red-red edge may be the one to its parent.
     * The cases remove it or move it up to the grandparent (case 3).
     */
    method AdjustInsert(current: Ptr, ghost p: Path, ghost sub: Tree)
      requires Closed(Model()) && Represents(Model(), Plug(p, sub)) && InsertInv(p, sub) && current == sub.id
      modifies this
      ensures Closed(Model()) && |nodes| == |old(nodes)|
      ensures Represents(Model(), tree) && WellColored(tree)
      ensures InOrder(tree) == InOrder(Plug(p, sub))
      decreases Depth(p)
    {
      ghost var s := Model();
      Position(s, p, sub);
      if Parent(Model(), current) == Nil {
        // case 1: `current` is the root
        SetColor(current, BLACK);
        RecolorRep(s, p, sub, BLACK);
        Case1Tree(sub);
        tree := sub.(color := BLACK);
        return;
      }
      if ColorAt(Model(), Parent(Model(), current)) == BLACK {
        // case 2: a BLACK parent
        Case2Tree(p, sub);
        tree := Plug(p, sub);
        return;
      }
      ParentRed(p, sub);
      UncleOf(s, p, sub);
      var parent := Parent(Model(), current);
      var grandPa := GrandPa(Model(), current);
      var uncle := Uncle(Model(), current);
      ghost var u := SiblingTree(p.up);
      if u.Node? {
        PlugUp(p, sub);
        NodeAt(s, Aside(p.up, Up(p, sub)), u);
      }
      if uncle != Nil && ColorAt(Model(), uncle) == RED {
        // case 3: a RED uncle
        SetColor(parent, BLACK);
        SetColor(uncle, BLACK);
        SetColor(grandPa, RED);
        Case3Writes(s, p, sub);
        Case3Tree(p, sub);
        AdjustInsert(grandPa, p.up.up, RepaintedTree(p, sub));
        return;
      }
      // case 4: a BLACK or missing uncle
      InsertCase4(current, parent, grandPa, p, sub);
    }

    /**
     * Case 4 of `adjust_insert` (lines 263-299): a RED parent and a BLACK or
     * missing uncle.  One or two rotations and two recolourings end the fix-up.
     */
    method InsertCase4(current: Ptr, parent: Ptr, grandPa: Ptr, ghost p: Path, ghost sub: Tree)
      requires Closed(Model()) && Represents(Model(), Plug(p, sub)) && InsertInv(p, sub) && current == sub.id
      requires !p.Top? && !p.up.Top? && p.color == RED && ColorOf(SiblingTree(p.up)) == BLACK
      requires parent == p.id && grandPa == p.up.id
      modifies this
      ensures Closed(Model()) && |nodes| == |old(nodes)|
      ensures Represents(Model(), tree) && WellColored(tree)
      ensures InOrder(tree) == InOrder(Plug(p, sub))
    {
      ghost var s := Model();
      Position(s, p, sub);
      PlugUp(p, sub);
      Position(s, p.up, Up(p, sub));
      assert parent == Left(Model(), grandPa) <==> p.up.LeftOf?;
      assert current == Left(Model(), parent) <==> p.LeftOf?;
      assert current == Right(Model(), parent) <==> p.RightOf?;
      if parent == Left(Model(), grandPa) && current == Left(Model(), parent) {
        // case 4.1
        SetColor(parent, BLACK);
        SetColor(grandPa, RED);
        Case41Writes(s, p, sub);
        RotateRight(parent);
        Case41Tree(p, sub);
        tree := Plug(p.up.up, Node(sub, p.id, p.key, BLACK, Node(p.right, p.up.id, p.up.key, RED, p.up.right)));
      } else if parent == Left(Model(), grandPa) && current == Right(Model(), parent) {
        // case 4.2
        Case42Writes(s, p, sub);
        RotateLeft(current);
        RotateRight(current);
        SetColor(current, BLACK);
        SetColor(Right(Model(), current), RED);
        Case42Tree(p, sub);
        tree := Plug(p.up.up, Node(Node(p.left, p.id, p.key, RED, sub.left), sub.id, sub.key, BLACK,
                                   Node(sub.right, p.up.id, p.up.key, RED, p.up.right)));
      } else if parent == Right(Model(), grandPa) && current == Left(Model(), parent) {
        // case 4.3
        Case43Writes(s, p, sub);
        RotateRight(current);
        RotateLeft(current);
        SetColor(current, BLACK);
        SetColor(Left(Model(), current), RED);
        Case43Tree(p, sub);
        tree := Plug(p.up.up, Node(Node(p.up.left, p.up.id, p.up.key, RED, sub.left), sub.id, sub.key, BLACK,
                                   Node(sub.right, p.id, p.key, RED, p.right)));
      } else {
        // case 4.4: the remaining combination
        SetColor(parent, BLACK);
        SetColor(grandPa, RED);
        Case44Writes(s, p, sub);
        RotateLeft(parent);
        Case44Tree(p, sub);
        tree := Plug(p.up.up, Node(Node(p.up.left, p.up.id, p.up.key, RED, p.left), p.id, p.key, BLACK, sub));
      }
    }

    // -------------------------------------------------------------------
    // Deletion

    /**
     * `delete(value)`: a missing value leaves the tree as it was.  A node
     * with two children takes the value of its in-order predecessor (the
     * rightmost node of its left subtree), which is then the node removed;
     * the removal itself is RemoveAt.
     */
    method Delete(value: int)
      requires Valid()
      modifies this
      ensures Valid()
      ensures Keys(tree) == old(Keys(tree)) - {value}
      ensures value !in old(Keys(tree)) ==> nodes == old(nodes) && root == old(root) && tree == old(tree)
      ensures |nodes| == |old(nodes)|
    {
      var current := GetNode(Model(), value, tree);
      if current == Nil {
        // the source prints a notice here
        return;
      }
      ghost var s := Model();
      ghost var p, d := LocateFrom(Top, tree, current);
      NodeAt(s, p, d);
      if Left(Model(), current) != Nil && Right(Model(), current) != Nil {
        ghost var o := LeftOf(p, d.id, d.key, d.color, d.right);
        var temp := Left(Model(), current);
        ghost var q: Path := Top;
        ghost var bt := d.left;
        while Right(Model(), temp) != Nil
          invariant Model() == s && tree == old(tree)
          invariant AllRight(q) && d.left == Plug(q, bt) && bt.Node? && temp == bt.id && IsNode(s, temp)
          invariant Plug(Append(q, o), bt) == tree
          decreases bt
        {
          NodeAt(s, Append(q, o), bt);
          q := RightOf(bt.left, bt.id, bt.key, bt.color, q);
          temp := Right(Model(), temp);
          bt := bt.right;
        }
        NodeAt(s, Append(q, o), bt);
        SetValue(current, Value(Model(), temp));
        RevalueRep(s, p, d, bt.key);
        RekeyWellColored(p, d, bt.key);
        ghost var p2, X, Y := PredecessorSplice(p, d, q, bt);
        current := temp;
        RemoveAt(current, p2, bt, X, value, Y);
      } else {
        SpliceInOrder(p, d);
        ghost var X := Before(p) + InOrder(d.left);
        ghost var Y := InOrder(d.right) + After(p);
        RemoveAt(current, p, d, X, value, Y);
      }
    }

    /**
     * The removal of `current`, a node with at most one child (lines
     * 355-383): the simple cases, the empty tree (case 3), or unlinking
     * followed by adjust_delete.  Ghost parameters: `current` is the root
     * of `d` at position `p`, and removing its key `k` from the in-order
     * sequence `X + [k] + Y` leaves `X + Y`.
     */
    method RemoveAt(current: Ptr, ghost p: Path, ghost d: Tree, ghost X: seq<int>, ghost k: int, ghost Y: seq<int>)
      requires Closed(Model()) && Represents(Model(), Plug(p, d)) && WellColored(Plug(p, d))
      requires d.Node? && current == d.id && (d.left.Leaf? || d.right.Leaf?)
      requires Ascending(X + [k] + Y) && InOrder(Plug(p, ChildTree(d))) == X + Y
      modifies this
      ensures Valid() && |nodes| == |old(nodes)|
      ensures Keys(tree) == (set x | x in X + [k] + Y) - {k}
    {
      ghost var s := Model();
      ghost var c := ChildTree(d);
      RemovalFacts(s, p, d);
      RemoveKey(X, k, Y);
      var done := DeleteSimpleCase(current);
      if done {
        ShortcutRep(s, Model(), p, d);
        tree := Shortcut(p, d);
        return;
      }
      DeleteStart(p, d);
      var parent := Parent(Model(), current);
      var sibling := Sibling(Model(), current);
      SiblingOf(s, p, d);
      if parent == Nil {
        // case 3: the last node goes
        root := Nil;
        tree := Leaf;
        return;
      }
      var flag := false;
      if Right(Model(), parent) == current {
        flag := false;
      } else {
        flag := true;
      }
      ReplaceWrites(s, p, d);
      var child := Replace(current);
      SplicedRep(s, Model(), p, d, ColorOf(c));
      AdjustDelete(child, parent, sibling, flag, p, Leaf);
    }

    /**
     * `replace(current)`: the child of `current` (left if present, else
     * right) takes its place, and `current` loses all its links.  Returns
     * the child, null when `current` had none or is null.
     */
    method Replace(current: Ptr) returns (child: Ptr)
      requires Closed(Model()) && IsPtr(Model(), current)
      modifies this
      ensures current == Nil ==> child == Nil && Model() == old(Model())
      ensures current != Nil ==> child == GetChild(old(Model()), current) && Model() == Removal.Replace(old(Model()), current)
      ensures tree == old(tree)
    {
      if current == Nil {
        return Nil;
      }
      var parent := Parent(Model(), current);
      if Left(Model(), current) != Nil {
        child := Left(Model(), current);
      } else {
        child := Right(Model(), current);
      }
      if parent == Nil {
        root := child;
      } else if Left(Model(), parent) == current {
        SetLeft(parent, child);
      } else {
        SetRight(parent, child);
      }
      if child != Nil {
        SetParent(child, parent);
      }
      SetNull(current);
    }

    /**
     * `delete_simple_case(current)`: a RED node is unlinked (case 1); a
     * BLACK node with a RED child is replaced by that child painted BLACK
     * (case 2).  Anything else is left alone and reported as not done.
     * Case 1 dereferences the parent, so a RED `current` must have one.
     */
    method DeleteSimpleCase(current: Ptr) returns (done: bool)
      requires Closed(Model()) && IsNode(Model(), current)
      requires ColorAt(Model(), current) == RED ==> Parent(Model(), current) != Nil
      modifies this
      ensures tree == old(tree)
      ensures ColorAt(old(Model()), current) == RED ==> done && Model() == Removal.Replace(old(Model()), current)
      ensures ColorAt(old(Model()), current) == BLACK && GetChild(old(Model()), current) != Nil &&
              ColorAt(old(Model()), GetChild(old(Model()), current)) == RED ==>
                done && Model() == PromoteChild(old(Model()), current)
      ensures !done <==> ColorAt(old(Model()), current) == BLACK &&
                         (GetChild(old(Model()), current) == Nil || ColorAt(old(Model()), GetChild(old(Model()), current)) == BLACK)
      ensures !done ==> Model() == old(Model())
    {
      if ColorAt(Model(), current) == RED {
        // case 1
        var parent := Parent(Model(), current);
        var child: Ptr;
        if Left(Model(), current) != Nil {
          child := Left(Model(), current);
        } else {
          child := Right(Model(), current);
        }
        if Left(Model(), parent) == current {
          SetLeft(parent, child);
        } else {
          SetRight(parent, child);
        }
        if child != Nil {
          SetParent(child, parent);
        }
        SetNull(current);
        return true;
      }
      if ColorAt(Model(), current) == BLACK && GetChild(Model(), current) != Nil && ColorAt(Model(), GetChild(Model(), current)) == RED {
        // case 2
        var parent := Parent(Model(), current);
        var child := GetChild(Model(), current);
        SetParent(child, parent);
        SetColor(child, BLACK);
        if parent == Nil {
          root := child;
        } else if Left(Model(), parent) == current {
          SetLeft(parent, child);
        } else {
          SetRight(parent, child);
        }
        SetNull(current);
        return true;
      }
      return false;
    }

    /**
     * `adjust_delete(current, parent, sibling, flag)`: the subtree at
     * `current` (possibly empty) is one BLACK node short; `flag` says that
     * it is the left child of `parent`.  The cases are tried in the order of
     * the source; cases 9 and 10 continue with the parent's new child on the
     * sibling side as the sibling.  The writes of each case are in the
     * methods DeleteCase4 to DeleteCase11 below.
     */
    method AdjustDelete(current: Ptr, parent: Ptr, sibling: Ptr, flag: bool, ghost p: Path, ghost n: Tree)
      requires Closed(Model()) && Represents(Model(), Plug(p, n)) && DelInv(p, n)
      requires current == RootOf(n) && parent == ParentId(p)
      requires !p.Top? ==> (flag <==> p.LeftOf?) && sibling == RootOf(SiblingTree(p))
      modifies this
      ensures Closed(Model()) && |nodes| == |old(nodes)|
      ensures Represents(Model(), tree) && WellColored(tree)
      ensures InOrder(tree) == InOrder(Plug(p, n))
      decreases Depth(p) + Rank(p), 1
    {
      if parent == Nil {
        // the deficit has reached the root: every path lost the same BLACK node
        tree := Plug(p, n);
        return;
      }
      SiblingExists(p, n);
      Around(Model(), p, n);
      if ColorAt(Model(), parent) == RED && sibling != Nil && ColorAt(Model(), sibling) == BLACK {
        if IsBlackNode(Model(), Left(Model(), sibling)) && IsBlackNode(Model(), Right(Model(), sibling)) {
          DeleteCase4(parent, sibling, p, n);
          return;
        }
      }
      if flag && sibling != Nil && ColorAt(Model(), sibling) == BLACK && Right(Model(), sibling) != Nil && ColorAt(Model(), Right(Model(), sibling)) == RED {
        DeleteCase5(parent, sibling, p, n);
        return;
      }
      if !flag && sibling != Nil && ColorAt(Model(), sibling) == BLACK && Left(Model(), sibling) != Nil && ColorAt(Model(), Left(Model(), sibling)) == RED {
        DeleteCase6(parent, sibling, p, n);
        return;
      }
      AdjustDeleteOnward(current, parent, sibling, flag, p, n);
    }

    /**
     * The rest of `adjust_delete` (lines 486-547), once cases 4 to 6 have
     * been ruled out: cases 7 and 8 rotate the sibling and try again, cases
     * 9 and 10 rotate the parent and try again, case 11 moves the deficit up.
     */
    method AdjustDeleteOnward(current: Ptr, parent: Ptr, sibling: Ptr, flag: bool, ghost p: Path, ghost n: Tree)
      requires Closed(Model()) && Represents(Model(), Plug(p, n)) && DelInv(p, n) && !p.Top?
      requires current == RootOf(n) && parent == p.id
      requires (flag <==> p.LeftOf?) && SiblingTree(p).Node? && sibling == SiblingTree(p).id
      requires !Terminal(p)
      modifies this
      ensures Closed(Model()) && |nodes| == |old(nodes)|
      ensures Represents(Model(), tree) && WellColored(tree)
      ensures InOrder(tree) == InOrder(Plug(p, n))
      decreases Depth(p) + Rank(p), 0
    {
      Around(Model(), p, n);
      if flag && sibling != Nil && ColorAt(Model(), sibling) == BLACK && Left(Model(), sibling) != Nil && ColorAt(Model(), Left(Model(), sibling)) == RED {
        var temp := DeleteCase7(parent, sibling, p, n);
        AdjustDelete(current, parent, temp, true, p.(right := Case7Sibling(p.right)), n);
        return;
      }
      if !flag && sibling != Nil && ColorAt(Model(), sibling) == BLACK && Right(Model(), sibling) != Nil && ColorAt(Model(), Right(Model(), sibling)) == RED {
        var temp := DeleteCase8(parent, sibling, p, n);
        AdjustDelete(current, parent, temp, false, p.(left := Case8Sibling(p.left)), n);
        return;
      }
      if flag && sibling != Nil && ColorAt(Model(), sibling) == RED {
        var next := DeleteCase9(parent, sibling, p, n);
        AdjustDelete(current, parent, next, true, Case9Path(p), n);
        return;
      }
      if !flag && sibling != Nil && ColorAt(Model(), sibling) == RED {
        var next := DeleteCase10(parent, sibling, p, n);
        AdjustDelete(current, parent, next, false, Case10Path(p), n);
        return;
      }
      if ColorAt(Model(), parent) == BLACK && sibling != Nil && ColorAt(Model(), sibling) == BLACK &&
         IsBlackNode(Model(), Left(Model(), sibling)) && IsBlackNode(Model(), Right(Model(), sibling)) {
        ghost var j := Join(p, n, BLACK, Recolored(SiblingTree(p), RED));
        var tempParent, tempSibling, tempFlag := DeleteCase11(parent, sibling, p, n);
        AdjustDelete(parent, tempParent, tempSibling, tempFlag, p.up, j);
        return;
      }
      CasesExhaustive(p, n);
      assert false;
    }

    /** Case 4 (lines 456-461): a RED parent and a BLACK sibling with BLACK children swap colours. */
    method DeleteCase4(parent: Ptr, sibling: Ptr, ghost p: Path, ghost n: Tree)
      requires Closed(Model()) && Represents(Model(), Plug(p, n)) && DelInv(p, n) && !p.Top?
      requires parent == p.id && SiblingTree(p).Node? && sibling == SiblingTree(p).id
      requires p.color == RED && SiblingTree(p).color == BLACK
      requires ColorOf(SiblingTree(p).left) == BLACK && ColorOf(SiblingTree(p).right) == BLACK
      modifies this
      ensures Closed(Model()) && |nodes| == |old(nodes)|
      ensures Represents(Model(), tree) && WellColored(tree)
      ensures InOrder(tree) == InOrder(Plug(p, n))
    {
      ghost var s := Model();
      ghost var sib := SiblingTree(p);
      Case4Writes(s, p, n);
      SetColor(parent, BLACK);
      SetColor(sibling, RED);
      Case4Tree(p, n);
      JoinUp(p, n);
      tree := Plug(p.up, Join(p, n, BLACK, Recolored(sib, RED)));
    }

    /** Case 5 (lines 466-471): the far nephew is RED; recolour and rotate the sibling left. */
    method DeleteCase5(parent: Ptr, sibling: Ptr, ghost p: Path, ghost n: Tree)
      requires Closed(Model()) && Represents(Model(), Plug(p, n)) && DelInv(p, n) && p.LeftOf?
      requires parent == p.id && p.right.Node? && sibling == p.right.id
      requires p.right.color == BLACK && ColorOf(p.right.right) == RED
      modifies this
      ensures Closed(Model()) && |nodes| == |old(nodes)|
      ensures Represents(Model(), tree) && WellColored(tree)
      ensures InOrder(tree) == InOrder(Plug(p, n))
    {
      ghost var s := Model();
      ghost var sib := p.right;
      Around(s, p, n);
      Case5Writes(s, p, n);
      SetColor(sibling, ColorAt(Model(), parent));
      SetColor(parent, BLACK);
      SetColor(Right(Model(), sibling), BLACK);
      RotateLeft(sibling);
      Case5Tree(p, n);
      tree := Plug(p.up, Node(Node(n, p.id, p.key, BLACK, sib.left), sib.id, sib.key, p.color, sib.right.(color := BLACK)));
    }

    /** Case 6 (lines 476-481): the mirror image of case 5. */
    method DeleteCase6(parent: Ptr, sibling: Ptr, ghost p: Path, ghost n: Tree)
      requires Closed(Model()) && Represents(Model(), Plug(p, n)) && DelInv(p, n) && p.RightOf?
      requires parent == p.id && p.left.Node? && sibling == p.left.id
      requires p.left.color == BLACK && ColorOf(p.left.left) == RED
      modifies this
      ensures Closed(Model()) && |nodes| == |old(nodes)|
      ensures Represents(Model(), tree) && WellColored(tree)
      ensures InOrder(tree) == InOrder(Plug(p, n))
    {
      ghost var s := Model();
      ghost var sib := p.left;
      Around(s, p, n);
      Case6Writes(s, p, n);
      SetColor(sibling, ColorAt(Model(), parent));
      SetColor(parent, BLACK);
      SetColor(Left(Model(), sibling), BLACK);
      RotateRight(sibling);
      Case6Tree(p, n);
      tree := Plug(p.up, Node(sib.left.(color := BLACK), sib.id, sib.key, p.color, Node(sib.right, p.id, p.key, BLACK, n)));
    }

    /**
     * Case 7 (lines 486-490): only the near nephew is RED; it is rotated
     * above the sibling and becomes the new sibling, returned as `temp`.
     */
    method DeleteCase7(parent: Ptr, sibling: Ptr, ghost p: Path, ghost n: Tree) returns (temp: Ptr)
      requires Closed(Model()) && Represents(Model(), Plug(p, n)) && DelInv(p, n) && p.LeftOf?
      requires parent == p.id && p.right.Node? && sibling == p.right.id
      requires p.right.color == BLACK && ColorOf(p.right.right) == BLACK && ColorOf(p.right.left) == RED
      modifies this
      ensures Closed(Model()) && |nodes| == |old(nodes)|
      ensures p.right.left.Node? && temp == p.right.left.id
      ensures Represents(Model(), Plug(p.(right := Case7Sibling(p.right)), n)) && DelInv(p.(right := Case7Sibling(p.right)), n)
      ensures InOrder(Plug(p.(right := Case7Sibling(p.right)), n)) == InOrder(Plug(p, n))
      ensures Rank(p.(right := Case7Sibling(p.right))) < Rank(p)
    {
      ghost var s := Model();
      Around(s, p, n);
      Case7Writes(s, p, n);
      SetColor(sibling, RED);
      SetColor(Left(Model(), sibling), BLACK);
      temp := Left(Model(), sibling);
      RotateRight(temp);
      Case7Tree(p, n);
    }

    /** Case 8 (lines 497-501): the mirror image of case 7. */
    method DeleteCase8(parent: Ptr, sibling: Ptr, ghost p: Path, ghost n: Tree) returns (temp: Ptr)
      requires Closed(Model()) && Represents(Model(), Plug(p, n)) && DelInv(p, n) && p.RightOf?
      requires parent == p.id && p.left.Node? && sibling == p.left.id
      requires p.left.color == BLACK && ColorOf(p.left.left) == BLACK && ColorOf(p.left.right) == RED
      modifies this
      ensures Closed(Model()) && |nodes| == |old(nodes)|
      ensures p.left.right.Node? && temp == p.left.right.id
      ensures Represents(Model(), Plug(p.(left := Case8Sibling(p.left)), n)) && DelInv(p.(left := Case8Sibling(p.left)), n)
      ensures InOrder(Plug(p.(left := Case8Sibling(p.left)), n)) == InOrder(Plug(p, n))
      ensures Rank(p.(left := Case8Sibling(p.left))) < Rank(p)
    {
      ghost var s := Model();
      Around(s, p, n);
      Case8Writes(s, p, n);
      SetColor(sibling, RED);
      SetColor(Right(Model(), sibling), BLACK);
      temp := Right(Model(), sibling);
      RotateLeft(temp);
      Case8Tree(p, n);
    }

    /**
     * Case 9 (lines 508-511): a RED sibling is rotated above the parent; the
     * parent's new right child is the new sibling, returned as `next`.
     */
    method DeleteCase9(parent: Ptr, sibling: Ptr, ghost p: Path, ghost n: Tree) returns (next: Ptr)
      requires Closed(Model()) && Represents(Model(), Plug(p, n)) && DelInv(p, n) && p.LeftOf?
      requires parent == p.id && p.right.Node? && sibling == p.right.id && p.right.color == RED
      modifies this
      ensures Closed(Model()) && |nodes| == |old(nodes)|
      ensures next == RootOf(p.right.left)
      ensures Represents(Model(), Plug(Case9Path(p), n)) && DelInv(Case9Path(p), n)
      ensures InOrder(Plug(Case9Path(p), n)) == InOrder(Plug(p, n))
      ensures Depth(Case9Path(p)) + Rank(Case9Path(p)) < Depth(p) + Rank(p)
    {
      ghost var s := Model();
      Around(s, p, n);
      Case9Writes(s, p, n);
      SetColor(sibling, ColorAt(Model(), parent));
      SetColor(parent, RED);
      RotateLeft(sibling);
      next := Right(Model(), parent);
      Case9Tree(p, n);
    }

    /** Case 10 (lines 518-521): the mirror image of case 9, continuing with the parent's new left child. */
    method DeleteCase10(parent: Ptr, sibling: Ptr, ghost p: Path, ghost n: Tree) returns (next: Ptr)
      requires Closed(Model()) && Represents(Model(), Plug(p, n)) && DelInv(p, n) && p.RightOf?
      requires parent == p.id && p.left.Node? && sibling == p.left.id && p.left.color == RED
      modifies this
      ensures Closed(Model()) && |nodes| == |old(nodes)|
      ensures next == RootOf(p.left.right)
      ensures Represents(Model(), Plug(Case10Path(p), n)) && DelInv(Case10Path(p), n)
      ensures InOrder(Plug(Case10Path(p), n)) == InOrder(Plug(p, n))
      ensures Depth(Case10Path(p)) + Rank(Case10Path(p)) < Depth(p) + Rank(p)
    {
      ghost var s := Model();
      Around(s, p, n);
      Case10Writes(s, p, n);
      SetColor(sibling, ColorAt(Model(), parent));
      SetColor(parent, RED);
      RotateRight(sibling);
      next := Left(Model(), parent);
      Case10Tree(p, n);
    }

    /**
     * Case 11 (lines 528-545): a BLACK parent, sibling and nephews; the
     * sibling turns RED and the deficit moves up to the parent, whose own
     * parent, sibling and side are returned.
     */
    method DeleteCase11(parent: Ptr, sibling: Ptr, ghost p: Path, ghost n: Tree)
        returns (tempParent: Ptr, tempSibling: Ptr, tempFlag: bool)
      requires Closed(Model()) && Represents(Model(), Plug(p, n)) && DelInv(p, n) && !p.Top?
      requires parent == p.id && SiblingTree(p).Node? && sibling == SiblingTree(p).id
      requires p.color == BLACK && SiblingTree(p).color == BLACK
      requires ColorOf(SiblingTree(p).left) == BLACK && ColorOf(SiblingTree(p).right) == BLACK
      modifies this
      ensures Closed(Model()) && |nodes| == |old(nodes)|
      ensures var j := Join(p, n, BLACK, Recolored(SiblingTree(p), RED));
        Represents(Model(), Plug(p.up, j)) && DelInv(p.up, j) &&
        InOrder(Plug(p.up, j)) == InOrder(Plug(p, n)) &&
        tempParent == ParentId(p.up) &&
        (!p.up.Top? ==> (tempFlag <==> p.up.LeftOf?) && tempSibling == RootOf(SiblingTree(p.up)))
      ensures Depth(p.up) + Rank(p.up) < Depth(p) + Rank(p)
    {
      ghost var s := Model();
      ghost var j := Join(p, n, BLACK, Recolored(SiblingTree(p), RED));
      Around(s, p, n);
      Case11Writes(s, p, n);
      SetColor(sibling, RED);
      Case11Tree(p, n);
      if !p.up.Top? {
        ParentAt(Model(), p.up, j);
        Position(Model(), p.up, j);
      }
      tempParent := Parent(Model(), parent);
      tempSibling := Nil;
      tempFlag := false;
      if tempParent != Nil {
        if Right(Model(), tempParent) == parent {
          tempSibling := Left(Model(), tempParent);
          tempFlag := false;
        } else {
          tempSibling := Right(Model(), tempParent);
          tempFlag := true;
        }
      } else {
        tempFlag := true;
        tempSibling := Nil;
      }
    }
  }
}
