/**
 * The structural half of `delete` (RedBlackTree.java, lines 327-384):
 * finding the node, moving the in-order predecessor's value into a node with
 * two children, and unlinking a node that has at most one child
 * (`delete_simple_case`, lines 392-438, and `replace`, lines 558-584).
 */
module Removal {
  import opened Nodes
  import opened Trees
  import opened Layout
  import opened Queries

  // ---------------------------------------------------------------------
  // Positions inside a tree

  /** The position of node `i` below position `p`: plugging its subtree back at it gives `Plug(p, t)`. */
  lemma {:induction false} LocateFrom(p: Path, t: Tree, i: nat) returns (q: Path, sub: Tree)
    requires i in Ids(t)
    ensures Plug(q, sub) == Plug(p, t) && sub.Node? && sub.id == i
    decreases t
  {
    if t.id == i {
      q, sub := p, t;
    } else if i in Ids(t.left) {
      q, sub := LocateFrom(LeftOf(p, t.id, t.key, t.color, t.right), t.left, i);
    } else {
      q, sub := LocateFrom(RightOf(t.left, t.id, t.key, t.color, p), t.right, i);
    }
  }

  /** `q`, continued above its top by `o`. */
  function Append(q: Path, o: Path): Path
  {
    match q
    case Top => o
    case LeftOf(up, i, k, c, r) => LeftOf(Append(up, o), i, k, c, r)
    case RightOf(l, i, k, c, up) => RightOf(l, i, k, c, Append(up, o))
  }

  lemma {:induction false} PlugAppend(q: Path, o: Path, t: Tree)
    ensures Plug(Append(q, o), t) == Plug(o, Plug(q, t))
    decreases q
  {
    match q
    case Top =>
    case LeftOf(up, i, k, c, r) => PlugAppend(up, o, Node(t, i, k, c, r));
    case RightOf(l, i, k, c, up) => PlugAppend(up, o, Node(l, i, k, c, t));
  }

  /** A path that only ever goes right: the rightmost spine of a subtree. */
  predicate AllRight(q: Path)
  {
    match q
    case Top => true
    case LeftOf(_, _, _, _, _) => false
    case RightOf(_, _, _, _, up) => AllRight(up)
  }

  /** Going only right, nothing of the subtree comes after the position. */
  lemma {:induction false} AfterAllRight(q: Path, o: Path)
    requires AllRight(q)
    ensures After(q) == [] && After(Append(q, o)) == After(o)
    ensures Before(Append(q, o)) == Before(o) + Before(q)
    decreases q
  {
    match q
    case Top =>
    case RightOf(l, i, k, c, up) => AfterAllRight(up, o);
  }

  // ---------------------------------------------------------------------
  // Unlinking a node with at most one child

  /** The only subtree of a node with at most one child (empty for a leaf node). */
  function ChildTree(d: Tree): Tree
    requires d.Node?
  {
    if d.left.Node? then d.left else d.right
  }

  /** `t` with its root painted `c` (nothing for an empty tree). */
  function Recolored(t: Tree, c: Color): Tree
  {
    if t.Leaf? then t else t.(color := c)
  }

  /**
   * `replace(current)`, lines 562-582: the child (left if present, else
   * right) takes the place of `current` under its parent or as root, gets
   * the parent as its parent, and `current` loses its links.
   */
  function Replace(s: State, cur: Ptr): (t: State)
    requires Closed(s) && IsNode(s, cur)
    ensures Closed(t) && |t.nodes| == |s.nodes|
    ensures Left(t, cur) == Nil && Right(t, cur) == Nil && Parent(t, cur) == Nil
  {
    var parent := Parent(s, cur);
    var child := GetChild(s, cur);
    var s1 := if parent == Nil then SetRoot(s, child)
              else if Left(s, parent) == cur then SetLeft(s, parent, child)
              else SetRight(s, parent, child);
    var s2 := if child != Nil then SetParent(s1, child, parent) else s1;
    SetNull(s2, cur)
  }

  /**
   * Case 2 of `delete_simple_case`, lines 421-434: the child gets the
   * parent of `current` and the colour BLACK, then takes the place of `current`.
   */
  function PromoteChild(s: State, cur: Ptr): (t: State)
    requires Closed(s) && IsNode(s, cur) && GetChild(s, cur) != Nil
    ensures Closed(t) && |t.nodes| == |s.nodes|
    ensures Left(t, cur) == Nil && Right(t, cur) == Nil && Parent(t, cur) == Nil
    ensures ColorAt(t, GetChild(s, cur)) == BLACK
  {
    var parent := Parent(s, cur);
    var child := GetChild(s, cur);
    var s1 := SetParent(s, child, parent);
    var s2 := SetColor(s1, child, BLACK);
    var s3 := if parent == Nil then SetRoot(s2, child)
              else if Left(s2, parent) == cur then SetLeft(s2, parent, child)
              else SetRight(s2, parent, child);
    SetNull(s3, cur)
  }

  /**
   * `s'` is `s` with node `d` (at position `p`, at most one child) unlinked:
   * the focus link of the parent (or the root field) refers to the child,
   * the child's root has the parent as parent and colour `c`, and no other
   * node except `d` itself changes.
   */
  ghost predicate Spliced(s: State, s': State, p: Path, d: Tree, c: Color)
    requires d.Node?
  {
    var child := ChildTree(d);
    |s'.nodes| == |s.nodes| &&
    (p.Top? ==> s'.root == RootOf(child)) &&
    (!p.Top? ==> s'.root == s.root && p.id < |s.nodes| && s'.nodes[p.id] == WithFocus(s.nodes[p.id], p, RootOf(child))) &&
    (child.Node? ==> child.id < |s.nodes| && s'.nodes[child.id] == s.nodes[child.id].(parent := ParentId(p), color := c)) &&
    forall j :: 0 <= j < |s.nodes| && j != ParentId(p) && j != RootOf(child) && j != d.id ==> s'.nodes[j] == s.nodes[j]
  }

  /** After unlinking, the child's subtree hangs below the old parent of the node. */
  lemma SplicedChild(s: State, s': State, p: Path, d: Tree, c: Color)
    requires Rep(s, d, ParentId(p)) && Unique(d) && d.Node? && (d.left.Leaf? || d.right.Leaf?)
    requires ParentId(p) !in Ids(d)
    requires Spliced(s, s', p, d, c)
    ensures Rep(s', Recolored(ChildTree(d), c), ParentId(p))
  {
    var child := ChildTree(d);
    if child.Node? {
      assert Shape(s, child) && Unique(child) && child.id in Ids(d) && child.id != d.id;
      IdsInArena(s, d);
      forall j | j in Ids(child.left) || j in Ids(child.right)
        ensures SameNode(s, s', j)
      {
        assert j in Ids(d) && j != d.id && j != child.id;
      }
      RepFrame(s, s', child.left, child.id);
      RepFrame(s, s', child.right, child.id);
      assert Shape(s', Recolored(child, c));
    }
  }

  /** Unlinking a node with at most one child leaves its child's subtree in its place. */
  lemma SplicedRep(s: State, s': State, p: Path, d: Tree, c: Color)
    requires Represents(s, Plug(p, d)) && d.Node? && (d.left.Leaf? || d.right.Leaf?)
    requires Spliced(s, s', p, d, c)
    ensures Represents(s', Plug(p, Recolored(ChildTree(d), c)))
  {
    var child := ChildTree(d);
    var child' := Recolored(child, c);
    RepPlug(s, p, d);
    UniquePlug(p, d);
    assert p.Top? || p.id in PathIds(p);
    SplicedChild(s, s', p, d, c);
    PathIdsInArena(s, p, d.id);
    assert Ids(child) <= Ids(d);
    assert forall j :: j in PathIds(p) && j != ParentId(p) ==> j !in Ids(d);
    PathFocus(s, s', p, d.id, RootOf(child));
    RepPlug(s', p, child');
    ReplaceUnique(p, d, child');
  }

  /** Node `par` with whichever of its child links refers to `cur` redirected to `child`. */
  function Redirect(n: TreeNode, cur: Ptr, child: Ptr): TreeNode
  {
    if n.left == cur then n.(left := child) else n.(right := child)
  }

  /** The fields `replace` writes, stated node by node without reference to the tree. */
  lemma ReplaceEffect(s: State, cur: Ptr)
    requires Closed(s) && IsNode(s, cur)
    requires Parent(s, cur) != cur && GetChild(s, cur) != cur
    requires GetChild(s, cur) != Nil ==> GetChild(s, cur) != Parent(s, cur)
    ensures var t, par, child := Replace(s, cur), Parent(s, cur), GetChild(s, cur);
      (par == Nil ==> t.root == child) &&
      (par != Nil ==> t.root == s.root && t.nodes[par] == Redirect(s.nodes[par], cur, child)) &&
      (child != Nil ==> t.nodes[child] == s.nodes[child].(parent := par)) &&
      forall j :: 0 <= j < |s.nodes| && j != par && j != child && j != cur ==> t.nodes[j] == s.nodes[j]
  {
  }

  /** The fields case 2 of `delete_simple_case` writes, stated node by node. */
  lemma PromoteChildEffect(s: State, cur: Ptr)
    requires Closed(s) && IsNode(s, cur) && GetChild(s, cur) != Nil
    requires Parent(s, cur) != cur && GetChild(s, cur) != cur && GetChild(s, cur) != Parent(s, cur)
    ensures var t, par, child := PromoteChild(s, cur), Parent(s, cur), GetChild(s, cur);
      (par == Nil ==> t.root == child) &&
      (par != Nil ==> t.root == s.root && t.nodes[par] == Redirect(s.nodes[par], cur, child)) &&
      t.nodes[child] == s.nodes[child].(parent := par, color := BLACK) &&
      forall j :: 0 <= j < |s.nodes| && j != par && j != child && j != cur ==> t.nodes[j] == s.nodes[j]
  {
  }

  /** The child of a node with at most one child, as stored in the arena. */
  lemma ChildAt(s: State, p: Path, d: Tree)
    requires Closed(s) && Represents(s, Plug(p, d)) && d.Node? && (d.left.Leaf? || d.right.Leaf?)
    ensures IsNode(s, d.id) && GetChild(s, d.id) == RootOf(ChildTree(d))
    ensures Parent(s, d.id) == ParentId(p) && ParentId(p) != d.id && RootOf(ChildTree(d)) != d.id
    ensures ChildTree(d).Node? ==> ChildTree(d).id < |s.nodes| && ChildTree(d).id != ParentId(p)
    ensures !p.Top? ==> WithFocus(s.nodes[p.id], p, RootOf(ChildTree(d))) == Redirect(s.nodes[p.id], d.id, RootOf(ChildTree(d)))
  {
    Position(s, p, d);
    var child := ChildTree(d);
    UniquePlug(p, d);
    if child.Node? {
      RepPlug(s, p, d);
      assert child.id in Ids(d) && child.id != d.id;
      assert Shape(s, d.left) && Shape(s, d.right);
      assert p.Top? || p.id in PathIds(p);
    }
  }

  /** The writes of `replace` unlink the node, keeping the child's colour. */
  lemma ReplaceWrites(s: State, p: Path, d: Tree)
    requires Closed(s) && Represents(s, Plug(p, d)) && d.Node? && (d.left.Leaf? || d.right.Leaf?)
    ensures IsNode(s, d.id) && GetChild(s, d.id) == RootOf(ChildTree(d))
    ensures Spliced(s, Replace(s, d.id), p, d, ColorOf(ChildTree(d)))
  {
    ChildAt(s, p, d);
    ReplaceEffect(s, d.id);
    var child := ChildTree(d);
    if child.Node? {
      NodeAt(s, p, d);
      RepPlug(s, p, d);
      assert Shape(s, d.left) && Shape(s, d.right);
      assert s.nodes[child.id].color == child.color;
    }
  }

  /** The writes of case 2 of `delete_simple_case` unlink the node and paint the child BLACK. */
  lemma PromoteChildWrites(s: State, p: Path, d: Tree)
    requires Closed(s) && Represents(s, Plug(p, d)) && d.Node? && (d.left.Leaf? || d.right.Leaf?)
    requires ChildTree(d).Node?
    ensures IsNode(s, d.id) && GetChild(s, d.id) == ChildTree(d).id
    ensures Spliced(s, PromoteChild(s, d.id), p, d, BLACK)
  {
    ChildAt(s, p, d);
    PromoteChildEffect(s, d.id);
  }

  // ---------------------------------------------------------------------
  // What unlinking does to the colouring

  /**
   * Case 1 of delete_simple_case: a RED node with at most one child is not
   * the root, and putting its child in its place keeps the tree well coloured.
   */
  lemma RedRemoval(p: Path, d: Tree)
    requires WellColored(Plug(p, d)) && d.Node? && d.color == RED && (d.left.Leaf? || d.right.Leaf?)
    ensures !p.Top?
    ensures WellColored(Plug(p, ChildTree(d)))
  {
    BalancedPlug(p, d);
    NoRedRedPlug(p, d);
    ReplaceWellColored(p, d, ChildTree(d));
  }

  /**
   * Case 2 of delete_simple_case: a BLACK node whose only child is RED is
   * replaced by that child painted BLACK, and the tree stays well coloured.
   */
  lemma BlackRemoval(p: Path, d: Tree)
    requires WellColored(Plug(p, d)) && d.Node? && d.color == BLACK && (d.left.Leaf? || d.right.Leaf?)
    requires ColorOf(ChildTree(d)) == RED
    ensures WellColored(Plug(p, ChildTree(d).(color := BLACK)))
  {
    BalancedPlug(p, d);
    NoRedRedPlug(p, d);
    var child := ChildTree(d);
    assert BlackHeight(child) == 0;
    ReplaceWellColored(p, d, child.(color := BLACK));
  }

  /** Changing a key leaves the colouring as it is. */
  lemma RekeyWellColored(p: Path, t: Tree, k: int)
    requires WellColored(Plug(p, t)) && t.Node?
    ensures WellColored(Plug(p, t.(key := k)))
  {
    BalancedPlug(p, t);
    NoRedRedPlug(p, t);
    ReplaceWellColored(p, t, t.(key := k));
  }

  // ---------------------------------------------------------------------
  // What unlinking does to the keys

  /** Unlinking a node with at most one child drops exactly its key from the in-order sequence. */
  lemma SpliceInOrder(p: Path, d: Tree)
    requires d.Node? && (d.left.Leaf? || d.right.Leaf?)
    ensures InOrder(Plug(p, d)) == (Before(p) + InOrder(d.left)) + [d.key] + (InOrder(d.right) + After(p))
    ensures InOrder(Plug(p, ChildTree(d))) == (Before(p) + InOrder(d.left)) + (InOrder(d.right) + After(p))
  {
    InOrderPlug(p, d);
    InOrderPlug(p, ChildTree(d));
    SpliceSeq(Before(p), InOrder(d.left), d.key, InOrder(d.right), After(p), InOrder(ChildTree(d)));
  }

  /** Regrouping the concatenations of SpliceInOrder, where one of `l` and `r` is empty and `c` is the other. */
  lemma SpliceSeq(b: seq<int>, l: seq<int>, k: int, r: seq<int>, a: seq<int>, c: seq<int>)
    requires l == [] || r == []
    requires c == l + r
    ensures b + (l + [k] + r) + a == (b + l) + [k] + (r + a)
    ensures b + c + a == (b + l) + (r + a)
  {
  }

  /**
   * Removing a node with two children (lines 340-348): its key is replaced
   * by the key of the rightmost node `bt` of its left subtree, and then `bt`
   * (which has no right child) is unlinked at position `p2`.  The in-order
   * sequence loses exactly the original key.
   */
  lemma PredecessorSplice(p: Path, d: Tree, q: Path, bt: Tree) returns (p2: Path, X: seq<int>, Y: seq<int>)
    requires d.Node? && bt.Node? && bt.right.Leaf? && AllRight(q) && d.left == Plug(q, bt)
    ensures p2 == Append(q, LeftOf(p, d.id, bt.key, d.color, d.right))
    ensures Plug(p2, bt) == Plug(p, d.(key := bt.key))
    ensures InOrder(Plug(p, d)) == X + [d.key] + Y
    ensures InOrder(Plug(p2, ChildTree(bt))) == X + Y
  {
    var o := LeftOf(p, d.id, bt.key, d.color, d.right);
    p2 := Append(q, o);
    PlugAppend(q, o, bt);
    assert Plug(o, d.left) == Plug(p, d.(key := bt.key));
    InOrderPlug(p, d);
    InOrderPlug(q, bt);
    AfterAllRight(q, o);
    SpliceInOrder(p2, bt);
    X := Before(p) + Before(q) + InOrder(bt.left) + [bt.key];
    Y := InOrder(d.right) + After(p);
    assert InOrder(bt.right) == [];
    PredecessorSeq(Before(p), InOrder(d.left), d.key, InOrder(d.right), After(p),
                   Before(q), InOrder(bt.left), bt.key, Before(p2), After(p2));
  }

  /** Regrouping the concatenations of PredecessorSplice. */
  lemma PredecessorSeq(bp: seq<int>, dl: seq<int>, k: int, dr: seq<int>, ap: seq<int>,
                       bq: seq<int>, bl: seq<int>, kb: int, bp2: seq<int>, ap2: seq<int>)
    requires dl == bq + (bl + [kb] + []) + []
    requires bp2 == bp + bq && ap2 == [kb] + dr + ap
    ensures bp + (dl + [k] + dr) + ap == (bp + bq + bl + [kb]) + [k] + (dr + ap)
    ensures (bp2 + bl) + ([] + ap2) == (bp + bq + bl + [kb]) + (dr + ap)
  {
  }

  /** Dropping one key from an ascending sequence: still ascending, and that key is gone. */
  lemma RemoveKey(a: seq<int>, k: int, b: seq<int>)
    requires Ascending(a + [k] + b)
    ensures Ascending(a + b)
    ensures (set x | x in a + b) == (set x | x in a + [k] + b) - {k}
  {
    AscendingSplit(a, k, b);
    var s := a + b;
    forall i, j | 0 <= i < j < |s| ensures s[i] < s[j] {
      if j < |a| {
        assert s[i] == a[i] && s[j] == a[j];
      } else if i >= |a| {
        assert s[i] == b[i - |a|] && s[j] == b[j - |a|];
      } else {
        assert s[i] == a[i] && s[j] == b[j - |a|];
        assert a[i] in a && b[j - |a|] in b;
      }
    }
  }
}
