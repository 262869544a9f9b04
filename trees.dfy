/**
 * The abstract red-black tree that the node arena represents.
 *
 * A `Tree` value records, for every node, its arena index `id`, its key and
 * its colour; a `Path` is a position inside a tree, written as the chain of
 * ancestors from the focus up to the root (a zipper).  The red-black
 * properties listed in the class comment of RedBlackTree.java are stated here
 * on these values, so no proof about them has to reason about the arena.
 */
module Trees {
  import opened Nodes

  datatype Tree = Leaf | Node(left: Tree, id: nat, key: int, color: Color, right: Tree)

  /** The ancestors of a position, innermost first. */
  datatype Path =
    | Top
      /** The focus is the left child of node `id`, whose right subtree is `right`. */
    | LeftOf(up: Path, id: nat, key: int, color: Color, right: Tree)
      /** The focus is the right child of node `id`, whose left subtree is `left`. */
    | RightOf(left: Tree, id: nat, key: int, color: Color, up: Path)

  /** The reference to the root of a subtree (null for an empty one). */
  function RootOf(t: Tree): Ptr
  {
    if t.Leaf? then Nil else t.id
  }

  /** Absent nodes count as BLACK. */
  function ColorOf(t: Tree): Color
  {
    if t.Leaf? then BLACK else t.color
  }

  function Ids(t: Tree): set<nat>
  {
    match t
    case Leaf => {}
    case Node(l, i, _, _, r) => Ids(l) + {i} + Ids(r)
  }

  function Size(t: Tree): nat
  {
    match t
    case Leaf => 0
    case Node(l, _, _, _, r) => Size(l) + 1 + Size(r)
  }

  /** No arena node occurs twice in the tree. */
  ghost predicate Unique(t: Tree)
  {
    match t
    case Leaf => true
    case Node(l, i, _, _, r) =>
      Unique(l) && Unique(r) && i !in Ids(l) && i !in Ids(r) && Ids(l) !! Ids(r)
  }

  /** Keys in left-node-right order. */
  function InOrder(t: Tree): seq<int>
  {
    match t
    case Leaf => []
    case Node(l, _, k, _, r) => InOrder(l) + [k] + InOrder(r)
  }

  ghost function Keys(t: Tree): set<int>
  {
    set x | x in InOrder(t)
  }

  ghost predicate Ascending(s: seq<int>)
  {
    forall i, j :: 0 <= i < j < |s| ==> s[i] < s[j]
  }

  /** The binary-search-tree ordering: the in-order key sequence strictly increases. */
  ghost predicate Ordered(t: Tree)
  {
    Ascending(InOrder(t))
  }

  function Height(t: Tree): nat
  {
    match t
    case Leaf => 0
    case Node(l, _, _, _, r) => (if Height(l) > Height(r) then Height(l) else Height(r)) + 1
  }

  /** The number of BLACK nodes on the leftmost path from the root of `t` down to a nil leaf. */
  function BlackHeight(t: Tree): nat
  {
    match t
    case Leaf => 0
    case Node(l, _, _, c, _) => BlackHeight(l) + (if c == BLACK then 1 else 0)
  }

  /** Every node's two subtrees have the same black height. */
  ghost predicate BlackBalanced(t: Tree)
  {
    match t
    case Leaf => true
    case Node(l, _, _, _, r) => BlackHeight(l) == BlackHeight(r) && BlackBalanced(l) && BlackBalanced(r)
  }

  /** No RED node has a RED child. */
  ghost predicate NoRedRed(t: Tree)
  {
    match t
    case Leaf => true
    case Node(l, _, _, c, r) =>
      (c == RED ==> ColorOf(l) == BLACK && ColorOf(r) == BLACK) && NoRedRed(l) && NoRedRed(r)
  }

  /** The colour properties of a red-black tree: black root, no red-red edge, equal black heights. */
  ghost predicate WellColored(t: Tree)
  {
    ColorOf(t) == BLACK && NoRedRed(t) && BlackBalanced(t)
  }

  /** All invariants of the class comment of RedBlackTree.java, plus the search-tree order. */
  ghost predicate IsRedBlack(t: Tree)
  {
    Ordered(t) && WellColored(t)
  }

  // ---------------------------------------------------------------------
  // Paths to every nil leaf: the literal form of "every simple path from a
  // node to its leaves holds the same number of BLACK nodes".

  /** The number of BLACK nodes met when walking down from the root along `dirs` (true = left) to a nil leaf. */
  function BlackOnPath(t: Tree, dirs: seq<bool>): nat
  {
    match t
    case Leaf => 0
    case Node(l, _, _, c, r) =>
      (if c == BLACK then 1 else 0) +
      (if |dirs| == 0 then 0 else BlackOnPath(if dirs[0] then l else r, dirs[1..]))
  }

  /** `dirs` leads from the root of `t` exactly to a nil leaf. */
  predicate ReachesLeaf(t: Tree, dirs: seq<bool>)
  {
    match t
    case Leaf => dirs == []
    case Node(l, _, _, _, r) => |dirs| > 0 && ReachesLeaf(if dirs[0] then l else r, dirs[1..])
  }

  lemma {:induction false} BalancedPaths(t: Tree, dirs: seq<bool>)
    requires BlackBalanced(t) && ReachesLeaf(t, dirs)
    ensures BlackOnPath(t, dirs) == BlackHeight(t)
    decreases t
  {
    match t
    case Leaf =>
    case Node(l, _, _, c, r) =>
      BalancedPaths(if dirs[0] then l else r, dirs[1..]);
  }

  // ---------------------------------------------------------------------
  // Height bound

  function Pow2(n: nat): nat
  {
    if n == 0 then 1 else 2 * Pow2(n - 1)
  }

  lemma {:induction false} Pow2Monotone(a: nat, b: nat)
    requires a <= b
    ensures Pow2(a) <= Pow2(b)
    decreases b
  {
    if a < b {
      Pow2Monotone(a, b - 1);
    }
  }

  lemma {:induction false} SizeAndHeightByBlackHeight(t: Tree)
    requires NoRedRed(t) && BlackBalanced(t)
    ensures Pow2(BlackHeight(t)) <= Size(t) + 1
    ensures Height(t) <= 2 * BlackHeight(t) + (if ColorOf(t) == RED then 1 else 0)
    decreases t
  {
    match t
    case Leaf =>
    case Node(l, _, _, c, r) =>
      SizeAndHeightByBlackHeight(l);
      SizeAndHeightByBlackHeight(r);
      if c == BLACK {
        Pow2Monotone(BlackHeight(l), BlackHeight(l) + 1);
      }
  }

  /**
   * A red-black tree with n nodes has height at most 2 * log2(n + 1):
   * 2 to the power of half the height, rounded up, is at most n + 1.
   */
  lemma HeightBound(t: Tree)
    requires WellColored(t)
    ensures Pow2((Height(t) + 1) / 2) <= Size(t) + 1
  {
    SizeAndHeightByBlackHeight(t);
    Pow2Monotone((Height(t) + 1) / 2, BlackHeight(t));
  }

  // ---------------------------------------------------------------------
  // Order and keys

  lemma {:induction false} AscendingSplit(a: seq<int>, k: int, b: seq<int>)
    requires Ascending(a + [k] + b)
    ensures Ascending(a) && Ascending(b)
    ensures forall x :: x in a ==> x < k
    ensures forall x :: x in b ==> k < x
  {
    var s := a + [k] + b;
    forall x | x in a ensures x < k {
      var i :| 0 <= i < |a| && a[i] == x;
      assert s[i] == x && s[|a|] == k;
    }
    forall x | x in b ensures k < x {
      var i :| 0 <= i < |b| && b[i] == x;
      assert s[|a| + 1 + i] == x && s[|a|] == k;
    }
    forall i, j | 0 <= i < j < |a| ensures a[i] < a[j] {
      assert s[i] == a[i] && s[j] == a[j];
    }
    forall i, j | 0 <= i < j < |b| ensures b[i] < b[j] {
      assert s[|a| + 1 + i] == b[i] && s[|a| + 1 + j] == b[j];
    }
  }

  lemma {:induction false} AscendingJoin(a: seq<int>, k: int, b: seq<int>)
    requires Ascending(a) && Ascending(b)
    requires forall x :: x in a ==> x < k
    requires forall x :: x in b ==> k < x
    ensures Ascending(a + [k] + b)
  {
    var s := a + [k] + b;
    forall i, j | 0 <= i < j < |s| ensures s[i] < s[j] {
      if j < |a| {
        assert s[i] == a[i] && s[j] == a[j];
      } else if i > |a| {
        assert s[i] == b[i - |a| - 1] && s[j] == b[j - |a| - 1];
      } else {
        assert i < |a| ==> s[i] == a[i] && s[i] in a;
        assert j > |a| ==> s[j] == b[j - |a| - 1] && s[j] in b;
      }
    }
  }

  /** Keys of a search tree split at the root, which is how lookup descends. */
  lemma KeysOfOrdered(t: Tree)
    requires t.Node? && Ordered(t)
    ensures Ordered(t.left) && Ordered(t.right)
    ensures Keys(t) == Keys(t.left) + {t.key} + Keys(t.right)
    ensures forall x :: x in Keys(t.left) ==> x < t.key
    ensures forall x :: x in Keys(t.right) ==> t.key < x
  {
    AscendingSplit(InOrder(t.left), t.key, InOrder(t.right));
  }

  lemma {:induction false} InOrderLength(t: Tree)
    ensures |InOrder(t)| == Size(t)
    decreases t
  {
    match t
    case Leaf =>
    case Node(l, _, _, _, r) =>
      InOrderLength(l);
      InOrderLength(r);
  }

  // ---------------------------------------------------------------------
  // Paths

  /** The tree obtained by putting `t` at the position `p`. */
  function Plug(p: Path, t: Tree): Tree
  {
    match p
    case Top => t
    case LeftOf(up, i, k, c, r) => Plug(up, Node(t, i, k, c, r))
    case RightOf(l, i, k, c, up) => Plug(up, Node(l, i, k, c, t))
  }

  /** The number of ancestors of the position. */
  function Depth(p: Path): nat
  {
    match p
    case Top => 0
    case LeftOf(up, _, _, _, _) => Depth(up) + 1
    case RightOf(_, _, _, _, up) => Depth(up) + 1
  }

  /** The reference to the parent of the position (null at the root). */
  function ParentId(p: Path): Ptr
  {
    if p.Top? then Nil else p.id
  }

  /** The other subtree of the parent. */
  function SiblingTree(p: Path): Tree
    requires !p.Top?
  {
    if p.LeftOf? then p.right else p.left
  }

  /** The node ids held by the ancestors and by the subtrees hanging off them. */
  function PathIds(p: Path): set<nat>
  {
    match p
    case Top => {}
    case LeftOf(up, i, _, _, r) => PathIds(up) + {i} + Ids(r)
    case RightOf(l, i, _, _, up) => PathIds(up) + {i} + Ids(l)
  }

  ghost predicate UniquePath(p: Path)
  {
    match p
    case Top => true
    case LeftOf(up, i, _, _, r) =>
      UniquePath(up) && Unique(r) && i !in Ids(r) && i !in PathIds(up) && Ids(r) !! PathIds(up)
    case RightOf(l, i, _, _, up) =>
      UniquePath(up) && Unique(l) && i !in Ids(l) && i !in PathIds(up) && Ids(l) !! PathIds(up)
  }

  /** Keys that come before the position in in-order. */
  function Before(p: Path): seq<int>
  {
    match p
    case Top => []
    case LeftOf(up, _, _, _, _) => Before(up)
    case RightOf(l, _, k, _, up) => Before(up) + InOrder(l) + [k]
  }

  /** Keys that come after the position in in-order. */
  function After(p: Path): seq<int>
  {
    match p
    case Top => []
    case LeftOf(up, _, k, _, r) => [k] + InOrder(r) + After(up)
    case RightOf(_, _, _, _, up) => After(up)
  }

  /** Plugging a subtree of black height `h` that is balanced gives a balanced tree. */
  ghost predicate PathBalanced(p: Path, h: nat)
  {
    match p
    case Top => true
    case LeftOf(up, _, _, c, r) =>
      BlackBalanced(r) && BlackHeight(r) == h && PathBalanced(up, h + if c == BLACK then 1 else 0)
    case RightOf(l, _, _, c, up) =>
      BlackBalanced(l) && BlackHeight(l) == h && PathBalanced(up, h + if c == BLACK then 1 else 0)
  }

  /** Plugging a subtree with root colour `c` and no red-red edge gives a tree with no red-red edge. */
  ghost predicate PathNoRedRed(p: Path, c: Color)
  {
    match p
    case Top => true
    case LeftOf(up, _, _, pc, r) =>
      NoRedRed(r) && (pc == RED ==> c == BLACK && ColorOf(r) == BLACK) && PathNoRedRed(up, pc)
    case RightOf(l, _, _, pc, up) =>
      NoRedRed(l) && (pc == RED ==> c == BLACK && ColorOf(l) == BLACK) && PathNoRedRed(up, pc)
  }

  /** As PathNoRedRed, except that the edge from the focus to its parent is not constrained. */
  ghost predicate PathNoRedRedAbove(p: Path)
  {
    match p
    case Top => true
    case LeftOf(up, _, _, pc, r) =>
      NoRedRed(r) && (pc == RED ==> ColorOf(r) == BLACK) && PathNoRedRed(up, pc)
    case RightOf(l, _, _, pc, up) =>
      NoRedRed(l) && (pc == RED ==> ColorOf(l) == BLACK) && PathNoRedRed(up, pc)
  }

  lemma {:induction false} IdsPlug(p: Path, t: Tree)
    ensures Ids(Plug(p, t)) == Ids(t) + PathIds(p)
    decreases p
  {
    match p
    case Top =>
    case LeftOf(up, i, k, c, r) => IdsPlug(up, Node(t, i, k, c, r));
    case RightOf(l, i, k, c, up) => IdsPlug(up, Node(l, i, k, c, t));
  }

  lemma {:induction false} UniquePlug(p: Path, t: Tree)
    ensures Unique(Plug(p, t)) <==> Unique(t) && UniquePath(p) && Ids(t) !! PathIds(p)
    decreases p
  {
    match p
    case Top =>
    case LeftOf(up, i, k, c, r) => UniquePlug(up, Node(t, i, k, c, r));
    case RightOf(l, i, k, c, up) => UniquePlug(up, Node(l, i, k, c, t));
  }

  /** Replacing the subtree at a position by one over the same or fresh nodes keeps node ids unique. */
  lemma ReplaceUnique(p: Path, t: Tree, t': Tree)
    requires Unique(Plug(p, t)) && Unique(t') && Ids(t') !! PathIds(p)
    ensures Unique(Plug(p, t'))
    ensures Ids(Plug(p, t')) == Ids(t') + PathIds(p)
  {
    UniquePlug(p, t);
    UniquePlug(p, t');
    IdsPlug(p, t');
  }

  lemma {:induction false} InOrderPlug(p: Path, t: Tree)
    ensures InOrder(Plug(p, t)) == Before(p) + InOrder(t) + After(p)
    decreases p
  {
    match p
    case Top =>
    case LeftOf(up, i, k, c, r) => InOrderPlug(up, Node(t, i, k, c, r));
    case RightOf(l, i, k, c, up) => InOrderPlug(up, Node(l, i, k, c, t));
  }

  /** Subtrees with the same in-order sequence give whole trees with the same in-order sequence. */
  lemma ReplaceInOrder(p: Path, t: Tree, t': Tree)
    requires InOrder(t') == InOrder(t)
    ensures InOrder(Plug(p, t')) == InOrder(Plug(p, t))
  {
    InOrderPlug(p, t);
    InOrderPlug(p, t');
  }

  lemma {:induction false} BalancedPlug(p: Path, t: Tree)
    ensures BlackBalanced(Plug(p, t)) <==> BlackBalanced(t) && PathBalanced(p, BlackHeight(t))
    decreases p
  {
    match p
    case Top =>
    case LeftOf(up, i, k, c, r) => BalancedPlug(up, Node(t, i, k, c, r));
    case RightOf(l, i, k, c, up) => BalancedPlug(up, Node(l, i, k, c, t));
  }

  lemma {:induction false} NoRedRedPlug(p: Path, t: Tree)
    ensures NoRedRed(Plug(p, t)) <==> NoRedRed(t) && PathNoRedRed(p, ColorOf(t))
    decreases p
  {
    match p
    case Top =>
    case LeftOf(up, i, k, c, r) => NoRedRedPlug(up, Node(t, i, k, c, r));
    case RightOf(l, i, k, c, up) => NoRedRedPlug(up, Node(l, i, k, c, t));
  }

  /** Below the root, the colour of the whole tree does not depend on the focus. */
  lemma {:induction false} ColorPlug(p: Path, t: Tree, t': Tree)
    requires !p.Top? || ColorOf(t) == ColorOf(t')
    ensures ColorOf(Plug(p, t)) == ColorOf(Plug(p, t'))
    decreases p
  {
    match p
    case Top =>
    case LeftOf(up, i, k, c, r) => ColorPlug(up, Node(t, i, k, c, r), Node(t', i, k, c, r));
    case RightOf(l, i, k, c, up) => ColorPlug(up, Node(l, i, k, c, t), Node(l, i, k, c, t'));
  }

  /** A BLACK focus lifts every red-red constraint that involves it. */
  lemma PathNoRedRedBlack(p: Path, c: Color)
    requires PathNoRedRed(p, c)
    ensures PathNoRedRed(p, BLACK) && PathNoRedRedAbove(p)
  {
  }

  /**
   * Replacing the subtree at a position by one with the same black height,
   * the same balance and no new red-red edge keeps the whole tree well coloured.
   */
  lemma ReplaceWellColored(p: Path, t: Tree, t': Tree)
    requires WellColored(Plug(p, t))
    requires BlackBalanced(t') && BlackHeight(t') == BlackHeight(t) && NoRedRed(t')
    requires ColorOf(t') == BLACK || ColorOf(t') == ColorOf(t)
    requires p.Top? ==> ColorOf(t') == BLACK
    ensures WellColored(Plug(p, t'))
  {
    BalancedPlug(p, t);
    BalancedPlug(p, t');
    NoRedRedPlug(p, t);
    NoRedRedPlug(p, t');
    if !p.Top? {
      ColorPlug(p, t, t');
    }
  }
}
