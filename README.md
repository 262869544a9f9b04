# A verified model of an in-place red-black tree

The Java program is one red-black tree over `int` keys. The class
`RedBlackTree` keeps a single `root` reference. Its nodes are `TreeNode`
objects with `left`, `right` and `parent` references, a `value` and a
`Color`. Insertion and deletion rewire these objects in place and then
restore the red-black colouring: `adjust_insert` has cases 1 to 4.4 and
`adjust_delete` has cases 4 to 11.

The model keeps that form.

- **Node heap.** The Java heap of `TreeNode` objects is an arena:
  `nodes: seq<TreeNode>`. A reference is an index into it, and `null` is
  `Nil` (module `Nodes`). Each TreeNode setter writes one slot.
- **The class.** `RedBlackTree` (module `RedBlack`) has the fields `nodes`
  and `root`. Its methods perform the Java writes in the Java order:
  `Insert`, `AdjustInsert`, `Delete`, `DeleteSimpleCase`, `Replace`,
  `AdjustDelete`, the two rotations, `SetNull`, and the in-order traversal.
  The exception is cases 9 and 10 of `adjust_delete`, which continue with
  the corrected sibling (see Findings), so a deletion that reaches them
  differs from the Java code from that point on.
- **Pure step functions.** Each write sequence is also a function on the
  value `State(nodes, root)`. Examples are `Rotations.RotateLeft`,
  `Removal.Replace` and `Removal.PromoteChild`. A method's `ensures` says
  its new state is that function of the old one.
- **The abstract tree.** A ghost field `tree` holds the tree the arena
  represents. `Layout.Represents` ties the two together: every node is
  stored with its key, colour and both child links, every child's parent
  reference points back at its parent, and no node occurs twice.
- **The class invariant.** `Valid()` says the arena represents `tree`, and
  that `tree` is a binary search tree (`Trees.Ordered`) with the red-black
  colouring (`Trees.WellColored`). The colouring rules are the ones stated
  at RedBlackTree.java lines 10-14: the root is BLACK, no RED node has a
  RED child, and every path down to an empty subtree passes the same
  number of BLACK nodes.
- **What the operations prove.** Insert and delete keep `Valid()`. Their
  key sets become `old + {v}` and `old - {v}`. Both leave the tree
  untouched when the key is already present (insert) or absent (delete).
- **How the fix-up cases are proved.** A position in the tree is a zipper
  `Path`. The insertion cases live in module `InsertFixup`, the splicing
  in `Removal` and the deletion cases in `DeleteFixup`. Each case is
  proved twice: once on the abstract tree (`CaseNTree`) and once on the
  arena, for the exact writes the Java code performs (`CaseNWrites`).
- **The as-written module.** `AsWritten` states `adjust_delete` exactly as
  written, including the defect in cases 9 and 10 (see Findings).

`adjust_insert`, `delete` and `adjust_delete` are split into smaller
methods, to keep each proof small:

| Dafny method | Java lines |
|---|---|
| `AdjustInsert` | 226-262 (cases 1 to 3) |
| `InsertCase4` | 263-299 (case 4, a BLACK or missing uncle) |
| `Delete` | 331-348 (the lookup and the predecessor swap) |
| `RemoveAt` | 355-383 (the rest of `delete`) |
| `AdjustDelete` | 449-481 (the test at the root and cases 4 to 6) |
| `AdjustDeleteOnward` | 486-547 (cases 7 to 11) |
| `DeleteCase4` … `DeleteCase11` | one case body of `adjust_delete` each |

`AdjustDelete` and `AdjustDeleteOnward` keep the case tests in the order of
the source and make the recursive calls.

The `flag` argument of `adjust_delete` is modelled as the code sets it at
lines 373-378: `true` when `current` is the LEFT child of `parent`. The
comment at line 445 says the opposite.

## Model

| member | source | states |
|---|---|---|
| Nodes.NewNode | src/main/java/com/lc/redblacktree/TreeNode.java:45-51 | `new TreeNode(v)` holds `v`, is RED and has null left, right and parent |
| Nodes.DefaultNode | src/main/java/com/lc/redblacktree/TreeNode.java:33-38 | `new TreeNode()` is RED with all three links null (value left at Java's default 0) |
| Nodes.SetLeft | src/main/java/com/lc/redblacktree/TreeNode.java:57-59 | only the left link of that node changes; every other field of every node is kept |
| Nodes.SetRight | src/main/java/com/lc/redblacktree/TreeNode.java:65-67 | only the right link of that node changes |
| Nodes.SetParent | src/main/java/com/lc/redblacktree/TreeNode.java:73-75 | only the parent link of that node changes |
| Nodes.SetValue | src/main/java/com/lc/redblacktree/TreeNode.java:81-83 | only the value of that node changes |
| Nodes.SetColor | src/main/java/com/lc/redblacktree/TreeNode.java:89-91 | only the colour of that node changes |
| Nodes.GetAfterSet | src/main/java/com/lc/redblacktree/TreeNode.java:53-91 | a getter returns what the matching setter stored, and a setter leaves other fields and nodes alone |
| Nodes.SetNull | src/main/java/com/lc/redblacktree/RedBlackTree.java:661-667 | `setNull` clears parent, right and left, keeps value and colour, and does nothing on null |
| Nodes.Allocate | src/main/java/com/lc/redblacktree/TreeNode.java:45-51 | a new node is added after all existing ones, which are unchanged |
| RedBlack.RedBlackTree.constructor | src/main/java/com/lc/redblacktree/RedBlackTree.java:30-32 | the new tree is empty (null root) and valid |
| RedBlack.RedBlackTree.NewTreeNode | src/main/java/com/lc/redblacktree/TreeNode.java:45-51 | allocation returns the fresh node's reference and changes nothing else |
| RedBlack.RedBlackTree.SetLeft | src/main/java/com/lc/redblacktree/TreeNode.java:57-59 | the method's write is `Nodes.SetLeft`; the abstract tree is untouched |
| RedBlack.RedBlackTree.SetRight | src/main/java/com/lc/redblacktree/TreeNode.java:65-67 | the method's write is `Nodes.SetRight`; the abstract tree is untouched |
| RedBlack.RedBlackTree.SetParent | src/main/java/com/lc/redblacktree/TreeNode.java:73-75 | the method's write is `Nodes.SetParent`; the abstract tree is untouched |
| RedBlack.RedBlackTree.SetValue | src/main/java/com/lc/redblacktree/TreeNode.java:81-83 | the method's write is `Nodes.SetValue`; the abstract tree is untouched |
| RedBlack.RedBlackTree.SetColor | src/main/java/com/lc/redblacktree/TreeNode.java:89-91 | the method's write is `Nodes.SetColor`; the abstract tree is untouched |
| RedBlack.RedBlackTree.SetNull | src/main/java/com/lc/redblacktree/RedBlackTree.java:661-667 | the three setter calls of `setNull`, in order, equal `Nodes.SetNull` |
| Queries.GetNodeRecursive | src/main/java/com/lc/redblacktree/RedBlackTree.java:141-152 | the result is null or a node of the subtree holding `v`; on an ordered subtree it is non-null exactly when `v` is a key |
| Queries.GetNode | src/main/java/com/lc/redblacktree/RedBlackTree.java:44-49 | null on the empty tree; otherwise a node holding `v`, non-null exactly when `v` is in the key set |
| Queries.KeysAtNode | src/main/java/com/lc/redblacktree/RedBlackTree.java:145-151 | the keys of a node split into left keys, its own key and right keys, and the descent is justified on an ordered tree |
| Queries.HeightAt | src/main/java/com/lc/redblacktree/RedBlackTree.java:70-77 | `getHeight(current)` is 0 on null, at least 1 on a node, equals the longest downward path and is at most the size |
| Queries.GetHeight | src/main/java/com/lc/redblacktree/RedBlackTree.java:66-68 | the tree's height, at most its size; on a well-coloured tree `2^ceil(height/2) <= size + 1`, that is height <= 2 * log2(size + 1) |
| Queries.WellColoredHeight | src/main/java/com/lc/redblacktree/RedBlackTree.java:10-14 | the colour rules bound the height by 2 * log2(size + 1): `2^ceil(height/2) <= size + 1` |
| Trees.HeightBound | src/main/java/com/lc/redblacktree/RedBlackTree.java:10-14 | a well-coloured tree of height h has at least `2^ceil(h/2) - 1` nodes, so h <= 2 * log2(n + 1) |
| Trees.SizeAndHeightByBlackHeight | src/main/java/com/lc/redblacktree/RedBlackTree.java:10-14 | black height b gives at least `2^b - 1` nodes and height at most `2b` (`2b+1` under a RED root) |
| Trees.BalancedPaths | src/main/java/com/lc/redblacktree/RedBlackTree.java:14 | in a black-balanced tree every path from the root to an empty subtree counts the same number of BLACK nodes |
| Trees.KeysOfOrdered | src/main/java/com/lc/redblacktree/RedBlackTree.java:145-151 | in an ordered tree all left keys are smaller and all right keys larger than the node's key |
| Trees.InOrderLength | src/main/java/com/lc/redblacktree/RedBlackTree.java:164-174 | the in-order sequence has one entry per node |
| Queries.GrandPa | src/main/java/com/lc/redblacktree/RedBlackTree.java:57-59 | `grandPaNode`: demands a parent, as the Java dereference does, and returns a reference inside the arena (which node it is in a represented tree: UncleOf) |
| Queries.Uncle | src/main/java/com/lc/redblacktree/RedBlackTree.java:85-93 | `uncleNode`: a child of the grandparent; when the parent is a child of the grandparent, the parent and the uncle are its two children |
| Queries.Sibling | src/main/java/com/lc/redblacktree/RedBlackTree.java:101-113 | `siblingNode`: null for null or a node without a parent; otherwise, when the node is a child of its parent, the node and its sibling are the parent's two children |
| Queries.GetChild | src/main/java/com/lc/redblacktree/RedBlackTree.java:122-132 | `getChild`: null exactly for null or a node without children; otherwise the left child, or the right one when there is no left child |
| Queries.IsBlackNode | src/main/java/com/lc/redblacktree/RedBlackTree.java:669-674 | `isBlackNode`: null counts as BLACK, and a node is BLACK exactly when it is not RED |
| Queries.SiblingOf | src/main/java/com/lc/redblacktree/RedBlackTree.java:101-113 | `siblingNode` returns null at the root, else the root of the parent's other subtree |
| Queries.UncleOf | src/main/java/com/lc/redblacktree/RedBlackTree.java:57-93 | `grandPaNode` is the grandparent and `uncleNode` the root of the grandparent's other subtree |
| Queries.IsBlackNodeOf | src/main/java/com/lc/redblacktree/RedBlackTree.java:669-674 | `isBlackNode` holds exactly when the subtree is empty or has a BLACK root |
| Queries.GetChildOf | src/main/java/com/lc/redblacktree/RedBlackTree.java:122-132 | `getChild` of a node with at most one child is that child's root, or null |
| Rotations.RotateLeft | src/main/java/com/lc/redblacktree/RedBlackTree.java:594-621 | the pivot replaces its parent as root when the parent was root; nodes other than pivot, parent, pivot's left child and grandparent are unchanged |
| Rotations.RotateRight | src/main/java/com/lc/redblacktree/RedBlackTree.java:629-654 | the mirror image of RotateLeft |
| Rotations.RotateLeftEffect | src/main/java/com/lc/redblacktree/RedBlackTree.java:596-620 | exact new fields of the four written nodes: parent gets right := pivot's left and parent := pivot, the pivot gets left := parent and the old grandparent, the grandparent's slot refers to the pivot |
| Rotations.RotateRightEffect | src/main/java/com/lc/redblacktree/RedBlackTree.java:630-653 | the mirror image of RotateLeftEffect |
| Rotations.RotatedLeft | src/main/java/com/lc/redblacktree/RedBlackTree.java:594-621 | the abstract left rotation keeps the in-order sequence and the node set |
| Rotations.RotatedRight | src/main/java/com/lc/redblacktree/RedBlackTree.java:629-654 | the abstract right rotation keeps the in-order sequence and the node set |
| Rotations.RotateLeftRep | src/main/java/com/lc/redblacktree/RedBlackTree.java:594-621 | rotating the right child of a represented node gives a state that represents the rotated tree, with parent pointers consistent and in-order unchanged |
| Rotations.RotateRightRep | src/main/java/com/lc/redblacktree/RedBlackTree.java:629-654 | the mirror image of RotateLeftRep |
| RedBlack.RedBlackTree.RotateLeft | src/main/java/com/lc/redblacktree/RedBlackTree.java:594-621 | the Java writes, in their order, compute `Rotations.RotateLeft` |
| RedBlack.RedBlackTree.RotateRight | src/main/java/com/lc/redblacktree/RedBlackTree.java:629-654 | the Java writes, in their order, compute `Rotations.RotateRight` |
| RedBlack.RedBlackTree.InOrderInto | src/main/java/com/lc/redblacktree/RedBlackTree.java:164-174 | appends exactly the subtree's in-order keys (left, node, right) to the list |
| RedBlack.RedBlackTree.InOrderList | src/main/java/com/lc/redblacktree/RedBlackTree.java:158-162 | `inOrder()` is strictly ascending, contains exactly the key set, and has one entry per node |
| InsertFixup.Descend | src/main/java/com/lc/redblacktree/RedBlackTree.java:191-201 | each step of the descent keeps `value` between the keys bracketing the current position |
| InsertFixup.Found | src/main/java/com/lc/redblacktree/RedBlackTree.java:193-195 | a node met on the descent holds a key of the tree, so the early return is for a present key |
| InsertFixup.InsertKeys | src/main/java/com/lc/redblacktree/RedBlackTree.java:202-212 | where the descent falls off the tree the key is absent, and hanging the node there keeps the order and adds exactly `v` |
| InsertFixup.AttachWrites | src/main/java/com/lc/redblacktree/RedBlackTree.java:202-212 | allocating, linking the new node as left or right child of the last node visited, and setting its parent represents the tree with the new node at that position |
| InsertFixup.AttachRootWrites | src/main/java/com/lc/redblacktree/RedBlackTree.java:185-187 | on the empty tree the new node becomes the root |
| InsertFixup.InsertStart | src/main/java/com/lc/redblacktree/RedBlackTree.java:217 | a fresh RED leaf node in a well-coloured tree meets the fix-up invariant (at most one red-red edge, at the node) |
| InsertFixup.Case1Tree | src/main/java/com/lc/redblacktree/RedBlackTree.java:230-233 | case 1: painting the root BLACK makes the tree well coloured |
| InsertFixup.Case2Tree | src/main/java/com/lc/redblacktree/RedBlackTree.java:237-239 | case 2: under a BLACK parent the tree is already well coloured |
| InsertFixup.ParentRed | src/main/java/com/lc/redblacktree/RedBlackTree.java:241-243 | a RED parent is not the root and has a BLACK parent, so grandparent and uncle exist |
| InsertFixup.Case3Tree | src/main/java/com/lc/redblacktree/RedBlackTree.java:249-255 | case 3: the recolouring moves the invariant two levels up, keeps the in-order sequence, and the depth decreases |
| InsertFixup.Case3Writes | src/main/java/com/lc/redblacktree/RedBlackTree.java:250-252 | the three colour writes of case 3 represent the repainted tree |
| InsertFixup.Case41Tree | src/main/java/com/lc/redblacktree/RedBlackTree.java:267-273 | case 4.1: recolouring and the right rotation give a well-coloured tree |
| InsertFixup.Case41Writes | src/main/java/com/lc/redblacktree/RedBlackTree.java:271-273 | the writes of case 4.1 represent that tree, with the in-order sequence kept |
| InsertFixup.Case42Tree | src/main/java/com/lc/redblacktree/RedBlackTree.java:275-282 | case 4.2: the double rotation and recolouring give a well-coloured tree |
| InsertFixup.Case42Writes | src/main/java/com/lc/redblacktree/RedBlackTree.java:279-282 | the writes of case 4.2 represent that tree |
| InsertFixup.Case43Tree | src/main/java/com/lc/redblacktree/RedBlackTree.java:283-290 | case 4.3: the mirror image of 4.2 |
| InsertFixup.Case43Writes | src/main/java/com/lc/redblacktree/RedBlackTree.java:287-290 | the writes of case 4.3 represent that tree |
| InsertFixup.Case44Tree | src/main/java/com/lc/redblacktree/RedBlackTree.java:291-298 | case 4.4: the mirror image of 4.1 |
| InsertFixup.Case44Writes | src/main/java/com/lc/redblacktree/RedBlackTree.java:295-297 | the writes of case 4.4 represent that tree |
| RedBlack.RedBlackTree.Insert | src/main/java/com/lc/redblacktree/RedBlackTree.java:183-218 | keeps the class invariant; keys become old + {v}; a present key changes no node and not the root; otherwise one node is added |
| RedBlack.RedBlackTree.AdjustInsert | src/main/java/com/lc/redblacktree/RedBlackTree.java:226-301 | from the fix-up invariant, the cases end in a represented, well-coloured tree with the same in-order sequence (terminates on the depth) |
| RedBlack.RedBlackTree.InsertCase4 | src/main/java/com/lc/redblacktree/RedBlackTree.java:263-299 | case 4 (a BLACK or missing uncle): the rotations and recolourings of cases 4.1 to 4.4 end in a represented, well-coloured tree with the in-order sequence kept |
| Removal.LocateFrom | src/main/java/com/lc/redblacktree/RedBlackTree.java:331 | the node `getNode` returns has a position in the represented tree |
| Removal.PredecessorSplice | src/main/java/com/lc/redblacktree/RedBlackTree.java:340-348 | copying the predecessor's key into the node and then unlinking the predecessor removes exactly the original key from the in-order sequence |
| Removal.AfterAllRight | src/main/java/com/lc/redblacktree/RedBlackTree.java:343-345 | going only right from the left child, nothing of that subtree follows the position reached: it holds the largest key of the left subtree |
| Removal.Replace | src/main/java/com/lc/redblacktree/RedBlackTree.java:558-584 | `replace` leaves the removed node without links |
| Removal.PromoteChild | src/main/java/com/lc/redblacktree/RedBlackTree.java:420-436 | case 2 of `delete_simple_case` leaves the removed node without links and the child BLACK |
| Removal.ReplaceWrites | src/main/java/com/lc/redblacktree/RedBlackTree.java:558-584 | the child returned is the root of the only subtree; parent (or root field) and child are relinked, and nothing else changes |
| Removal.PromoteChildWrites | src/main/java/com/lc/redblacktree/RedBlackTree.java:420-436 | the same splice with the child painted BLACK |
| Removal.SplicedRep | src/main/java/com/lc/redblacktree/RedBlackTree.java:558-584 | after the splice the state represents the tree with the node replaced by its (recoloured) child subtree |
| Removal.RedRemoval | src/main/java/com/lc/redblacktree/RedBlackTree.java:397-415 | case 1: a RED node has a parent, and unlinking it keeps the tree well coloured (black height unchanged) |
| Removal.BlackRemoval | src/main/java/com/lc/redblacktree/RedBlackTree.java:420-436 | case 2: a BLACK node with a RED child, replaced by the child painted BLACK, keeps the tree well coloured |
| Removal.RekeyWellColored | src/main/java/com/lc/redblacktree/RedBlackTree.java:346 | overwriting a value does not affect the colouring |
| Removal.SpliceInOrder | src/main/java/com/lc/redblacktree/RedBlackTree.java:558-584 | unlinking a node with at most one child removes exactly its key from the in-order sequence |
| Removal.RemoveKey | src/main/java/com/lc/redblacktree/RedBlackTree.java:327-384 | dropping one key from an ascending sequence keeps it ascending and removes exactly that key from the set |
| DeleteFixup.DeleteStart | src/main/java/com/lc/redblacktree/RedBlackTree.java:355-383 | a BLACK node reaching adjust_delete has no children, and removing it leaves exactly a one-BLACK deficit (`DelInv`) |
| DeleteFixup.SiblingExists | src/main/java/com/lc/redblacktree/RedBlackTree.java:444 | below the root the sibling of the deficient subtree is never empty |
| DeleteFixup.Around | src/main/java/com/lc/redblacktree/RedBlackTree.java:456-528 | what the case tests read (parent colour, sibling, its children, `isBlackNode`) agrees with the abstract tree |
| DeleteFixup.CasesExhaustive | src/main/java/com/lc/redblacktree/RedBlackTree.java:456-547 | below the root one of cases 4 to 11 always applies |
| DeleteFixup.JoinUp | src/main/java/com/lc/redblacktree/RedBlackTree.java:456-460 | recolouring parent and sibling keeps the in-order sequence |
| DeleteFixup.Case4Tree | src/main/java/com/lc/redblacktree/RedBlackTree.java:456-461 | case 4: swapping the colours of a RED parent and a BLACK sibling with BLACK children repairs the deficit |
| DeleteFixup.Case4Writes | src/main/java/com/lc/redblacktree/RedBlackTree.java:458-459 | the two colour writes of case 4 represent the repaired tree |
| DeleteFixup.Case5Tree | src/main/java/com/lc/redblacktree/RedBlackTree.java:466-471 | case 5: a RED far nephew; the recolouring and the left rotation repair the deficit |
| DeleteFixup.Case5Writes | src/main/java/com/lc/redblacktree/RedBlackTree.java:467-470 | the writes of case 5 represent that tree with the in-order sequence kept |
| DeleteFixup.Case6Tree | src/main/java/com/lc/redblacktree/RedBlackTree.java:476-481 | case 6, the mirror image of case 5 |
| DeleteFixup.Case6Writes | src/main/java/com/lc/redblacktree/RedBlackTree.java:477-480 | the writes of case 6 represent that tree |
| DeleteFixup.Case7Tree | src/main/java/com/lc/redblacktree/RedBlackTree.java:486-492 | case 7: the rotation keeps the deficit invariant, makes the new far nephew RED (so case 5 follows) and lowers the rank |
| DeleteFixup.Case7Writes | src/main/java/com/lc/redblacktree/RedBlackTree.java:487-490 | the writes of case 7 represent the rearranged sibling subtree |
| DeleteFixup.Case8Tree | src/main/java/com/lc/redblacktree/RedBlackTree.java:497-503 | case 8, the mirror image of case 7 |
| DeleteFixup.Case8Writes | src/main/java/com/lc/redblacktree/RedBlackTree.java:498-501 | the writes of case 8 represent the rearranged sibling subtree |
| DeleteFixup.Case9Tree | src/main/java/com/lc/redblacktree/RedBlackTree.java:508-513 | case 9: a RED sibling implies a BLACK parent; after the rotation the deficit invariant holds one level lower, the in-order sequence is kept and depth plus rank decreases |
| DeleteFixup.Case9Writes | src/main/java/com/lc/redblacktree/RedBlackTree.java:509-511 | the writes of case 9 represent the rotated tree; the parent's right child is the new sibling and the old sibling's left child is the parent |
| DeleteFixup.Case10Tree | src/main/java/com/lc/redblacktree/RedBlackTree.java:518-523 | case 10, the mirror image of case 9 |
| DeleteFixup.Case10Writes | src/main/java/com/lc/redblacktree/RedBlackTree.java:519-521 | the writes of case 10; the parent's left child is the new sibling and the old sibling's right child is the parent |
| DeleteFixup.Case11Tree | src/main/java/com/lc/redblacktree/RedBlackTree.java:528-546 | case 11: painting the sibling RED moves the deficit to the parent, keeps the in-order sequence and decreases the depth |
| DeleteFixup.Case11Writes | src/main/java/com/lc/redblacktree/RedBlackTree.java:529 | the colour write of case 11 represents the repainted tree |
| RedBlack.RedBlackTree.Replace | src/main/java/com/lc/redblacktree/RedBlackTree.java:558-584 | returns null on null and otherwise the promoted child; the writes equal `Removal.Replace` |
| RedBlack.RedBlackTree.DeleteSimpleCase | src/main/java/com/lc/redblacktree/RedBlackTree.java:392-438 | a RED node is unlinked (case 1), a BLACK node with a RED child is replaced by it (case 2), otherwise nothing changes and false is returned |
| RedBlack.RedBlackTree.AdjustDelete | src/main/java/com/lc/redblacktree/RedBlackTree.java:449-481 | from the deficit invariant, ends in a represented, well-coloured tree with the same in-order sequence; terminates on depth plus rank (cases 9 and 10 corrected) |
| RedBlack.RedBlackTree.AdjustDeleteOnward | src/main/java/com/lc/redblacktree/RedBlackTree.java:486-547 | once cases 4 to 6 are ruled out, cases 7 to 11 (one of which applies) end with the same guarantees |
| RedBlack.RedBlackTree.DeleteCase4 | src/main/java/com/lc/redblacktree/RedBlackTree.java:456-461 | case 4 ends with a represented, well-coloured tree, in-order kept |
| RedBlack.RedBlackTree.DeleteCase5 | src/main/java/com/lc/redblacktree/RedBlackTree.java:466-471 | case 5 ends with a represented, well-coloured tree, in-order kept |
| RedBlack.RedBlackTree.DeleteCase6 | src/main/java/com/lc/redblacktree/RedBlackTree.java:476-481 | case 6 ends with a represented, well-coloured tree, in-order kept |
| RedBlack.RedBlackTree.DeleteCase7 | src/main/java/com/lc/redblacktree/RedBlackTree.java:486-492 | case 7 returns the new sibling; the deficit invariant holds with lower rank |
| RedBlack.RedBlackTree.DeleteCase8 | src/main/java/com/lc/redblacktree/RedBlackTree.java:497-503 | case 8 returns the new sibling; the deficit invariant holds with lower rank |
| RedBlack.RedBlackTree.DeleteCase9 | src/main/java/com/lc/redblacktree/RedBlackTree.java:508-513 | corrected case 9: returns `parent.getRight()`, the actual new sibling; the deficit invariant holds and the measure decreases |
| RedBlack.RedBlackTree.DeleteCase10 | src/main/java/com/lc/redblacktree/RedBlackTree.java:518-523 | corrected case 10: returns `parent.getLeft()`, with the same guarantees |
| RedBlack.RedBlackTree.DeleteCase11 | src/main/java/com/lc/redblacktree/RedBlackTree.java:528-546 | case 11 returns the parent's parent, sibling and side for the call one level up |
| RedBlack.RedBlackTree.RemoveAt | src/main/java/com/lc/redblacktree/RedBlackTree.java:355-383 | removing a node with at most one child restores the class invariant and removes exactly its key; the fix-up it reaches uses the corrected cases 9 and 10 (see Findings) |
| DeleteFixup.RemovalFacts | src/main/java/com/lc/redblacktree/RedBlackTree.java:355-378 | what `delete` reads about the node it removes: its colour, parent, child, sibling and side agree with the tree, and a RED node has a parent |
| DeleteFixup.ShortcutRep | src/main/java/com/lc/redblacktree/RedBlackTree.java:397-436 | cases 1 and 2 of delete_simple_case leave a represented, well-coloured tree whose in-order sequence is that of the tree without the node |
| RedBlack.RedBlackTree.Delete | src/main/java/com/lc/redblacktree/RedBlackTree.java:327-384 | keeps the class invariant; keys become old - {v}; an absent key changes nothing; no node is allocated; the fix-up it reaches uses the corrected cases 9 and 10 (see Findings) |
| AsWritten.Step | src/main/java/com/lc/redblacktree/RedBlackTree.java:449-549 | one activation of `adjust_delete` exactly as written keeps the references in range, and returns at once when the parent is null |
| AsWritten.Case4 | src/main/java/com/lc/redblacktree/RedBlackTree.java:456-461 | case 4 as written returns with the sibling RED and, when it is a different node, the parent BLACK |
| AsWritten.Case5 | src/main/java/com/lc/redblacktree/RedBlackTree.java:466-471 | case 5 as written returns (or dereferences null) without a further call |
| AsWritten.Case6 | src/main/java/com/lc/redblacktree/RedBlackTree.java:476-481 | the mirror image of case 5 |
| AsWritten.Case7 | src/main/java/com/lc/redblacktree/RedBlackTree.java:486-492 | case 7 as written calls again with the same parent, the sibling's old left child as sibling, and the left side |
| AsWritten.Case8 | src/main/java/com/lc/redblacktree/RedBlackTree.java:497-503 | the mirror image of case 7 |
| AsWritten.Case9 | src/main/java/com/lc/redblacktree/RedBlackTree.java:508-513 | case 9 as written calls again with the same parent and, as sibling, the left child of the old sibling after the rotation |
| AsWritten.Case10 | src/main/java/com/lc/redblacktree/RedBlackTree.java:518-523 | the mirror image of case 9 |
| AsWritten.Case11 | src/main/java/com/lc/redblacktree/RedBlackTree.java:528-546 | case 11 calls again one level up: the parent becomes the current node, its parent the new parent, with the side set from the links |
| AsWritten.Run | src/main/java/com/lc/redblacktree/RedBlackTree.java:449-549 | the recursive calls of adjust_delete as written, followed for a bounded number of activations, keep the references in range |
| AsWritten.Case9SiblingIsParent | src/main/java/com/lc/redblacktree/RedBlackTree.java:508-513 | whenever case 9 applies, the recursive call as written passes the parent as its own sibling |
| AsWritten.Case10SiblingIsParent | src/main/java/com/lc/redblacktree/RedBlackTree.java:518-523 | the same for case 10 |
| AsWritten.DeleteOneFromOneToSix | src/main/java/com/lc/redblacktree/RedBlackTree.java:327-549 | for the tree of keys 1 to 6, `delete(1)` reaches adjust_delete with a valid deficit, and the code as written ends in a null dereference within three activations |

## Left out

- `BFSPrint`, `TreeNode.toString`, `Color.getColor` and the `System.out.println` notices (RedBlackTree.java lines 194 and 333) are console output. The notices are modelled as plain early returns.
- `App.main` is a demonstration driver and is not part of this model.
- `RedBlackTree(TreeNode root)` and `setRoot` install an arbitrary node structure and bypass every invariant, so they are not modelled. `getRoot` is the `root` field read directly.
- There is no concurrency in the source. Garbage collection is not modelled: a node unlinked by `delete` stays in the arena as an unreachable slot.
- Java objects and references are arena slots and indices. The `List<Integer>` of `inOrder` is a sequence value, passed in and returned. Because the list is never null when passed, the `data == null` branch (line 165) cannot be reached and is left out.
- In `adjust_insert`, the outer test of case 4 (line 263) always holds once case 3 has failed. Its last `else if` (line 291) then always holds as well, so it is modelled as `else`.
- `adjust_insert`, `delete` and `adjust_delete` are split into `AdjustInsert`/`InsertCase4`, `Delete`/`RemoveAt` and `AdjustDelete`/`AdjustDeleteOnward`/`DeleteCase4`…`DeleteCase11`. The splits are between consecutive statements: the writes and their order are those of the source.
- RedBlack.RedBlackTree.DeleteSimpleCase: case 1 dereferences the parent, so the model requires a RED node to have one. A RED node never has a null parent in a valid tree.
- AsWritten.Step: each case's null dereference is modelled as one outcome, a rotation whose pivot has no parent. Other dereferences are guarded by the tests in each case.
- RedBlack.RedBlackTree.Delete: when the fix-up reaches case 9 or 10 of `adjust_delete`, the model continues with `parent.getRight()` / `parent.getLeft()` (the corrected sibling) instead of `sibling.getLeft()` / `sibling.getRight()` (lines 512 and 522), so its writes from there on are not the Java ones; the code as written is modelled separately in `AsWritten` (see Findings).
- RedBlack.RedBlackTree.AdjustDelete: the same correction of cases 9 and 10, made in `DeleteCase9` and `DeleteCase10`.

## Findings

| source | as written | input that shows it | evidently intended | confidence | as-written member | corrected member |
|---|---|---|---|---|---|---|
| src/main/java/com/lc/redblacktree/RedBlackTree.java:508-524 | after `rotateLeft(sibling)` (case 9), the recursive call passes `sibling.getLeft()`, which is `parent` itself; case 10 passes `sibling.getRight()`, also `parent` | insert 1, 2, 3, 4, 5, 6, then delete 1. Case 9 runs twice. The second rotation clears the right link of the node holding 4, dropping 5 and 6. It also leaves the nodes holding 2 and 4 as each other's left child and parent. Case 7 then calls `rotateRight` on the node holding 2, whose parent is null: a null dereference | continue with `parent.getRight()` (case 10: `parent.getLeft()`), the actual new sibling | not executed | AsWritten.DeleteOneFromOneToSix | RedBlack.RedBlackTree.DeleteCase9 |
