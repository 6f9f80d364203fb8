# BinarySearchTree, modelled in Dafny

`src/BinarySearchTree.java` is a binary search tree of `Comparable` values.
Its public operations are `insert`, `contains`, `size`, `isEmpty` and `clear`.
Values less than or equal to a node's value belong in its left subtree and
greater values in its right subtree. A null argument to `insert` or
`contains` throws a `NullPointerException` with the message "Data is null".

The model has two modules:

- `Trees` (`trees.dfy`) is the value view. A `Tree` datatype stands for the
  shape that the linked nodes spell out. `Elements` gives the multiset of
  stored values and `Ordered` states the search-tree invariant with its
  tie-break for duplicates. `Insert` is the tree that `insertHelper` leaves
  behind **exactly as the code is written**. The module also has lemmas on
  what that insertion does and does not preserve.
- `BinarySearchTrees` (`binary_search_tree.dfy`) is the heap view.
  - `BinaryNode` is a class with a constant datum and mutable `left`/`right`
    links. Its ghost `footprint` and `model` tie each node to the `Tree` it
    roots.
  - `BinarySearchTree` is a class with the mutable `root` field and the
    operations as methods and functions. Each one is proved against the
    `Trees` functions.

The code as written differs from the behaviour its comments and the
collection's documentation describe. The model follows the code:

- `insert` always passes the current root to `insertHelper`, which returns
  at once on `null`. The root is never assigned, so a tree built through its
  public interface stays empty forever. Because `root` is `protected`, the
  model lets a caller install a root directly (`SetRoot`). This is the only
  way to reach the other branches.
- When the new value is greater than the node's value and the node has no
  right child, the node's **left** child is overwritten (line 67). Anything
  that was in the left subtree is lost.
- When the new value is greater and the node has a right child, the
  recursion descends into the **left** child (line 72).
- As a consequence, on an ordered non-empty tree an insertion is correct
  exactly when the new value is no greater than every stored value
  (`Trees.InsertCorrectIffAllAtLeast`). In that case the value becomes a new
  leaf below the leftmost node.
- `contains` is correct: on an ordered tree it finds every stored value.
  Its answer is never a false positive on any tree.

Exceptions are modelled as values. `Insert` returns an `Outcome` (`Pass`, or
`Fail` with a `NullPointerException`), and `Contains` returns a `Result`.
A Java `null` argument is `None` of an `Option`.

## Model

| member | source | states |
|---|---|---|
| Trees.Insert | src/BinarySearchTree.java:45-77 | the tree insertHelper leaves: empty stays empty, the root value and right subtree are never changed, and no value is gained except the one inserted |
| Trees.AttachLeftmost | src/BinarySearchTree.java:52-60 | reference insertion along left links only: exactly one more x, and x is appended to the left spine |
| Trees.InsertAttachesLeftChild | src/BinarySearchTree.java:52-58 | a value <= the node's value at an absent left child becomes that child; the count grows by one and the right subtree is kept |
| Trees.InsertReplacesLeftChild | src/BinarySearchTree.java:64-69 | a greater value at a node without a right child replaces the left child; the result holds two values and is not ordered |
| Trees.InsertAtLeastAttachesLeftmost | src/BinarySearchTree.java:52-60 | on a non-empty tree, a value no greater than any stored value is inserted exactly as AttachLeftmost describes (on the empty tree Insert adds nothing, AttachLeftmost a leaf) |
| Trees.AttachLeftmostKeepsAtMost | src/BinarySearchTree.java:52-60 | attaching a value <= v keeps every value <= v |
| Trees.AttachLeftmostKeepsOrder | src/BinarySearchTree.java:52-60 | attaching a value no greater than any stored value keeps an ordered tree ordered |
| Trees.AboveIsAtLeast | src/BinarySearchTree.java:52 | values greater than v are at least any x <= v, which joins the two branch conditions |
| Trees.InsertAboveSomeIsIncorrect | src/BinarySearchTree.java:64-72 | on an ordered tree, a value greater than some stored value is never inserted correctly |
| Trees.IncorrectLeftIsIncorrect | src/BinarySearchTree.java:60 | a wrong result in the left subtree, reached through the recursive call, makes the whole tree wrong |
| Trees.InsertCorrectIffAllAtLeast | src/BinarySearchTree.java:45-77 | on an ordered non-empty tree: the insertion is ordered and adds exactly one x if and only if x is no greater than every stored value |
| Trees.AllAtMostMeans | src/BinarySearchTree.java:52 | the recursive "all <= v" predicate holds iff every stored value is <= v |
| Trees.AllAboveMeans | src/BinarySearchTree.java:64 | the recursive "all > v" predicate holds iff every stored value is > v |
| Trees.AllAtLeastMeans | src/BinarySearchTree.java:52 | the recursive "all >= x" predicate holds iff every stored value is >= x |
| Trees.SearchRight | src/BinarySearchTree.java:113-115 | in an ordered tree, a value greater than the node's can only be in the right subtree, which is ordered |
| Trees.SearchLeft | src/BinarySearchTree.java:117-119 | in an ordered tree, a value less than the node's can only be in the left subtree, which is ordered |
| Trees.DuplicatesExample | src/BinarySearchTree.java:45-77 | inserting 2, 6, 1, 4 below a root holding 4 gives one fixed tree holding four of the five values, out of order |
| Trees.DescendingExample | src/BinarySearchTree.java:52-60 | inserting 7 then 1 below a root holding 10 gives an ordered left chain of three |
| BinarySearchTrees.BinaryNode.constructor | src/BinarySearchTree.java:31 | a new node is a well-formed leaf holding the given datum |
| BinarySearchTrees.BinaryNode.SetLeft | src/BinarySearchTree.java:55 | the left link becomes the given node, the right subtree is kept, and the node's tree and footprint are updated |
| BinarySearchTrees.BinarySearchTree.constructor | src/BinarySearchTree.java:15 | a new tree has no root and models the empty tree |
| BinarySearchTrees.BinarySearchTree.SetRoot | src/BinarySearchTree.java:15 | installing a well-formed node structure as the protected root; the tree then models that structure |
| BinarySearchTrees.BinarySearchTree.Insert | src/BinarySearchTree.java:25-34 | null throws "Data is null" and changes nothing; otherwise the new model is Trees.Insert of the old one; an empty tree stays empty with size 0; only left links and ghost state of the tree's own nodes are written; nodes added are fresh |
| BinarySearchTrees.BinarySearchTree.InsertHelper | src/BinarySearchTree.java:45-77 | on a null subtree nothing happens; otherwise the subtree stays well formed and models Trees.Insert of its old model; only left links of its own nodes are written, and it gains no node but the new one |
| BinarySearchTrees.BinarySearchTree.InsertBelow | src/BinarySearchTree.java:60 | the recursive call into the left child, in both branches (lines 60 and 72): the left subtree becomes Trees.Insert of the old left subtree, and the node's value and right subtree are kept |
| BinarySearchTrees.BinarySearchTree.Contains | src/BinarySearchTree.java:87-94 | null throws "Data is null"; otherwise it answers; true only if the value is stored; true whenever it is stored in an ordered tree; reads only |
| BinarySearchTrees.BinarySearchTree.ContainsHelper | src/BinarySearchTree.java:104-123 | sound on every tree, complete on ordered trees, and reads only the subtree's nodes |
| BinarySearchTrees.BinarySearchTree.Size | src/BinarySearchTree.java:132-135 | the number of stored values, duplicates counted separately |
| BinarySearchTrees.BinarySearchTree.SizeHelper | src/BinarySearchTree.java:145-152 | the number of values below the subtree; 0 exactly when the subtree is null |
| BinarySearchTrees.BinarySearchTree.IsEmpty | src/BinarySearchTree.java:160-163 | true iff the tree models the empty tree, iff the size is 0 |
| BinarySearchTrees.BinarySearchTree.Clear | src/BinarySearchTree.java:169-172 | afterwards there is no root, nothing is stored and the size is 0; only the root field is written |

## Left out

- BinaryNode.java is not part of this model. Its getters, `setLeft` and the constructor are modelled from how this class uses them; `setRight`, parent links and the node's `toString` are not modelled.
- The `SortedCollection` interface (line 9) is not part of this model; its operations appear here as the class's own members.
- The private field `hi` (line 11) is never used and is not modelled.
- Generic `Comparable` values are modelled as `int`. `containsHelper` tests with `equals` (line 110) but steers with `compareTo` (lines 114 and 118); for `int` these agree, and values whose `equals` and `compareTo` disagree are not modelled.
- BinarySearchTrees.BinarySearchTree.Size: returns an unbounded `nat`, so the 32-bit `int` overflow of `size` on more than 2^31-1 nodes is not modelled.
- BinarySearchTrees.BinarySearchTree.SizeHelper: computes `1 + left + right` on unbounded `nat`, so the 32-bit `int` wrap-around of that sum (line 151) is not modelled.
- BinarySearchTrees.BinarySearchTree.ContainsHelper: the unreachable `return false` after the two complementary comparisons (line 122) is folded into the final branch.
- Node structures are assumed to be trees (no cycles, no node shared between the two subtrees of a node), as the ghost `Valid` predicate of `BinaryNode` requires. A root supplied through the protected field that violates this is not modelled. Two tree objects may share nodes through `SetRoot`; the frames of `Insert` and `Clear` account for that, but no contract describes the effect of one tree's insertion on the other's model.
- The garbage collection that `clear` relies on (line 170) is not modelled; dropped nodes simply become unreachable.
- Stack depth of the recursive helpers (a `StackOverflowError` on deep trees) is not modelled.
- Exceptions other than the `NullPointerException` on a null argument are not modelled; a Java `null` is `None`.
