/** The value view of a BinarySearchTree: the tree its linked nodes spell out,
    the ordering invariant, and the insertion algorithm of
    BinarySearchTree.insertHelper exactly as the Java code performs it. */
module Trees {

  /** A binary tree of int values (the Java class stores a Comparable type;
      here equality and order are those of int and so agree). */
  datatype Tree = Empty | Fork(left: Tree, data: int, right: Tree)

  /** A node with no children: what `new BinaryNode<T>(data)` stands for. */
  function Leaf(x: int): Tree {
    Fork(Empty, x, Empty)
  }

  /** The stored values with their multiplicity: one occurrence per node. */
  function Elements(t: Tree): multiset<int> {
    match t
    case Empty => multiset{}
    case Fork(l, v, r) => Elements(l) + multiset{v} + Elements(r)
  }

  /** The values met when walking from the root through left links only. */
  function LeftSpine(t: Tree): seq<int> {
    match t
    case Empty => []
    case Fork(l, v, _) => [v] + LeftSpine(l)
  }

  /** Every value stored in t is <= v. */
  predicate AllAtMost(t: Tree, v: int) {
    match t
    case Empty => true
    case Fork(l, w, r) => AllAtMost(l, v) && w <= v && AllAtMost(r, v)
  }

  /** Every value stored in t is > v. */
  predicate AllAbove(t: Tree, v: int) {
    match t
    case Empty => true
    case Fork(l, w, r) => AllAbove(l, v) && v < w && AllAbove(r, v)
  }

  /** Every value stored in t is >= x: x is no greater than any of them. */
  predicate AllAtLeast(t: Tree, x: int) {
    match t
    case Empty => true
    case Fork(l, w, r) => AllAtLeast(l, x) && x <= w && AllAtLeast(r, x)
  }

  /** The ordering invariant with its duplicate tie-break: every value in a
      left subtree is <= the node's value, every value in a right subtree is
      greater. */
  predicate Ordered(t: Tree) {
    match t
    case Empty => true
    case Fork(l, v, r) => Ordered(l) && Ordered(r) && AllAtMost(l, v) && AllAbove(r, v)
  }

  /** In an ordered tree, a value greater than the node's is stored, if at
      all, in the right subtree, which is itself ordered. */
  lemma SearchRight(l: Tree, v: int, r: Tree, x: int)
    requires v < x
    ensures Ordered(Fork(l, v, r)) && x in Elements(Fork(l, v, r)) ==> Ordered(r) && x in Elements(r)
  {
    if Ordered(Fork(l, v, r)) {
      AllAtMostMeans(l, v);
      assert forall y :: y in Elements(l) ==> y <= v;
      assert x !in Elements(l);
    }
  }

  /** In an ordered tree, a value less than the node's is stored, if at all,
      in the left subtree, which is itself ordered. */
  lemma SearchLeft(l: Tree, v: int, r: Tree, x: int)
    requires x < v
    ensures Ordered(Fork(l, v, r)) && x in Elements(Fork(l, v, r)) ==> Ordered(l) && x in Elements(l)
  {
    if Ordered(Fork(l, v, r)) {
      AllAboveMeans(r, v);
      assert forall y :: y in Elements(r) ==> v < y;
      assert x !in Elements(r);
    }
  }

  /** What a correct insertion of x into t must produce: an ordered tree
      holding the old values and one more x. */
  ghost predicate InsertedCorrectly(t: Tree, x: int, u: Tree) {
    Ordered(u) && Elements(u) == Elements(t) + multiset{x}
  }

  /** AllAtMost says what its name says, for every stored value. */
  lemma {:induction false} AllAtMostMeans(t: Tree, v: int)
    ensures AllAtMost(t, v) <==> forall y :: y in Elements(t) ==> y <= v
  {
    match t
    case Empty =>
    case Fork(l, w, r) =>
      AllAtMostMeans(l, v);
      AllAtMostMeans(r, v);
      if AllAtMost(t, v) {
        assert AllAtMost(l, v) && AllAtMost(r, v);
        assert forall y :: y in Elements(l) ==> y <= v;
        assert forall y :: y in Elements(r) ==> y <= v;
        forall y | y in Elements(t) ensures y <= v {
          assert y in Elements(l) || y == w || y in Elements(r);
        }
      }
      if forall y :: y in Elements(t) ==> y <= v {
        assert w in Elements(t);
        forall y | y in Elements(l) ensures y <= v {
          assert y in Elements(t);
        }
        forall y | y in Elements(r) ensures y <= v {
          assert y in Elements(t);
        }
      }
  }

  /** AllAbove says what its name says, for every stored value. */
  lemma {:induction false} AllAboveMeans(t: Tree, v: int)
    ensures AllAbove(t, v) <==> forall y :: y in Elements(t) ==> v < y
  {
    match t
    case Empty =>
    case Fork(l, w, r) =>
      AllAboveMeans(l, v);
      AllAboveMeans(r, v);
      if AllAbove(t, v) {
        assert AllAbove(l, v) && AllAbove(r, v);
        assert forall y :: y in Elements(l) ==> v < y;
        assert forall y :: y in Elements(r) ==> v < y;
        forall y | y in Elements(t) ensures v < y {
          assert y in Elements(l) || y == w || y in Elements(r);
        }
      }
      if forall y :: y in Elements(t) ==> v < y {
        assert w in Elements(t);
        forall y | y in Elements(l) ensures v < y {
          assert y in Elements(t);
        }
        forall y | y in Elements(r) ensures v < y {
          assert y in Elements(t);
        }
      }
  }

  /** AllAtLeast says what its name says, for every stored value. */
  lemma {:induction false} AllAtLeastMeans(t: Tree, x: int)
    ensures AllAtLeast(t, x) <==> forall y :: y in Elements(t) ==> x <= y
  {
    match t
    case Empty =>
    case Fork(l, w, r) =>
      AllAtLeastMeans(l, x);
      AllAtLeastMeans(r, x);
      if AllAtLeast(t, x) {
        assert AllAtLeast(l, x) && AllAtLeast(r, x);
        assert forall y :: y in Elements(l) ==> x <= y;
        assert forall y :: y in Elements(r) ==> x <= y;
        forall y | y in Elements(t) ensures x <= y {
          assert y in Elements(l) || y == w || y in Elements(r);
        }
      }
      if forall y :: y in Elements(t) ==> x <= y {
        assert w in Elements(t);
        forall y | y in Elements(l) ensures x <= y {
          assert y in Elements(t);
        }
        forall y | y in Elements(r) ensures x <= y {
          assert y in Elements(t);
        }
      }
  }

  /** The tree that insertHelper leaves behind when called with a fresh leaf
      holding x and subtree t, following the code as written: an empty
      subtree is left alone; a value <= the node's goes left, becoming the left
      child when there is none; a greater value whose node has no right child
      REPLACES the left child, and one whose node has a right child descends
      into the LEFT child. */
  function Insert(t: Tree, x: int): (u: Tree)
    ensures u.Empty? <==> t.Empty?
    ensures u.Fork? ==> u.data == t.data && u.right == t.right
    ensures Elements(u) <= Elements(t) + multiset{x}
  {
    match t
    case Empty => Empty
    case Fork(l, v, rt) =>
      if x <= v then
        if l == Empty then Fork(Leaf(x), v, rt) else Fork(Insert(l, x), v, rt)
      else
        if rt == Empty then Fork(Leaf(x), v, rt) else Fork(Insert(l, x), v, rt)
  }

  /** Reference definition: t with one new leaf x hung below the last node of
      its left spine. */
  function AttachLeftmost(t: Tree, x: int): (u: Tree)
    ensures Elements(u) == Elements(t) + multiset{x}
    ensures LeftSpine(u) == LeftSpine(t) + [x]
  {
    match t
    case Empty => Leaf(x)
    case Fork(l, v, r) =>
      var u' := AttachLeftmost(l, x);
      assert [v] + LeftSpine(u') == [v] + LeftSpine(l) + [x];
      Fork(u', v, r)
  }

  /** A value <= its node's value meets an absent left child: it becomes
      that child, the count grows by one and the right subtree is kept. */
  lemma InsertAttachesLeftChild(t: Tree, x: int)
    requires t.Fork? && x <= t.data && t.left == Empty
    ensures Insert(t, x) == Fork(Leaf(x), t.data, t.right)
    ensures |Elements(Insert(t, x))| == |Elements(t)| + 1
  {
  }

  /** A value greater than its node's value, at a node with no right child,
      overwrites the left child: whatever was there is dropped, and the
      result breaks the ordering invariant. */
  lemma InsertReplacesLeftChild(t: Tree, x: int)
    requires t.Fork? && t.data < x && t.right == Empty
    ensures Insert(t, x) == Fork(Leaf(x), t.data, Empty)
    ensures |Elements(Insert(t, x))| == 2
    ensures !Ordered(Insert(t, x))
  {
  }

  /** A value no greater than every stored value takes the left (<=) branch at
      every node, so insertion hangs exactly one new leaf below the leftmost
      node. */
  lemma {:induction false} InsertAtLeastAttachesLeftmost(t: Tree, x: int)
    requires t.Fork? && AllAtLeast(t, x)
    ensures Insert(t, x) == AttachLeftmost(t, x)
  {
    if t.left != Empty {
      InsertAtLeastAttachesLeftmost(t.left, x);
    }
  }

  /** Hanging a value no greater than v below the leftmost node keeps every
      value <= v. */
  lemma {:induction false} AttachLeftmostKeepsAtMost(t: Tree, x: int, v: int)
    requires AllAtMost(t, v) && x <= v
    ensures AllAtMost(AttachLeftmost(t, x), v)
  {
    if t.Fork? {
      AttachLeftmostKeepsAtMost(t.left, x, v);
    }
  }

  /** Hanging a value no greater than every stored value below the leftmost
      node keeps an ordered tree ordered. */
  lemma {:induction false} AttachLeftmostKeepsOrder(t: Tree, x: int)
    requires Ordered(t) && AllAtLeast(t, x)
    ensures Ordered(AttachLeftmost(t, x))
  {
    if t.Fork? {
      AttachLeftmostKeepsOrder(t.left, x);
      AttachLeftmostKeepsAtMost(t.left, x, t.data);
    }
  }

  /** Values above v are at least any x <= v. */
  lemma {:induction false} AboveIsAtLeast(t: Tree, v: int, x: int)
    requires AllAbove(t, v) && x <= v
    ensures AllAtLeast(t, x)
  {
    if t.Fork? {
      AboveIsAtLeast(t.left, v, x);
      AboveIsAtLeast(t.right, v, x);
    }
  }

  /** On an ordered tree, a value above some stored value is never inserted
      correctly: either it replaces a left child with a greater value, or it
      is dropped at an absent left child, or the damage happens further down
      the left link it follows. */
  lemma {:induction false} InsertAboveSomeIsIncorrect(t: Tree, x: int)
    requires Ordered(t) && !AllAtLeast(t, x)
    ensures !InsertedCorrectly(t, x, Insert(t, x))
  {
    var Fork(l, v, r) := t;
    if v < x && r == Empty {
      InsertReplacesLeftChild(t, x);
    } else if v < x && l == Empty {
      assert Insert(t, x) == t;
      assert |Elements(t) + multiset{x}| == |Elements(t)| + 1;
    } else {
      if x <= v {
        AboveIsAtLeast(r, v, x);
      }
      assert !AllAtLeast(l, x);
      InsertAboveSomeIsIncorrect(l, x);
      IncorrectLeftIsIncorrect(l, v, r, x, Insert(l, x));
      assert Insert(t, x) == Fork(Insert(l, x), v, r);
    }
  }

  /** A wrong result in the left subtree makes the whole tree wrong. */
  lemma IncorrectLeftIsIncorrect(l: Tree, v: int, r: Tree, x: int, a: Tree)
    requires !InsertedCorrectly(l, x, a)
    ensures !InsertedCorrectly(Fork(l, v, r), x, Fork(a, v, r))
  {
    if Elements(Fork(a, v, r)) == Elements(Fork(l, v, r)) + multiset{x} {
      forall z ensures Elements(a)[z] == (Elements(l) + multiset{x})[z] {
        assert Elements(Fork(a, v, r))[z] == (Elements(Fork(l, v, r)) + multiset{x})[z];
      }
      assert Elements(a) == Elements(l) + multiset{x};
    }
  }

  /** On an ordered non-empty tree, insertHelper as written inserts x
      correctly exactly when x is no greater than every stored value. */
  lemma InsertCorrectIffAllAtLeast(t: Tree, x: int)
    requires Ordered(t) && t.Fork?
    ensures InsertedCorrectly(t, x, Insert(t, x)) <==> AllAtLeast(t, x)
  {
    if AllAtLeast(t, x) {
      InsertAtLeastAttachesLeftmost(t, x);
      AttachLeftmostKeepsOrder(t, x);
    } else {
      InsertAboveSomeIsIncorrect(t, x);
    }
  }

  /** Inserting 2, 6, 1 and then 4 again below a root holding 4: the 6
      overwrites the 2, the 1 goes below the 6, the duplicate 4 goes below
      the 1; four values remain of five, out of order. */
  lemma DuplicatesExample()
    ensures Insert(Insert(Insert(Insert(Leaf(4), 2), 6), 1), 4)
            == Fork(Fork(Fork(Leaf(4), 1, Empty), 6, Empty), 4, Empty)
    ensures !Ordered(Insert(Insert(Insert(Insert(Leaf(4), 2), 6), 1), 4))
  {
  }

  /** Inserting 7 and then 1 below a root holding 10 follows the correct
      left branch twice: a left-skewed chain of three, with no right child. */
  lemma DescendingExample()
    ensures Insert(Insert(Leaf(10), 7), 1) == Fork(Fork(Leaf(1), 7, Empty), 10, Empty)
    ensures Ordered(Insert(Insert(Leaf(10), 7), 1))
  {
  }
}
