/** The linked structure of BinarySearchTree.java: BinaryNode cells joined
    through left and right links, and the BinarySearchTree object that holds
    the root. Each node carries, as ghost state, the set of nodes below it
    and the Trees.Tree value they spell out. */
module BinarySearchTrees {
  import opened Trees

  datatype Option<+T> = None | Some(value: T)

  /** The one failure the class raises: a NullPointerException with its message. */
  datatype Error = NullPointerException(message: string)

  /** The outcome of a call that returns nothing or throws. */
  datatype Outcome = Pass | Fail(error: Error)

  /** The outcome of a call that returns a value or throws. */
  datatype Result<+T> = Success(value: T) | Failure(error: Error)

  /** The message insert and contains throw with on a null argument. */
  const NullDataMessage: string := "Data is null"

  /** A tree cell: one datum fixed at construction, and two child links. */
  class BinaryNode {
    ghost var footprint: set<BinaryNode>
    ghost var model: Tree

    const data: int
    var left: BinaryNode?
    var right: BinaryNode?

    /** The node and the nodes below it form a tree: no cycles, no sharing
        between the two subtrees, footprint is exactly the nodes reached, and
        model is the value they spell out. */
    ghost predicate Valid()
      reads this, footprint
      decreases footprint
    {
      this in footprint &&
      (left != null ==>
        left in footprint && left.footprint <= footprint && this !in left.footprint && left.Valid()) &&
      (right != null ==>
        right in footprint && right.footprint <= footprint && this !in right.footprint && right.Valid()) &&
      (left != null && right != null ==> left.footprint !! right.footprint) &&
      footprint == {this} + FootprintOf(left) + FootprintOf(right) &&
      model == Fork(ModelOf(left), data, ModelOf(right))
    }

    /** The children are well formed, share no node, and do not reach this
        node: what Valid asks of them, whatever this node's ghost state. */
    ghost predicate ChildrenValid()
      reads this, left, right, FootprintOf(left), FootprintOf(right)
    {
      (left != null ==> this !in left.footprint && left.Valid()) &&
      (right != null ==> this !in right.footprint && right.Valid()) &&
      FootprintOf(left) !! FootprintOf(right)
    }

    /** Brings this node's ghost footprint and model up to date with its
        links after a child link or a child's subtree has changed. */
    ghost method Seal()
      requires ChildrenValid()
      modifies this`footprint, this`model
      ensures Valid()
      ensures footprint == {this} + FootprintOf(left) + FootprintOf(right)
      ensures model == Fork(ModelOf(left), data, ModelOf(right))
    {
      footprint := {this} + FootprintOf(left) + FootprintOf(right);
      model := Fork(ModelOf(left), data, ModelOf(right));
    }

    /** setLeft: node, a tree apart from this one, becomes the left child;
        whatever was linked there before is no longer reachable from here. */
    method SetLeft(node: BinaryNode)
      requires Valid() && node.Valid() && node.footprint !! footprint
      modifies this`left, this`footprint, this`model
      ensures Valid() && left == node
      ensures model == Fork(node.model, data, old(ModelOf(right)))
      ensures footprint == {this} + node.footprint + old(FootprintOf(right))
    {
      left := node;
      Seal();
    }

    /** `new BinaryNode<T>(data)`: a leaf holding data. */
    constructor (data: int)
      ensures Valid() && this.data == data && left == null && right == null
      ensures model == Leaf(data) && footprint == {this}
    {
      this.data := data;
      left, right := null, null;
      footprint := {this};
      model := Leaf(data);
    }
  }

  /** The value spelled out from a possibly absent node. */
  ghost function ModelOf(n: BinaryNode?): Tree
    reads n
  {
    if n == null then Empty else n.model
  }

  /** The nodes reached from a possibly absent node. */
  ghost function FootprintOf(n: BinaryNode?): set<BinaryNode>
    reads n
  {
    if n == null then {} else n.footprint
  }

  class BinarySearchTree {
    var root: BinaryNode?

    /** The tree object and every node reachable from its root. */
    ghost function Repr(): set<object>
      reads this, root
    {
      {this} + (if root == null then {} else {root} + root.footprint)
    }

    ghost predicate Valid()
      reads Repr()
    {
      root != null ==> root.Valid()
    }

    /** The stored values as a tree. */
    ghost function Model(): Tree
      reads Repr()
    {
      ModelOf(root)
    }

    /** A new tree has no root. */
    constructor ()
      ensures Valid() && root == null && Repr() == {this} && Model() == Empty
    {
      root := null;
    }

    /** The root field is protected: code outside the class may install a
        structure of nodes it has linked itself. This is the only way a tree
        gets a root. */
    method SetRoot(node: BinaryNode?)
      requires node != null ==> node.Valid()
      modifies this`root
      ensures Valid() && root == node && Model() == ModelOf(node)
    {
      root := node;
    }

    /** insert: a null datum throws and changes nothing; otherwise a new leaf
        is made and handed to InsertHelper together with the root. The root
        is never reassigned (the tree object itself is not written), so an
        empty tree stays empty. */
    method Insert(data: Option<int>) returns (outcome: Outcome)
      requires Valid()
      modifies FootprintOf(root)`left, FootprintOf(root)`footprint, FootprintOf(root)`model
      ensures Valid()
      ensures data.None? ==> outcome == Fail(NullPointerException(NullDataMessage))
      ensures data.None? ==> unchanged(old(Repr()))
      ensures data.Some? ==> outcome == Pass && Model() == Trees.Insert(old(Model()), data.value)
      ensures old(IsEmpty()) ==> IsEmpty() && Size() == 0
      ensures fresh(Repr() - old(Repr()))
    {
      if data.None? {
        outcome := Fail(NullPointerException(NullDataMessage));
        return;
      }
      var newNode := new BinaryNode(data.value);
      InsertHelper(newNode, root);
      outcome := Pass;
    }

    /** insertHelper: walks down from subtree and links newNode in, exactly as
        Trees.Insert describes. It writes only left links (never a right link,
        and data is constant), touches no node outside subtree, and leaves a
        well-formed structure whose nodes are old ones or newNode. */
    static method InsertHelper(newNode: BinaryNode, subtree: BinaryNode?)
      requires newNode.Valid() && newNode.left == null && newNode.right == null
      requires subtree != null ==> subtree.Valid() && newNode !in subtree.footprint
      modifies FootprintOf(subtree)`left, FootprintOf(subtree)`footprint, FootprintOf(subtree)`model
      decreases FootprintOf(subtree), 1
      ensures subtree != null ==> subtree.Valid()
      ensures ModelOf(subtree) == Trees.Insert(old(ModelOf(subtree)), newNode.data)
      ensures FootprintOf(subtree) <= old(FootprintOf(subtree)) + {newNode}
    {
      if subtree == null {
        return;
      }
      if newNode.data <= subtree.data {
        if subtree.left == null {
          subtree.SetLeft(newNode);
          return;
        }
        InsertBelow(newNode, subtree);
      }
      if newNode.data > subtree.data {
        if subtree.right == null {
          // the code links the new node to the LEFT here
          subtree.SetLeft(newNode);
          return;
        }
        // ... and descends into the LEFT child here
        InsertBelow(newNode, subtree);
      }
      return;
    }

    /** The recursive call insertHelper(newNode, subtree.getLeft()), which both
        branches make, followed by bringing subtree's ghost state up to date. */
    static method InsertBelow(newNode: BinaryNode, subtree: BinaryNode)
      requires newNode.Valid() && newNode.left == null && newNode.right == null
      requires subtree.Valid() && newNode !in subtree.footprint
      modifies subtree.footprint`left, subtree.footprint`footprint, subtree.footprint`model
      decreases subtree.footprint, 0
      ensures subtree.Valid()
      ensures subtree.model == Fork(Trees.Insert(old(ModelOf(subtree.left)), newNode.data), subtree.data, old(ModelOf(subtree.right)))
      ensures subtree.footprint <= old(subtree.footprint) + {newNode}
    {
      var l := subtree.left;
      ghost var r := subtree.right;
      InsertHelper(newNode, l);
      assert subtree.left == l && subtree.right == r;
      subtree.Seal();
    }

    /** contains: a null query throws, even on an empty tree; otherwise the
        answer of ContainsHelper from the root. */
    function Contains(data: Option<int>): (r: Result<bool>)
      reads Repr()
      requires Valid()
      ensures data.None? ==> r == Failure(NullPointerException(NullDataMessage))
      ensures data.Some? ==> r.Success?
      ensures data.Some? && r.Success? && r.value ==> data.value in Elements(Model())
      ensures data.Some? && Ordered(Model()) && data.value in Elements(Model()) ==> r == Success(true)
    {
      if data.None? then Failure(NullPointerException(NullDataMessage))
      else Success(ContainsHelper(data.value, root))
    }

    /** containsHelper: true only when some node below subtree holds data;
        on an ordered tree, true whenever one does. */
    static function ContainsHelper(data: int, subtree: BinaryNode?): (found: bool)
      reads subtree, if subtree == null then {} else subtree.footprint
      requires subtree != null ==> subtree.Valid()
      ensures found ==> data in Elements(ModelOf(subtree))
      ensures Ordered(ModelOf(subtree)) && data in Elements(ModelOf(subtree)) ==> found
      decreases FootprintOf(subtree)
    {
      if subtree == null then false
      else
        assert subtree.model == Fork(ModelOf(subtree.left), subtree.data, ModelOf(subtree.right));
        if subtree.data == data then true
      else if data > subtree.data then
        SearchRight(ModelOf(subtree.left), subtree.data, ModelOf(subtree.right), data);
        ContainsHelper(data, subtree.right)
      else
        SearchLeft(ModelOf(subtree.left), subtree.data, ModelOf(subtree.right), data);
        ContainsHelper(data, subtree.left)
    }

    /** size: the number of stored values, duplicates counted separately. */
    function Size(): (n: nat)
      reads Repr()
      requires Valid()
      ensures n == |Elements(Model())|
    {
      SizeHelper(root)
    }

    /** sizeHelper: the number of nodes below subtree, 0 when it is absent. */
    static function SizeHelper(subtree: BinaryNode?): (n: nat)
      reads subtree, if subtree == null then {} else subtree.footprint
      requires subtree != null ==> subtree.Valid()
      ensures n == |Elements(ModelOf(subtree))|
      ensures n == 0 <==> subtree == null
      decreases FootprintOf(subtree)
    {
      if subtree == null then 0
      else 1 + SizeHelper(subtree.left) + SizeHelper(subtree.right)
    }

    /** isEmpty: there is no root, which is the same as size being 0. */
    function IsEmpty(): (empty: bool)
      reads Repr()
      requires Valid()
      ensures empty <==> Model() == Empty
      ensures empty <==> Size() == 0
    {
      root == null
    }

    /** clear: drops the root; every node becomes unreachable. */
    method Clear()
      modifies this`root
      ensures Valid() && root == null && Repr() == {this}
      ensures Model() == Empty && IsEmpty() && Size() == 0
    {
      root := null;
    }
  }

  /** A client of the contracts above: insertion into a fresh tree is lost,
      and null arguments are refused. */
  method EmptyTreeScenario() {
    var tree := new BinarySearchTree();
    var outcome := tree.Insert(Some(10));
    assert outcome == Pass && tree.IsEmpty() && tree.Size() == 0;
    var found := tree.Contains(None);
    assert found.Failure?;
    outcome := tree.Insert(None);
    assert outcome.Fail?;
  }

  /** A client of the contracts above: a supplied root receives insertions
      as Trees.Insert says, and clear empties the tree. */
  method SuppliedRootScenario() {
    var tree := new BinarySearchTree();
    var node := new BinaryNode(4);
    tree.SetRoot(node);
    var outcome := tree.Insert(Some(2));
    assert tree.Model() == Fork(Leaf(2), 4, Empty);
    outcome := tree.Insert(Some(6));
    assert tree.Model() == Fork(Leaf(6), 4, Empty);
    assert tree.Size() == 2;
    var found := tree.Contains(Some(6));
    assert found == Success(false);

    tree.Clear();
    assert tree.IsEmpty() && tree.Size() == 0;
  }
}
