/**
 * The heap-level AVL tree of codeC/avl_tree.c: nodes are objects whose child links
 * and balance fields are rewritten in place, as the C code does through its
 * `AVLNode *` pointers.
 *
 * A ghost `Shape` names the nodes of a subtree (the node references laid out as a
 * tree); `Linked` ties it to the actual `left`/`right` links, `Disjoint` says that no
 * node occurs twice (a tree, not a DAG), and `Snap` reads the fields into the value
 * model of module AvlModel. Every method is proved to produce the snapshot that the
 * corresponding AvlModel function computes from the snapshot before the call; what
 * those functions guarantee is proved there and in module AvlContents.
 */
module AvlHeap {
  import opened AvlModel
  import AvlContents

  class AvlNode {
    const stationId: int
    var load: int
    var capacity: int
    var balance: int
    var left: AvlNode?
    var right: AvlNode?

    /** `newNode`: a leaf with the given record, no children and balance 0. */
    constructor (stationId: int, capacity: int, load: int)
      ensures this.stationId == stationId && this.capacity == capacity && this.load == load
      ensures left == null && right == null && balance == 0
    {
      this.stationId := stationId;
      this.load := load;
      this.capacity := capacity;
      this.left := null;
      this.right := null;
      this.balance := 0;
    }
  }

  /** The nodes of a subtree, arranged as the subtree is. */
  datatype Shape = Empty | Link(left: Shape, node: AvlNode, right: Shape)

  ghost function Nodes(s: Shape): set<AvlNode>
  {
    match s
    case Empty => {}
    case Link(l, n, r) => Nodes(l) + {n} + Nodes(r)
  }

  /** No node occurs twice in the shape. */
  ghost predicate Disjoint(s: Shape)
  {
    match s
    case Empty => true
    case Link(l, n, r) =>
      Disjoint(l) && Disjoint(r) && n !in Nodes(l) && n !in Nodes(r) && Nodes(l) !! Nodes(r)
  }

  /** The pointer `p` is the root of the subtree laid out by `s`. */
  ghost predicate Linked(p: AvlNode?, s: Shape)
    reads Nodes(s)
  {
    match s
    case Empty => p == null
    case Link(l, n, r) =>
      p == n && Linked(n.left, l) && Linked(n.right, r)
  }

  /** The current field values of the subtree laid out by `s`. */
  ghost function Snap(s: Shape): (t: Tree)
    reads Nodes(s)
    ensures t.Nil? <==> s.Empty?
  {
    match s
    case Empty => Nil
    case Link(l, n, r) => Branch(Snap(l), n.stationId, n.capacity, n.load, n.balance, Snap(r))
  }

  /** A subtree with no node counted twice has as many node objects as its snapshot has nodes. */
  lemma {:induction false} NodeCount(s: Shape)
    requires Disjoint(s)
    ensures |Nodes(s)| == Size(Snap(s))
  {
    match s
    case Empty =>
    case Link(l, n, r) =>
      NodeCount(l);
      NodeCount(r);
      assert Nodes(s) == Nodes(l) + Nodes(r) + {n};
      assert |Nodes(l) + Nodes(r)| == |Nodes(l)| + |Nodes(r)|;
  }

  /** One level of a linked, disjoint subtree rooted at a non-null node. */
  lemma Unfold(p: AvlNode?, s: Shape)
    requires Disjoint(s) && Linked(p, s) && p != null
    ensures s.Link? && s.node == p
    ensures Disjoint(s.left) && Disjoint(s.right)
    ensures Linked(p.left, s.left) && Linked(p.right, s.right)
    ensures p !in Nodes(s.left) && p !in Nodes(s.right) && Nodes(s.left) !! Nodes(s.right)
    ensures Nodes(s) == Nodes(s.left) + {p} + Nodes(s.right)
  {
  }

  /** Every node of a shape is an allocated object. */
  lemma {:induction false} NodesAllocated(s: Shape)
    ensures forall o :: o in Nodes(s) ==> allocated(o)
  {
    match s
    case Empty =>
    case Link(l, n, r) =>
      NodesAllocated(l);
      NodesAllocated(r);
  }

  /** Rotating a shape to the left keeps its nodes and keeps them distinct. */
  lemma ShapeLeftRotate(s: Shape)
    requires Disjoint(s) && s.Link? && s.right.Link?
    ensures var s' := Link(Link(s.left, s.node, s.right.left), s.right.node, s.right.right);
      Disjoint(s') && Nodes(s') == Nodes(s)
  {
  }

  /** Rotating a shape to the right keeps its nodes and keeps them distinct. */
  lemma ShapeRightRotate(s: Shape)
    requires Disjoint(s) && s.Link? && s.left.Link?
    ensures var s' := Link(s.left.left, s.left.node, Link(s.left.right, s.node, s.right));
      Disjoint(s') && Nodes(s') == Nodes(s)
  {
  }

  /**
   * `leftRotate`: the right child becomes the subtree root. Only the `right` link and
   * balance of `node` and the `left` link and balance of the pivot are written.
   */
  method LeftRotate(node: AvlNode, ghost s: Shape) returns (root: AvlNode, ghost s': Shape)
    requires Disjoint(s) && Linked(node, s) && node.right != null
    modifies node`right, node`balance, node.right`left, node.right`balance
    ensures root == old(node.right) && s.Link? && s.right.Link?
    ensures s' == Link(Link(s.left, node, s.right.left), root, s.right.right)
    ensures Disjoint(s') && Linked(root, s') && Nodes(s') == Nodes(s)
    ensures Snap(s') == AvlModel.LeftRotate(old(Snap(s)))
  {
    ShapeLeftRotate(s);
    var pivot := node.right;
    node.right := pivot.left;
    pivot.left := node;
    var eqA := node.balance;
    var eqP := pivot.balance;
    node.balance := eqA - Max(eqP, 0) - 1;
    pivot.balance := Min(Min(eqA - 2, eqA + eqP - 2), eqP - 1);
    root := pivot;
    s' := Link(Link(s.left, node, s.right.left), root, s.right.right);
  }

  /** `rightRotate`: the mirror image of `leftRotate`. */
  method RightRotate(node: AvlNode, ghost s: Shape) returns (root: AvlNode, ghost s': Shape)
    requires Disjoint(s) && Linked(node, s) && node.left != null
    modifies node`left, node`balance, node.left`right, node.left`balance
    ensures root == old(node.left) && s.Link? && s.left.Link?
    ensures s' == Link(s.left.left, root, Link(s.left.right, node, s.right))
    ensures Disjoint(s') && Linked(root, s') && Nodes(s') == Nodes(s)
    ensures Snap(s') == AvlModel.RightRotate(old(Snap(s)))
  {
    ShapeRightRotate(s);
    var pivot := node.left;
    node.left := pivot.right;
    pivot.right := node;
    var eqA := node.balance;
    var eqP := pivot.balance;
    node.balance := eqA - Min(eqP, 0) + 1;
    pivot.balance := Max(Max(eqA + 2, eqA + eqP + 2), eqP + 1);
    root := pivot;
    s' := Link(s.left.left, root, Link(s.left.right, node, s.right));
  }

  /** Line 65 of `DoubleRotateLeft`: the right child is replaced by its right rotation. */
  method RotateRightChild(node: AvlNode, ghost s: Shape) returns (ghost s': Shape)
    requires Disjoint(s) && Linked(node, s) && Snap(s).right.Branch? && Snap(s).right.left.Branch?
    modifies Nodes(s)
    ensures Disjoint(s') && Linked(node, s') && Nodes(s') == Nodes(s)
    ensures old(Snap(s)).right.Branch? && old(Snap(s)).right.left.Branch?
    ensures Snap(s') == old(Snap(s)).(right := AvlModel.RightRotate(old(Snap(s)).right))
  {
    ghost var t := Snap(s);
    assert t.right == Snap(s.right) && s.right.Link? && node.right == s.right.node;
    assert Linked(node.right, s.right) && Linked(node.right.left, s.right.left);
    assert node.right.left == s.right.left.node;
    assert node.right !in Nodes(s.left) && node.right.left !in Nodes(s.left);
    NodesAllocated(s.left);
    var child, sc := RightRotate(node.right, s.right);
    node.right := child;
    s' := Link(s.left, node, sc);
    assert Snap(s') == t.(right := AvlModel.RightRotate(t.right));
  }

  /** `DoubleRotateLeft`: a right rotation of the right child, then a left rotation of the node. */
  method DoubleRotateLeft(node: AvlNode, ghost s: Shape) returns (root: AvlNode, ghost s': Shape)
    requires Disjoint(s) && Linked(node, s) && Snap(s).right.Branch? && Snap(s).right.left.Branch?
    modifies Nodes(s)
    ensures Disjoint(s') && Linked(root, s') && Nodes(s') == Nodes(s)
    ensures Snap(s') == AvlModel.DoubleRotateLeft(old(Snap(s)))
  {
    ghost var s1 := RotateRightChild(node, s);
    root, s' := LeftRotate(node, s1);
  }

  /** Line 71 of `DoubleRotateRight`: the left child is replaced by its left rotation. */
  method RotateLeftChild(node: AvlNode, ghost s: Shape) returns (ghost s': Shape)
    requires Disjoint(s) && Linked(node, s) && Snap(s).left.Branch? && Snap(s).left.right.Branch?
    modifies Nodes(s)
    ensures Disjoint(s') && Linked(node, s') && Nodes(s') == Nodes(s)
    ensures old(Snap(s)).left.Branch? && old(Snap(s)).left.right.Branch?
    ensures Snap(s') == old(Snap(s)).(left := AvlModel.LeftRotate(old(Snap(s)).left))
  {
    ghost var t := Snap(s);
    assert t.left == Snap(s.left) && s.left.Link? && node.left == s.left.node;
    assert Linked(node.left, s.left) && Linked(node.left.right, s.left.right);
    assert node.left.right == s.left.right.node;
    assert node.left !in Nodes(s.right) && node.left.right !in Nodes(s.right);
    NodesAllocated(s.right);
    var child, sc := LeftRotate(node.left, s.left);
    node.left := child;
    s' := Link(sc, node, s.right);
    assert Snap(s') == t.(left := AvlModel.LeftRotate(t.left));
  }

  /** `DoubleRotateRight`: a left rotation of the left child, then a right rotation of the node. */
  method DoubleRotateRight(node: AvlNode, ghost s: Shape) returns (root: AvlNode, ghost s': Shape)
    requires Disjoint(s) && Linked(node, s) && Snap(s).left.Branch? && Snap(s).left.right.Branch?
    modifies Nodes(s)
    ensures Disjoint(s') && Linked(root, s') && Nodes(s') == Nodes(s)
    ensures Snap(s') == AvlModel.DoubleRotateRight(old(Snap(s)))
  {
    ghost var s1 := RotateLeftChild(node, s);
    root, s' := RightRotate(node, s1);
  }

  /** `balanceAVL`: dispatch on the balance of the node and of its heavier child. */
  method BalanceAVL(node: AvlNode, ghost s: Shape) returns (root: AvlNode, ghost s': Shape)
    requires Disjoint(s) && Linked(node, s) && CanBalance(Snap(s))
    modifies Nodes(s)
    ensures Disjoint(s') && Linked(root, s') && Nodes(s') == Nodes(s)
    ensures Snap(s') == AvlModel.BalanceAVL(old(Snap(s)))
  {
    Unfold(node, s);
    if node.balance >= 2 {
      Unfold(node.right, s.right);
      if node.right.balance >= 0 {
        root, s' := LeftRotate(node, s);
      } else {
        root, s' := DoubleRotateLeft(node, s);
      }
    } else if node.balance <= -2 {
      Unfold(node.left, s.left);
      if node.left.balance <= 0 {
        root, s' := RightRotate(node, s);
      } else {
        root, s' := DoubleRotateRight(node, s);
      }
    } else {
      root, s' := node, s;
    }
  }

  /**
   * The retracing step of `insertAVL` after a recursive call has grown one child:
   * a non-zero growth `h` is added to the balance, the node is rebalanced, and the
   * subtree is reported as grown exactly when the new root is not perfectly balanced.
   */
  method Retrace(node: AvlNode, ghost s: Shape, h: int) returns (root: AvlNode, h': int, ghost s': Shape)
    requires Disjoint(s) && Linked(node, s) && Snap(s).Branch?
    requires h != 0 ==> CanBalance(Snap(s).(balance := Snap(s).balance + h))
    modifies Nodes(s)
    ensures Disjoint(s') && Linked(root, s') && Nodes(s') == Nodes(s)
    ensures (Snap(s'), h') == AvlModel.Retrace(old(Snap(s)), h)
  {
    ghost var n := Snap(s);
    assert s.Link? && s.node == node && n.left == Snap(s.left) && n.right == Snap(s.right);
    root, h', s' := node, h, s;
    if h != 0 {
      node.balance := node.balance + h;
      assert Snap(s) == n.(balance := n.balance + h);
      root, s' := BalanceAVL(node, s);
      assert root.balance == Snap(s').balance;
      h' := if root.balance == 0 then 0 else 1;
    }
  }

  /**
   * `insertAVL`: returns the new subtree root and the final value of `*h`. The new
   * state of the subtree is the one the value model computes; module AvlContents and
   * the contract of `AvlModel.Insert` say what that state is.
   */
  method InsertAVL(node: AvlNode?, ghost s: Shape, id: int, capacity: int, load: int)
    returns (root: AvlNode, h: int, ghost s': Shape)
    requires Disjoint(s) && Linked(node, s) && Avl(Snap(s))
    modifies Nodes(s)
    ensures Disjoint(s') && Linked(root, s')
    ensures Nodes(s) <= Nodes(s') && fresh(Nodes(s') - Nodes(s))
    ensures (Snap(s'), h) == Insert(old(Snap(s)), id, capacity, load)
    decreases s, 1
  {
    if node == null {
      h := 1;
      root := new AvlNode(id, capacity, load);
      s' := Link(Empty, root, Empty);
    } else if id < node.stationId {
      root, h, s' := InsertLeft(node, s, id, capacity, load);
    } else if id > node.stationId {
      root, h, s' := InsertRight(node, s, id, capacity, load);
    } else {
      ghost var t := Snap(s);
      assert s.Link? && s.node == node && t.left == Snap(s.left) && t.right == Snap(s.right);
      node.load := node.load + load;
      h := 0;
      root, s' := node, s;
      assert Snap(s) == t.(load := t.load + load);
    }
  }

  /** The branch of `insertAVL` that descends into the left subtree. */
  method InsertLeft(node: AvlNode, ghost s: Shape, id: int, capacity: int, load: int)
    returns (root: AvlNode, h: int, ghost s': Shape)
    requires Disjoint(s) && Linked(node, s) && Avl(Snap(s)) && id < node.stationId
    modifies Nodes(s)
    ensures Disjoint(s') && Linked(root, s')
    ensures Nodes(s) <= Nodes(s') && fresh(Nodes(s') - Nodes(s))
    ensures (Snap(s'), h) == Insert(old(Snap(s)), id, capacity, load)
    decreases s, 0
  {
    ghost var t := Snap(s);
    assert s.Link? && s.node == node && t.left == Snap(s.left) && t.right == Snap(s.right);
    NodesAllocated(s.right);
    var child, h0, sl := InsertAVL(node.left, s.left, id, capacity, load);
    var d := -h0;
    InsertStepLeft(t, id, capacity, load, Snap(sl), h0, d);
    root, h, s' := AttachLeft(node, child, sl, s.right, d, t);
  }

  /** The branch of `insertAVL` that descends into the right subtree. */
  method InsertRight(node: AvlNode, ghost s: Shape, id: int, capacity: int, load: int)
    returns (root: AvlNode, h: int, ghost s': Shape)
    requires Disjoint(s) && Linked(node, s) && Avl(Snap(s)) && id > node.stationId
    modifies Nodes(s)
    ensures Disjoint(s') && Linked(root, s')
    ensures Nodes(s) <= Nodes(s') && fresh(Nodes(s') - Nodes(s))
    ensures (Snap(s'), h) == Insert(old(Snap(s)), id, capacity, load)
    decreases s, 0
  {
    ghost var t := Snap(s);
    assert s.Link? && s.node == node && t.left == Snap(s.left) && t.right == Snap(s.right);
    NodesAllocated(s.left);
    var child, h0, sr := InsertAVL(node.right, s.right, id, capacity, load);
    InsertStepRight(t, id, capacity, load, Snap(sr), h0);
    root, h, s' := AttachRight(node, child, s.left, sr, h0, t);
  }

  /**
   * Lines 104-105 and 115-125 of `insertAVL` for the left branch: the grown left subtree
   * rooted at `child` is attached under `node`, whose fields still hold those of the
   * snapshot `t`, and the node is retraced with the already negated flag `d`.
   */
  method AttachLeft(node: AvlNode, child: AvlNode, ghost sl: Shape, ghost sr: Shape, d: int, ghost t: Tree)
    returns (root: AvlNode, h: int, ghost s': Shape)
    requires Disjoint(sl) && Disjoint(sr) && Linked(child, sl) && Linked(node.right, sr)
    requires node !in Nodes(sl) && node !in Nodes(sr) && Nodes(sl) !! Nodes(sr)
    requires t.Branch? && t.right == Snap(sr) && t.id == node.stationId && t.capacity == node.capacity
    requires t.load == node.load && t.balance == node.balance
    requires d != 0 ==> CanBalance(t.(left := Snap(sl)).(balance := t.balance + d))
    modifies {node} + Nodes(sl) + Nodes(sr)
    ensures Disjoint(s') && Linked(root, s') && Nodes(s') == Nodes(sl) + {node} + Nodes(sr)
    ensures (Snap(s'), h) == AvlModel.Retrace(t.(left := old(Snap(sl))), d)
  {
    ghost var l2 := Snap(sl);
    node.left := child;
    ghost var s1 := Link(sl, node, sr);
    assert Snap(sl) == l2 && Snap(sr) == t.right;
    assert Snap(s1) == t.(left := l2);
    root, h, s' := Retrace(node, s1, d);
  }

  /** Lines 108 and 115-125: the mirror image of `AttachLeft` for the right branch, where the flag is not negated. */
  method AttachRight(node: AvlNode, child: AvlNode, ghost sl: Shape, ghost sr: Shape, h0: int, ghost t: Tree)
    returns (root: AvlNode, h: int, ghost s': Shape)
    requires Disjoint(sl) && Disjoint(sr) && Linked(node.left, sl) && Linked(child, sr)
    requires node !in Nodes(sl) && node !in Nodes(sr) && Nodes(sl) !! Nodes(sr)
    requires t.Branch? && t.left == Snap(sl) && t.id == node.stationId && t.capacity == node.capacity
    requires t.load == node.load && t.balance == node.balance
    requires h0 != 0 ==> CanBalance(t.(right := Snap(sr)).(balance := t.balance + h0))
    modifies {node} + Nodes(sl) + Nodes(sr)
    ensures Disjoint(s') && Linked(root, s') && Nodes(s') == Nodes(sl) + {node} + Nodes(sr)
    ensures (Snap(s'), h) == AvlModel.Retrace(t.(right := old(Snap(sr))), h0)
  {
    ghost var r2 := Snap(sr);
    node.right := child;
    ghost var s1 := Link(sl, node, sr);
    assert Snap(sr) == r2 && Snap(sl) == t.left;
    assert Snap(s1) == t.(right := r2);
    root, h, s' := Retrace(node, s1, h0);
  }

  /**
   * `inorder` and `exportAVLNodeToFile`: the records `(id, capacity, load)` in the order
   * the two walks emit them, left subtree first, then the node, then the right subtree.
   */
  function InOrder(node: AvlNode?, ghost s: Shape): (es: seq<Entry>)
    reads Nodes(s)
    requires Linked(node, s)
    ensures es == Elements(Snap(s))
    decreases s
  {
    if node == null then []
    else InOrder(node.left, s.left) + [Entry(node.stationId, node.capacity, node.load)] +
         InOrder(node.right, s.right)
  }

  /**
   * On a well-formed tree the walk emits one record per node object, with strictly
   * increasing station ids.
   */
  lemma InOrderVisitsEachNode(node: AvlNode?, s: Shape)
    requires Disjoint(s) && Linked(node, s) && Bst(Snap(s))
    ensures |InOrder(node, s)| == |Nodes(s)|
    ensures forall i, j :: 0 <= i < j < |InOrder(node, s)| ==> InOrder(node, s)[i].id < InOrder(node, s)[j].id
  {
    NodeCount(s);
    AvlContents.TraversalVisitsEachNode(Snap(s));
  }
}
