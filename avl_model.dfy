/**
 * Value model of the aggregating AVL tree of codeC/avl_tree.c.
 *
 * A `Tree` is a snapshot of the nodes reachable from an `AVLNode *`: `Nil` is the
 * NULL pointer, a `Branch` carries the fields `station_id`, `capacity`, `load` and
 * the stored `balance` of one node. The functions below perform on snapshots exactly
 * the arithmetic and the case analysis that the C functions perform on the heap;
 * the heap-level methods in module AvlHeap are proved to agree with them.
 */
module AvlModel {

  /** One record of the in-order traversal: `(station_id, capacity, load)`. */
  datatype Entry = Entry(id: int, capacity: int, load: int)

  datatype Tree =
    | Nil
    | Branch(left: Tree, id: int, capacity: int, load: int, balance: int, right: Tree)

  /** `max` of avl_tree.c: the larger of two integers. */
  function Max(a: int, b: int): (r: int)
    ensures r >= a && r >= b
    ensures r == a || r == b
  {
    if a > b then a else b
  }

  /** `min` of avl_tree.c: the smaller of two integers. */
  function Min(a: int, b: int): (r: int)
    ensures r <= a && r <= b
    ensures r == a || r == b
  {
    if a > b then b else a
  }

  // ---------------------------------------------------------------------------
  // Specification vocabulary: heights, contents, ordering, balance.
  // ---------------------------------------------------------------------------

  ghost function Height(t: Tree): nat
  {
    match t
    case Nil => 0
    case Branch(l, _, _, _, _, r) => 1 + Max(Height(l), Height(r))
  }

  /** Number of nodes. */
  ghost function Size(t: Tree): nat
  {
    match t
    case Nil => 0
    case Branch(l, _, _, _, _, r) => Size(l) + 1 + Size(r)
  }

  /** The in-order sequence of `(station_id, capacity, load)` records. */
  function Elements(t: Tree): seq<Entry>
  {
    match t
    case Nil => []
    case Branch(l, id, c, ld, _, r) => Elements(l) + [Entry(id, c, ld)] + Elements(r)
  }

  function Keys(t: Tree): set<int>
  {
    match t
    case Nil => {}
    case Branch(l, id, _, _, _, r) => Keys(l) + {id} + Keys(r)
  }

  /** Strict binary-search-tree order: every key on the left is smaller, every key on the right larger. */
  ghost predicate Bst(t: Tree)
  {
    match t
    case Nil => true
    case Branch(l, id, _, _, _, r) =>
      Bst(l) && Bst(r) &&
      (forall k :: k in Keys(l) ==> k < id) &&
      (forall k :: k in Keys(r) ==> id < k)
  }

  /** The stored balance field of the root equals height(right) - height(left). */
  ghost predicate BalanceExact(t: Tree)
  {
    t.Branch? && t.balance == Height(t.right) - Height(t.left)
  }

  /** Every balance field is exact and lies in {-1, 0, 1}. */
  ghost predicate Avl(t: Tree)
  {
    match t
    case Nil => true
    case Branch(l, _, _, _, b, r) => Avl(l) && Avl(r) && BalanceExact(t) && -1 <= b <= 1
  }

  // ---------------------------------------------------------------------------
  // Why the balance fields are kept: an AVL tree is logarithmically shallow.
  // ---------------------------------------------------------------------------

  /** The fewest nodes an AVL tree of height `h` can hold (F(h+2) - 1 for the Fibonacci numbers F). */
  function MinSize(h: nat): nat
  {
    if h == 0 then 0 else if h == 1 then 1 else 1 + MinSize(h - 1) + MinSize(h - 2)
  }

  function Pow2(n: nat): nat
  {
    if n == 0 then 1 else 2 * Pow2(n - 1)
  }

  lemma {:induction false} MinSizeMonotone(a: nat, b: nat)
    requires a <= b
    ensures MinSize(a) <= MinSize(b)
    decreases b
  {
    if a < b {
      MinSizeMonotone(a, b - 1);
    }
  }

  /** Every AVL tree of height `Height(t)` holds at least `MinSize(Height(t))` nodes. */
  lemma {:induction false} AvlMinSize(t: Tree)
    requires Avl(t)
    ensures MinSize(Height(t)) <= Size(t)
  {
    match t
    case Nil =>
    case Branch(l, _, _, _, _, r) =>
      AvlMinSize(l);
      AvlMinSize(r);
      var h := Height(t);
      if h >= 2 {
        MinSizeMonotone(h - 2, Height(l));
        MinSizeMonotone(h - 2, Height(r));
        assert Height(l) == h - 1 || Height(r) == h - 1;
      }
  }

  /** `MinSize` at least doubles every two levels. */
  lemma {:induction false} MinSizeDoubles(h: nat)
    ensures Pow2(h / 2) <= MinSize(h) + 1
  {
    if h >= 2 {
      MinSizeDoubles(h - 2);
      MinSizeMonotone(h - 2, h - 1);
      assert h / 2 == (h - 2) / 2 + 1;
    }
  }

  /** An AVL tree of `n` nodes has height at most about 2·log2(n + 1). */
  lemma AvlHeightLogarithmic(t: Tree)
    requires Avl(t)
    ensures Pow2(Height(t) / 2) <= Size(t) + 1
  {
    AvlMinSize(t);
    MinSizeDoubles(Height(t));
  }

  // ---------------------------------------------------------------------------
  // Rotations (avl_tree.c:29-73) and the rebalancing dispatch (avl_tree.c:75-96).
  // ---------------------------------------------------------------------------

  /**
   * `leftRotate`: the right child (the pivot) becomes the root; the stored balance
   * fields of the two touched nodes are updated from their old values alone.
   */
  function LeftRotate(t: Tree): (r: Tree)
    requires t.Branch? && t.right.Branch?
    ensures r.Branch? && r.left.Branch?
    ensures r.left.left == t.left && r.left.right == t.right.left && r.right == t.right.right
    ensures Elements(r) == Elements(t)
    ensures BalanceExact(t) && BalanceExact(t.right) ==> BalanceExact(r) && BalanceExact(r.left)
  {
    var pivot := t.right;
    var eqA := t.balance;
    var eqP := pivot.balance;
    var node := t.(right := pivot.left, balance := eqA - Max(eqP, 0) - 1);
    pivot.(left := node, balance := Min(Min(eqA - 2, eqA + eqP - 2), eqP - 1))
  }

  /** `rightRotate`: the mirror image of `leftRotate`. */
  function RightRotate(t: Tree): (r: Tree)
    requires t.Branch? && t.left.Branch?
    ensures r.Branch? && r.right.Branch?
    ensures r.left == t.left.left && r.right.left == t.left.right && r.right.right == t.right
    ensures Elements(r) == Elements(t)
    ensures BalanceExact(t) && BalanceExact(t.left) ==> BalanceExact(r) && BalanceExact(r.right)
  {
    var pivot := t.left;
    var eqA := t.balance;
    var eqP := pivot.balance;
    var node := t.(left := pivot.right, balance := eqA - Min(eqP, 0) + 1);
    pivot.(right := node, balance := Max(Max(eqA + 2, eqA + eqP + 2), eqP + 1))
  }

  /** `DoubleRotateLeft`: right rotation at the right child, then left rotation at the node. */
  function DoubleRotateLeft(t: Tree): (r: Tree)
    requires t.Branch? && t.right.Branch? && t.right.left.Branch?
    ensures Elements(r) == Elements(t)
  {
    LeftRotate(t.(right := RightRotate(t.right)))
  }

  /** `DoubleRotateRight`: left rotation at the left child, then right rotation at the node. */
  function DoubleRotateRight(t: Tree): (r: Tree)
    requires t.Branch? && t.left.Branch? && t.left.right.Branch?
    ensures Elements(r) == Elements(t)
  {
    RightRotate(t.(left := LeftRotate(t.left)))
  }

  /**
   * The children that `balanceAVL` dereferences exist: the C code reads
   * `node->right->balance` when the balance is at least 2 and then rotates the
   * right child's left child up on a double rotation (and symmetrically).
   */
  ghost predicate CanBalance(t: Tree)
  {
    t.Branch? &&
    (t.balance >= 2 ==> t.right.Branch? && (t.right.balance < 0 ==> t.right.left.Branch?)) &&
    (t.balance <= -2 ==> t.left.Branch? && (t.left.balance > 0 ==> t.left.right.Branch?))
  }

  /** `balanceAVL`: one of the four rotation cases, or the node itself when |balance| <= 1. */
  function BalanceAVL(t: Tree): (r: Tree)
    requires CanBalance(t)
    ensures Elements(r) == Elements(t)
    ensures -1 <= t.balance <= 1 ==> r == t
  {
    if t.balance >= 2 then
      if t.right.balance >= 0 then LeftRotate(t) else DoubleRotateLeft(t)
    else if t.balance <= -2 then
      if t.left.balance <= 0 then RightRotate(t) else DoubleRotateRight(t)
    else
      t
  }

  // ---------------------------------------------------------------------------
  // Insertion (avl_tree.c:98-126).
  // ---------------------------------------------------------------------------

  /**
   * The retracing step of `insertAVL` (avl_tree.c:115-125): `n` is the node after its
   * child link was replaced, `h` the signed height change of that child (negated for
   * the left side). A non-zero change is added to the balance, the node is rebalanced
   * and the flag becomes 1 exactly when the resulting root is not balanced.
   */
  function Retrace(n: Tree, h: int): (r: (Tree, int))
    requires n.Branch?
    requires h != 0 ==> CanBalance(n.(balance := n.balance + h))
    ensures Elements(r.0) == Elements(n)
  {
    if h != 0 then
      var b := BalanceAVL(n.(balance := n.balance + h));
      (b, if b.balance == 0 then 0 else 1)
    else
      (n, h)
  }

  /**
   * `insertAVL`: returns the new subtree root and the final value of `*h`. A missing
   * key becomes a new leaf; on an existing key only `load` is accumulated (the code
   * leaves `capacity` as it was). The result is again an AVL tree and the flag is the
   * exact height increase, 0 or 1.
   */
  function Insert(t: Tree, id: int, capacity: int, load: int): (r: (Tree, int))
    requires Avl(t)
    ensures Grown(t, r.0, r.1)
    decreases t
  {
    match t
    case Nil => (Branch(Nil, id, capacity, load, 0, Nil), 1)
    case Branch(l, k, c, ld, b, rt) =>
      if id < k then
        var (l2, h) := Insert(l, id, capacity, load);
        RetraceLeft(t, l2, h);
        Retrace(t.(left := l2), -h)
      else if id > k then
        var (r2, h) := Insert(rt, id, capacity, load);
        RetraceRight(t, r2, h);
        Retrace(t.(right := r2), h)
      else
        (Branch(l, k, c, ld + load, b, rt), 0)
  }

  /** One step of `Insert` that descends left, stated on the child's result `(l2, h)`. */
  lemma InsertStepLeft(t: Tree, id: int, capacity: int, load: int, l2: Tree, h: int, d: int)
    requires Avl(t) && t.Branch? && id < t.id && (l2, h) == Insert(t.left, id, capacity, load)
    requires d == -h
    ensures d != 0 ==> CanBalance(t.(left := l2).(balance := t.balance + d))
    ensures Insert(t, id, capacity, load) == Retrace(t.(left := l2), d)
  {
    RetraceLeft(t, l2, h);
  }

  /** One step of `Insert` that descends right, stated on the child's result `(r2, h)`. */
  lemma InsertStepRight(t: Tree, id: int, capacity: int, load: int, r2: Tree, h: int)
    requires Avl(t) && t.Branch? && id > t.id && (r2, h) == Insert(t.right, id, capacity, load)
    ensures h != 0 ==> CanBalance(t.(right := r2).(balance := t.balance + h))
    ensures Insert(t, id, capacity, load) == Retrace(t.(right := r2), h)
  {
    RetraceRight(t, r2, h);
  }

  // ---------------------------------------------------------------------------
  // Rebalancing lemmas.
  // ---------------------------------------------------------------------------

  /** A single left rotation repairs a node of balance 2 whose right child is not left-heavy. */
  lemma SingleLeftRepairs(t: Tree)
    requires t.Branch? && BalanceExact(t) && Avl(t.left) && Avl(t.right) && t.balance == 2
    requires t.right.balance >= 0
    ensures Avl(LeftRotate(t))
    ensures Height(LeftRotate(t)) == Height(t) - (if t.right.balance == 0 then 0 else 1)
    ensures t.right.balance != 0 ==> LeftRotate(t).balance == 0
  {
  }

  /** A double rotation repairs a node of balance 2 whose right child is left-heavy. */
  lemma DoubleLeftRepairs(t: Tree)
    requires t.Branch? && BalanceExact(t) && Avl(t.left) && Avl(t.right) && t.balance == 2
    requires t.right.balance < 0
    ensures t.right.left.Branch?
    ensures Avl(DoubleRotateLeft(t))
    ensures DoubleRotateLeft(t).balance == 0 && Height(DoubleRotateLeft(t)) == Height(t) - 1
  {
  }

  /** `balanceAVL` on a node of balance 2 above two AVL subtrees yields an AVL tree at most one level lower. */
  lemma BalanceRestoresLeft(t: Tree)
    requires t.Branch? && BalanceExact(t) && Avl(t.left) && Avl(t.right) && t.balance == 2
    ensures CanBalance(t)
    ensures Avl(BalanceAVL(t))
    ensures Height(t) - 1 <= Height(BalanceAVL(t)) <= Height(t)
    ensures t.right.balance != 0 ==> BalanceAVL(t).balance == 0 && Height(BalanceAVL(t)) == Height(t) - 1
  {
    if t.right.balance >= 0 {
      SingleLeftRepairs(t);
    } else {
      DoubleLeftRepairs(t);
    }
  }

  /** A single right rotation repairs a node of balance -2 whose left child is not right-heavy. */
  lemma SingleRightRepairs(t: Tree)
    requires t.Branch? && BalanceExact(t) && Avl(t.left) && Avl(t.right) && t.balance == -2
    requires t.left.balance <= 0
    ensures Avl(RightRotate(t))
    ensures Height(RightRotate(t)) == Height(t) - (if t.left.balance == 0 then 0 else 1)
    ensures t.left.balance != 0 ==> RightRotate(t).balance == 0
  {
  }

  /** A double rotation repairs a node of balance -2 whose left child is right-heavy. */
  lemma DoubleRightRepairs(t: Tree)
    requires t.Branch? && BalanceExact(t) && Avl(t.left) && Avl(t.right) && t.balance == -2
    requires t.left.balance > 0
    ensures t.left.right.Branch?
    ensures Avl(DoubleRotateRight(t))
    ensures DoubleRotateRight(t).balance == 0 && Height(DoubleRotateRight(t)) == Height(t) - 1
  {
  }

  /** `balanceAVL` on a node of balance -2 above two AVL subtrees yields an AVL tree at most one level lower. */
  lemma BalanceRestoresRight(t: Tree)
    requires t.Branch? && BalanceExact(t) && Avl(t.left) && Avl(t.right) && t.balance == -2
    ensures CanBalance(t)
    ensures Avl(BalanceAVL(t))
    ensures Height(t) - 1 <= Height(BalanceAVL(t)) <= Height(t)
    ensures t.left.balance != 0 ==> BalanceAVL(t).balance == 0 && Height(BalanceAVL(t)) == Height(t) - 1
  {
    if t.left.balance <= 0 {
      SingleRightRepairs(t);
    } else {
      DoubleRightRepairs(t);
    }
  }

  /** `r` with flag `h` is what inserting into `t` may return: an AVL tree exactly `h` levels taller. */
  ghost predicate Grown(t: Tree, r: Tree, h: int)
  {
    Avl(r) && r.Branch? && 0 <= h <= 1 && Height(r) == Height(t) + h &&
    (h == 1 && r.balance == 0 ==> r.left == Nil && r.right == Nil)
  }

  /** The retracing step after the left subtree `l2` replaced `t.left` in an insertion. */
  lemma RetraceLeft(t: Tree, l2: Tree, h: int)
    requires t.Branch? && Avl(t) && Grown(t.left, l2, h)
    ensures -h != 0 ==> CanBalance(t.(left := l2).(balance := t.balance - h))
    ensures Grown(t, Retrace(t.(left := l2), -h).0, Retrace(t.(left := l2), -h).1)
  {
    var n := t.(left := l2);
    if h == 0 {
      assert BalanceExact(n);
    } else if t.balance == -1 {
      LeftGrowthRotates(t, l2);
    } else {
      var m := n.(balance := n.balance - 1);
      assert BalanceExact(m) && Avl(m);
    }
  }

  /** The left subtree of a left-heavy node grew: `balanceAVL` rotates and the height is back. */
  lemma LeftGrowthRotates(t: Tree, l2: Tree)
    requires t.Branch? && Avl(t) && Grown(t.left, l2, 1) && t.balance == -1
    ensures CanBalance(t.(left := l2).(balance := -2))
    ensures Grown(t, Retrace(t.(left := l2), -1).0, 0)
  {
    var m := t.(left := l2).(balance := -2);
    assert BalanceExact(m);
    BalanceRestoresRight(m);
  }

  /** The retracing step after the right subtree `r2` replaced `t.right` in an insertion. */
  lemma RetraceRight(t: Tree, r2: Tree, h: int)
    requires t.Branch? && Avl(t) && Grown(t.right, r2, h)
    ensures h != 0 ==> CanBalance(t.(right := r2).(balance := t.balance + h))
    ensures Grown(t, Retrace(t.(right := r2), h).0, Retrace(t.(right := r2), h).1)
  {
    var n := t.(right := r2);
    if h == 0 {
      assert BalanceExact(n);
    } else if t.balance == 1 {
      RightGrowthRotates(t, r2);
    } else {
      var m := n.(balance := n.balance + 1);
      assert BalanceExact(m) && Avl(m);
    }
  }

  /** The right subtree of a right-heavy node grew: `balanceAVL` rotates and the height is back. */
  lemma RightGrowthRotates(t: Tree, r2: Tree)
    requires t.Branch? && Avl(t) && Grown(t.right, r2, 1) && t.balance == 1
    ensures CanBalance(t.(right := r2).(balance := 2))
    ensures Grown(t, Retrace(t.(right := r2), 1).0, 0)
  {
    var m := t.(right := r2).(balance := 2);
    assert BalanceExact(m);
    BalanceRestoresLeft(m);
  }
}
