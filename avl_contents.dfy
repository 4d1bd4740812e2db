/**
 * What `insertAVL` does to the contents of the tree, stated against an independent
 * reference: `MergeEntry`, insertion of one record into a list sorted by station id
 * that accumulates `load` into an existing record with the same id.
 */
module AvlContents {
  import opened AvlModel

  /** Station ids strictly increase along the sequence. */
  ghost predicate Sorted(es: seq<Entry>)
  {
    forall i, j :: 0 <= i < j < |es| ==> es[i].id < es[j].id
  }

  ghost function Ids(es: seq<Entry>): set<int>
  {
    set e | e in es :: e.id
  }

  /**
   * Reference insertion into a list sorted by id: a new record goes before the first
   * larger id; a record with the same id gets `load` added and keeps its capacity.
   */
  ghost function MergeEntry(es: seq<Entry>, id: int, capacity: int, load: int): seq<Entry>
  {
    if es == [] then [Entry(id, capacity, load)]
    else if id < es[0].id then [Entry(id, capacity, load)] + es
    else if id == es[0].id then [es[0].(load := es[0].load + load)] + es[1..]
    else [es[0]] + MergeEntry(es[1..], id, capacity, load)
  }

  /** `AddLoad(t, k, d)`: the tree `t` with `d` added to the load of every node keyed `k`, nothing else changed. */
  function AddLoad(t: Tree, k: int, d: int): Tree
  {
    match t
    case Nil => Nil
    case Branch(l, id, c, ld, b, r) =>
      Branch(AddLoad(l, k, d), id, c, if id == k then ld + d else ld, b, AddLoad(r, k, d))
  }

  // ---------------------------------------------------------------------------
  // In-order traversal and search-tree order.
  // ---------------------------------------------------------------------------

  lemma {:induction false} KeysAreIds(t: Tree)
    ensures Keys(t) == Ids(Elements(t))
  {
    match t
    case Nil =>
    case Branch(l, id, c, ld, _, r) =>
      KeysAreIds(l);
      KeysAreIds(r);
      var a, e, b := Elements(l), Entry(id, c, ld), Elements(r);
      assert Elements(t) == a + [e] + b;
      assert Ids(a + [e] + b) == Ids(a) + {id} + Ids(b) by {
        forall x | x in Ids(a + [e] + b) ensures x in Ids(a) + {id} + Ids(b) {
          var y :| y in a + [e] + b && y.id == x;
        }
      }
  }

  lemma SortedAround(a: seq<Entry>, e: Entry, b: seq<Entry>)
    ensures Sorted(a + [e] + b) <==>
      Sorted(a) && Sorted(b) && (forall x :: x in a ==> x.id < e.id) && (forall x :: x in b ==> e.id < x.id)
  {
    if Sorted(a) && Sorted(b) && (forall x :: x in a ==> x.id < e.id) && (forall x :: x in b ==> e.id < x.id) {
      SortedJoin(a, e, b);
    }
    if Sorted(a + [e] + b) {
      SortedSplit(a, e, b);
    }
  }

  lemma SortedJoin(a: seq<Entry>, e: Entry, b: seq<Entry>)
    requires Sorted(a) && Sorted(b)
    requires (forall x :: x in a ==> x.id < e.id) && (forall x :: x in b ==> e.id < x.id)
    ensures Sorted(a + [e] + b)
  {
    var s := a + [e] + b;
    forall i, j | 0 <= i < j < |s| ensures s[i].id < s[j].id {
      if j < |a| {
        assert s[i] == a[i] && s[j] == a[j];
      } else if i > |a| {
        assert s[i] == b[i - |a| - 1] && s[j] == b[j - |a| - 1];
      } else if i == |a| {
        assert s[j] in b;
      } else if j == |a| {
        assert s[i] in a;
      } else {
        assert s[i] in a && s[j] in b;
      }
    }
  }

  lemma SortedSplit(a: seq<Entry>, e: Entry, b: seq<Entry>)
    requires Sorted(a + [e] + b)
    ensures Sorted(a) && Sorted(b)
    ensures (forall x :: x in a ==> x.id < e.id) && (forall x :: x in b ==> e.id < x.id)
  {
    var s := a + [e] + b;
    forall i, j | 0 <= i < j < |a| ensures a[i].id < a[j].id {
      assert s[i] == a[i] && s[j] == a[j];
    }
    forall i, j | 0 <= i < j < |b| ensures b[i].id < b[j].id {
      assert s[|a| + 1 + i] == b[i] && s[|a| + 1 + j] == b[j];
    }
    forall x | x in a ensures x.id < e.id {
      var i :| 0 <= i < |a| && a[i] == x;
      assert s[i] == x && s[|a|] == e;
    }
    forall x | x in b ensures e.id < x.id {
      var i :| 0 <= i < |b| && b[i] == x;
      assert s[|a| + 1 + i] == x && s[|a|] == e;
    }
  }

  /**
   * The traversal of `inorder`/`exportAVLNodeToFile` lists the records in strictly
   * increasing id order exactly when the tree is a binary search tree.
   */
  lemma {:induction false} BstIffSorted(t: Tree)
    ensures Bst(t) <==> Sorted(Elements(t))
  {
    match t
    case Nil =>
    case Branch(l, id, c, ld, _, r) =>
      BstIffSorted(l);
      BstIffSorted(r);
      KeysAreIds(l);
      KeysAreIds(r);
      SortedAround(Elements(l), Entry(id, c, ld), Elements(r));
      IdBounds(l, id);
      IdBounds(r, id);
  }

  /** A bound on the keys of a tree is a bound on the ids of its traversal, and back. */
  lemma IdBounds(t: Tree, id: int)
    ensures (forall k :: k in Keys(t) ==> k < id) <==> (forall x :: x in Elements(t) ==> x.id < id)
    ensures (forall k :: k in Keys(t) ==> id < k) <==> (forall x :: x in Elements(t) ==> id < x.id)
  {
    KeysAreIds(t);
    var a := Elements(t);
    forall x | x in a ensures x.id in Keys(t) {
      assert x.id in Ids(a);
    }
    forall k | k in Keys(t) ensures exists x :: x in a && x.id == k {
      var x :| x in a && x.id == k;
    }
  }

  /** Every node is visited exactly once: the traversal has one record per node and its ids are the keys. */
  lemma {:induction false} TraversalVisitsEachNode(t: Tree)
    requires Bst(t)
    ensures |Elements(t)| == Size(t)
    ensures Ids(Elements(t)) == Keys(t)
    ensures Sorted(Elements(t))
  {
    match t
    case Nil =>
    case Branch(l, _, _, _, _, r) =>
      TraversalVisitsEachNode(l);
      TraversalVisitsEachNode(r);
      KeysAreIds(t);
      BstIffSorted(t);
  }

  // ---------------------------------------------------------------------------
  // The reference insertion on sorted lists.
  // ---------------------------------------------------------------------------

  lemma {:induction false} MergeBefore(a: seq<Entry>, e: Entry, b: seq<Entry>, id: int, capacity: int, load: int)
    requires id < e.id
    ensures MergeEntry(a + [e] + b, id, capacity, load) == MergeEntry(a, id, capacity, load) + [e] + b
  {
    if a == [] {
      assert a + [e] + b == [e] + b;
    } else {
      assert (a + [e] + b)[0] == a[0];
      assert (a + [e] + b)[1..] == a[1..] + [e] + b;
      MergeBefore(a[1..], e, b, id, capacity, load);
    }
  }

  lemma {:induction false} MergeAfter(a: seq<Entry>, b: seq<Entry>, id: int, capacity: int, load: int)
    requires forall x :: x in a ==> x.id < id
    ensures MergeEntry(a + b, id, capacity, load) == a + MergeEntry(b, id, capacity, load)
  {
    if a != [] {
      assert (a + b)[0] == a[0];
      assert (a + b)[1..] == a[1..] + b;
      MergeAfter(a[1..], b, id, capacity, load);
    } else {
      assert a + b == b;
    }
  }

  lemma SortedTail(es: seq<Entry>)
    requires Sorted(es) && es != []
    ensures Sorted(es[1..])
    ensures forall x :: x in es[1..] ==> es[0].id < x.id
  {
    forall x | x in es[1..] ensures es[0].id < x.id {
      var i :| 0 <= i < |es[1..]| && es[1..][i] == x;
      assert es[i + 1] == x;
    }
  }

  lemma SortedCons(e: Entry, rest: seq<Entry>)
    requires Sorted(rest) && forall x :: x in rest ==> e.id < x.id
    ensures Sorted([e] + rest)
  {
    var s := [e] + rest;
    forall i, j | 0 <= i < j < |s| ensures s[i].id < s[j].id {
      assert s[j] == rest[j - 1];
      if i > 0 {
        assert s[i] == rest[i - 1];
      } else {
        assert s[j] in rest;
      }
    }
  }

  lemma IdsCons(e: Entry, rest: seq<Entry>)
    ensures Ids([e] + rest) == {e.id} + Ids(rest)
  {
    IdsAround([], e, rest);
    assert [] + [e] + rest == [e] + rest;
  }

  /** Inserting into a sorted list keeps it sorted and adds exactly the new id to its ids. */
  lemma {:induction false} MergeSorted(es: seq<Entry>, id: int, capacity: int, load: int)
    requires Sorted(es)
    ensures Sorted(MergeEntry(es, id, capacity, load))
    ensures Ids(MergeEntry(es, id, capacity, load)) == Ids(es) + {id}
  {
    if es == [] {
      IdsCons(Entry(id, capacity, load), []);
    } else if id <= es[0].id {
      MergeSortedAtHead(es, id, capacity, load);
    } else {
      MergeSorted(es[1..], id, capacity, load);
      MergeSortedPastHead(es, id, capacity, load);
    }
  }

  lemma MergeSortedAtHead(es: seq<Entry>, id: int, capacity: int, load: int)
    requires Sorted(es) && es != [] && id <= es[0].id
    ensures Sorted(MergeEntry(es, id, capacity, load))
    ensures Ids(MergeEntry(es, id, capacity, load)) == Ids(es) + {id}
  {
    SortedTail(es);
    if id < es[0].id {
      var n := Entry(id, capacity, load);
      assert MergeEntry(es, id, capacity, load) == [n] + es;
      SortedCons(n, es);
      IdsCons(n, es);
    } else {
      var e := es[0].(load := es[0].load + load);
      assert MergeEntry(es, id, capacity, load) == [e] + es[1..];
      SortedCons(e, es[1..]);
      IdsCons(e, es[1..]);
      IdsCons(es[0], es[1..]);
      assert [es[0]] + es[1..] == es;
    }
  }

  lemma MergeSortedPastHead(es: seq<Entry>, id: int, capacity: int, load: int)
    requires Sorted(es) && es != [] && es[0].id < id
    requires Sorted(MergeEntry(es[1..], id, capacity, load))
    requires Ids(MergeEntry(es[1..], id, capacity, load)) == Ids(es[1..]) + {id}
    ensures Sorted(MergeEntry(es, id, capacity, load))
    ensures Ids(MergeEntry(es, id, capacity, load)) == Ids(es) + {id}
  {
    assert es == [es[0]] + es[1..];
    ConsAbove(es[0], es[1..], MergeEntry(es[1..], id, capacity, load), id);
  }

  /** A sorted list headed by `e` stays sorted when its tail gains an id larger than `e`'s. */
  lemma ConsAbove(e: Entry, tail: seq<Entry>, rest: seq<Entry>, id: int)
    requires Sorted([e] + tail) && e.id < id
    requires Sorted(rest) && Ids(rest) == Ids(tail) + {id}
    ensures Sorted([e] + rest)
    ensures Ids([e] + rest) == Ids([e] + tail) + {id}
  {
    SortedTail([e] + tail);
    assert ([e] + tail)[1..] == tail;
    IdsAbove(tail, e.id);
    assert forall k :: k in Ids(rest) ==> e.id < k;
    IdsAbove(rest, e.id);
    SortedCons(e, rest);
    IdsCons(e, rest);
    IdsCons(e, tail);
  }

  /** Every record of `es` has an id above `b` exactly when every id of `es` is above `b`. */
  lemma IdsAbove(es: seq<Entry>, b: int)
    ensures (forall x :: x in es ==> b < x.id) <==> (forall k :: k in Ids(es) ==> b < k)
  {
    if forall x :: x in es ==> b < x.id {
      forall k | k in Ids(es) ensures b < k {
        var x :| x in es && x.id == k;
      }
    }
    if forall k :: k in Ids(es) ==> b < k {
      forall x | x in es ensures b < x.id {
        assert x.id in Ids(es);
      }
    }
  }

  lemma IdsAround(a: seq<Entry>, e: Entry, b: seq<Entry>)
    ensures Ids(a + [e] + b) == Ids(a) + {e.id} + Ids(b)
  {
    forall x | x in Ids(a + [e] + b) ensures x in Ids(a) + {e.id} + Ids(b) {
      var y :| y in a + [e] + b && y.id == x;
    }
  }

  /** Putting `e` in front of a list split at `i` splits `[e] + rest` at `i + 1`. */
  lemma ConsSplit(e: Entry, rest: seq<Entry>, n: Entry, i: int)
    requires 0 <= i <= |rest|
    ensures [e] + (rest[..i] + [n] + rest[i..]) == ([e] + rest)[..i + 1] + [n] + ([e] + rest)[i + 1..]
  {
    assert ([e] + rest)[..i + 1] == [e] + rest[..i];
    assert ([e] + rest)[i + 1..] == rest[i..];
  }

  /** A missing id is placed as one new record between the existing ones, which are unchanged. */
  lemma {:induction false} MergeAbsent(es: seq<Entry>, id: int, capacity: int, load: int)
    requires id !in Ids(es)
    ensures exists i :: (0 <= i <= |es| &&
                         MergeEntry(es, id, capacity, load) == es[..i] + [Entry(id, capacity, load)] + es[i..])
  {
    var n := Entry(id, capacity, load);
    if es == [] {
      assert MergeEntry(es, id, capacity, load) == es[..0] + [n] + es[0..];
    } else if id < es[0].id {
      assert MergeEntry(es, id, capacity, load) == es[..0] + [n] + es[0..];
    } else {
      var rest := es[1..];
      assert es == [es[0]] + rest;
      IdsCons(es[0], rest);
      MergeAbsent(rest, id, capacity, load);
      var i :| 0 <= i <= |rest| && MergeEntry(rest, id, capacity, load) == rest[..i] + [n] + rest[i..];
      assert MergeEntry(es, id, capacity, load) == [es[0]] + MergeEntry(rest, id, capacity, load);
      ConsSplit(es[0], rest, n, i);
    }
  }

  lemma {:induction false} AddLoadAbsent(t: Tree, k: int, d: int)
    requires k !in Keys(t)
    ensures AddLoad(t, k, d) == t
  {
    match t
    case Nil =>
    case Branch(l, _, _, _, _, r) =>
      AddLoadAbsent(l, k, d);
      AddLoadAbsent(r, k, d);
  }

  // ---------------------------------------------------------------------------
  // What `insertAVL` does to the contents (avl_tree.c:98-126).
  // ---------------------------------------------------------------------------

  /** The in-order traversal after an insertion is the reference insertion into the traversal before it. */
  lemma {:induction false} InsertElements(t: Tree, id: int, capacity: int, load: int)
    requires Avl(t) && Bst(t)
    ensures Elements(Insert(t, id, capacity, load).0) == MergeEntry(Elements(t), id, capacity, load)
  {
    match t
    case Nil =>
    case Branch(l, k, c, ld, b, r) =>
      if id < k {
        InsertElements(l, id, capacity, load);
        InsertElementsLeft(t, id, capacity, load);
      } else if id > k {
        InsertElements(r, id, capacity, load);
        InsertElementsRight(t, id, capacity, load);
      } else {
        InsertElementsHere(t, id, capacity, load);
      }
  }

  lemma InsertElementsLeft(t: Tree, id: int, capacity: int, load: int)
    requires Avl(t) && Bst(t) && t.Branch? && id < t.id
    requires Elements(Insert(t.left, id, capacity, load).0) == MergeEntry(Elements(t.left), id, capacity, load)
    ensures Elements(Insert(t, id, capacity, load).0) == MergeEntry(Elements(t), id, capacity, load)
  {
    var e := Entry(t.id, t.capacity, t.load);
    var l2 := Insert(t.left, id, capacity, load).0;
    assert Elements(Insert(t, id, capacity, load).0) == Elements(t.(left := l2));
    MergeBefore(Elements(t.left), e, Elements(t.right), id, capacity, load);
  }

  lemma InsertElementsRight(t: Tree, id: int, capacity: int, load: int)
    requires Avl(t) && Bst(t) && t.Branch? && id > t.id
    requires Elements(Insert(t.right, id, capacity, load).0) == MergeEntry(Elements(t.right), id, capacity, load)
    ensures Elements(Insert(t, id, capacity, load).0) == MergeEntry(Elements(t), id, capacity, load)
  {
    var e := Entry(t.id, t.capacity, t.load);
    var r2 := Insert(t.right, id, capacity, load).0;
    assert Elements(Insert(t, id, capacity, load).0) == Elements(t.(right := r2));
    IdBounds(t.left, t.id);
    IdBounds(t.left, id);
    MergeAfter(Elements(t.left) + [e], Elements(t.right), id, capacity, load);
  }

  lemma InsertElementsHere(t: Tree, id: int, capacity: int, load: int)
    requires Avl(t) && Bst(t) && t.Branch? && id == t.id
    ensures Elements(Insert(t, id, capacity, load).0) == MergeEntry(Elements(t), id, capacity, load)
  {
    assert Insert(t, id, capacity, load).0 == t.(load := t.load + load);
    MergeAtRoot(t, capacity, load);
  }

  /** Merging the root's own id into the traversal adds `load` to the root's record. */
  lemma MergeAtRoot(t: Tree, capacity: int, load: int)
    requires Bst(t) && t.Branch?
    ensures Elements(t.(load := t.load + load)) == MergeEntry(Elements(t), t.id, capacity, load)
  {
    var e := Entry(t.id, t.capacity, t.load);
    var rs := [e] + Elements(t.right);
    IdBounds(t.left, t.id);
    MergeAfter(Elements(t.left), rs, t.id, capacity, load);
    assert rs[0] == e && rs[1..] == Elements(t.right);
    assert Elements(t) == Elements(t.left) + rs;
  }

  /**
   * `insertAVL` keeps the strict search-tree order (so no key occurs twice) and its
   * key set afterwards is the old one plus the inserted id.
   */
  lemma InsertKeepsOrder(t: Tree, id: int, capacity: int, load: int)
    requires Avl(t) && Bst(t)
    ensures Bst(Insert(t, id, capacity, load).0)
    ensures Keys(Insert(t, id, capacity, load).0) == Keys(t) + {id}
  {
    var t' := Insert(t, id, capacity, load).0;
    InsertElements(t, id, capacity, load);
    BstIffSorted(t);
    MergeSorted(Elements(t), id, capacity, load);
    BstIffSorted(t');
    KeysAreIds(t);
    KeysAreIds(t');
  }

  /**
   * Inserting a missing id adds one node, whose record is `(id, capacity, load)`,
   * and every other record stays as it was and where it was in the order.
   */
  lemma InsertAbsentKey(t: Tree, id: int, capacity: int, load: int)
    requires Avl(t) && Bst(t) && id !in Keys(t)
    ensures Size(Insert(t, id, capacity, load).0) == Size(t) + 1
    ensures exists i :: (0 <= i <= |Elements(t)| &&
                         Elements(Insert(t, id, capacity, load).0) ==
                         Elements(t)[..i] + [Entry(id, capacity, load)] + Elements(t)[i..])
  {
    var t' := Insert(t, id, capacity, load).0;
    InsertElements(t, id, capacity, load);
    KeysAreIds(t);
    MergeAbsent(Elements(t), id, capacity, load);
    InsertKeepsOrder(t, id, capacity, load);
    TraversalVisitsEachNode(t);
    TraversalVisitsEachNode(t');
  }

  /**
   * Inserting an id that is present changes neither the shape nor the balance fields:
   * only that node's `load` grows by `load`, its `capacity` is kept, and the flag is 0.
   */
  lemma {:induction false} InsertPresentKey(t: Tree, id: int, capacity: int, load: int)
    requires Avl(t) && Bst(t) && id in Keys(t)
    ensures Insert(t, id, capacity, load) == (AddLoad(t, id, load), 0)
  {
    match t
    case Branch(l, k, c, ld, b, r) =>
      if id < k {
        assert id !in Keys(r);
        InsertPresentKey(l, id, capacity, load);
        AddLoadAbsent(r, id, load);
      } else if id > k {
        assert id !in Keys(l);
        InsertPresentKey(r, id, capacity, load);
        AddLoadAbsent(l, id, load);
      } else {
        AddLoadAbsent(l, id, load);
        AddLoadAbsent(r, id, load);
      }
  }
}
