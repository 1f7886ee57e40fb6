/** Insertion into `MyAVLTree`: the unbalanced descent that places a new node, the pre-order
    re-insertion used by the deep copy, and the proof that one insertion followed by the
    `balance` pass keeps the AVL condition. */
module Insertion {
  import opened BinaryTrees
  import opened Balancing

  /** The private `insert(root, k, v)` helper: go left on a smaller key and right on any other
      key, and create the new node in the first empty child slot. */
  function BstInsert<V>(t: Tree<V>, k: int, v: V): (u: Tree<V>)
    ensures u.Node?
    ensures Keys(u) == Keys(t) + {k}
    ensures Entries(u) == Entries(t) + {(k, v)}
    ensures NodeCount(u) == NodeCount(t) + 1
  {
    match t
    case Leaf => Node(Leaf, k, v, Leaf)
    case Node(l, key, value, r) =>
      if k < key then Node(BstInsert(l, k, v), key, value, r)
      else Node(l, key, value, BstInsert(r, k, v))
  }

  /** Inserting an absent key keeps search-tree order. */
  lemma {:induction false} BstInsertKeepsOrder<V>(t: Tree<V>, k: int, v: V)
    requires Bst(t) && k !in Keys(t)
    ensures Bst(BstInsert(t, k, v))
  {
    match t
    case Leaf =>
    case Node(l, key, value, r) =>
      if k < key {
        BstInsertKeepsOrder(l, k, v);
        forall x | x in Keys(BstInsert(l, k, v)) ensures x < key { }
      } else {
        BstInsertKeepsOrder(r, k, v);
        forall x | x in Keys(BstInsert(r, k, v)) ensures key < x { }
      }
  }

  /** Inserting an absent key adds exactly that key, with its value, to the map. */
  lemma {:induction false} BstInsertMap<V>(t: Tree<V>, k: int, v: V)
    requires k !in Keys(t)
    ensures AsMap(BstInsert(t, k, v)) == AsMap(t)[k := v]
  {
    match t
    case Leaf =>
    case Node(l, key, value, r) =>
      if k < key {
        BstInsertMap(l, k, v);
        UpdateInLeftOperand(AsMap(l), AsMap(BstInsert(l, k, v)), AsMap(r), key, value, k, v);
      } else {
        BstInsertMap(r, k, v);
        UpdateInRightOperand(AsMap(l), AsMap(r), AsMap(BstInsert(r, k, v)), key, value, k, v);
      }
  }

  /** How the height of a tree may change when one node is inserted and the tree is then
      balanced: it stays, or it grows by one and then the new root is not evenly balanced
      (unless the tree was empty). */
  ghost predicate GrowsByAtMostOne<V>(before: Tree<V>, after: Tree<V>) {
    after.Node? &&
    (Height(after) == Height(before) ||
     (Height(after) == Height(before) + 1 &&
      (before.Leaf? || Height(after.left) != Height(after.right))))
  }

  /** If the tree satisfied the AVL condition before a single insertion, the `balance` pass
      that follows the insertion leaves every node with child heights at most 1 apart. */
  lemma {:induction false} InsertThenBalanceIsAvl<V>(t: Tree<V>, k: int, v: V)
    requires Avl(t)
    ensures Avl(Balance(BstInsert(t, k, v)))
    ensures GrowsByAtMostOne(t, Balance(BstInsert(t, k, v)))
  {
    match t
    case Leaf =>
    case Node(l, key, value, r) =>
      if k < key {
        InsertThenBalanceIsAvl(l, k, v);
        BalanceOfAvl(r);
        var l' := Balance(BstInsert(l, k, v));
        assert Balance(BstInsert(t, k, v)) == Rebalance(Node(l', key, value, r));
        RebalanceAfterLeftGrowth(t, l');
      } else {
        InsertThenBalanceIsAvl(r, k, v);
        BalanceOfAvl(l);
        var r' := Balance(BstInsert(r, k, v));
        assert Balance(BstInsert(t, k, v)) == Rebalance(Node(l, key, value, r'));
        RebalanceAfterRightGrowth(t, r');
      }
  }

  /** One step of `InsertThenBalanceIsAvl`: the left subtree of an AVL node was replaced by an
      AVL subtree that grew by at most one level; rebalancing the node restores the condition. */
  lemma RebalanceAfterLeftGrowth<V>(t: Tree<V>, l': Tree<V>)
    requires t.Node? && Avl(t) && Avl(l') && GrowsByAtMostOne(t.left, l')
    ensures Avl(Rebalance(Node(l', t.key, t.value, t.right)))
    ensures GrowsByAtMostOne(t, Rebalance(Node(l', t.key, t.value, t.right)))
  {
    var u := Node(l', t.key, t.value, t.right);
    if Height(l') > Height(t.right) + 1 {
      FixLeftHeavy(u);
    } else {
      assert Rebalance(u) == u;
    }
  }

  /** The mirror image of `RebalanceAfterLeftGrowth`. */
  lemma RebalanceAfterRightGrowth<V>(t: Tree<V>, r': Tree<V>)
    requires t.Node? && Avl(t) && Avl(r') && GrowsByAtMostOne(t.right, r')
    ensures Avl(Rebalance(Node(t.left, t.key, t.value, r')))
    ensures GrowsByAtMostOne(t, Rebalance(Node(t.left, t.key, t.value, r')))
  {
    var u := Node(t.left, t.key, t.value, r');
    if Height(r') > Height(t.left) + 1 {
      FixRightHeavy(u);
    } else {
      assert Rebalance(u) == u;
    }
  }

  // ---------------------------------------------------------------------------------------
  // Deep copy.

  /** The private `insert(copy, source)` helper: insert every node of `src` into `dest` with
      the unbalanced descent, in pre-order (the node, then its left and right subtrees). */
  function InsertPreOrder<V>(dest: Tree<V>, src: Tree<V>): (u: Tree<V>)
    ensures Entries(u) == Entries(dest) + Entries(src)
    ensures NodeCount(u) == NodeCount(dest) + NodeCount(src)
    decreases src
  {
    match src
    case Leaf => dest
    case Node(l, k, v, r) => InsertPreOrder(InsertPreOrder(BstInsert(dest, k, v), l), r)
  }

  /** What the copy constructor and the assignment operator build from a non-empty source:
      a fresh root holding the source root's pair, then the source's two subtrees re-inserted. */
  function CopyTree<V>(src: Tree<V>): (u: Tree<V>)
    requires src.Node?
    ensures Entries(u) == Entries(src) && NodeCount(u) == NodeCount(src)
  {
    InsertPreOrder(InsertPreOrder(Node(Leaf, src.key, src.value, Leaf), src.left), src.right)
  }

  /** Keys all smaller than the destination root's key are re-inserted into its left subtree. */
  lemma {:induction false} InsertPreOrderLeft<V>(dl: Tree<V>, dk: int, dv: V, dr: Tree<V>, s: Tree<V>)
    requires forall x | x in Keys(s) :: x < dk
    ensures InsertPreOrder(Node(dl, dk, dv, dr), s) == Node(InsertPreOrder(dl, s), dk, dv, dr)
    decreases s
  {
    match s
    case Leaf =>
    case Node(sl, sk, sv, sr) =>
      assert sk in Keys(s) && Keys(sl) <= Keys(s) && Keys(sr) <= Keys(s);
      var dl' := BstInsert(dl, sk, sv);
      assert BstInsert(Node(dl, dk, dv, dr), sk, sv) == Node(dl', dk, dv, dr);
      InsertPreOrderLeft(dl', dk, dv, dr, sl);
      InsertPreOrderLeft(InsertPreOrder(dl', sl), dk, dv, dr, sr);
      assert InsertPreOrder(dl, s) == InsertPreOrder(InsertPreOrder(dl', sl), sr);
  }

  /** Keys not smaller than the destination root's key are re-inserted into its right subtree. */
  lemma {:induction false} InsertPreOrderRight<V>(dl: Tree<V>, dk: int, dv: V, dr: Tree<V>, s: Tree<V>)
    requires forall x | x in Keys(s) :: dk <= x
    ensures InsertPreOrder(Node(dl, dk, dv, dr), s) == Node(dl, dk, dv, InsertPreOrder(dr, s))
    decreases s
  {
    match s
    case Leaf =>
    case Node(sl, sk, sv, sr) =>
      assert sk in Keys(s) && Keys(sl) <= Keys(s) && Keys(sr) <= Keys(s);
      var dr' := BstInsert(dr, sk, sv);
      assert BstInsert(Node(dl, dk, dv, dr), sk, sv) == Node(dl, dk, dv, dr');
      InsertPreOrderRight(dl, dk, dv, dr', sl);
      InsertPreOrderRight(dl, dk, dv, InsertPreOrder(dr', sl), sr);
      assert InsertPreOrder(dr, s) == InsertPreOrder(InsertPreOrder(dr', sl), sr);
  }

  /** Re-inserting a search tree's nodes in pre-order into an empty tree rebuilds it node for node. */
  lemma {:induction false} InsertPreOrderRebuilds<V>(s: Tree<V>)
    requires Bst(s)
    ensures InsertPreOrder(Leaf, s) == s
  {
    match s
    case Leaf =>
    case Node(l, k, v, r) =>
      InsertPreOrderLeft(Leaf, k, v, Leaf, l);
      InsertPreOrderRebuilds(l);
      forall x | x in Keys(r) ensures k <= x { }
      InsertPreOrderRight(l, k, v, Leaf, r);
      InsertPreOrderRebuilds(r);
  }

  /** The deep copy of a non-empty search tree has exactly the source's shape, keys and values. */
  lemma CopyTreeIdentical<V>(s: Tree<V>)
    requires s.Node? && Bst(s)
    ensures CopyTree(s) == s
  {
    InsertPreOrderRebuilds(s);
  }
}
