/** The four rotations and the `balance` pass of `MyAVLTree`. A rotation in the source rewires
    child pointers and re-links the new subtree root into its parent (`prev`) or into `mRoot`;
    here it returns the new subtree root and the caller stores it in the parent's child slot. */
module Balancing {
  import opened BinaryTrees

  /** `LLrotation`: the left child B becomes the subtree root; A adopts B's right subtree. */
  function RotateLL<V>(t: Tree<V>): (u: Tree<V>)
    requires t.Node? && t.left.Node?
    ensures InOrder(u) == InOrder(t) && Entries(u) == Entries(t)
  {
    var b := t.left;
    Node(b.left, b.key, b.value, Node(b.right, t.key, t.value, t.right))
  }

  /** `RRrotation`: the right child B becomes the subtree root; A adopts B's left subtree. */
  function RotateRR<V>(t: Tree<V>): (u: Tree<V>)
    requires t.Node? && t.right.Node?
    ensures InOrder(u) == InOrder(t) && Entries(u) == Entries(t)
  {
    var b := t.right;
    Node(Node(t.left, t.key, t.value, b.left), b.key, b.value, b.right)
  }

  /** `LRrotation`: C, the right child of the left child B, becomes the subtree root with B on
      its left and A on its right; C's subtrees go to B's right and A's left. */
  function RotateLR<V>(t: Tree<V>): (u: Tree<V>)
    requires t.Node? && t.left.Node? && t.left.right.Node?
    ensures InOrder(u) == InOrder(t) && Entries(u) == Entries(t)
  {
    var b := t.left;
    var c := b.right;
    var x, y := Node(b.left, b.key, b.value, c.left), Node(c.right, t.key, t.value, t.right);
    assert InOrder(Node(x, c.key, c.value, y)) == InOrder(t) by {
      assert InOrder(b) == InOrder(b.left) + [b.key] + (InOrder(c.left) + [c.key] + InOrder(c.right));
      Regroup(InOrder(b.left), b.key, InOrder(c.left), c.key, InOrder(c.right), t.key, InOrder(t.right));
    }
    assert Entries(Node(x, c.key, c.value, y)) == Entries(t) by {
      assert Entries(b) == Entries(b.left) + {(b.key, b.value)} + (Entries(c.left) + {(c.key, c.value)} + Entries(c.right));
    }
    Node(x, c.key, c.value, y)
  }

  /** `RLrotation`: C, the left child of the right child B, becomes the subtree root with A on
      its left and B on its right; C's subtrees go to A's right and B's left. */
  function RotateRL<V>(t: Tree<V>): (u: Tree<V>)
    requires t.Node? && t.right.Node? && t.right.left.Node?
    ensures InOrder(u) == InOrder(t) && Entries(u) == Entries(t)
  {
    var b := t.right;
    var c := b.left;
    var x, y := Node(t.left, t.key, t.value, c.left), Node(c.right, b.key, b.value, b.right);
    assert InOrder(Node(x, c.key, c.value, y)) == InOrder(t) by {
      assert InOrder(b) == InOrder(c.left) + [c.key] + InOrder(c.right) + [b.key] + InOrder(b.right);
      Regroup(InOrder(t.left), t.key, InOrder(c.left), c.key, InOrder(c.right), b.key, InOrder(b.right));
    }
    assert Entries(Node(x, c.key, c.value, y)) == Entries(t) by {
      assert Entries(b) == Entries(c.left) + {(c.key, c.value)} + Entries(c.right) + {(b.key, b.value)} + Entries(b.right);
    }
    Node(x, c.key, c.value, y)
  }

  /** The in-order sequence of a double rotation: the same five parts and three keys, grouped
      around a different middle key. */
  lemma Regroup(a: seq<int>, p: int, b: seq<int>, q: int, c: seq<int>, r: int, d: seq<int>)
    ensures a + [p] + (b + [q] + c) + [r] + d == a + [p] + b + [q] + (c + [r] + d)
    ensures a + [p] + (b + [q] + c + [r] + d) == a + [p] + b + [q] + (c + [r] + d)
  {
  }

  /** The step `balance` takes at one node once its subtrees are done: when one child is more
      than one level taller, rotate, choosing the double rotation when the taller child leans
      the other way. */
  function Rebalance<V>(t: Tree<V>): (u: Tree<V>)
    requires t.Node?
    ensures InOrder(u) == InOrder(t) && Entries(u) == Entries(t)
  {
    var lh, rh := Height(t.left), Height(t.right);
    if lh > rh && lh - rh > 1 then
      if Height(t.left.left) < Height(t.left.right) then RotateLR(t) else RotateLL(t)
    else if rh > lh && rh - lh > 1 then
      if Height(t.right.right) < Height(t.right.left) then RotateRL(t) else RotateRR(t)
    else t
  }

  /** `balance(root, prev)`: a post-order walk over the whole tree applying `Rebalance` at
      every node, after both of its subtrees have been balanced. */
  function Balance<V>(t: Tree<V>): (u: Tree<V>)
    ensures InOrder(u) == InOrder(t) && Entries(u) == Entries(t)
  {
    match t
    case Leaf => Leaf
    case Node(l, k, v, r) => Rebalance(Node(Balance(l), k, v, Balance(r)))
  }

  /** Balancing keeps a search tree a search tree with the same map and the same size. */
  lemma BalanceKeepsSearchTree<V>(t: Tree<V>)
    requires Bst(t)
    ensures Bst(Balance(t))
    ensures AsMap(Balance(t)) == AsMap(t)
    ensures NodeCount(Balance(t)) == NodeCount(t)
  {
    BstIffAscending(t);
    BstIffAscending(Balance(t));
    SameEntriesSameMap(t, Balance(t));
  }

  /** On a tree that already satisfies the AVL condition, `balance` rotates nowhere. */
  lemma {:induction false} BalanceOfAvl<V>(t: Tree<V>)
    requires Avl(t)
    ensures Balance(t) == t
  {
    match t
    case Leaf =>
    case Node(l, _, _, r) =>
      BalanceOfAvl(l);
      BalanceOfAvl(r);
  }

  /** A node whose left child is two levels taller than its right child, where both children
      are AVL and the left child is not evenly balanced, is rotated into an AVL subtree that
      is one level shorter. */
  lemma FixLeftHeavy<V>(t: Tree<V>)
    requires t.Node? && t.left.Node? && Avl(t.left) && Avl(t.right)
    requires Height(t.left) == Height(t.right) + 2
    requires Height(t.left.left) != Height(t.left.right)
    ensures Avl(Rebalance(t)) && Height(Rebalance(t)) == Height(t.left)
  {
    if Height(t.left.left) < Height(t.left.right) {
      assert Rebalance(t) == RotateLR(t);
      RotateLRFixes(t);
    } else {
      assert Rebalance(t) == RotateLL(t);
      RotateLLFixes(t);
    }
  }

  /** The double rotation case of `FixLeftHeavy`: the left child leans right. */
  lemma RotateLRFixes<V>(t: Tree<V>)
    requires t.Node? && t.left.Node? && Avl(t.left) && Avl(t.right)
    requires Height(t.left) == Height(t.right) + 2
    requires Height(t.left.left) < Height(t.left.right)
    ensures t.left.right.Node?
    ensures Avl(RotateLR(t)) && Height(RotateLR(t)) == Height(t.left)
  {
    var b := t.left;
    var c := b.right;
    var x := Node(b.left, b.key, b.value, c.left);
    var y := Node(c.right, t.key, t.value, t.right);
    assert RotateLR(t) == Node(x, c.key, c.value, y);
    assert Avl(c);
    assert Avl(x) && Height(x) == Height(b.left) + 1;
    assert Avl(y) && Height(y) == Height(t.right) + 1;
  }

  /** The single rotation case of `FixLeftHeavy`: the left child leans left. */
  lemma RotateLLFixes<V>(t: Tree<V>)
    requires t.Node? && t.left.Node? && Avl(t.left) && Avl(t.right)
    requires Height(t.left) == Height(t.right) + 2
    requires Height(t.left.right) < Height(t.left.left)
    ensures Avl(RotateLL(t)) && Height(RotateLL(t)) == Height(t.left)
  {
    var b := t.left;
    var y := Node(b.right, t.key, t.value, t.right);
    assert RotateLL(t) == Node(b.left, b.key, b.value, y);
    assert Avl(y) && Height(y) == Height(t.right) + 1;
  }

  /** A node whose left child is two levels taller than its right child, where both children
      are AVL and the left child is evenly balanced, takes the single right rotation and becomes
      an AVL subtree one level taller than that child. Insertion never produces this case;
      the `balance` pass handles it all the same. */
  lemma FixLeftHeavyEven<V>(t: Tree<V>)
    requires t.Node? && t.left.Node? && Avl(t.left) && Avl(t.right)
    requires Height(t.left) == Height(t.right) + 2
    requires Height(t.left.left) == Height(t.left.right)
    ensures Rebalance(t) == RotateLL(t)
    ensures Avl(Rebalance(t)) && Height(Rebalance(t)) == Height(t.left) + 1
  {
    var b := t.left;
    var y := Node(b.right, t.key, t.value, t.right);
    assert RotateLL(t) == Node(b.left, b.key, b.value, y);
    assert Avl(y) && Height(y) == Height(t.right) + 2;
  }

  /** The mirror image of `FixLeftHeavy`. */
  lemma FixRightHeavy<V>(t: Tree<V>)
    requires t.Node? && t.right.Node? && Avl(t.left) && Avl(t.right)
    requires Height(t.right) == Height(t.left) + 2
    requires Height(t.right.left) != Height(t.right.right)
    ensures Avl(Rebalance(t)) && Height(Rebalance(t)) == Height(t.right)
  {
    if Height(t.right.right) < Height(t.right.left) {
      assert Rebalance(t) == RotateRL(t);
      RotateRLFixes(t);
    } else {
      assert Rebalance(t) == RotateRR(t);
      RotateRRFixes(t);
    }
  }

  /** The double rotation case of `FixRightHeavy`: the right child leans left. */
  lemma RotateRLFixes<V>(t: Tree<V>)
    requires t.Node? && t.right.Node? && Avl(t.left) && Avl(t.right)
    requires Height(t.right) == Height(t.left) + 2
    requires Height(t.right.right) < Height(t.right.left)
    ensures t.right.left.Node?
    ensures Avl(RotateRL(t)) && Height(RotateRL(t)) == Height(t.right)
  {
    var b := t.right;
    var c := b.left;
    var x := Node(t.left, t.key, t.value, c.left);
    var y := Node(c.right, b.key, b.value, b.right);
    assert RotateRL(t) == Node(x, c.key, c.value, y);
    assert Avl(c);
    assert Avl(x) && Height(x) == Height(t.left) + 1;
    assert Avl(y) && Height(y) == Height(b.right) + 1;
  }

  /** The single rotation case of `FixRightHeavy`: the right child leans right. */
  lemma RotateRRFixes<V>(t: Tree<V>)
    requires t.Node? && t.right.Node? && Avl(t.left) && Avl(t.right)
    requires Height(t.right) == Height(t.left) + 2
    requires Height(t.right.left) < Height(t.right.right)
    ensures Avl(RotateRR(t)) && Height(RotateRR(t)) == Height(t.right)
  {
    var b := t.right;
    var x := Node(t.left, t.key, t.value, b.left);
    assert RotateRR(t) == Node(x, b.key, b.value, b.right);
    assert Avl(x) && Height(x) == Height(t.left) + 1;
  }

  /** The mirror image of `FixLeftHeavyEven`: an evenly balanced right child takes the single
      left rotation, and the result is one level taller than that child. */
  lemma FixRightHeavyEven<V>(t: Tree<V>)
    requires t.Node? && t.right.Node? && Avl(t.left) && Avl(t.right)
    requires Height(t.right) == Height(t.left) + 2
    requires Height(t.right.left) == Height(t.right.right)
    ensures Rebalance(t) == RotateRR(t)
    ensures Avl(Rebalance(t)) && Height(Rebalance(t)) == Height(t.right) + 1
  {
    var b := t.right;
    var x := Node(t.left, t.key, t.value, b.left);
    assert RotateRR(t) == Node(x, b.key, b.value, b.right);
    assert Avl(x) && Height(x) == Height(t.left) + 2;
  }
}
