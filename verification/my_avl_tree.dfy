/** The `MyAVLTree<Key, Value>` class: a map from unique keys to values kept in an AVL tree.
    Its state is the root (`mRoot`) and the node count (`mSize`); the public operations update
    both in place. */
module MyAvlTree {
  import opened BinaryTrees
  import opened Balancing
  import opened Insertion

  /** `ElementNotFoundException`, the one error the tree reports. */
  datatype Error = ElementNotFound

  datatype Result<T> = Success(value: T) | Failure(error: Error)

  class AvlTree<V> {
    var root: Tree<V>
    var size: nat

    /** The invariants of the tree: search-tree order (which also makes keys unique), the AVL
        condition, and `mSize` equal to the number of nodes. */
    ghost predicate Valid()
      reads this
    {
      Bst(root) && Avl(root) && size == NodeCount(root)
    }

    /** The map the tree stores. */
    ghost function Contents(): map<int, V>
      reads this
    {
      AsMap(root)
    }

    /** The default constructor: an empty tree. */
    constructor ()
      ensures Valid() && Contents() == map[] && size == 0
    {
      root := Leaf;
      size := 0;
    }

    /** The copy constructor: a deep copy built by re-inserting the source's nodes in pre-order
        under a fresh root. The copy has the source's exact shape; nodes are values, so no later
        change to either tree reaches the other. */
    constructor Copy(other: AvlTree<V>)
      requires other.Valid()
      ensures Valid() && root == other.root && size == other.size
    {
      if other.IsEmpty() {
        size := 0;
        root := Leaf;
      } else {
        CopyTreeIdentical(other.root);
        root := CopyTree(other.root);
        size := other.Size();
      }
    }

    /** The `deleteNode(mRoot)` call that starts the assignment operator: every node is
        released and `mSize` is decremented once per node. `deleteNode` itself leaves `mRoot`
        pointing at the released node; the operator overwrites `mRoot` on both of its paths
        before anything reads it, so the model clears `root` here and the dangling pointer
        never shows in its state. */
    method DeleteNodes()
      requires Valid()
      modifies this
      ensures Valid() && root == Leaf && size == 0
    {
      size := size - NodeCount(root);
      root := Leaf;
    }

    /** The assignment operator as written: this tree's nodes are released first, then the
        source is deep-copied as in the copy constructor. When the source is this very tree,
        the release has already emptied it, so the copy finds an empty source. */
    method Assign(other: AvlTree<V>)
      requires Valid() && other.Valid()
      modifies this
      ensures Valid()
      ensures other != this ==> root == old(other.root) && size == old(other.size)
      ensures other == this ==> root == Leaf && size == 0
    {
      DeleteNodes();
      if other.IsEmpty() {
        size := 0;
        root := Leaf;
        return;
      }
      CopyTreeIdentical(other.root);
      root := CopyTree(other.root);
      size := other.Size();
    }

    /** The assignment operator with the self-assignment check it evidently needs: assigning
        a tree to itself leaves it as it was, and any other source is copied exactly. */
    method AssignChecked(other: AvlTree<V>)
      requires Valid() && other.Valid()
      modifies this
      ensures Valid()
      ensures root == old(other.root) && size == old(other.size)
    {
      if other == this {
        return;
      }
      Assign(other);
    }

    /** `size()`: the number of distinct keys. */
    function Size(): (n: nat)
      reads this
      requires Valid()
      ensures n == |Contents().Keys|
    {
      KeyCount(root);
      size
    }

    /** `isEmpty()`: true exactly when the tree holds no pair. */
    function IsEmpty(): (b: bool)
      reads this
      requires Valid()
      ensures b <==> Contents() == map[]
    {
      assert root.Node? ==> root.key in Contents();
      size == 0
    }

    /** `contains(k)`: whether the find descent reaches a node holding `k`. */
    function Contains(k: int): (b: bool)
      reads this
      requires Valid()
      ensures b <==> k in Contents()
    {
      LookupAsMap(root, k);
      Lookup(root, k) != None
    }

    /** `find(k)` (both overloads, read access): the value stored under `k`, or
        `ElementNotFound` when `!contains(k)`. */
    function Find(k: int): (r: Result<V>)
      reads this
      requires Valid()
      ensures r == if k in Contents() then Success(Contents()[k]) else Failure(ElementNotFound)
    {
      if !Contains(k) then Failure(ElementNotFound)
      else
        LookupAsMap(root, k);
        Success(Lookup(root, k).value)
    }

    /** `find(k) = v` through the non-const overload: fails as `find` does when `k` is absent,
        and otherwise overwrites the value stored under `k`, returning the value it replaced. */
    method FindAndSet(k: int, v: V) returns (r: Result<V>)
      requires Valid()
      modifies this
      ensures Valid() && size == old(size)
      ensures r == old(Find(k))
      ensures Contents() == if k in old(Contents()) then old(Contents())[k := v] else old(Contents())
      ensures root == SetValue(old(root), k, v)
      ensures r.Failure? ==> root == old(root)
    {
      r := Find(k);
      if r.Success? {
        SetValueAsMap(root, k, v);
        root := SetValue(root, k, v);
      } else {
        SetValueAbsent(root, k, v);
      }
    }

    /** `insert(k, v)`: nothing happens when `k` is present; otherwise the pair is added with the
        unbalanced descent, the count goes up by one, and the `balance` pass restores the AVL
        condition. */
    method Insert(k: int, v: V)
      requires Valid()
      modifies this
      ensures Valid()
      ensures k in old(Contents()) ==> root == old(root) && size == old(size)
      ensures k !in old(Contents()) ==>
        Contents() == old(Contents())[k := v] && size == old(size) + 1
      ensures k !in old(Contents()) ==> root == Balance(BstInsert(old(root), k, v))
    {
      if Contains(k) {
        return;
      }
      if IsEmpty() {
        root := Node(Leaf, k, v, Leaf);
        size := size + 1;
        return;
      }
      BstInsertKeepsOrder(root, k, v);
      BstInsertMap(root, k, v);
      InsertThenBalanceIsAvl(root, k, v);
      BalanceKeepsSearchTree(BstInsert(root, k, v));
      root := BstInsert(root, k, v);
      size := size + 1;
      root := Balance(root);
    }

    /** `inOrder()`: every key once, in strictly ascending order. */
    function InOrderKeys(): (s: seq<int>)
      reads this
      requires Valid()
      ensures |s| == Size() && StrictlyAscending(s)
      ensures forall x :: x in s <==> x in Contents()
    {
      BstIffAscending(root);
      InOrderMembers(root);
      InOrderInto(root, [])
    }

    /** `preOrder()`: the root's key first, and a permutation of the in-order keys. */
    function PreOrderKeys(): (s: seq<int>)
      reads this
      requires Valid()
      ensures s == PreOrder(root)
      ensures multiset(s) == multiset(InOrderKeys())
      ensures root.Node? ==> s[0] == root.key
    {
      TraversalsArePermutations(root);
      PreOrderInto(root, [])
    }

    /** `postOrder()`: the root's key last, and a permutation of the in-order keys. */
    function PostOrderKeys(): (s: seq<int>)
      reads this
      requires Valid()
      ensures s == PostOrder(root)
      ensures multiset(s) == multiset(InOrderKeys())
      ensures root.Node? ==> |s| > 0 && s[|s| - 1] == root.key
    {
      TraversalsArePermutations(root);
      var s := PostOrderInto(root, []);
      assert root.Node? ==> s == PostOrder(root.left) + PostOrder(root.right) + [root.key];
      s
    }
  }

  /** The first two insertions of the source's `testFind` driver. */
  method FindSampleStart() returns (tree: AvlTree<string>)
    ensures fresh(tree) && tree.Valid()
    ensures tree.Contents() == map[5 := "foo", 3 := "sna"]
  {
    tree := new AvlTree<string>();
    tree.Insert(5, "foo");
    tree.Insert(3, "sna");
  }

  /** The first three insertions of the source's `testFind` driver. */
  method FindSampleThree() returns (tree: AvlTree<string>)
    ensures fresh(tree) && tree.Valid()
    ensures tree.Contents() == map[5 := "foo", 3 := "sna", 10 := "bar"]
  {
    tree := FindSampleStart();
    tree.Insert(10, "bar");
  }

  /** All four insertions of the source's `testFind` driver. */
  method FindSample() returns (tree: AvlTree<string>)
    ensures fresh(tree) && tree.Valid()
    ensures tree.Contents() == map[5 := "foo", 3 := "sna", 10 := "bar", 12 := "twelve"]
  {
    tree := FindSampleThree();
    tree.Insert(12, "twelve");
  }

  /** The lookups of the `testFind` driver, and one of an absent key. */
  method FindScenario() {
    var tree := FindSample();
    assert tree.Find(12) == Success("twelve");
    assert tree.Find(7) == Failure(ElementNotFound);
  }

  /** The overwrite through `find` of the `testFind` driver. */
  method OverwriteScenario() {
    var tree := FindSample();
    var old12 := tree.FindAndSet(12, "It's me now");
    assert old12 == Success("twelve");
    assert tree.Find(12) == Success("It's me now");
  }

  /** The `testOrder` driver: after the same four insertions, `inOrder()` lists the keys in
      ascending order. */
  method OrderScenario() {
    var tree := FindSample();
    var keys := tree.InOrderKeys();
    assert forall x :: x in keys <==> x in [3, 5, 10, 12];
    SampleKeysAscending();
    AscendingUnique(keys, [3, 5, 10, 12]);
    assert keys == [3, 5, 10, 12];
  }

  /** The keys of the `testOrder` driver, in the order it expects them. */
  lemma SampleKeysAscending()
    ensures StrictlyAscending([3, 5, 10, 12])
  {
    var s := [3, 5, 10, 12];
    forall i, j | 0 <= i < j < |s| ensures s[i] < s[j] {
      assert s[i] <= s[j - 1];
    }
  }

  /** Assigning a non-empty tree to itself with the operator as written empties it; the
      checked operator keeps it. */
  method SelfAssignScenario() {
    var a := CopySample();
    a.Assign(a);
    assert a.Contents() == map[];
    var b := CopySample();
    b.AssignChecked(b);
    assert b.Contents() == map[1 := 10, 2 := 20];
  }

  /** A source tree for `CopyScenario`. */
  method CopySample() returns (tree: AvlTree<int>)
    ensures fresh(tree) && tree.Valid()
    ensures tree.Contents() == map[1 := 10, 2 := 20]
  {
    tree := new AvlTree<int>();
    tree.Insert(1, 10);
    tree.Insert(2, 20);
  }

  /** Copies are independent of their source: inserting into the source afterwards leaves
      the copy's contents as they were. */
  method CopyScenario() {
    var a := CopySample();
    var b := new AvlTree<int>.Copy(a);
    a.Insert(3, 30);
    assert b.Contents() == map[1 := 10, 2 := 20];
    assert a.Contains(3) && !b.Contains(3);
  }
}
