/** The nodes of `MyAVLTree` as immutable values, and everything that can be read off them
    without changing them: contents, height, the find descent and the three traversals. */
module BinaryTrees {

  datatype Option<T> = None | Some(value: T)

  /** A subtree: `Leaf` stands for a null child pointer, `Node` for a `treeNode` holding a key,
      its value and two children. Keys are integers, ordered by `<`. */
  datatype Tree<V> = Leaf | Node(left: Tree<V>, key: int, value: V, right: Tree<V>)

  /** Number of nodes reachable from `t`. */
  function NodeCount<V>(t: Tree<V>): nat {
    match t
    case Leaf => 0
    case Node(l, _, _, r) => NodeCount(l) + 1 + NodeCount(r)
  }

  /** The keys stored in `t`. */
  ghost function Keys<V>(t: Tree<V>): set<int> {
    match t
    case Leaf => {}
    case Node(l, k, _, r) => Keys(l) + {k} + Keys(r)
  }

  /** The (key, value) pairs stored in the nodes of `t`. */
  ghost function Entries<V>(t: Tree<V>): set<(int, V)> {
    match t
    case Leaf => {}
    case Node(l, k, v, r) => Entries(l) + {(k, v)} + Entries(r)
  }

  /** The key-to-value map that `t` represents: every key maps to the value of its node. */
  ghost function AsMap<V>(t: Tree<V>): (m: map<int, V>)
    ensures m.Keys == Keys(t)
  {
    match t
    case Leaf => map[]
    case Node(l, k, v, r) => (AsMap(l) + AsMap(r))[k := v]
  }

  /** `getheight`: 0 for a null subtree, otherwise one more than the taller child. */
  function Height<V>(t: Tree<V>): (h: nat)
    ensures h == 0 <==> t.Leaf?
    ensures t.Node? ==> Height(t.left) < h && Height(t.right) < h
  {
    match t
    case Leaf => 0
    case Node(l, _, _, r) =>
      var hl, hr := Height(l), Height(r);
      (if hl < hr then hr else hl) + 1
  }

  /** Binary-search-tree order: smaller keys to the left, larger keys to the right. */
  ghost predicate Bst<V>(t: Tree<V>) {
    match t
    case Leaf => true
    case Node(l, k, _, r) =>
      Bst(l) && Bst(r) &&
      (forall x | x in Keys(l) :: x < k) &&
      (forall x | x in Keys(r) :: k < x)
  }

  /** The AVL condition: at every node the two child heights differ by at most 1. */
  ghost predicate Avl<V>(t: Tree<V>) {
    match t
    case Leaf => true
    case Node(l, _, _, r) =>
      Avl(l) && Avl(r) && Height(l) <= Height(r) + 1 && Height(r) <= Height(l) + 1
  }

  /** The private `find(root, k)` helper: descend left on a smaller key, right otherwise,
      stop at the node holding `k` (a pointer to its value) or at a null child (`None`). */
  function Lookup<V>(t: Tree<V>, k: int): (found: Option<V>)
    ensures found.Some? ==> (k, found.value) in Entries(t)
  {
    match t
    case Leaf => None
    case Node(l, key, v, r) =>
      if key == k then Some(v)
      else if k < key then Lookup(l, k)
      else Lookup(r, k)
  }

  /** In a search tree the descent finds exactly what the map holds. */
  lemma {:induction false} LookupAsMap<V>(t: Tree<V>, k: int)
    requires Bst(t)
    ensures Lookup(t, k) == if k in AsMap(t) then Some(AsMap(t)[k]) else None
  {
    match t
    case Leaf =>
    case Node(l, key, v, r) =>
      if k < key {
        LookupAsMap(l, k);
        assert k !in Keys(r);
      } else if key < k {
        LookupAsMap(r, k);
        assert k !in Keys(l);
      }
  }

  /** In a search tree a stored pair is exactly an entry of the map. */
  lemma {:induction false} EntriesAsMap<V>(t: Tree<V>, k: int, v: V)
    requires Bst(t)
    ensures (k, v) in Entries(t) <==> k in AsMap(t) && AsMap(t)[k] == v
  {
    match t
    case Leaf =>
    case Node(l, key, value, r) =>
      EntriesAsMap(l, k, v);
      EntriesAsMap(r, k, v);
      if k < key {
        assert k !in Keys(r);
      } else if key < k {
        assert k !in Keys(l);
      } else {
        assert k !in Keys(l) && k !in Keys(r);
      }
  }

  /** Two search trees that store the same pairs represent the same map. */
  lemma SameEntriesSameMap<V>(t1: Tree<V>, t2: Tree<V>)
    requires Bst(t1) && Bst(t2) && Entries(t1) == Entries(t2)
    ensures AsMap(t1) == AsMap(t2)
  {
    forall k | k in AsMap(t1)
      ensures k in AsMap(t2) && AsMap(t2)[k] == AsMap(t1)[k]
    {
      EntriesAsMap(t1, k, AsMap(t1)[k]);
      EntriesAsMap(t2, k, AsMap(t1)[k]);
    }
    forall k | k in AsMap(t2)
      ensures k in AsMap(t1)
    {
      EntriesAsMap(t2, k, AsMap(t2)[k]);
      EntriesAsMap(t1, k, AsMap(t2)[k]);
    }
  }

  /** In a search tree every node holds a distinct key, so the node count is the key count. */
  lemma {:induction false} KeyCount<V>(t: Tree<V>)
    requires Bst(t)
    ensures |Keys(t)| == NodeCount(t)
  {
    match t
    case Leaf =>
    case Node(l, k, _, r) =>
      KeyCount(l);
      KeyCount(r);
      forall x | x in Keys(r) ensures x !in Keys(l) + {k} {
        assert k < x;
      }
      assert (Keys(l) + {k}) * Keys(r) == {};
      assert k !in Keys(l);
  }

  /** The write through the reference that the non-const `find` returns: the same descent as
      `Lookup`, replacing the value of the node that holds `k`. Keys and shape stay as they were. */
  function SetValue<V>(t: Tree<V>, k: int, v: V): (u: Tree<V>)
    ensures Keys(u) == Keys(t) && NodeCount(u) == NodeCount(t) && Height(u) == Height(t)
    ensures Bst(t) ==> Bst(u)
    ensures Avl(t) ==> Avl(u)
  {
    match t
    case Leaf => Leaf
    case Node(l, key, value, r) =>
      if key == k then Node(l, key, v, r)
      else if k < key then Node(SetValue(l, k, v), key, value, r)
      else Node(l, key, value, SetValue(r, k, v))
  }

  /** Writing through `find(k)` changes the value stored at `k`, if any, and nothing else. */
  lemma {:induction false} SetValueAsMap<V>(t: Tree<V>, k: int, v: V)
    requires Bst(t)
    ensures AsMap(SetValue(t, k, v)) == if k in AsMap(t) then AsMap(t)[k := v] else AsMap(t)
  {
    match t
    case Leaf =>
    case Node(l, key, value, r) =>
      if k == key {
        assert (AsMap(l) + AsMap(r))[key := v] == ((AsMap(l) + AsMap(r))[key := value])[k := v];
      } else if k < key {
        SetValueAsMap(l, k, v);
        SetValueLeftStep(l, key, value, r, k, v);
      } else {
        SetValueAsMap(r, k, v);
        SetValueRightStep(l, key, value, r, k, v);
      }
  }

  /** The descent for a key the tree does not hold writes nowhere: the tree is unchanged. */
  lemma {:induction false} SetValueAbsent<V>(t: Tree<V>, k: int, v: V)
    requires k !in Keys(t)
    ensures SetValue(t, k, v) == t
  {
    match t
    case Leaf =>
    case Node(l, key, value, r) =>
      if k < key {
        SetValueAbsent(l, k, v);
      } else if key < k {
        SetValueAbsent(r, k, v);
      }
  }

  /** The step of `SetValueAsMap` for a key that lies in the left subtree's range. */
  lemma SetValueLeftStep<V>(l: Tree<V>, key: int, value: V, r: Tree<V>, k: int, v: V)
    requires k < key && forall x | x in Keys(r) :: key < x
    requires AsMap(SetValue(l, k, v)) == if k in AsMap(l) then AsMap(l)[k := v] else AsMap(l)
    ensures var t := Node(l, key, value, r);
      AsMap(SetValue(t, k, v)) == if k in AsMap(t) then AsMap(t)[k := v] else AsMap(t)
  {
    var t, l' := Node(l, key, value, r), SetValue(l, k, v);
    assert AsMap(SetValue(t, k, v)) == (AsMap(l') + AsMap(r))[key := value];
    assert k !in AsMap(r);
    if k in AsMap(l) {
      UpdateInLeftOperand(AsMap(l), AsMap(l'), AsMap(r), key, value, k, v);
    } else {
      assert k !in AsMap(t);
    }
  }

  /** The step of `SetValueAsMap` for a key that lies in the right subtree's range. */
  lemma SetValueRightStep<V>(l: Tree<V>, key: int, value: V, r: Tree<V>, k: int, v: V)
    requires key < k && forall x | x in Keys(l) :: x < key
    requires AsMap(SetValue(r, k, v)) == if k in AsMap(r) then AsMap(r)[k := v] else AsMap(r)
    ensures var t := Node(l, key, value, r);
      AsMap(SetValue(t, k, v)) == if k in AsMap(t) then AsMap(t)[k := v] else AsMap(t)
  {
    var t, r' := Node(l, key, value, r), SetValue(r, k, v);
    assert AsMap(SetValue(t, k, v)) == (AsMap(l) + AsMap(r'))[key := value];
    assert k !in AsMap(l);
    if k in AsMap(r) {
      UpdateInRightOperand(AsMap(l), AsMap(r), AsMap(r'), key, value, k, v);
    } else {
      assert k !in AsMap(t);
    }
  }

  /** Updating a key of the left operand of a merge that neither the right operand nor the
      outer update holds. */
  lemma UpdateInLeftOperand<K, V>(a: map<K, V>, a': map<K, V>, b: map<K, V>, key: K, value: V, k: K, v: V)
    requires k !in b && k != key && a' == a[k := v]
    ensures (a' + b)[key := value] == ((a + b)[key := value])[k := v]
  {
  }

  /** Updating a key of the right operand of a merge that the outer update does not hold. */
  lemma UpdateInRightOperand<K, V>(a: map<K, V>, b: map<K, V>, b': map<K, V>, key: K, value: V, k: K, v: V)
    requires k != key && b' == b[k := v]
    ensures (a + b')[key := value] == ((a + b)[key := value])[k := v]
  {
  }

  // ---------------------------------------------------------------------------------------
  // Traversals. The specification functions build the sequence directly; the `...Into`
  // functions are the source's helpers, which push onto an accumulator vector.

  /** Keys left subtree first, then the node, then the right subtree. */
  function InOrder<V>(t: Tree<V>): (s: seq<int>)
    ensures |s| == NodeCount(t)
  {
    match t
    case Leaf => []
    case Node(l, k, _, r) => InOrder(l) + [k] + InOrder(r)
  }

  /** The in-order sequence holds exactly the keys of the tree. */
  lemma {:induction false} InOrderMembers<V>(t: Tree<V>)
    ensures forall x :: x in InOrder(t) <==> x in Keys(t)
  {
    match t
    case Leaf =>
    case Node(l, _, _, r) =>
      InOrderMembers(l);
      InOrderMembers(r);
  }

  /** Keys node first, then the left and the right subtree. */
  function PreOrder<V>(t: Tree<V>): seq<int> {
    match t
    case Leaf => []
    case Node(l, k, _, r) => [k] + PreOrder(l) + PreOrder(r)
  }

  /** Keys left and right subtree first, then the node. */
  function PostOrder<V>(t: Tree<V>): seq<int> {
    match t
    case Leaf => []
    case Node(l, k, _, r) => PostOrder(l) + PostOrder(r) + [k]
  }

  /** Pre-order and post-order visit the same keys as in-order, each as often. */
  lemma {:induction false} TraversalsArePermutations<V>(t: Tree<V>)
    ensures multiset(PreOrder(t)) == multiset(InOrder(t))
    ensures multiset(PostOrder(t)) == multiset(InOrder(t))
  {
    match t
    case Leaf =>
    case Node(l, k, _, r) =>
      TraversalsArePermutations(l);
      TraversalsArePermutations(r);
  }

  /** The `inOrder(root, ans)` helper: appends the in-order keys of `t` to `acc`. */
  function InOrderInto<V>(t: Tree<V>, acc: seq<int>): (s: seq<int>)
    ensures s == acc + InOrder(t)
  {
    match t
    case Leaf => acc
    case Node(l, k, _, r) => InOrderInto(r, InOrderInto(l, acc) + [k])
  }

  /** The `preOrder(root, ans)` helper as its contract describes it: pushes keys. */
  function PreOrderInto<V>(t: Tree<V>, acc: seq<int>): (s: seq<int>)
    ensures s == acc + PreOrder(t)
  {
    match t
    case Leaf => acc
    case Node(l, k, _, r) =>
      var s1 := PreOrderInto(l, acc + [k]);
      assert s1 + PreOrder(r) == acc + PreOrder(t);
      PreOrderInto(r, s1)
  }

  /** The `postOrder(root, ans)` helper as its contract describes it: pushes keys. */
  function PostOrderInto<V>(t: Tree<V>, acc: seq<int>): (s: seq<int>)
    ensures s == acc + PostOrder(t)
  {
    match t
    case Leaf => acc
    case Node(l, k, _, r) =>
      var s1 := PostOrderInto(l, acc);
      assert s1 + PostOrder(r) + [k] == acc + PostOrder(t);
      PostOrderInto(r, s1) + [k]
  }

  /** The `preOrder(root, ans)` helper as written: it pushes each node's value, not its key. */
  function PreOrderValuesInto<V>(t: Tree<V>, acc: seq<V>): (s: seq<V>)
    ensures |s| == |acc| + NodeCount(t) && s[..|acc|] == acc
  {
    match t
    case Leaf => acc
    case Node(l, _, v, r) => PreOrderValuesInto(r, PreOrderValuesInto(l, acc + [v]))
  }

  /** The `postOrder(root, ans)` helper as written: it pushes each node's value, not its key. */
  function PostOrderValuesInto<V>(t: Tree<V>, acc: seq<V>): (s: seq<V>)
    ensures |s| == |acc| + NodeCount(t) && s[..|acc|] == acc
  {
    match t
    case Leaf => acc
    case Node(l, _, v, r) => PostOrderValuesInto(r, PostOrderValuesInto(l, acc)) + [v]
  }

  /** When keys and values share a type, the pre-order helper as written starts with the root's
      value where the key traversal starts with the root's key. */
  lemma PreOrderAsWrittenReportsValues(t: Tree<int>)
    requires t.Node? && t.key != t.value
    ensures PreOrderValuesInto(t, []) != PreOrderInto(t, [])
  {
    var inner := PreOrderValuesInto(t.left, [t.value]);
    assert inner[..1] == [t.value];
    var s := PreOrderValuesInto(t.right, inner);
    assert s[..|inner|] == inner;
    assert s[0] == t.value;
    assert PreOrderInto(t, [])[0] == t.key;
  }

  /** Likewise the post-order helper as written ends with the root's value, not its key. */
  lemma PostOrderAsWrittenReportsValues(t: Tree<int>)
    requires t.Node? && t.key != t.value
    ensures PostOrderValuesInto(t, []) != PostOrderInto(t, [])
  {
    var s := PostOrderValuesInto(t, []);
    assert s[|s| - 1] == t.value;
    var p := PostOrderInto(t, []);
    assert p == PostOrder(t);
    assert p[|p| - 1] == t.key;
  }

  // ---------------------------------------------------------------------------------------
  // Sortedness of the in-order sequence.

  predicate StrictlyAscending(s: seq<int>) {
    forall i, j | 0 <= i < j < |s| :: s[i] < s[j]
  }

  /** A sequence with one element in the middle is strictly ascending exactly when both sides
      are and the middle element separates them. */
  lemma AscendingAround(a: seq<int>, k: int, b: seq<int>)
    ensures StrictlyAscending(a + [k] + b) <==>
      StrictlyAscending(a) && StrictlyAscending(b) &&
      (forall x | x in a :: x < k) && (forall x | x in b :: k < x)
  {
    if StrictlyAscending(a + [k] + b) {
      AscendingSplits(a, k, b);
    }
    if StrictlyAscending(a) && StrictlyAscending(b) &&
       (forall x | x in a :: x < k) && (forall x | x in b :: k < x) {
      AscendingJoins(a, k, b);
    }
  }

  /** The parts of an ascending sequence around one element. */
  lemma AscendingSplits(a: seq<int>, k: int, b: seq<int>)
    requires StrictlyAscending(a + [k] + b)
    ensures StrictlyAscending(a) && StrictlyAscending(b)
    ensures (forall x | x in a :: x < k) && (forall x | x in b :: k < x)
  {
    var s := a + [k] + b;
    assert s[|a|] == k;
    forall i, j | 0 <= i < j < |a| ensures a[i] < a[j] {
      assert s[i] == a[i] && s[j] == a[j];
    }
    forall x | x in a ensures x < k {
      var i :| 0 <= i < |a| && a[i] == x;
      assert s[i] == x;
    }
    forall x | x in b ensures k < x {
      var i :| 0 <= i < |b| && b[i] == x;
      assert s[|a| + 1 + i] == x;
    }
    forall i, j | 0 <= i < j < |b| ensures b[i] < b[j] {
      assert s[|a| + 1 + i] == b[i] && s[|a| + 1 + j] == b[j];
    }
  }

  /** Two ascending sequences separated by one element join into an ascending sequence. */
  lemma AscendingJoins(a: seq<int>, k: int, b: seq<int>)
    requires StrictlyAscending(a) && StrictlyAscending(b)
    requires (forall x | x in a :: x < k) && (forall x | x in b :: k < x)
    ensures StrictlyAscending(a + [k] + b)
  {
    var s := a + [k] + b;
    forall i, j | 0 <= i < j < |s| ensures s[i] < s[j] {
      if j < |a| {
        assert s[i] == a[i] && s[j] == a[j];
      } else if j == |a| {
        assert s[i] == a[i] && a[i] in a;
      } else if i < |a| {
        assert s[i] == a[i] && a[i] in a;
        assert s[j] == b[j - |a| - 1] && b[j - |a| - 1] in b;
      } else if i == |a| {
        assert s[j] == b[j - |a| - 1] && b[j - |a| - 1] in b;
      } else {
        assert s[i] == b[i - |a| - 1] && s[j] == b[j - |a| - 1];
      }
    }
  }

  /** A strictly ascending sequence is determined by its members. */
  lemma {:induction false} AscendingUnique(a: seq<int>, b: seq<int>)
    requires StrictlyAscending(a) && StrictlyAscending(b)
    requires forall x :: x in a <==> x in b
    ensures a == b
    decreases |a|
  {
    if a == [] {
      assert forall i | 0 <= i < |b| :: b[i] in b;
    } else {
      assert a[0] in a && a[0] in b;
      assert b[0] in b && b[0] in a;
      AscendingHead(a);
      AscendingHead(b);
      AscendingUnique(a[1..], b[1..]);
      assert a == [a[0]] + a[1..];
      assert b == [b[0]] + b[1..];
    }
  }

  /** The first element of a non-empty strictly ascending sequence is below all the others,
      which make up the rest of the sequence. */
  lemma AscendingHead(a: seq<int>)
    requires StrictlyAscending(a) && a != []
    ensures StrictlyAscending(a[1..])
    ensures forall x | x in a :: a[0] <= x
    ensures forall x :: x in a[1..] <==> x in a && x != a[0]
  {
    forall x | x in a ensures a[0] <= x {
      var i :| 0 <= i < |a| && a[i] == x;
      assert i == 0 || a[0] < a[i];
    }
    forall x | x in a && x != a[0] ensures x in a[1..] {
      var i :| 0 <= i < |a| && a[i] == x;
      assert a[1..][i - 1] == x;
    }
    forall x | x in a[1..] ensures x in a && x != a[0] {
      var i :| 0 <= i < |a| - 1 && a[1..][i] == x;
      assert a[i + 1] == x && a[0] < a[i + 1];
    }
    forall i, j | 0 <= i < j < |a| - 1 ensures a[1..][i] < a[1..][j] {
      assert a[i + 1] < a[j + 1];
    }
  }

  /** Search-tree order holds exactly when the in-order key sequence is strictly ascending. */
  lemma {:induction false} BstIffAscending<V>(t: Tree<V>)
    ensures Bst(t) <==> StrictlyAscending(InOrder(t))
  {
    match t
    case Leaf =>
    case Node(l, k, _, r) =>
      BstIffAscending(l);
      BstIffAscending(r);
      InOrderMembers(l);
      InOrderMembers(r);
      AscendingAround(InOrder(l), k, InOrder(r));
  }

  // ---------------------------------------------------------------------------------------
  // The height of an AVL tree is logarithmic in its size.

  function Pow2(n: nat): (p: nat)
    ensures p >= 1
  {
    if n == 0 then 1 else 2 * Pow2(n - 1)
  }

  lemma {:induction false} Pow2Monotone(a: nat, b: nat)
    requires a <= b
    ensures Pow2(a) <= Pow2(b)
  {
    if a < b {
      Pow2Monotone(a, b - 1);
    }
  }

  /** An AVL tree of height h has at least 2^(h/2) - 1 nodes. */
  lemma {:induction false} AvlHeightBound<V>(t: Tree<V>)
    requires Avl(t)
    ensures Pow2(Height(t) / 2) <= NodeCount(t) + 1
  {
    match t
    case Leaf =>
    case Node(l, _, _, r) =>
      AvlHeightBound(l);
      AvlHeightBound(r);
      if Height(t) >= 2 {
        Pow2Split(Height(t), Height(l), Height(r));
      }
  }

  /** The arithmetic step of `AvlHeightBound`: two subtrees of height at least h - 2. */
  lemma Pow2Split(h: nat, hl: nat, hr: nat)
    requires h >= 2 && hl >= h - 2 && hr >= h - 2
    ensures Pow2(h / 2) <= Pow2(hl / 2) + Pow2(hr / 2)
  {
    var q := (h - 2) / 2;
    Pow2Monotone(q, hl / 2);
    Pow2Monotone(q, hr / 2);
    assert h / 2 == q + 1;
  }

}
