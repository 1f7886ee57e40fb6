# MyAVLTree in Dafny

This project models `MyAVLTree<Key, Value>`, a C++ class template that stores a map from unique
keys to values in an AVL tree. The class owns a root pointer `mRoot` and a node count
`mSize`. Its public operations are:

- `insert`: an unbalanced descent places the new node, then a post-order `balance` pass
  applies the LL, RR, LR and RL rotations.
- `find` and `contains`, the lookups.
- `size` and `isEmpty`.
- `inOrder`, `preOrder` and `postOrder`, the three key traversals.
- a deep-copying copy constructor and assignment operator.

The model has four modules:

- `BinaryTrees` (`binary_trees.dfy`) holds the node structure as an immutable datatype
  `Tree<V>`. A `Leaf` stands for a null child pointer. The module also holds what can be read
  off a tree:
  - its abstract contents: `Keys`, `Entries` (the stored pairs) and `AsMap`;
  - `getheight`, as `Height`;
  - the search-tree and AVL invariants;
  - the private `find` descent;
  - the traversals, both as recursive definitions and as the source's accumulator helpers;
  - the logarithmic height bound of AVL trees.
- `Balancing` (`balancing.dfy`) holds the four rotations and `balance`. Each rotation keeps
  the in-order key sequence and the stored pairs. `balance` keeps a search tree's map, and it
  leaves a tree that is already AVL untouched. A node that is two levels out of balance, with
  AVL children, becomes an AVL subtree. If the taller child leans, the result is as tall as
  that child. If the taller child is evenly balanced, the single rotation is used and the
  result is one level taller than that child.
- `Insertion` (`insertion.dfy`) holds the unbalanced insert descent, the proof that one
  insertion followed by `balance` keeps the AVL condition, and the pre-order re-insertion
  used by the deep copy. That re-insertion rebuilds the source tree node for node.
- `MyAvlTree` (`my_avl_tree.dfy`) holds the class `AvlTree<V>`, with fields `root` and
  `size`:
  - its invariant `Valid()`: search-tree order, the AVL condition, and `size` equal to the
    number of nodes;
  - its abstract value `Contents()`, a `map<int, V>`;
  - every public operation, each stated against `Contents()`;
  - client methods that replay the source's `testFind` and `testOrder` drivers.

### Representation choices

- **Key type.** The key type parameter is fixed to `int`. The source only uses `<` and `==`
  on keys, which is a total order, so any totally ordered key type behaves the same. The
  value type stays generic.
- **Pointer rewiring.** In the source, a rotation rewires child pointers and re-links the
  new subtree root into its parent (`prev`) or into `mRoot`. Here each rotation is a function
  that returns the new subtree root, and the caller stores it in the parent's slot. The
  private `insert` and `balance` helpers are modelled the same way.
- **Writing through `find`.** The non-const `find` returns a reference through which a
  caller overwrites the value. This is the method `FindAndSet`: it fails as `find` does, and
  otherwise it replaces the stored value and returns the one it replaced.
- **Exceptions.** `ElementNotFoundException` is the `Failure(ElementNotFound)` case of a
  `Result`.

## Model

| member | source | states |
|---|---|---|
| BinaryTrees.Height | Proj4/MyAVLTree.hpp:357-366 | a subtree's height is 0 exactly for a null subtree, and it is greater than each child's height |
| BinaryTrees.Lookup | Proj4/MyAVLTree.hpp:189-202 | a pointer returned by the `find` descent points at a value stored in the tree under that key |
| BinaryTrees.LookupAsMap | Proj4/MyAVLTree.hpp:189-202 | in a search tree the descent finds the key exactly when the map holds it, and then it finds the map's value |
| BinaryTrees.KeyCount | Proj4/MyAVLTree.hpp:71-72 | in a search tree the number of nodes is the number of distinct keys |
| BinaryTrees.SetValue | Proj4/MyAVLTree.hpp:214-221 | writing through the reference that `find` returns keeps the keys, the node count and the height, and it keeps search-tree order and the AVL condition |
| BinaryTrees.SetValueAbsent | Proj4/MyAVLTree.hpp:214-221 | when the key is absent, the descent writes nowhere and the tree is unchanged |
| BinaryTrees.SetValueAsMap | Proj4/MyAVLTree.hpp:214-221 | that write changes the map's value at `k` when `k` is present, and otherwise leaves the map unchanged |
| BinaryTrees.InOrder | Proj4/MyAVLTree.hpp:102-105 | the in-order sequence has one element per node |
| BinaryTrees.InOrderMembers | Proj4/MyAVLTree.hpp:102-105 | the in-order sequence holds exactly the keys of the tree |
| BinaryTrees.TraversalsArePermutations | Proj4/MyAVLTree.hpp:102-107 | pre-order and post-order list the same keys as in-order, each as often |
| BinaryTrees.InOrderInto | Proj4/MyAVLTree.hpp:292-301 | the `inOrder` helper appends the in-order keys of the subtree to the vector |
| BinaryTrees.PreOrderInto | Proj4/MyAVLTree.hpp:314-323 | the corrected `preOrder` helper appends the pre-order keys of the subtree to the vector |
| BinaryTrees.PostOrderInto | Proj4/MyAVLTree.hpp:336-345 | the corrected `postOrder` helper appends the post-order keys of the subtree to the vector |
| BinaryTrees.PreOrderValuesInto | Proj4/MyAVLTree.hpp:314-323 | the `preOrder` helper as written pushes one element per node and keeps what the vector already held |
| BinaryTrees.PostOrderValuesInto | Proj4/MyAVLTree.hpp:336-345 | the `postOrder` helper as written pushes one element per node and keeps what the vector already held |
| BinaryTrees.PreOrderAsWrittenReportsValues | Proj4/MyAVLTree.hpp:320 | for any root whose key differs from its value, the helper as written returns a different vector from the key traversal |
| BinaryTrees.PostOrderAsWrittenReportsValues | Proj4/MyAVLTree.hpp:344 | likewise for the post-order helper as written |
| BinaryTrees.BstIffAscending | Proj4/MyAVLTree.hpp:102-105 | a tree is in search-tree order exactly when its in-order key sequence is strictly ascending |
| BinaryTrees.AscendingUnique | Proj4/MyAVLTree.hpp:102-105 | a strictly ascending key sequence is determined by its set of keys, so `inOrder` depends only on the keys stored |
| BinaryTrees.AvlHeightBound | Proj4/MyAVLTree.hpp:88-90 | an AVL tree of height h has at least 2^(h/2) - 1 nodes, so its height is logarithmic in its size |
| Balancing.RotateLL | Proj4/MyAVLTree.hpp:369-389 | the LL rotation keeps the in-order key sequence and the stored pairs |
| Balancing.RotateRR | Proj4/MyAVLTree.hpp:391-411 | the RR rotation keeps the in-order key sequence and the stored pairs |
| Balancing.RotateLR | Proj4/MyAVLTree.hpp:414-439 | the LR rotation keeps the in-order key sequence and the stored pairs |
| Balancing.RotateRL | Proj4/MyAVLTree.hpp:441-465 | the RL rotation keeps the in-order key sequence and the stored pairs |
| Balancing.Rebalance | Proj4/MyAVLTree.hpp:482-501 | the rotation that `balance` chooses at one node keeps the in-order key sequence and the stored pairs |
| Balancing.Balance | Proj4/MyAVLTree.hpp:467-502 | the whole post-order `balance` pass keeps the in-order key sequence and the stored pairs |
| Balancing.BalanceKeepsSearchTree | Proj4/MyAVLTree.hpp:467-502 | `balance` keeps a search tree in search-tree order, with the same map and the same node count |
| Balancing.BalanceOfAvl | Proj4/MyAVLTree.hpp:467-502 | on a tree that is already AVL, `balance` rotates nowhere |
| Balancing.FixLeftHeavy | Proj4/MyAVLTree.hpp:485-492 | a node whose left child is two levels taller, with AVL children and a left child that is not evenly balanced, becomes an AVL subtree as tall as that left child |
| Balancing.RotateLRFixes | Proj4/MyAVLTree.hpp:486-488 | when the left child leans right, the LR rotation produces that AVL subtree |
| Balancing.RotateLLFixes | Proj4/MyAVLTree.hpp:490-491 | when the left child leans left, the LL rotation produces that AVL subtree |
| Balancing.FixLeftHeavyEven | Proj4/MyAVLTree.hpp:485-492 | when the left child is two levels taller and evenly balanced, `balance` takes the LL rotation, and the result is AVL and one level taller than that child |
| Balancing.FixRightHeavy | Proj4/MyAVLTree.hpp:494-501 | the mirror image of `FixLeftHeavy` for a right child two levels taller |
| Balancing.RotateRLFixes | Proj4/MyAVLTree.hpp:495-497 | when the right child leans left, the RL rotation produces that AVL subtree |
| Balancing.RotateRRFixes | Proj4/MyAVLTree.hpp:499-500 | when the right child leans right, the RR rotation produces that AVL subtree |
| Balancing.FixRightHeavyEven | Proj4/MyAVLTree.hpp:494-501 | the mirror image of `FixLeftHeavyEven`: an evenly balanced right child two levels taller takes the RR rotation, and the result is AVL and one level taller than that child |
| Insertion.BstInsert | Proj4/MyAVLTree.hpp:254-274 | the insert helper adds exactly one node, holding the new pair, and keeps every other pair |
| Insertion.BstInsertKeepsOrder | Proj4/MyAVLTree.hpp:254-274 | inserting an absent key into a search tree keeps search-tree order |
| Insertion.BstInsertMap | Proj4/MyAVLTree.hpp:254-274 | inserting an absent key adds exactly that key, with its value, to the map |
| Insertion.InsertThenBalanceIsAvl | Proj4/MyAVLTree.hpp:249-251 | after one insertion into an AVL tree, `balance` restores the AVL condition at every node, and the height grows by at most one |
| Insertion.RebalanceAfterLeftGrowth | Proj4/MyAVLTree.hpp:482-492 | at a node whose left subtree grew by at most one level, the step `balance` takes restores the AVL condition |
| Insertion.RebalanceAfterRightGrowth | Proj4/MyAVLTree.hpp:482-501 | the mirror image, for the right subtree |
| Insertion.InsertPreOrder | Proj4/MyAVLTree.hpp:276-288 | the copy helper adds every pair of the source to the destination |
| Insertion.CopyTree | Proj4/MyAVLTree.hpp:122-124 | the nodes built by the copy constructor hold exactly the source's pairs |
| Insertion.InsertPreOrderLeft | Proj4/MyAVLTree.hpp:276-288 | re-inserting keys that are all smaller than the destination root's key changes only its left subtree |
| Insertion.InsertPreOrderRight | Proj4/MyAVLTree.hpp:276-288 | re-inserting keys that are all at least the destination root's key changes only its right subtree |
| Insertion.InsertPreOrderRebuilds | Proj4/MyAVLTree.hpp:276-288 | re-inserting a search tree's nodes in pre-order rebuilds it node for node |
| Insertion.CopyTreeIdentical | Proj4/MyAVLTree.hpp:113-126 | the deep copy of a non-empty search tree has exactly the source's shape, keys and values |
| MyAvlTree.AvlTree.constructor | Proj4/MyAVLTree.hpp:154-160 | a new tree is empty and satisfies the invariant |
| MyAvlTree.AvlTree.Copy | Proj4/MyAVLTree.hpp:113-126 | the copy satisfies the invariant and has the source's tree and size |
| MyAvlTree.AvlTree.DeleteNodes | Proj4/MyAVLTree.hpp:176-186 | releasing every node leaves an empty tree with `mSize` at 0 |
| MyAvlTree.AvlTree.Assign | Proj4/MyAVLTree.hpp:128-145 | as written, assignment copies a distinct source exactly, and it empties the tree when the source is the tree itself |
| MyAvlTree.AvlTree.AssignChecked | Proj4/MyAVLTree.hpp:128-145 | with a self-assignment check, the tree equals the source afterwards, even when the source is the tree itself |
| MyAvlTree.AvlTree.Size | Proj4/MyAVLTree.hpp:162-167 | `size()` is the number of distinct keys in the map |
| MyAvlTree.AvlTree.IsEmpty | Proj4/MyAVLTree.hpp:169-174 | `isEmpty()` holds exactly when the map is empty |
| MyAvlTree.AvlTree.Contains | Proj4/MyAVLTree.hpp:205-210 | `contains(k)` holds exactly when `k` is a key of the map |
| MyAvlTree.AvlTree.Find | Proj4/MyAVLTree.hpp:223-232 | `find(k)` yields the map's value at `k`, and `ElementNotFound` exactly when `!contains(k)` |
| MyAvlTree.AvlTree.FindAndSet | Proj4/MyAVLTree.hpp:212-221 | writing through `find(k)` fails as `find` does, and otherwise it updates the map at `k` only, keeping the invariant and the size; the new tree is the old one with the value at `k` rewritten in place, so the shape is unchanged, and a failed lookup leaves the tree exactly as it was |
| MyAvlTree.AvlTree.Insert | Proj4/MyAVLTree.hpp:234-252 | the invariant is kept; an absent key is added with its value and the size grows by one; a present key changes nothing; after an insertion the tree is exactly the unbalanced insert followed by the `balance` pass, so the shape of the result is pinned down |
| MyAvlTree.AvlTree.InOrderKeys | Proj4/MyAVLTree.hpp:303-310 | `inOrder()` lists every key of the map exactly once, in strictly ascending order |
| MyAvlTree.AvlTree.PreOrderKeys | Proj4/MyAVLTree.hpp:325-332 | `preOrder()` lists the keys node first, then the left subtree, then the right subtree; it is a permutation of `inOrder()` that starts with the root's key |
| MyAvlTree.AvlTree.PostOrderKeys | Proj4/MyAVLTree.hpp:347-354 | `postOrder()` lists the keys of the left subtree, then the right subtree, then the node; it is a permutation of `inOrder()` that ends with the root's key |
| MyAvlTree.FindSampleStart | Proj4/main.cpp:9-11 | the first two insertions of `testFind` give the map {5: "foo", 3: "sna"} |
| MyAvlTree.FindSampleThree | Proj4/main.cpp:9-12 | the first three insertions of `testFind` give the map {5: "foo", 3: "sna", 10: "bar"} |
| MyAvlTree.FindSample | Proj4/main.cpp:9-13 | the four insertions of `testFind` give the map {5, 3, 10, 12} with their strings |

The client methods `FindScenario`, `OverwriteScenario`, `OrderScenario`, `CopyScenario` and
`SelfAssignScenario` carry their claims as assertions:

- `find(12)` gives "twelve" and `find(7)` fails.
- After `find(12) = "It's me now"`, `find(12)` gives the new string.
- `inOrder()` is exactly [3, 5, 10, 12].
- A copy does not see later insertions into its source.
- Self-assignment as written empties a tree.

## Left out

- `toString` (Proj4/MyAVLTree.hpp:504-527) is not modelled. It only builds a debug string.
- The `main.cpp` drivers' console output is not modelled. The `test` driver's word counting
  uses `countWords` from `proj4.hpp`, and `proj4.hpp` is not part of this model.
- Memory management is left out: allocation, the destructor, and freeing in `deleteNode`.
  Nodes are values, so the model has no leaks, no dangling pointers and no aliasing between
  trees. `deleteNode` is kept only for its effect on `mSize`, in `DeleteNodes`.
- `size_t` is modelled as an unbounded `nat`. `mSize` cannot overflow in the model; in the
  source it would need more than 2^64 nodes.
- Node identity and in-place rewiring are not modelled. A rotation or an insertion rebuilds
  the affected path as new values. The model states what the rewired tree looks like, not
  which node objects are reused.
- `getheight` recomputes heights on every call, and the model does the same. Running time is
  not modelled.
- `Insertion.BstInsert` also accepts an empty tree. The source's helper requires a non-null
  root, and `insert` handles the empty tree before calling it (lines 243-247), which the
  class method does too.
- `MyAvlTree.AvlTree.FindAndSet` returns the value it replaced. The source returns the
  reference itself, so a caller could keep it and write later. The model covers one write
  per call.
- `t = t` is expected to leave `t` unchanged. As written, `operator=` empties it (see
  Findings). `MyAvlTree.AvlTree.Assign` follows the code, and
  `MyAvlTree.AvlTree.AssignChecked` is the safe version.

## Findings

| source | as written | input that shows it | evidently intended | confidence | as-written member | corrected member |
|---|---|---|---|---|---|---|
| Proj4/MyAVLTree.hpp:320 | the `preOrder` helper pushes `root->val` into the `std::vector<Key>` it fills | any tree whose root holds a key different from its value, with a value type convertible to the key type: key 5 with value 7 makes `preOrder()` start with 7, not 5 (with `Value = std::string` and `Key = int` it does not compile once instantiated) | push `root->key`, as the comments at lines 102-104 and 313 say | high; not executed | BinaryTrees.PreOrderValuesInto, BinaryTrees.PreOrderAsWrittenReportsValues | BinaryTrees.PreOrderInto |
| Proj4/MyAVLTree.hpp:344 | the `postOrder` helper pushes `root->val` into the `std::vector<Key>` it fills | the same tree: `postOrder()` ends with 7, not 5 | push `root->key`, as the comments at lines 102-104 and 335 say | high; not executed | BinaryTrees.PostOrderValuesInto, BinaryTrees.PostOrderAsWrittenReportsValues | BinaryTrees.PostOrderInto |
| Proj4/MyAVLTree.hpp:130-145 | `operator=` calls `deleteNode(mRoot)` first, which decrements `mSize` once per node; when `st` is `*this`, `st.isEmpty()` is then true, and the tree is left empty | `t = t` on the tree {1: 10, 2: 20} leaves `t` empty (`SelfAssignScenario`) | assigning a tree to itself leaves it unchanged | high; not executed | MyAvlTree.AvlTree.Assign | MyAvlTree.AvlTree.AssignChecked |
