# B+ tree insertion and lookup, modelled in Dafny

This project models the generic in-memory B+ tree of `BPlusTree.h`. The tree
has order 4: a node holds at most `MAX_KEYS = 3` keys, and internal nodes have
one child more than they have keys. Every key-value pair lives in a leaf. The
leaves are linked left to right. Internal nodes hold separator keys only. The
public operations are `insert`, `search` and `empty`, and the only way a
tree grows is by inserting:

- a leaf that overflows is split at `(size+1)/2`, and the right leaf's first
  key is copied into the parent;
- an internal node that overflows is split at `size/2`, and the middle key
  moves up;
- a root that splits is replaced by a new root with one key over the two
  halves.

## How the model is built

- **The tree is a value, not a pointer structure.** `Nodes.Node` is
  `Leaf(keys, values)` or `Internal(keys, children)`. `BPlusTree.Tree` holds
  an optional root.
- **Parent pointers are the recursion.** `Insertion.InsertNode` inserts below
  a node. It returns either `Fit(node)`, the updated node, or
  `Split(left, sep, right)`, which the caller absorbs as `insertIntoParent`
  does.
- **The `next` chain is a view.** `Nodes.Leaves` lists the leaves in order,
  left to right.
- **What an insert does to the chain.** `ChainSplice` splits `Nodes.Leaves`
  around the leaf `findLeaf` reaches (`LeavesBefore`, the leaf,
  `LeavesAfter`) and proves that an insert replaces just that leaf by the
  updated leaf, or by the split leaf followed by the new leaf.
- **The tree's map is also a view.** `Nodes.Contents` is the union of the
  leaf maps along that chain.
- **What "well formed" means.** `Nodes.Inv` says that:
  - keys are strictly sorted;
  - every node holds at least one key;
  - every key of child `j` lies in slot `j` of its parent's separators;
  - children hold at most `MAX_KEYS` keys.

  `Nodes.Wf` adds the root's own bound and equal leaf depth.
- **`std::lower_bound`** is `SortedSeq.LowerBound`, a definition by
  recursion. `SortedSeq.BinaryLowerBound` is the binary search, proved to
  agree with it on sorted input.
- **The descent of `findLeaf`** is `Nodes.Route`: the number of separators
  less than or equal to the key.

Keys are mathematical integers. The source stores `int` ids, and the model's
only key operations are comparisons, so width does not matter. Values are a
type parameter `V`.

## Model

| member | source | states |
|---|---|---|
| Nodes.Route | BPlusTree.h:82-85 | the child index lies in [0, number of keys]; every separator before it is at most the key; the separator at it, if any, is greater than the key, so a key equal to a separator goes right |
| Nodes.RouteUnique | BPlusTree.h:82-85 | the index the scan stops at is the only index with the two routing facts |
| Lookup.FindLeaf | BPlusTree.h:74-89 | the descent ends at a leaf, and that leaf is well formed when the node is |
| Lookup.FindLeafCorrect | BPlusTree.h:74-89 | the key is present in the leaf `findLeaf` reaches exactly as in the whole subtree, with the same value |
| Lookup.RouteContents | BPlusTree.h:82-86 | under the invariant, the routed child holds the parent's entry for the key and no other child holds one |
| Lookup.FindLeafLoop | BPlusTree.h:74-89 | the source's nested loops reach the same leaf as the recursive descent |
| ChainSplice.LeavesAroundRoute | BPlusTree.h:74-89 | the leaf the descent reaches sits in the leaf chain exactly between the leaves left of its route and the leaves right of it |
| Lookup.SearchLeafCorrect | BPlusTree.h:224-230 | the lower-bound lookup in a sorted leaf returns the leaf's value for the key, and nothing when the key is absent |
| Lookup.SearchNodeCorrect | BPlusTree.h:220-231 | searching below a valid node returns exactly the node's map at the key |
| Lookup.SearchLeaf | BPlusTree.h:224-230 | a found value is the value stored at the key's own position in the leaf; in a sorted leaf a value is found exactly when the key is present (partner: Lookup.SearchLeafCorrect) |
| Lookup.SearchNode | BPlusTree.h:220-231 | a found value's key is in the leaf `findLeaf` reaches (partner: Lookup.SearchNodeCorrect) |
| SortedSeq.InsertAt | BPlusTree.h:104-105 | inserting at position i gives one more element, with the new one at i, the prefix unchanged and the suffix shifted by one |
| SortedSeq.LowerBound | BPlusTree.h:94-95 | the position lies in [0, length]; everything before it is smaller than the key; the element at it, if any, is not smaller |
| SortedSeq.LowerBoundFinds | BPlusTree.h:94-98 | in a strictly sorted sequence the key is present exactly when it sits at its lower bound |
| SortedSeq.InsertAtLowerBoundSorted | BPlusTree.h:104 | inserting a missing key at its lower bound keeps the keys strictly sorted and adds exactly that key |
| SortedSeq.BinaryLowerBound | BPlusTree.h:94 | binary search on a sorted sequence returns the lower bound |
| Insertion.InsertIntoLeaf | BPlusTree.h:92-111 | a present key keeps the keys and overwrites only its own value; a missing key ends up among the result's keys; a split happens only when the leaf already held MAX_KEYS keys |
| InsertionProofs.InsertIntoLeafCorrect | BPlusTree.h:92-111 | inserting into a valid leaf gives a valid leaf or two valid split leaves holding the old map updated at the key |
| InsertionProofs.PairsMapUpdate | BPlusTree.h:98-100 | overwriting the value at position p of a sorted leaf changes the leaf's map at that key only |
| InsertionProofs.PairsMapInsert | BPlusTree.h:104-105 | inserting a key and its value at the same position adds exactly that entry to the leaf's map |
| Insertion.SplitLeaf | BPlusTree.h:114-135 | the left keys followed by the right keys give back the original, and likewise the values; the left half has ceil(size/2) keys; the separator is the right leaf's first key |
| InsertionProofs.SplitLeafCorrect | BPlusTree.h:114-135 | splitting an overflowing sorted leaf gives two valid leaves. Every key of the left leaf is below the separator and every key of the right leaf is at or above it. The two maps together are the original map |
| InsertionProofs.SplitLeafSplicesChain | BPlusTree.h:128-130 | linking the new leaf into the `next` chain right after the split leaf, wherever that leaf sits in the chain, leaves the chain walking the same keys in the same order and reading the same map |
| ChainSplice.InsertNodeLeaves | BPlusTree.h:92-135 | below a valid node, an insert replaces the leaf `findLeaf` reaches in the leaf chain by what `insertIntoLeaf` makes of it (the updated leaf, or the split leaf followed directly by the new leaf) and keeps every other leaf in place |
| ChainSplice.AbsorbLeaves | BPlusTree.h:178-195 | the parent absorbing a child's outcome, with or without splitting, puts that outcome's leaves exactly where the child's leaves were |
| ChainSplice.SplitIfFullLeaves | BPlusTree.h:191-194 | splitting an overflowing internal node, or not, keeps its leaf chain |
| Insertion.SplitInternal | BPlusTree.h:138-162 | the left keys, the promoted key and the right keys give back the original; the children are split between the halves; the halves differ in size by at most one |
| InsertionProofs.SplitInternalCorrect | BPlusTree.h:138-162 | splitting an overflowing internal node gives two valid nodes, each with one child more than keys, at the same leaf depth, and together holding the original map. The promoted key is in neither half and separates them |
| Insertion.NewRoot | BPlusTree.h:166-176 | the new root has exactly one key and two children |
| BPlusTree.NewRootCorrect | BPlusTree.h:166-176 | a new root over the halves of a split root is well formed, one level taller, and holds both halves' maps |
| Insertion.InsertIntoParent | BPlusTree.h:178-195 | the parent gains exactly one key when it fits; when it splits, it was already full, and the left keys, the promoted key and the right keys give back the parent's keys with the separator inserted at its lower bound |
| InsertionProofs.SeparatorInSlot | BPlusTree.h:181-188 | the separator of a split child lies strictly between the parent's neighbouring keys, so its lower bound is the split child's own index |
| InsertionProofs.InsertIntoParentAt | BPlusTree.h:181-188 | inserting the right node at lower bound + 1 puts it directly after the left node |
| InsertionProofs.InsertIntoParentCorrect | BPlusTree.h:178-195 | absorbing a child split into a non-root parent keeps the parent valid, or splits it validly, and the parent's map becomes the old map updated at the key |
| Insertion.SplitIfFull | BPlusTree.h:191-194 | the node splits exactly when it holds more than MAX_KEYS keys; otherwise it is returned unchanged |
| InsertionProofs.SplitIfFullCorrect | BPlusTree.h:191-194 | a valid node holding at most one key too many comes out valid at its leaf depth and keeps its map: unchanged when it fits, as two valid halves around the promoted key when it overflows |
| InsertionProofs.FitIntoParent | BPlusTree.h:215-216 | a child that absorbed the insert without splitting, written back in place, leaves the parent valid and updates its map at the key |
| Insertion.Absorb | BPlusTree.h:178-195 | the parent's result stays well shaped whether the child fit or split (partner: InsertionProofs.AbsorbCorrect for the map, ChainSplice.AbsorbLeaves for the chain) |
| InsertionProofs.AbsorbCorrect | BPlusTree.h:178-195 | whatever the routed child returned, the parent absorbs it into a valid node or two valid halves holding the parent's map updated at the key |
| Insertion.InsertNode | BPlusTree.h:215-216 | the result is a well-shaped node or two well-shaped halves (partners: InsertionProofs.InsertNodeCorrect, ChainSplice.InsertNodeLeaves) |
| InsertionProofs.InsertNodeCorrect | BPlusTree.h:215-216 | inserting below a valid node of leaf depth d gives a valid node, or two valid halves split around a separator, all at depth d, holding the old map updated at the key |
| BPlusTree.Empty | BPlusTree.h:198 | the constructed tree is valid and represents the empty map |
| BPlusTree.Insert | BPlusTree.h:205-217 | after any insert the tree has a root; the first insert makes a one-pair leaf the root, and a split root is replaced by a new root |
| BPlusTree.FirstInsert | BPlusTree.h:206-212 | inserting into an empty tree makes the leaf holding just that pair the root, and the tree maps only that key |
| BPlusTree.InsertCorrect | BPlusTree.h:205-217 | insert keeps the tree valid (sorted, slotted, at most MAX_KEYS keys per node, all leaves at one depth) and updates its map at the key |
| BPlusTree.InsertHeight | BPlusTree.h:166-176 | the tree keeps its height when the root fits, and otherwise grows by one level under a root of one key and two children |
| BPlusTree.InsertLeafChain | BPlusTree.h:205-217 | `insert` into a non-empty tree changes the `next` chain only at the leaf `findLeaf` reaches, which is replaced in place by the updated leaf or by the split leaf followed directly by the new leaf |
| BPlusTree.NewRootLeaves | BPlusTree.h:166-176 | a new root's leaf chain is its left half's leaves followed by its right half's |
| BPlusTree.OverwriteKeepsShape | BPlusTree.h:97-101 | re-inserting a present key keeps every node's keys and children, and changes only that key's value |
| ShapeFacts.OverwriteInPlace | BPlusTree.h:97-101 | below a valid node, overwriting a present key never splits and keeps the node's shape |
| BPlusTree.SearchCorrect | BPlusTree.h:220-231 | search returns exactly the tree's map at the key, and nothing on an empty tree |
| BPlusTree.Search | BPlusTree.h:220-231 | an empty tree finds nothing; a found value's key is in the leaf `findLeaf` reaches (partner: BPlusTree.SearchCorrect) |
| BPlusTree.SearchAfterInsert | BPlusTree.h:205-231 | after inserting a pair, searching its key returns its value, and searching any other key returns what it returned before |
| BPlusTree.SearchLoop | BPlusTree.h:220-231 | the loop-and-binary-search version of `search` agrees with the definition and with the map |
| BPlusTree.IsEmptyCorrect | BPlusTree.h:234-236 | `empty` holds exactly when the tree represents the empty map |
| BPlusTree.IsEmpty | BPlusTree.h:234-236 | an empty tree holds no pair (partner: BPlusTree.IsEmptyCorrect for the converse) |
| BPlusTree.EmptyBehaviour | BPlusTree.h:198-236 | a new tree is empty and finds nothing; after any insert the tree is not empty |
| BPlusTree.ValidOccupancy | BPlusTree.h:19-23 | every node of a valid tree holds between MIN_KEYS and MAX_KEYS keys |
| BPlusTree.ChainInOrder | BPlusTree.h:57-65 | walking the leaf chain meets the tree's keys in strictly ascending order, each exactly once |
| LeafChain.KeySeqContents | BPlusTree.h:57-65 | a key appears on the leaf chain exactly when the tree maps it |
| BPlusTree.FourInserts | BPlusTree.h:205-231 | inserting 10, 20, 5, 6 into an empty tree gives root [10] over leaves [5, 6] and [10, 20]; search finds 6 and 10 (the key equal to the separator is found in the right child) and does not find 99 |
| BPlusTree.SplitFour | BPlusTree.h:114-126 | the four-key leaf [5, 6, 10, 20] splits into [5, 6] and [10, 20] with separator 10 |

## Left out

- `main.cpp` and the `Employee` record are left out: they are the driver
  that reads employees from standard input and prints the results. Keys are
  `int` and values are any type `V`.
- `printTree` and `printNode` are left out: they only write to standard
  output.
- The destructors are left out: the model is a value, so it has no memory to
  free.
- MIN_KEYS is not enforced by any operation, because the source never
  deletes. `BPlusTree.ValidOccupancy` proves that every node still holds at
  least MIN_KEYS = 1 key after any sequence of inserts.
- Parent pointers and the leaf `next` pointers are not stored.
  - Parent pointers become the recursion of `InsertNode`.
  - The `next` chain becomes the in-order leaf list `Nodes.Leaves`, which
    gives the splice after a leaf split.
  - Pointer identity is therefore not modelled. The source's test
    `leftChild == root` becomes the split reaching the top of the recursion.
- Insertion.SplitLeaf: requires at least two keys. The source only calls
  it on a leaf with MAX_KEYS + 1 = 4 keys.
- InsertionProofs.SplitLeafCorrect: proves correctness only for that size.
- InsertionProofs.SplitInternalCorrect: likewise proves only the size
  MAX_KEYS + 1.
- `std::lower_bound` and the `std::vector` insert, assign and resize calls
  are modelled by their effect on sequences, not by their iterator
  mechanics.
