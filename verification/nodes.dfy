/** Node shapes of the B+ tree, the constants that bound them, and the
    abstract views used to state what the tree means:
    - the leaf chain (`Leaves`), which stands for the `next` pointers;
    - the key sequence read along that chain (`KeySeq`);
    - the finite map the tree represents (`Contents`);
    - the structural invariant (`Inv`) and perfect balance (`LeavesAtDepth`). */
module Nodes {
  import opened SortedSeq

  /** Maximum number of children of an internal node. */
  const ORDER: nat := 4
  /** A node holding more keys than this must split. */
  const MAX_KEYS: nat := ORDER - 1
  /** Minimum keys of a non-root node, ceil(ORDER/2) - 1. */
  const MIN_KEYS: nat := (ORDER + 1) / 2 - 1

  /** `std::optional`. */
  datatype Option<T> = None | Some(value: T)

  /** A map lookup as an optional value. */
  function Get<V>(m: map<int, V>, k: int): Option<V> {
    if k in m then Some(m[k]) else None
  }

  /** Keys are ints, as in the only instantiation of the tree; values are
      opaque. Parent pointers are implicit in the recursion and a leaf's
      `next` pointer is its successor in `Leaves`. */
  datatype Node<V> =
    | Leaf(keys: seq<int>, values: seq<V>)
    | Internal(keys: seq<int>, children: seq<Node<V>>)

  /** The minimum every operation needs to index safely: values aligned
      with keys in a leaf, one more child than keys in an internal node. */
  ghost predicate Shaped<V>(n: Node<V>)
    decreases n
  {
    match n
    case Leaf(ks, vs) => |ks| == |vs|
    case Internal(ks, cs) =>
      && |cs| == |ks| + 1
      && forall i :: 0 <= i < |cs| ==> Shaped(cs[i])
  }

  // ---------------------------------------------------------------------
  // The leaf chain and the views read off it

  /** The leaves of `n`, left to right: the order of the `next` chain. */
  ghost function Leaves<V>(n: Node<V>): seq<Node<V>>
    decreases n
  {
    match n
    case Leaf(_, _) => [n]
    case Internal(_, cs) => LeavesOf(cs)
  }

  ghost function LeavesOf<V>(cs: seq<Node<V>>): seq<Node<V>>
    decreases cs
  {
    if |cs| == 0 then [] else Leaves(cs[0]) + LeavesOf(cs[1..])
  }

  /** Pairs `ks[i] -> vs[i]` as a map (a later duplicate wins). */
  ghost function PairsMap<V>(ks: seq<int>, vs: seq<V>): map<int, V>
  {
    if |ks| == 0 || |vs| == 0 then map[]
    else map[ks[0] := vs[0]] + PairsMap(ks[1..], vs[1..])
  }

  ghost function LeafMap<V>(n: Node<V>): map<int, V> {
    match n
    case Leaf(ks, vs) => PairsMap(ks, vs)
    case Internal(_, _) => map[]
  }

  /** The map read by walking a chain of leaves. */
  ghost function ChainMap<V>(ls: seq<Node<V>>): map<int, V> {
    if |ls| == 0 then map[] else LeafMap(ls[0]) + ChainMap(ls[1..])
  }

  /** The keys met by walking a chain of leaves, in order. */
  ghost function ChainKeys<V>(ls: seq<Node<V>>): seq<int> {
    if |ls| == 0 then [] else ls[0].keys + ChainKeys(ls[1..])
  }

  /** The finite map a subtree represents. */
  ghost function Contents<V>(n: Node<V>): map<int, V> {
    ChainMap(Leaves(n))
  }

  /** The finite map a sequence of sibling subtrees represents. */
  ghost function ContentsOf<V>(cs: seq<Node<V>>): map<int, V> {
    ChainMap(LeavesOf(cs))
  }

  /** The key sequence of the leaf chain below `n`. */
  ghost function KeySeq<V>(n: Node<V>): seq<int> {
    ChainKeys(Leaves(n))
  }

  // ---------------------------------------------------------------------
  // Invariants and routing

  /** Every key of child i lies between its separators:
      keys[i-1] <= x < keys[i] (a missing bound is unbounded). */
  ghost predicate InSlot(x: int, ks: seq<int>, i: nat) {
    && (0 < i <= |ks| ==> ks[i - 1] <= x)
    && (i < |ks| ==> x < ks[i])
  }

  /** The structural invariant of a subtree whose own node may hold any
      positive number of keys (the root, or a node about to split), while
      every node strictly below it holds at most MAX_KEYS keys. */
  ghost predicate Inv<V>(n: Node<V>) {
    Shaped(n) && Ordered(n)
  }

  /** Ordering and occupancy: every node holds at least one key (so at
      least MIN_KEYS) in strictly ascending order, nodes below the top hold
      at most MAX_KEYS, and every child's keys lie in its separator slot. */
  ghost predicate Ordered<V>(n: Node<V>)
    decreases n
  {
    match n
    case Leaf(ks, _) =>
      && 1 <= |ks|
      && StrictlySorted(ks)
    case Internal(ks, cs) =>
      && 1 <= |ks|
      && StrictlySorted(ks)
      && (forall i :: 0 <= i < |cs| ==> Ordered(cs[i]) && |cs[i].keys| <= MAX_KEYS)
      && (forall i, x :: 0 <= i < |cs| && x in Contents(cs[i]) ==> InSlot(x, ks, i))
  }

  /** Every leaf of `n` lies exactly `d` levels below it. */
  ghost predicate LeavesAtDepth<V>(n: Node<V>, d: nat)
    decreases n
  {
    match n
    case Leaf(_, _) => d == 0
    case Internal(_, cs) =>
      && d >= 1
      && forall i :: 0 <= i < |cs| ==> LeavesAtDepth(cs[i], d - 1)
  }

  /** The child `findLeaf` descends into: the first i with key < keys[i],
      or the last child when there is none. A key equal to a separator
      therefore goes right. */
  function Route(ks: seq<int>, key: int): (i: nat)
    ensures i <= |ks|
    ensures forall j :: 0 <= j < i ==> ks[j] <= key
    ensures i < |ks| ==> key < ks[i]
  {
    if |ks| == 0 || key < ks[0] then 0 else 1 + Route(ks[1..], key)
  }

  /** The two facts Route ensures pin the child index down uniquely, so a
      loop that establishes them has computed Route. */
  lemma RouteUnique(ks: seq<int>, key: int, i: nat)
    requires i <= |ks|
    requires forall j :: 0 <= j < i ==> ks[j] <= key
    requires i < |ks| ==> key < ks[i]
    ensures i == Route(ks, key)
  {
  }

  /** Depth along the leftmost path. */
  function Height<V>(n: Node<V>): nat
    decreases n
  {
    match n
    case Leaf(_, _) => 0
    case Internal(_, cs) => if |cs| == 0 then 1 else 1 + Height(cs[0])
  }

  /** A complete, well-formed tree: the invariant, the MAX_KEYS bound on the
      root too, and all leaves at the same depth. */
  ghost predicate Wf<V>(n: Node<V>) {
    && Inv(n)
    && |n.keys| <= MAX_KEYS
    && LeavesAtDepth(n, Height(n))
  }

  /** Two trees with the same keys in the same places (values may differ). */
  ghost predicate SameShape<V>(a: Node<V>, b: Node<V>)
    decreases a
  {
    match a
    case Leaf(ks, vs) => b.Leaf? && b.keys == ks && |b.values| == |vs|
    case Internal(ks, cs) =>
      && b.Internal?
      && b.keys == ks
      && |b.children| == |cs|
      && forall i :: 0 <= i < |cs| ==> SameShape(cs[i], b.children[i])
  }
}
