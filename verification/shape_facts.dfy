/** Facts about the shape of a tree: node occupancy, height, and the shape
    an overwrite leaves behind. */
module ShapeFacts {
  import opened SortedSeq
  import opened Nodes
  import opened Views
  import opened Insertion
  import opened Lookup

  /** Every node, at any depth, holds between MIN_KEYS and MAX_KEYS keys. */
  ghost predicate Occupancy<V>(n: Node<V>)
    decreases n
  {
    && MIN_KEYS <= |n.keys| <= MAX_KEYS
    && (n.Internal? ==> forall i :: 0 <= i < |n.children| ==> Occupancy(n.children[i]))
  }

  /** The invariant with the bound on the top node gives the occupancy
      bounds at every node. */
  lemma {:induction false} InvOccupancy<V>(n: Node<V>)
    requires Inv(n) && |n.keys| <= MAX_KEYS
    ensures Occupancy(n)
    decreases n
  {
    match n
    case Leaf(_, _) =>
    case Internal(_, cs) =>
      forall i | 0 <= i < |cs|
        ensures Occupancy(cs[i])
      {
        InvOccupancy(cs[i]);
      }
  }

  /** Height measured along the leftmost path is the depth of every leaf. */
  lemma {:induction false} HeightOfBalanced<V>(n: Node<V>, d: nat)
    requires Shaped(n) && LeavesAtDepth(n, d)
    ensures Height(n) == d
    decreases n
  {
    match n
    case Leaf(_, _) =>
    case Internal(_, cs) =>
      HeightOfBalanced(cs[0], d - 1);
  }

  lemma {:induction false} SameShapeRefl<V>(n: Node<V>)
    ensures SameShape(n, n)
    decreases n
  {
    match n
    case Leaf(_, _) =>
    case Internal(_, cs) =>
      forall i | 0 <= i < |cs|
        ensures SameShape(cs[i], cs[i])
      {
        SameShapeRefl(cs[i]);
      }
  }

  /** Inserting a key the subtree already holds overwrites its value in
      place: nothing splits, and every node keeps its keys and children. */
  lemma {:induction false} OverwriteInPlace<V>(n: Node<V>, key: int, value: V)
    requires Inv(n) && key in Contents(n)
    ensures InsertNode(n, key, value).Fit?
    ensures SameShape(n, InsertNode(n, key, value).node)
    decreases n
  {
    match n
    case Leaf(ks, vs) =>
      LeafContents(ks, vs);
      PairsMapKeys(ks, vs);
    case Internal(ks, cs) =>
      var i := Route(ks, key);
      RouteContents(ks, cs, key);
      OverwriteInPlace(cs[i], key, value);
      var c := InsertNode(cs[i], key, value).node;
      forall j | 0 <= j < |cs|
        ensures SameShape(cs[j], cs[i := c][j])
      {
        if j != i {
          SameShapeRefl(cs[j]);
        }
      }
  }
}
