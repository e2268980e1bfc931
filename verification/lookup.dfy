/** `findLeaf` and the lookup inside a leaf that `search` performs, each
    as a recursive definition and as the loops the source runs, with the
    proof that the lookup reads the map the tree represents. */
module Lookup {
  import opened SortedSeq
  import opened Nodes
  import opened Views

  /** `findLeaf` below `n`: descend into the child `Route` picks until a
      leaf is reached. */
  function FindLeaf<V>(n: Node<V>, key: int): (leaf: Node<V>)
    requires Shaped(n)
    ensures leaf.Leaf? && Shaped(leaf)
    ensures Inv(n) ==> Inv(leaf)
    decreases n
  {
    match n
    case Leaf(_, _) => n
    case Internal(ks, cs) => FindLeaf(cs[Route(ks, key)], key)
  }

  /** The lookup `search` does in the leaf: the value at the key's lower
      bound if the key is there. */
  function SearchLeaf<V>(leaf: Node<V>, key: int): (r: Option<V>)
    requires leaf.Leaf? && Shaped(leaf)
    ensures r.Some? ==> exists p :: 0 <= p < |leaf.keys| && leaf.keys[p] == key && r.value == leaf.values[p]
    ensures StrictlySorted(leaf.keys) ==> (r.Some? <==> key in leaf.keys)
  {
    LowerBoundFinds(leaf.keys, key);
    var pos := LowerBound(leaf.keys, key);
    if pos < |leaf.keys| && leaf.keys[pos] == key then Some(leaf.values[pos]) else None
  }

  /** `search` below `n`. */
  function SearchNode<V>(n: Node<V>, key: int): (r: Option<V>)
    requires Shaped(n)
    ensures r.Some? ==> key in FindLeaf(n, key).keys
  {
    SearchLeaf(FindLeaf(n, key), key)
  }

  /** Under the invariant, the child `Route` picks holds everything the
      parent holds for `key`: the key is in no other child. */
  lemma RouteContents<V>(ks: seq<int>, cs: seq<Node<V>>, key: int)
    requires Inv(Internal(ks, cs))
    ensures Get(ContentsOf(cs), key) == Get(Contents(cs[Route(ks, key)]), key)
  {
    var i := Route(ks, key);
    ContentsOfAround(cs, i);
    OnlyInItsSlot(ks, cs, i, key);
  }

  /** The leaf `findLeaf` reaches is the only place the key can be. */
  lemma {:induction false} FindLeafCorrect<V>(n: Node<V>, key: int)
    requires Inv(n)
    ensures Get(Contents(FindLeaf(n, key)), key) == Get(Contents(n), key)
    decreases n
  {
    match n
    case Leaf(_, _) =>
    case Internal(ks, cs) =>
      RouteContents(ks, cs, key);
      FindLeafCorrect(cs[Route(ks, key)], key);
  }

  /** The lookup in a sorted leaf finds exactly the leaf's pairs. */
  lemma SearchLeafCorrect<V>(leaf: Node<V>, key: int)
    requires leaf.Leaf? && Inv(leaf)
    ensures SearchLeaf(leaf, key) == Get(Contents(leaf), key)
  {
    var ks, vs := leaf.keys, leaf.values;
    LeafContents(ks, vs);
    LowerBoundFinds(ks, key);
    PairsMapKeys(ks, vs);
    var pos := LowerBound(ks, key);
    if pos < |ks| && ks[pos] == key {
      PairsMapAt(ks, vs, pos);
    }
  }

  /** `search` below a valid node returns the value the node maps the key
      to, and nothing when the key is absent. */
  lemma SearchNodeCorrect<V>(n: Node<V>, key: int)
    requires Inv(n)
    ensures SearchNode(n, key) == Get(Contents(n), key)
  {
    FindLeafCorrect(n, key);
    SearchLeafCorrect(FindLeaf(n, key), key);
  }

  /** `findLeaf` as the source writes it: an outer loop down the levels and
      an inner scan for the first separator above the key. */
  method FindLeafLoop<V>(n: Node<V>, key: int) returns (leaf: Node<V>)
    requires Shaped(n)
    ensures leaf == FindLeaf(n, key)
  {
    var cur := n;
    while cur.Internal?
      invariant Shaped(cur) && FindLeaf(cur, key) == FindLeaf(n, key)
      decreases cur
    {
      var ks := cur.keys;
      var i := 0;
      while i < |ks| && key >= ks[i]
        invariant i <= |ks|
        invariant forall j :: 0 <= j < i ==> ks[j] <= key
      {
        i := i + 1;
      }
      RouteUnique(ks, key, i);
      cur := cur.children[i];
    }
    leaf := cur;
  }
}
