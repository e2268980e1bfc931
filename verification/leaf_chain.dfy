/** The leaf chain the `next` pointers thread through the tree: the keys
    met walking it from the leftmost leaf are exactly the keys the tree
    holds, in strictly ascending order. */
module LeafChain {
  import opened SortedSeq
  import opened Nodes
  import opened Views

  /** Every member of a chain is a leaf with one value per key. */
  ghost predicate ShapedLeaves<V>(ls: seq<Node<V>>) {
    forall j :: 0 <= j < |ls| ==> ls[j].Leaf? && |ls[j].keys| == |ls[j].values|
  }

  /** Sibling subtrees lie in ascending key ranges: everything in an earlier
      sibling is below everything in a later one. */
  ghost predicate Separated<V>(cs: seq<Node<V>>) {
    forall j, k, x, y :: 0 <= j < k < |cs| && x in Contents(cs[j]) && y in Contents(cs[k]) ==> x < y
  }

  lemma {:induction false} LeavesShaped<V>(n: Node<V>)
    requires Shaped(n)
    ensures ShapedLeaves(Leaves(n))
    decreases n
  {
    match n
    case Leaf(_, _) =>
    case Internal(_, cs) => LeavesOfShaped(cs);
  }

  lemma {:induction false} LeavesOfShaped<V>(cs: seq<Node<V>>)
    requires forall j :: 0 <= j < |cs| ==> Shaped(cs[j])
    ensures ShapedLeaves(LeavesOf(cs))
    decreases cs
  {
    if |cs| > 0 {
      LeavesShaped(cs[0]);
      LeavesOfShaped(cs[1..]);
      var a, b := Leaves(cs[0]), LeavesOf(cs[1..]);
      var ls: seq<Node<V>> := a + b;
      forall j | 0 <= j < |ls|
        ensures ls[j].Leaf? && |ls[j].keys| == |ls[j].values|
      {
        if j >= |a| {
          assert ls[j] == b[j - |a|];
        }
      }
    }
  }

  /** Along a chain of leaves, the keys met are the keys of the map read. */
  lemma {:induction false} ChainKeysMap<V>(ls: seq<Node<V>>)
    requires ShapedLeaves(ls)
    ensures forall x :: x in ChainKeys(ls) <==> x in ChainMap(ls)
    decreases |ls|
  {
    if |ls| > 0 {
      PairsMapKeys(ls[0].keys, ls[0].values);
      assert ShapedLeaves(ls[1..]) by {
        forall j | 0 <= j < |ls| - 1
          ensures ls[1..][j].Leaf? && |ls[1..][j].keys| == |ls[1..][j].values|
        {
          assert ls[1..][j] == ls[j + 1];
        }
      }
      ChainKeysMap(ls[1..]);
    }
  }

  /** The chain below a node holds exactly the node's keys. */
  lemma KeySeqContents<V>(n: Node<V>)
    requires Shaped(n)
    ensures forall x :: x in KeySeq(n) <==> x in Contents(n)
  {
    LeavesShaped(n);
    ChainKeysMap(Leaves(n));
  }

  /** The children of a valid internal node are separated. */
  lemma InvSeparated<V>(ks: seq<int>, cs: seq<Node<V>>)
    requires Inv(Internal(ks, cs))
    ensures Separated(cs)
  {
    forall j, k, x, y | 0 <= j < k < |cs| && x in Contents(cs[j]) && y in Contents(cs[k])
      ensures x < y
    {
      assert InSlot(x, ks, j) && InSlot(y, ks, k);
      assert ks[j] <= ks[k - 1];
    }
  }

  /** The keys along the chain below a valid node strictly ascend. */
  lemma {:induction false} KeySeqSorted<V>(n: Node<V>)
    requires Inv(n)
    ensures StrictlySorted(KeySeq(n))
    decreases n
  {
    match n
    case Leaf(ks, _) =>
      assert ChainKeys([n]) == ks + ChainKeys([n][1..]);
    case Internal(ks, cs) =>
      InvSeparated(ks, cs);
      KeysOfSorted(cs);
  }

  /** The same for a run of separated valid siblings. */
  lemma {:induction false} KeysOfSorted<V>(cs: seq<Node<V>>)
    requires forall j :: 0 <= j < |cs| ==> Inv(cs[j])
    requires Separated(cs)
    ensures StrictlySorted(ChainKeys(LeavesOf(cs)))
    decreases cs
  {
    if |cs| > 0 {
      var rest := cs[1..];
      assert Separated(rest) by {
        forall j, k, x, y | 0 <= j < k < |rest| && x in Contents(rest[j]) && y in Contents(rest[k])
          ensures x < y
        {
          assert rest[j] == cs[j + 1] && rest[k] == cs[k + 1];
        }
      }
      KeySeqSorted(cs[0]);
      KeysOfSorted(rest);
      ChainKeysAppend(Leaves(cs[0]), LeavesOf(rest));
      KeySeqContents(cs[0]);
      LeavesOfShaped(rest);
      ChainKeysMap(LeavesOf(rest));
      forall x, y | x in KeySeq(cs[0]) && y in ChainKeys(LeavesOf(rest))
        ensures x < y
      {
        ContentsOfMember(rest, y);
        var k :| 0 <= k < |rest| && y in Contents(rest[k]);
        assert rest[k] == cs[k + 1];
      }
      SortedConcat(KeySeq(cs[0]), ChainKeys(LeavesOf(rest)));
    }
  }
}
