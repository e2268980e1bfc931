/** What an insert does to the leaf chain: the leaf `findLeaf` reaches is
    replaced in place by what `insertIntoLeaf` makes of it (the updated
    leaf, or the split leaf followed directly by the new right leaf, as
    `splitLeaf` links them), and every other leaf of the chain stays where
    it was. */
module ChainSplice {
  import opened SortedSeq
  import opened Nodes
  import opened Views
  import opened Insertion
  import opened InsertionProofs
  import opened Lookup

  /** The leaves an insert result contributes to the chain, left to right. */
  ghost function ResultLeaves<V>(r: InsertResult<V>): seq<Node<V>> {
    match r
    case Fit(n) => Leaves(n)
    case Split(l, _, rt) => Leaves(l) + Leaves(rt)
  }

  /** The leaves left of the one `findLeaf` reaches for `key`. */
  ghost function LeavesBefore<V>(n: Node<V>, key: int): seq<Node<V>>
    requires Shaped(n)
    decreases n
  {
    match n
    case Leaf(_, _) => []
    case Internal(ks, cs) =>
      var i := Route(ks, key);
      LeavesOf(cs[..i]) + LeavesBefore(cs[i], key)
  }

  /** The leaves right of the one `findLeaf` reaches for `key`. */
  ghost function LeavesAfter<V>(n: Node<V>, key: int): seq<Node<V>>
    requires Shaped(n)
    decreases n
  {
    match n
    case Leaf(_, _) => []
    case Internal(ks, cs) =>
      var i := Route(ks, key);
      LeavesAfter(cs[i], key) + LeavesOf(cs[i + 1..])
  }

  /** What `insertIntoLeaf` makes of the leaf `findLeaf` reaches, as
      leaves of the chain. */
  ghost function LeafOutcome<V>(n: Node<V>, key: int, value: V): seq<Node<V>>
    requires Shaped(n)
    decreases n
  {
    match n
    case Leaf(ks, vs) => ResultLeaves(InsertIntoLeaf(ks, vs, key, value))
    case Internal(ks, cs) => LeafOutcome(cs[Route(ks, key)], key, value)
  }

  lemma {:induction false} LeafOutcomeOfFindLeaf<V>(n: Node<V>, key: int, value: V)
    requires Shaped(n)
    ensures var leaf := FindLeaf(n, key);
      LeafOutcome(n, key, value) == ResultLeaves(InsertIntoLeaf(leaf.keys, leaf.values, key, value))
    decreases n
  {
    match n
    case Leaf(_, _) =>
    case Internal(ks, cs) =>
      LeafOutcomeOfFindLeaf(cs[Route(ks, key)], key, value);
  }

  lemma LeavesOfSingle<V>(c: Node<V>)
    ensures LeavesOf([c]) == Leaves(c)
  {
    assert [c][1..] == [];
  }

  /** The leaves of a child sequence with child i picked out. */
  lemma {:induction false} LeavesOfAround<V>(cs: seq<Node<V>>, i: nat)
    requires i < |cs|
    ensures LeavesOf(cs) == LeavesOf(cs[..i]) + Leaves(cs[i]) + LeavesOf(cs[i + 1..])
    decreases i
  {
    if i == 0 {
      assert cs[..0] == [] && cs[0..][1..] == cs[1..];
    } else {
      var tail := cs[1..];
      LeavesOfAround(tail, i - 1);
      assert cs[..i][0] == cs[0] && cs[..i][1..] == tail[..i - 1];
      assert LeavesOf(cs[..i]) == Leaves(cs[0]) + LeavesOf(tail[..i - 1]);
      assert tail[i - 1] == cs[i] && tail[i..] == cs[i + 1..];
    }
  }

  /** The leaves of a child sequence after two nodes replaced child i. */
  lemma LeavesOfSplice<V>(cs: seq<Node<V>>, i: nat, l: Node<V>, rt: Node<V>)
    requires i < |cs|
    ensures LeavesOf(cs[..i] + [l, rt] + cs[i + 1..])
         == LeavesOf(cs[..i]) + (Leaves(l) + Leaves(rt)) + LeavesOf(cs[i + 1..])
  {
    LeavesOfAppend(cs[..i] + [l, rt], cs[i + 1..]);
    LeavesOfAppend(cs[..i], [l, rt]);
    assert [l, rt] == [l] + [rt];
    LeavesOfAppend([l], [rt]);
    LeavesOfSingle(l);
    LeavesOfSingle(rt);
  }

  /** The leaf `findLeaf` reaches sits in the chain between the leaves
      before and after it. */
  lemma {:induction false} LeavesAroundRoute<V>(n: Node<V>, key: int)
    requires Shaped(n)
    ensures Leaves(n) == LeavesBefore(n, key) + [FindLeaf(n, key)] + LeavesAfter(n, key)
    decreases n
  {
    match n
    case Leaf(_, _) =>
    case Internal(ks, cs) =>
      var i := Route(ks, key);
      LeavesAroundRoute(cs[i], key);
      LeavesOfAround(cs, i);
  }

  /** Splitting an internal node (or not) keeps its leaves in order. */
  lemma SplitIfFullLeaves<V>(ks: seq<int>, cs: seq<Node<V>>)
    requires Shaped(Internal(ks, cs)) && 1 <= |ks|
    ensures ResultLeaves(SplitIfFull(ks, cs)) == LeavesOf(cs)
  {
    if |ks| > MAX_KEYS {
      var r := SplitInternal(ks, cs);
      LeavesOfAppend(r.left.children, r.right.children);
    }
  }

  /** The parent absorbing the outcome below child i puts that outcome's
      leaves exactly where the child's leaves were, provided a separator
      coming up has its lower bound at i. */
  lemma AbsorbLeaves<V>(ks: seq<int>, cs: seq<Node<V>>, i: nat, below: InsertResult<V>)
    requires Shaped(Internal(ks, cs)) && i < |cs| && ShapedResult(below)
    requires below.Split? ==> LowerBound(ks, below.sep) == i
    ensures ResultLeaves(Absorb(ks, cs, i, below)) == LeavesOf(cs[..i]) + ResultLeaves(below) + LeavesOf(cs[i + 1..])
  {
    match below
    case Fit(c) =>
      LeavesOfAround(cs[i := c], i);
      assert cs[i := c][..i] == cs[..i] && cs[i := c][i + 1..] == cs[i + 1..];
    case Split(l, sep, rt) =>
      var ks', cs' := InsertAt(ks, i, sep), cs[..i] + [l, rt] + cs[i + 1..];
      ShapedSplice(ks, cs, i, l, sep, rt);
      InsertIntoParentAt(ks, cs, i, l, sep, rt);
      SplitIfFullLeaves(ks', cs');
      LeavesOfSplice(cs, i, l, rt);
  }

  /** Under the invariant, a separator coming up from the routed child has
      its lower bound at that child's index. */
  lemma RoutedSeparator<V>(ks: seq<int>, cs: seq<Node<V>>, key: int, value: V, d: nat)
    requires Inv(Internal(ks, cs)) && LeavesAtDepth(Internal(ks, cs), d + 1)
    ensures var i := Route(ks, key);
      var below := InsertNode(cs[i], key, value);
      below.Split? ==> LowerBound(ks, below.sep) == i
  {
    var i := Route(ks, key);
    InsertNodeCorrect(cs[i], key, value, d);
    match InsertNode(cs[i], key, value)
    case Fit(_) =>
    case Split(l, sep, rt) =>
      SeparatorInSlot(ks, cs, key, value, l, sep, rt, d);
  }

  lemma ShapedSplice<V>(ks: seq<int>, cs: seq<Node<V>>, i: nat, l: Node<V>, sep: int, rt: Node<V>)
    requires Shaped(Internal(ks, cs)) && i < |cs| && Shaped(l) && Shaped(rt)
    ensures Shaped(Internal(InsertAt(ks, i, sep), cs[..i] + [l, rt] + cs[i + 1..]))
  {
    var cs' := cs[..i] + [l, rt] + cs[i + 1..];
    forall j | 0 <= j < |cs'|
      ensures Shaped(cs'[j])
    {
      if j > i + 1 {
        assert cs'[j] == cs[j - 1];
      }
    }
  }

  /** An insert below a valid node changes the leaf chain only at the leaf
      `findLeaf` reaches, which is replaced by what `insertIntoLeaf` makes
      of it: the updated leaf, or the split leaf directly followed by the
      new right leaf. */
  lemma InsertNodeLeaves<V>(n: Node<V>, key: int, value: V, d: nat)
    requires Inv(n) && |n.keys| <= MAX_KEYS && LeavesAtDepth(n, d)
    ensures var leaf := FindLeaf(n, key);
      ResultLeaves(InsertNode(n, key, value))
        == LeavesBefore(n, key) + ResultLeaves(InsertIntoLeaf(leaf.keys, leaf.values, key, value)) + LeavesAfter(n, key)
  {
    SpliceAtRoute(n, key, value, d);
    LeafOutcomeOfFindLeaf(n, key, value);
  }

  /** The insert below `n` replaces the leaf `findLeaf` reaches by its
      outcome and leaves the rest of the chain in place. */
  ghost predicate Spliced<V>(n: Node<V>, key: int, value: V)
    requires Shaped(n)
  {
    ResultLeaves(InsertNode(n, key, value)) == LeavesBefore(n, key) + LeafOutcome(n, key, value) + LeavesAfter(n, key)
  }

  lemma {:induction false} SpliceAtRoute<V>(n: Node<V>, key: int, value: V, d: nat)
    requires Inv(n) && |n.keys| <= MAX_KEYS && LeavesAtDepth(n, d)
    ensures Spliced(n, key, value)
    decreases n
  {
    match n
    case Leaf(ks, vs) =>
      SpliceLeaf(ks, vs, key, value);
    case Internal(ks, cs) =>
      var i := Route(ks, key);
      RoutedChild(ks, cs, i, d);
      SpliceAtRoute(cs[i], key, value, d - 1);
      SpliceInternal(ks, cs, key, value, d - 1);
  }

  /** The step of the induction, stated apart so that its context stays
      small. */
  lemma SpliceInternal<V>(ks: seq<int>, cs: seq<Node<V>>, key: int, value: V, d: nat)
    requires Inv(Internal(ks, cs)) && LeavesAtDepth(Internal(ks, cs), d + 1)
    requires Spliced(cs[Route(ks, key)], key, value)
    ensures Spliced(Internal(ks, cs), key, value)
  {
    RoutedSeparator(ks, cs, key, value, d);
    InternalLeaves(ks, cs, key, value);
  }

  /** The base of the induction: a leaf's outcome is the whole result. */
  lemma SpliceLeaf<V>(ks: seq<int>, vs: seq<V>, key: int, value: V)
    requires |ks| == |vs|
    ensures Spliced(Leaf(ks, vs), key, value)
  {
  }

  /** The invariant and the depth pass down to any child. */
  lemma RoutedChild<V>(ks: seq<int>, cs: seq<Node<V>>, i: nat, d: nat)
    requires Inv(Internal(ks, cs)) && LeavesAtDepth(Internal(ks, cs), d) && i < |cs|
    ensures Inv(cs[i]) && |cs[i].keys| <= MAX_KEYS && LeavesAtDepth(cs[i], d - 1) && d >= 1
  {
  }

  /** One level of the splice: the routed child's outcome lands between its
      left and right siblings' leaves. */
  lemma InternalLeaves<V>(ks: seq<int>, cs: seq<Node<V>>, key: int, value: V)
    requires Shaped(Internal(ks, cs))
    requires var i := Route(ks, key);
      var below := InsertNode(cs[i], key, value);
      && (below.Split? ==> LowerBound(ks, below.sep) == i)
      && ResultLeaves(below) == LeavesBefore(cs[i], key) + LeafOutcome(cs[i], key, value) + LeavesAfter(cs[i], key)
    ensures var n := Internal(ks, cs);
      ResultLeaves(InsertNode(n, key, value)) == LeavesBefore(n, key) + LeafOutcome(n, key, value) + LeavesAfter(n, key)
  {
    var i := Route(ks, key);
    var below := InsertNode(cs[i], key, value);
    AbsorbLeaves(ks, cs, i, below);
    Regroup(LeavesOf(cs[..i]), LeavesBefore(cs[i], key), LeafOutcome(cs[i], key, value),
            LeavesAfter(cs[i], key), LeavesOf(cs[i + 1..]));
  }

  lemma Regroup<T>(a: seq<T>, b: seq<T>, x: seq<T>, c: seq<T>, e: seq<T>)
    ensures a + (b + x + c) + e == (a + b) + x + (c + e)
  {
  }
}
