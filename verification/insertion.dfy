/** Insertion into a subtree, as `insertIntoLeaf`, `splitLeaf`,
    `splitInternal` and `insertIntoParent` perform it. The source walks up
    through parent pointers after a split; here the recursion unwinds
    instead: inserting below a node yields either the updated node or the
    split triple (left, separator, right) its parent must absorb. */
module Insertion {
  import opened SortedSeq
  import opened Nodes

  datatype InsertResult<V> =
    | Fit(node: Node<V>)
    | Split(left: Node<V>, sep: int, right: Node<V>)

  ghost predicate ShapedResult<V>(r: InsertResult<V>) {
    match r
    case Fit(n) => Shaped(n)
    case Split(l, _, rt) => Shaped(l) && Shaped(rt)
  }

  /** `splitLeaf`: the left leaf keeps the first ceil(size/2) pairs, the new
      right leaf the rest, and the right leaf's first key is copied up as the
      separator (it stays in the leaf). */
  function SplitLeaf<V>(ks: seq<int>, vs: seq<V>): (r: InsertResult<V>)
    requires |ks| == |vs| && 2 <= |ks|
    ensures r.Split? && r.left.Leaf? && r.right.Leaf? && ShapedResult(r)
    ensures r.left.keys + r.right.keys == ks
    ensures r.left.values + r.right.values == vs
    ensures |r.right.keys| <= |r.left.keys| <= |r.right.keys| + 1
    ensures 1 <= |r.right.keys| && r.sep == r.right.keys[0]
  {
    var mid := (|ks| + 1) / 2;
    Split(Leaf(ks[..mid], vs[..mid]), ks[mid], Leaf(ks[mid..], vs[mid..]))
  }

  /** `splitInternal`: the middle key size/2 moves up and is kept by neither
      half; the left half keeps the keys before it and the children up to it,
      the right half the keys after it and the remaining children. */
  function SplitInternal<V>(ks: seq<int>, cs: seq<Node<V>>): (r: InsertResult<V>)
    requires Shaped(Internal(ks, cs)) && 1 <= |ks|
    ensures r.Split? && r.left.Internal? && r.right.Internal? && ShapedResult(r)
    ensures r.left.keys + [r.sep] + r.right.keys == ks
    ensures r.left.children + r.right.children == cs
    ensures |r.right.keys| <= |r.left.keys| <= |r.right.keys| + 1
  {
    var mid := |ks| / 2;
    Split(Internal(ks[..mid], cs[..mid + 1]), ks[mid], Internal(ks[mid + 1..], cs[mid + 1..]))
  }

  /** `insertIntoLeaf`: overwrite the value of an existing key in place;
      otherwise insert the pair at the key's lower bound and split the leaf
      if it now holds more than MAX_KEYS keys. */
  function InsertIntoLeaf<V>(ks: seq<int>, vs: seq<V>, key: int, value: V): (r: InsertResult<V>)
    requires |ks| == |vs|
    ensures ShapedResult(r)
    ensures r.Fit? ==> r.node.Leaf?
    ensures r.Split? ==> r.left.Leaf? && r.right.Leaf? && |ks| >= MAX_KEYS
    ensures StrictlySorted(ks) && key in ks ==>
      && r.Fit? && r.node.keys == ks
      && exists p :: 0 <= p < |ks| && ks[p] == key && r.node.values == vs[p := value]
    ensures key !in ks ==> key in (if r.Fit? then r.node.keys else r.left.keys + r.right.keys)
  {
    var pos := LowerBound(ks, key);
    if pos < |ks| && ks[pos] == key then
      Fit(Leaf(ks, vs[pos := value]))
    else
      var ks', vs' := InsertAt(ks, pos, key), InsertAt(vs, pos, value);
      if |ks'| > MAX_KEYS then SplitLeaf(ks', vs') else Fit(Leaf(ks', vs'))
  }

  /** `insertIntoParent` for a left child that is not the root: the
      separator goes in at its lower bound in the parent's keys and the new
      right node right after position pos among the children; the parent
      splits in turn if it overflows. The source updates the left child in
      place, which is `cs[i := left]` here, and never searches for it: it
      relies on the lower bound being the left child's own index. */
  function InsertIntoParent<V>(ks: seq<int>, cs: seq<Node<V>>, i: nat,
                               left: Node<V>, sep: int, right: Node<V>): (r: InsertResult<V>)
    requires Shaped(Internal(ks, cs)) && i < |cs|
    requires Shaped(left) && Shaped(right)
    ensures ShapedResult(r)
    ensures r.Fit? ==> r.node.Internal? && |r.node.keys| == |ks| + 1
    ensures r.Split? ==>
      && |ks| >= MAX_KEYS
      && r.left.Internal? && r.right.Internal?
      && |r.left.keys| + |r.right.keys| == |ks|
      && r.left.keys + [r.sep] + r.right.keys == InsertAt(ks, LowerBound(ks, sep), sep)
  {
    var pos := LowerBound(ks, sep);
    var ks' := InsertAt(ks, pos, sep);
    var cs' := InsertAt(cs[i := left], pos + 1, right);
    SplitIfFull(ks', cs')
  }

  /** The overflow check after a key went into an internal node: split it
      if it now holds more than MAX_KEYS keys. */
  function SplitIfFull<V>(ks: seq<int>, cs: seq<Node<V>>): (r: InsertResult<V>)
    requires Shaped(Internal(ks, cs)) && 1 <= |ks|
    ensures ShapedResult(r)
    ensures r.Fit? <==> |ks| <= MAX_KEYS
    ensures r.Fit? ==> r.node == Internal(ks, cs)
    ensures r.Split? ==> |r.left.keys| + |r.right.keys| + 1 == |ks|
  {
    if |ks| > MAX_KEYS then SplitInternal(ks, cs) else Fit(Internal(ks, cs))
  }

  /** `insertIntoParent` when the split node was the root: a new root with
      the separator as its only key over the two halves. */
  function NewRoot<V>(left: Node<V>, sep: int, right: Node<V>): (r: Node<V>)
    requires Shaped(left) && Shaped(right)
    ensures Shaped(r) && r.Internal?
    ensures |r.keys| == 1 && |r.children| == 2
  {
    Internal([sep], [left, right])
  }

  /** Insert below `n`: route as `findLeaf` does, insert into the leaf, and
      let every split travel back up into the parent. */
  function InsertNode<V>(n: Node<V>, key: int, value: V): (r: InsertResult<V>)
    requires Shaped(n)
    ensures ShapedResult(r)
    decreases n
  {
    match n
    case Leaf(ks, vs) => InsertIntoLeaf(ks, vs, key, value)
    case Internal(ks, cs) =>
      var i := Route(ks, key);
      Absorb(ks, cs, i, InsertNode(cs[i], key, value))
  }

  /** What the parent does with the outcome below child i: a child that
      fit is written back in place, a split goes to `insertIntoParent`. */
  function Absorb<V>(ks: seq<int>, cs: seq<Node<V>>, i: nat, below: InsertResult<V>): (r: InsertResult<V>)
    requires Shaped(Internal(ks, cs)) && i < |cs| && ShapedResult(below)
    ensures ShapedResult(r)
  {
    match below
    case Fit(c) => Fit(Internal(ks, cs[i := c]))
    case Split(l, sep, rt) => InsertIntoParent(ks, cs, i, l, sep, rt)
  }
}
