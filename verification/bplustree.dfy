/** The public face of `BPlusTree<K, V>`: the tree is empty (no root) or a
    root node; `insert`, `search` and `empty` act on it. */
module BPlusTree {
  import opened SortedSeq
  import opened Nodes
  import opened Views
  import opened Insertion
  import opened InsertionProofs
  import opened Lookup
  import opened LeafChain
  import opened ShapeFacts
  import opened ChainSplice

  datatype Tree<V> = Tree(root: Option<Node<V>>)

  /** Enough shape to run the operations on. */
  ghost predicate Indexable<V>(t: Tree<V>) {
    t.root.Some? ==> Shaped(t.root.value)
  }

  /** A tree as `insert` builds it: no root, or a well-formed root. */
  ghost predicate Valid<V>(t: Tree<V>) {
    t.root.Some? ==> Wf(t.root.value)
  }

  /** The finite map the tree represents. */
  ghost function TreeMap<V>(t: Tree<V>): map<int, V> {
    if t.root.Some? then Contents(t.root.value) else map[]
  }

  /** The constructor: a tree with no root, representing the empty map. */
  function Empty<V>(): (t: Tree<V>)
    ensures Valid(t) && TreeMap(t) == map[]
  {
    Tree(None)
  }

  /** `empty`: whether there is a root. */
  function IsEmpty<V>(t: Tree<V>): (e: bool)
    ensures e ==> TreeMap(t) == map[]
  {
    t.root.None?
  }

  /** `insert`: the first pair becomes a one-key leaf root; otherwise insert
      below the root, and a root that splits is replaced by a new root over
      its two halves. */
  function Insert<V>(t: Tree<V>, key: int, value: V): (t': Tree<V>)
    requires Indexable(t)
    ensures Indexable(t') && t'.root.Some?
    ensures t.root.None? ==> t'.root == Some(Leaf([key], [value]))
    ensures t.root.Some? && InsertNode(t.root.value, key, value).Split? ==>
      var r := InsertNode(t.root.value, key, value);
      t'.root == Some(Internal([r.sep], [r.left, r.right]))
  {
    match t.root
    case None => Tree(Some(Leaf([key], [value])))
    case Some(n) =>
      match InsertNode(n, key, value)
      case Fit(n') => Tree(Some(n'))
      case Split(l, sep, rt) => Tree(Some(NewRoot(l, sep, rt)))
  }

  /** `search`: nothing in an empty tree, else the lookup in the leaf
      `findLeaf` reaches. */
  function Search<V>(t: Tree<V>, key: int): (r: Option<V>)
    requires Indexable(t)
    ensures t.root.None? ==> r == None
    ensures r.Some? ==> t.root.Some? && key in FindLeaf(t.root.value, key).keys
  {
    match t.root
    case None => None
    case Some(n) => SearchNode(n, key)
  }

  /** A new root over the halves of a split root is well formed, one level
      taller, and holds both halves' pairs. */
  lemma NewRootCorrect<V>(l: Node<V>, sep: int, rt: Node<V>, m: map<int, V>, d: nat)
    requires Represents(Split(l, sep, rt), m, d)
    ensures Wf(NewRoot(l, sep, rt)) && Height(NewRoot(l, sep, rt)) == d + 1
    ensures Contents(NewRoot(l, sep, rt)) == m
  {
    var r := NewRoot(l, sep, rt);
    assert [l, rt] == [l] + [rt];
    ContentsOfAppend([l], [rt]);
    ContentsOfSingle(l);
    ContentsOfSingle(rt);
    HeightOfBalanced(l, d);
    assert Ordered(r);
  }

  /** `empty` is true exactly when the tree holds no pair. */
  lemma IsEmptyCorrect<V>(t: Tree<V>)
    requires Valid(t)
    ensures IsEmpty(t) <==> TreeMap(t) == map[]
  {
    if t.root.Some? {
      InvNonEmpty(t.root.value);
    }
  }

  /** The first insert into an empty tree makes a one-pair leaf the root. */
  lemma FirstInsert<V>(key: int, value: V)
    ensures Insert(Empty(), key, value).root == Some(Leaf([key], [value]))
    ensures Valid(Insert(Empty(), key, value))
    ensures TreeMap(Insert(Empty(), key, value)) == map[key := value]
  {
    LeafContents([key], [value]);
    PairsMapSingle(key, value);
  }

  /** `insert` keeps the tree well formed and performs the map update. */
  lemma InsertCorrect<V>(t: Tree<V>, key: int, value: V)
    requires Valid(t)
    ensures Valid(Insert(t, key, value))
    ensures TreeMap(Insert(t, key, value)) == TreeMap(t)[key := value]
  {
    match t.root
    case None =>
      FirstInsert(key, value);
    case Some(n) =>
      InsertNodeCorrect(n, key, value, Height(n));
      match InsertNode(n, key, value)
      case Fit(n') =>
        HeightOfBalanced(n', Height(n));
      case Split(l, sep, rt) =>
        NewRootCorrect(l, sep, rt, Contents(n)[key := value], Height(n));
  }

  /** The tree grows by one level exactly when the root splits, and the new
      root then has one key over two children. */
  lemma InsertHeight<V>(t: Tree<V>, key: int, value: V)
    requires Valid(t) && t.root.Some?
    ensures var n, n' := t.root.value, Insert(t, key, value).root.value;
      && (InsertNode(n, key, value).Fit? ==> Height(n') == Height(n))
      && (InsertNode(n, key, value).Split? ==>
            Height(n') == Height(n) + 1 && |n'.keys| == 1 && |n'.children| == 2)
  {
    var n := t.root.value;
    InsertNodeCorrect(n, key, value, Height(n));
    match InsertNode(n, key, value)
    case Fit(n') =>
      HeightOfBalanced(n', Height(n));
    case Split(l, sep, rt) =>
      NewRootCorrect(l, sep, rt, Contents(n)[key := value], Height(n));
  }

  /** `insert` touches the leaf chain only at the leaf `findLeaf` reaches:
      that leaf is replaced in place by the updated leaf, or by the split
      leaf directly followed by the new leaf `splitLeaf` links after it, and
      every other leaf keeps its place. */
  lemma InsertLeafChain<V>(t: Tree<V>, key: int, value: V)
    requires Valid(t) && t.root.Some?
    ensures var n := t.root.value;
      var leaf := FindLeaf(n, key);
      && Leaves(n) == LeavesBefore(n, key) + [leaf] + LeavesAfter(n, key)
      && Leaves(Insert(t, key, value).root.value)
           == LeavesBefore(n, key) + ResultLeaves(InsertIntoLeaf(leaf.keys, leaf.values, key, value)) + LeavesAfter(n, key)
  {
    var n := t.root.value;
    LeavesAroundRoute(n, key);
    InsertNodeLeaves(n, key, value, Height(n));
    match InsertNode(n, key, value)
    case Fit(_) =>
    case Split(l, sep, rt) =>
      NewRootLeaves(l, sep, rt);
  }

  /** A new root's leaf chain is its left half's followed by its right
      half's. */
  lemma NewRootLeaves<V>(l: Node<V>, sep: int, rt: Node<V>)
    requires Shaped(l) && Shaped(rt)
    ensures Leaves(NewRoot(l, sep, rt)) == Leaves(l) + Leaves(rt)
  {
    assert [l, rt] == [l] + [rt];
    LeavesOfAppend([l], [rt]);
    LeavesOfSingle(l);
    LeavesOfSingle(rt);
  }

  /** `search` returns the value the tree maps the key to. */
  lemma SearchCorrect<V>(t: Tree<V>, key: int)
    requires Valid(t)
    ensures Search(t, key) == Get(TreeMap(t), key)
  {
    if t.root.Some? {
      SearchNodeCorrect(t.root.value, key);
    }
  }

  /** After inserting a pair, searching its key finds its value and
      searching any other key finds what it found before. */
  lemma SearchAfterInsert<V>(t: Tree<V>, key: int, value: V, other: int)
    requires Valid(t)
    ensures Search(Insert(t, key, value), key) == Some(value)
    ensures other != key ==> Search(Insert(t, key, value), other) == Search(t, other)
  {
    InsertCorrect(t, key, value);
    SearchCorrect(Insert(t, key, value), key);
    SearchCorrect(Insert(t, key, value), other);
    SearchCorrect(t, other);
  }

  /** An empty tree finds nothing and is no longer empty after an insert. */
  lemma EmptyBehaviour<V>(t: Tree<V>, key: int, value: V)
    requires Valid(t)
    ensures IsEmpty(Empty<V>()) && Search(Empty<V>(), key) == None
    ensures !IsEmpty(Insert(t, key, value))
  {
  }

  /** Re-inserting a present key keeps every node's keys and children,
      and only that key's value changes. */
  lemma OverwriteKeepsShape<V>(t: Tree<V>, key: int, value: V)
    requires Valid(t) && key in TreeMap(t)
    ensures SameShape(t.root.value, Insert(t, key, value).root.value)
    ensures TreeMap(Insert(t, key, value)) == TreeMap(t)[key := value]
  {
    OverwriteInPlace(t.root.value, key, value);
    InsertCorrect(t, key, value);
  }

  /** No node of a valid tree holds more than MAX_KEYS keys, nor fewer than
      MIN_KEYS. */
  lemma ValidOccupancy<V>(t: Tree<V>)
    requires Valid(t) && t.root.Some?
    ensures Occupancy(t.root.value)
  {
    InvOccupancy(t.root.value);
  }

  /** Walking the leaf chain of a valid tree meets its keys in strictly
      ascending order, each exactly once. */
  lemma ChainInOrder<V>(t: Tree<V>)
    requires Valid(t) && t.root.Some?
    ensures StrictlySorted(KeySeq(t.root.value))
    ensures forall x :: x in KeySeq(t.root.value) <==> x in TreeMap(t)
  {
    KeySeqSorted(t.root.value);
    KeySeqContents(t.root.value);
  }

  /** `search` as the source runs it: the two loops of `findLeaf`, then a
      binary search in the leaf. */
  method SearchLoop<V>(t: Tree<V>, key: int) returns (r: Option<V>)
    requires Valid(t)
    ensures r == Search(t, key)
    ensures r == Get(TreeMap(t), key)
  {
    SearchCorrect(t, key);
    if t.root.None? {
      return None;
    }
    var leaf := FindLeafLoop(t.root.value, key);
    var pos := BinaryLowerBound(leaf.keys, key);
    if pos < |leaf.keys| && leaf.keys[pos] == key {
      r := Some(leaf.values[pos]);
    } else {
      r := None;
    }
  }

  /** Inserting 10, 20, 5 and 6 fills one leaf with three keys, and the
      fourth key splits it: the root becomes [10] over the leaves [5, 6]
      and [10, 20], and the keys are found while 99 is not. */
  lemma FourInserts()
    ensures var t := Insert(Insert(Insert(Insert(Empty(), 10, 100), 20, 200), 5, 50), 6, 60);
      && t.root == Some(Internal([10], [Leaf([5, 6], [50, 60]), Leaf([10, 20], [100, 200])]))
      && Search(t, 6) == Some(60) && Search(t, 10) == Some(100) && Search(t, 99) == None
  {
    FirstInsert(10, 100);
    SecondAndThird();
    FourthSplits();
    SearchExample();
  }

  lemma SecondAndThird()
    ensures Insert(Tree(Some(Leaf([10], [100]))), 20, 200) == Tree(Some(Leaf([10, 20], [100, 200])))
    ensures Insert(Tree(Some(Leaf([10, 20], [100, 200]))), 5, 50)
         == Tree(Some(Leaf([5, 10, 20], [50, 100, 200])))
  {
    assert LowerBound([10], 20) == 1;
    assert InsertAt([10], 1, 20) == [10, 20] && InsertAt([100], 1, 200) == [100, 200];
    assert LowerBound([10, 20], 5) == 0;
    assert InsertAt([10, 20], 0, 5) == [5, 10, 20] && InsertAt([100, 200], 0, 50) == [50, 100, 200];
  }

  lemma FourthSplits()
    ensures Insert(Tree(Some(Leaf([5, 10, 20], [50, 100, 200]))), 6, 60)
         == Tree(Some(Internal([10], [Leaf([5, 6], [50, 60]), Leaf([10, 20], [100, 200])])))
  {
    assert LowerBound([5, 10, 20], 6) == 1;
    assert InsertAt([5, 10, 20], 1, 6) == [5, 6, 10, 20];
    assert InsertAt([50, 100, 200], 1, 60) == [50, 60, 100, 200];
    SplitFour();
  }

  lemma SearchExample()
    ensures var t := Tree(Some(Internal([10], [Leaf([5, 6], [50, 60]), Leaf([10, 20], [100, 200])])));
      Search(t, 6) == Some(60) && Search(t, 10) == Some(100) && Search(t, 99) == None
  {
    assert Route([10], 6) == 0 && Route([10], 10) == 1 && Route([10], 99) == 1;
    assert LowerBound([5, 6], 6) == 1 && LowerBound([10, 20], 10) == 0 && LowerBound([10, 20], 99) == 2;
  }

  /** The split of the overflowing leaf in the example above. */
  lemma SplitFour()
    ensures SplitLeaf([5, 6, 10, 20], [50, 60, 100, 200])
         == Split(Leaf([5, 6], [50, 60]), 10, Leaf([10, 20], [100, 200]))
  {
    var ks, vs := [5, 6, 10, 20], [50, 60, 100, 200];
    assert ks[..2] == [5, 6] && ks[2..] == [10, 20];
    assert vs[..2] == [50, 60] && vs[2..] == [100, 200];
  }
}
