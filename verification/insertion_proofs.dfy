/** Correctness of insertion below a node: every step keeps the invariant,
    keeps all leaves at the same depth, keeps every node within MAX_KEYS,
    and refines the map update `m[key := value]`. */
module InsertionProofs {
  import opened SortedSeq
  import opened Nodes
  import opened Views
  import opened Insertion

  /** `r` is a valid replacement, at leaf depth `d`, for a subtree holding
      the map `m`: either one node, or two halves split around `sep`. */
  ghost predicate Represents<V>(r: InsertResult<V>, m: map<int, V>, d: nat) {
    match r
    case Fit(n) =>
      && Inv(n) && |n.keys| <= MAX_KEYS
      && LeavesAtDepth(n, d)
      && Contents(n) == m
    case Split(l, sep, rt) =>
      && Inv(l) && |l.keys| <= MAX_KEYS
      && Inv(rt) && |rt.keys| <= MAX_KEYS
      && LeavesAtDepth(l, d) && LeavesAtDepth(rt, d)
      && (forall x :: x in Contents(l) ==> x < sep)
      && (forall x :: x in Contents(rt) ==> sep <= x)
      && Contents(l) + Contents(rt) == m
  }

  // ---------------------------------------------------------------------
  // Splits

  /** Splitting an overflowing leaf yields two valid leaves, all keys of the
      left below the separator, all keys of the right at or above it, and
      the same pairs between them. */
  lemma SplitLeafCorrect<V>(ks: seq<int>, vs: seq<V>)
    requires |ks| == |vs| == MAX_KEYS + 1 && StrictlySorted(ks)
    ensures Represents(SplitLeaf(ks, vs), PairsMap(ks, vs), 0)
  {
    var r := SplitLeaf(ks, vs);
    var lk, lv, rk, rv := ks[..2], vs[..2], ks[2..], vs[2..];
    assert r == Split(Leaf(lk, lv), ks[2], Leaf(rk, rv));
    SortedCut(ks, 2);
    LeafContents(lk, lv);
    LeafContents(rk, rv);
    PairsMapKeys(lk, lv);
    PairsMapKeys(rk, rv);
    assert lk + rk == ks && lv + rv == vs;
    PairsMapAppend(lk, rk, lv, rv);
  }

  /** `splitLeaf` links the new leaf into the `next` chain right after the
      old one: wherever the leaf sits in the chain, walking the chain meets
      the same keys in the same order and reads the same map afterwards. */
  lemma SplitLeafSplicesChain<V>(ks: seq<int>, vs: seq<V>, before: seq<Node<V>>, after: seq<Node<V>>)
    requires |ks| == |vs| && 2 <= |ks|
    ensures var r := SplitLeaf(ks, vs);
      && ChainKeys(before + [r.left, r.right] + after) == ChainKeys(before + [Leaf(ks, vs)] + after)
      && ChainMap(before + [r.left, r.right] + after) == ChainMap(before + [Leaf(ks, vs)] + after)
  {
    var r := SplitLeaf(ks, vs);
    SplitLeafPair(ks, vs);
    ChainReplace(before, [r.left, r.right], [Leaf(ks, vs)], after);
  }

  /** The two halves of a leaf split, as a piece of chain, read like the
      leaf they came from. */
  lemma SplitLeafPair<V>(ks: seq<int>, vs: seq<V>)
    requires |ks| == |vs| && 2 <= |ks|
    ensures var r := SplitLeaf(ks, vs);
      && ChainKeys([r.left, r.right]) == ChainKeys([Leaf(ks, vs)])
      && ChainMap([r.left, r.right]) == ChainMap([Leaf(ks, vs)])
  {
    var r := SplitLeaf(ks, vs);
    var l, rt := r.left, r.right;
    ChainPair(l, rt);
    ChainOne(Leaf(ks, vs));
    PairsMapAppend(l.keys, rt.keys, l.values, rt.values);
  }

  /** Splitting an overflowing internal node yields two valid internal nodes
      whose subtrees lie below and at-or-above the promoted key, holding the
      same map between them. */
  lemma SplitInternalCorrect<V>(ks: seq<int>, cs: seq<Node<V>>, d: nat)
    requires Inv(Internal(ks, cs)) && |ks| == MAX_KEYS + 1
    requires LeavesAtDepth(Internal(ks, cs), d)
    ensures Represents(SplitInternal(ks, cs), ContentsOf(cs), d)
  {
    assert SplitInternal(ks, cs) == Split(Internal(ks[..2], cs[..3]), ks[2], Internal(ks[3..], cs[3..]));
    SplitInternalLeft(ks, cs, d);
    SplitInternalRight(ks, cs, d);
    assert cs == cs[..3] + cs[3..];
    ContentsOfAppend(cs[..3], cs[3..]);
  }

  /** The left half of an internal split: valid, and below the promoted key. */
  lemma SplitInternalLeft<V>(ks: seq<int>, cs: seq<Node<V>>, d: nat)
    requires Inv(Internal(ks, cs)) && |ks| == MAX_KEYS + 1
    requires LeavesAtDepth(Internal(ks, cs), d)
    ensures var l := Internal(ks[..2], cs[..3]);
      && Inv(l) && LeavesAtDepth(l, d)
      && forall x :: x in Contents(l) ==> x < ks[2]
  {
    var lk, lc := ks[..2], cs[..3];
    forall j, x | 0 <= j < |lc| && x in Contents(lc[j])
      ensures InSlot(x, lk, j)
    {
      assert InSlot(x, ks, j);
    }
    assert Ordered(Internal(lk, lc));
    forall x | x in Contents(Internal(lk, lc)) ensures x < ks[2] {
      ContentsOfMember(lc, x);
      var j :| 0 <= j < 3 && x in Contents(lc[j]);
      assert InSlot(x, ks, j);
    }
  }

  /** The right half of an internal split: valid, and at or above the
      promoted key. */
  lemma SplitInternalRight<V>(ks: seq<int>, cs: seq<Node<V>>, d: nat)
    requires Inv(Internal(ks, cs)) && |ks| == MAX_KEYS + 1
    requires LeavesAtDepth(Internal(ks, cs), d)
    ensures var rt := Internal(ks[3..], cs[3..]);
      && Inv(rt) && LeavesAtDepth(rt, d)
      && forall x :: x in Contents(rt) ==> ks[2] <= x
  {
    var rk, rc := ks[3..], cs[3..];
    forall j, x | 0 <= j < |rc| && x in Contents(rc[j])
      ensures InSlot(x, rk, j)
    {
      assert cs[3 + j] == rc[j];
      assert InSlot(x, ks, 3 + j);
    }
    forall j | 0 <= j < |rc|
      ensures Shaped(rc[j]) && Ordered(rc[j]) && |rc[j].keys| <= MAX_KEYS && LeavesAtDepth(rc[j], d - 1)
    {
      assert cs[3 + j] == rc[j];
    }
    assert Ordered(Internal(rk, rc));
    forall x | x in Contents(Internal(rk, rc)) ensures ks[2] <= x {
      ContentsOfMember(rc, x);
      var j :| 0 <= j < 2 && x in Contents(rc[j]);
      assert cs[3 + j] == rc[j];
      assert InSlot(x, ks, 3 + j);
    }
  }

  // ---------------------------------------------------------------------
  // Leaves

  /** Inserting into a valid leaf: an existing key is overwritten in place,
      a new key goes in at its ordered position, and a leaf that overflows
      is split; in every case the result holds `m[key := value]`. */
  lemma InsertIntoLeafCorrect<V>(ks: seq<int>, vs: seq<V>, key: int, value: V)
    requires Inv(Leaf(ks, vs)) && |ks| <= MAX_KEYS
    ensures Represents(InsertIntoLeaf(ks, vs, key, value), PairsMap(ks, vs)[key := value], 0)
  {
    var pos := LowerBound(ks, key);
    LowerBoundFinds(ks, key);
    PairsMapKeys(ks, vs);
    if pos < |ks| && ks[pos] == key {
      PairsMapUpdate(ks, vs, pos, value);
      LeafContents(ks, vs[pos := value]);
    } else {
      var ks', vs' := InsertAt(ks, pos, key), InsertAt(vs, pos, value);
      InsertAtLowerBoundSorted(ks, key);
      PairsMapInsert(ks, vs, pos, key, value);
      if |ks'| > MAX_KEYS {
        SplitLeafCorrect(ks', vs');
      } else {
        LeafContents(ks', vs');
      }
    }
  }

  // ---------------------------------------------------------------------
  // Promotion into the parent and the whole descent

  /** A child that absorbed the insert without splitting is written back
      in place; nothing else in the parent changes. */
  lemma FitIntoParent<V>(ks: seq<int>, cs: seq<Node<V>>, key: int, value: V, c: Node<V>, d: nat)
    requires Inv(Internal(ks, cs)) && |ks| <= MAX_KEYS
    requires LeavesAtDepth(Internal(ks, cs), d + 1)
    requires Represents(Fit(c), Contents(cs[Route(ks, key)])[key := value], d)
    ensures Represents(Fit(Internal(ks, cs[Route(ks, key) := c])), Contents(Internal(ks, cs))[key := value], d + 1)
  {
    var i := Route(ks, key);
    FitKeepsSlots(ks, cs, i, key, value, c);
    FitContents(ks, cs, i, key, value, c);
    assert Contents(Internal(ks, cs)) == ContentsOf(cs);
  }

  /** Replacing the routed child by one holding its map plus `key` keeps
      every key of the node in its slot. */
  lemma FitKeepsSlots<V>(ks: seq<int>, cs: seq<Node<V>>, i: nat, key: int, value: V, c: Node<V>)
    requires Inv(Internal(ks, cs)) && i == Route(ks, key)
    requires Inv(c) && |c.keys| <= MAX_KEYS && Contents(c) == Contents(cs[i])[key := value]
    ensures Inv(Internal(ks, cs[i := c]))
  {
    var cs' := cs[i := c];
    forall j, x | 0 <= j < |cs'| && x in Contents(cs'[j])
      ensures InSlot(x, ks, j)
    {
      if j == i {
        assert x in Contents(cs[i]) || x == key;
      }
    }
  }

  /** The contents of the children after replacing the routed one. */
  lemma FitContents<V>(ks: seq<int>, cs: seq<Node<V>>, i: nat, key: int, value: V, c: Node<V>)
    requires Inv(Internal(ks, cs)) && i == Route(ks, key)
    requires Contents(c) == Contents(cs[i])[key := value]
    ensures ContentsOf(cs[i := c]) == ContentsOf(cs)[key := value]
  {
    var cs' := cs[i := c];
    var m := Contents(cs[i]);
    ContentsOfAround(cs, i);
    ContentsOfAround(cs', i);
    assert cs'[..i] == cs[..i] && cs'[i + 1..] == cs[i + 1..];
    OnlyInItsSlot(ks, cs, i, key);
    var a, b := ContentsOf(cs[..i]), ContentsOf(cs[i + 1..]);
    UnionUpdate(a, m, key, value);
    UpdateUnion(a + m, b, key, value);
  }

  /** `insertIntoParent` below the root: the lower bound of the separator in
      the parent's keys is exactly the index of the child that split, so the
      new right node lands right after the left one, the separator sits
      between them, and the parent (split in turn if it overflows) holds the
      updated map. */
  lemma InsertIntoParentCorrect<V>(ks: seq<int>, cs: seq<Node<V>>, key: int, value: V,
                                   l: Node<V>, sep: int, rt: Node<V>, d: nat)
    requires Inv(Internal(ks, cs)) && |ks| <= MAX_KEYS
    requires LeavesAtDepth(Internal(ks, cs), d + 1)
    requires Represents(Split(l, sep, rt), Contents(cs[Route(ks, key)])[key := value], d)
    ensures LowerBound(ks, sep) == Route(ks, key)
    ensures Represents(InsertIntoParent(ks, cs, Route(ks, key), l, sep, rt),
                       Contents(Internal(ks, cs))[key := value], d + 1)
  {
    var i := Route(ks, key);
    var ks', cs' := InsertAt(ks, i, sep), cs[..i] + [l, rt] + cs[i + 1..];
    SeparatorInSlot(ks, cs, key, value, l, sep, rt, d);
    SplicedParent(ks, cs, i, key, value, l, sep, rt, d);
    InsertIntoParentAt(ks, cs, i, l, sep, rt);
    SplitIfFullCorrect(ks', cs', Contents(Internal(ks, cs))[key := value], d + 1);
  }

  /** With the separator's lower bound at the split child's index, the
      parent `insertIntoParent` builds is the spliced one. */
  lemma InsertIntoParentAt<V>(ks: seq<int>, cs: seq<Node<V>>, i: nat, l: Node<V>, sep: int, rt: Node<V>)
    requires Shaped(Internal(ks, cs)) && i < |cs| && Shaped(l) && Shaped(rt)
    requires LowerBound(ks, sep) == i
    requires Shaped(Internal(InsertAt(ks, i, sep), cs[..i] + [l, rt] + cs[i + 1..]))
    ensures var ks', cs' := InsertAt(ks, i, sep), cs[..i] + [l, rt] + cs[i + 1..];
      InsertIntoParent(ks, cs, i, l, sep, rt) == SplitIfFull(ks', cs')
  {
    SpliceChildren(cs, i, l, rt);
  }

  /** Writing the left half over child i and inserting the right half after
      it is the same as replacing child i by the two halves. */
  lemma SpliceChildren<T>(cs: seq<T>, i: nat, l: T, rt: T)
    requires i < |cs|
    ensures InsertAt(cs[i := l], i + 1, rt) == cs[..i] + [l, rt] + cs[i + 1..]
  {
    assert cs[i := l][..i + 1] == cs[..i] + [l];
    assert cs[i := l][i + 1..] == cs[i + 1..];
  }

  /** An internal node that just received a key: valid at leaf depth `d`
      and holding `m`, with at most one key more than MAX_KEYS. */
  ghost predicate Overfull<V>(ks: seq<int>, cs: seq<Node<V>>, m: map<int, V>, d: nat) {
    && Inv(Internal(ks, cs)) && |ks| <= MAX_KEYS + 1
    && LeavesAtDepth(Internal(ks, cs), d)
    && ContentsOf(cs) == m
  }

  /** The overflow check after a key went into an internal node: a node
      with MAX_KEYS + 1 keys splits, a smaller one stays as it is. */
  lemma SplitIfFullCorrect<V>(ks: seq<int>, cs: seq<Node<V>>, m: map<int, V>, d: nat)
    requires Overfull(ks, cs, m, d)
    ensures Represents(SplitIfFull(ks, cs), m, d)
  {
    if |ks| > MAX_KEYS {
      SplitInternalCorrect(ks, cs, d);
    } else {
      assert Contents(Internal(ks, cs)) == ContentsOf(cs);
    }
  }

  /** The separator of a child split lies strictly between the parent keys
      around that child, so its lower bound is the child's own index. */
  lemma SeparatorInSlot<V>(ks: seq<int>, cs: seq<Node<V>>, key: int, value: V,
                           l: Node<V>, sep: int, rt: Node<V>, d: nat)
    requires Inv(Internal(ks, cs))
    requires Represents(Split(l, sep, rt), Contents(cs[Route(ks, key)])[key := value], d)
    ensures forall j :: 0 <= j < Route(ks, key) ==> ks[j] < sep
    ensures forall j :: Route(ks, key) <= j < |ks| ==> sep < ks[j]
    ensures LowerBound(ks, sep) == Route(ks, key)
  {
    var i := Route(ks, key);
    var m := Contents(cs[i]);
    InvNonEmpty(l);
    InvNonEmpty(rt);
    var y :| y in Contents(l);
    var z :| z in Contents(rt);
    assert y in m[key := value] && z in m[key := value];
    assert InSlot(y, ks, i) && InSlot(z, ks, i);
    forall j | 0 <= j < i ensures ks[j] < sep {
      assert ks[j] <= ks[i - 1];
    }
    forall j | i <= j < |ks| ensures sep < ks[j] {
      assert ks[i] <= ks[j];
    }
    LowerBoundUnique(ks, sep, i);
  }

  /** The parent after the separator and right node went in, before any
      split of its own: valid apart from possibly one key too many. */
  lemma SplicedParent<V>(ks: seq<int>, cs: seq<Node<V>>, i: nat, key: int, value: V,
                         l: Node<V>, sep: int, rt: Node<V>, d: nat)
    requires Inv(Internal(ks, cs)) && |ks| <= MAX_KEYS
    requires LeavesAtDepth(Internal(ks, cs), d + 1)
    requires i == Route(ks, key)
    requires Represents(Split(l, sep, rt), Contents(cs[i])[key := value], d)
    requires (forall j :: 0 <= j < i ==> ks[j] < sep) && (forall j :: i <= j < |ks| ==> sep < ks[j])
    ensures Overfull(InsertAt(ks, i, sep), cs[..i] + [l, rt] + cs[i + 1..], Contents(Internal(ks, cs))[key := value], d + 1)
  {
    var ks' := InsertAt(ks, i, sep);
    var cs' := cs[..i] + [l, rt] + cs[i + 1..];
    SplicedChildren(ks, cs, i, l, rt, d);
    SplicedSlots(ks, cs, i, key, value, l, sep, rt, d);
    SplicedContents(ks, cs, i, key, value, l, rt);
    assert Contents(Internal(ks, cs)) == ContentsOf(cs);
    assert Shaped(Internal(ks', cs'));
    assert Ordered(Internal(ks', cs'));
  }

  /** Every child of the spliced parent is valid and at leaf depth d. */
  lemma SplicedChildren<V>(ks: seq<int>, cs: seq<Node<V>>, i: nat, l: Node<V>, rt: Node<V>, d: nat)
    requires Inv(Internal(ks, cs)) && i < |cs|
    requires LeavesAtDepth(Internal(ks, cs), d + 1)
    requires Inv(l) && |l.keys| <= MAX_KEYS && LeavesAtDepth(l, d)
    requires Inv(rt) && |rt.keys| <= MAX_KEYS && LeavesAtDepth(rt, d)
    ensures var cs' := cs[..i] + [l, rt] + cs[i + 1..];
      forall j :: 0 <= j < |cs'| ==>
        Shaped(cs'[j]) && Ordered(cs'[j]) && |cs'[j].keys| <= MAX_KEYS && LeavesAtDepth(cs'[j], d)
  {
    var cs' := cs[..i] + [l, rt] + cs[i + 1..];
    forall j | 0 <= j < |cs'|
      ensures Shaped(cs'[j]) && Ordered(cs'[j]) && |cs'[j].keys| <= MAX_KEYS && LeavesAtDepth(cs'[j], d)
    {
      if j < i {
        assert cs'[j] == cs[j];
      } else if j == i {
        assert cs'[j] == l;
      } else if j == i + 1 {
        assert cs'[j] == rt;
      } else {
        assert cs'[j] == cs[j - 1];
      }
    }
  }

  /** Every child of the spliced parent lies in its slot of the new keys. */
  lemma SplicedSlots<V>(ks: seq<int>, cs: seq<Node<V>>, i: nat, key: int, value: V,
                        l: Node<V>, sep: int, rt: Node<V>, d: nat)
    requires Inv(Internal(ks, cs))
    requires i == Route(ks, key)
    requires Represents(Split(l, sep, rt), Contents(cs[i])[key := value], d)
    requires (forall j :: 0 <= j < i ==> ks[j] < sep) && (forall j :: i <= j < |ks| ==> sep < ks[j])
    ensures var ks', cs' := InsertAt(ks, i, sep), cs[..i] + [l, rt] + cs[i + 1..];
      && StrictlySorted(ks')
      && forall j, x :: 0 <= j < |cs'| && x in Contents(cs'[j]) ==> InSlot(x, ks', j)
  {
    var ks' := InsertAt(ks, i, sep);
    var cs' := cs[..i] + [l, rt] + cs[i + 1..];
    assert sep !in ks;
    LowerBoundUnique(ks, sep, i);
    InsertAtLowerBoundSorted(ks, sep);
    assert forall x :: x in Contents(l) ==> InSlot(x, ks, i) && x < sep by {
      forall x | x in Contents(l) ensures InSlot(x, ks, i) {
        assert x in Contents(cs[i])[key := value];
      }
    }
    assert forall x :: x in Contents(rt) ==> InSlot(x, ks, i) && sep <= x by {
      forall x | x in Contents(rt) ensures InSlot(x, ks, i) {
        assert x in Contents(cs[i])[key := value];
      }
    }
    SplicedSlotsOf(ks, cs, i, l, sep, rt);
  }

  /** The slot bookkeeping of the splice, from the slot facts alone. */
  lemma SplicedSlotsOf<V>(ks: seq<int>, cs: seq<Node<V>>, i: nat, l: Node<V>, sep: int, rt: Node<V>)
    requires i < |cs| == |ks| + 1
    requires forall k, y :: 0 <= k < |cs| && y in Contents(cs[k]) ==> InSlot(y, ks, k)
    requires forall y :: y in Contents(l) ==> InSlot(y, ks, i) && y < sep
    requires forall y :: y in Contents(rt) ==> InSlot(y, ks, i) && sep <= y
    ensures var cs' := cs[..i] + [l, rt] + cs[i + 1..];
      forall j, x :: 0 <= j < |cs'| && x in Contents(cs'[j]) ==> InSlot(x, InsertAt(ks, i, sep), j)
  {
    var cs' := cs[..i] + [l, rt] + cs[i + 1..];
    forall j, x | 0 <= j < |cs'| && x in Contents(cs'[j])
      ensures InSlot(x, InsertAt(ks, i, sep), j)
    {
      SlotAfterInsert(ks, i, sep, j, x);
      if j < i {
        assert cs'[j] == cs[j];
      } else if j == i {
        assert cs'[j] == l;
      } else if j == i + 1 {
        assert cs'[j] == rt;
      } else {
        assert cs'[j] == cs[j - 1];
      }
    }
  }

  /** How the slots of a separator list move when `sep` is inserted at i:
      slots before i stay, slot i is cut in two at `sep`, and later slots
      shift one to the right. */
  lemma SlotAfterInsert(ks: seq<int>, i: nat, sep: int, j: nat, x: int)
    requires i <= |ks|
    ensures var ks' := InsertAt(ks, i, sep);
      && (j < i && InSlot(x, ks, j) ==> InSlot(x, ks', j))
      && (i + 1 < j && InSlot(x, ks, j - 1) ==> InSlot(x, ks', j))
      && (InSlot(x, ks, i) && x < sep ==> InSlot(x, ks', i))
      && (InSlot(x, ks, i) && sep <= x ==> InSlot(x, ks', i + 1))
  {
  }

  /** The two halves together replace child i's map by its update. */
  lemma SplicedContents<V>(ks: seq<int>, cs: seq<Node<V>>, i: nat, key: int, value: V,
                           l: Node<V>, rt: Node<V>)
    requires Inv(Internal(ks, cs))
    requires i == Route(ks, key)
    requires Contents(l) + Contents(rt) == Contents(cs[i])[key := value]
    ensures ContentsOf(cs[..i] + [l, rt] + cs[i + 1..]) == ContentsOf(cs)[key := value]
  {
    var m := Contents(cs[i]);
    var pre, post := cs[..i], cs[i + 1..];
    var a, b := ContentsOf(pre), ContentsOf(post);
    var lm, rm := Contents(l), Contents(rt);
    assert cs[..i] + [l, rt] + cs[i + 1..] == pre + [l] + [rt] + post;
    calc {
      ContentsOf(pre + [l] + [rt] + post);
      { ContentsOfAppend(pre + [l] + [rt], post); }
      ContentsOf(pre + [l] + [rt]) + b;
      { ContentsOfAppend(pre + [l], [rt]); ContentsOfSingle(rt); }
      ContentsOf(pre + [l]) + rm + b;
      { ContentsOfAppend(pre, [l]); ContentsOfSingle(l); }
      (a + lm) + rm + b;
      { UnionAssoc(a, lm, rm); }
      a + m[key := value] + b;
      { UnionUpdate(a, m, key, value); }
      (a + m)[key := value] + b;
      { OnlyInItsSlot(ks, cs, i, key); UpdateUnion(a + m, b, key, value); }
      (a + m + b)[key := value];
      { ContentsOfAround(cs, i); }
      ContentsOf(cs)[key := value];
    }
  }

  /** Inserting below a valid node of leaf depth `d` yields a valid
      replacement at the same depth holding the updated map. */
  lemma {:induction false} InsertNodeCorrect<V>(n: Node<V>, key: int, value: V, d: nat)
    requires Inv(n) && |n.keys| <= MAX_KEYS && LeavesAtDepth(n, d)
    ensures Represents(InsertNode(n, key, value), Contents(n)[key := value], d)
    decreases n
  {
    match n
    case Leaf(ks, vs) =>
      InsertIntoLeafNode(ks, vs, key, value);
    case Internal(ks, cs) =>
      var i := Route(ks, key);
      assert Inv(cs[i]) && |cs[i].keys| <= MAX_KEYS && LeavesAtDepth(cs[i], d - 1);
      InsertNodeCorrect(cs[i], key, value, d - 1);
      AbsorbCorrect(ks, cs, key, value, InsertNode(cs[i], key, value), d - 1);
      assert InsertNode(n, key, value) == Absorb(ks, cs, i, InsertNode(cs[i], key, value));
  }

  /** The bottom of the descent, stated for the node. */
  lemma InsertIntoLeafNode<V>(ks: seq<int>, vs: seq<V>, key: int, value: V)
    requires Inv(Leaf(ks, vs)) && |ks| <= MAX_KEYS
    ensures Represents(InsertNode(Leaf(ks, vs), key, value), Contents(Leaf(ks, vs))[key := value], 0)
  {
    InsertIntoLeafCorrect(ks, vs, key, value);
    LeafContents(ks, vs);
  }

  /** Whatever the child below the route returned, the parent absorbs it
      correctly. */
  lemma AbsorbCorrect<V>(ks: seq<int>, cs: seq<Node<V>>, key: int, value: V, below: InsertResult<V>, d: nat)
    requires Inv(Internal(ks, cs)) && |ks| <= MAX_KEYS
    requires LeavesAtDepth(Internal(ks, cs), d + 1)
    requires Represents(below, Contents(cs[Route(ks, key)])[key := value], d)
    ensures Represents(Absorb(ks, cs, Route(ks, key), below), Contents(Internal(ks, cs))[key := value], d + 1)
  {
    match below
    case Fit(c) =>
      FitIntoParent(ks, cs, key, value, c, d);
    case Split(l, sep, rt) =>
      InsertIntoParentCorrect(ks, cs, key, value, l, sep, rt, d);
  }

  /** Overwriting value p of a strictly sorted leaf updates one entry. */
  lemma {:induction false} PairsMapUpdate<V>(ks: seq<int>, vs: seq<V>, p: nat, value: V)
    requires |ks| == |vs| && StrictlySorted(ks) && p < |ks|
    ensures PairsMap(ks, vs[p := value]) == PairsMap(ks, vs)[ks[p] := value]
    decreases p
  {
    var vs' := vs[p := value];
    var k, rest := ks[0], PairsMap(ks[1..], vs[1..]);
    if p == 0 {
      assert vs'[1..] == vs[1..];
      PairsMapKeys(ks[1..], vs[1..]);
      assert k !in ks[1..];
      UnionSingleton(map[], k, vs[0]);
      UpdateUnion(map[k := vs[0]], rest, k, value);
    } else {
      assert vs'[1..] == vs[1..][p - 1 := value];
      PairsMapUpdate(ks[1..], vs[1..], p - 1, value);
      UnionUpdate(map[k := vs[0]], rest, ks[p], value);
    }
  }

  /** Inserting a missing key at position p adds exactly that entry. */
  lemma {:induction false} PairsMapInsert<V>(ks: seq<int>, vs: seq<V>, p: nat, key: int, value: V)
    requires |ks| == |vs| && p <= |ks| && key !in ks[p..]
    ensures PairsMap(InsertAt(ks, p, key), InsertAt(vs, p, value)) == PairsMap(ks, vs)[key := value]
    decreases p
  {
    var ks', vs' := InsertAt(ks, p, key), InsertAt(vs, p, value);
    if p == 0 {
      assert ks'[1..] == ks && vs'[1..] == vs;
      assert ks[0..] == ks;
      PairsMapKeys(ks, vs);
      UpdateUnion(map[], PairsMap(ks, vs), key, value);
      assert map[] + PairsMap(ks, vs) == PairsMap(ks, vs);
    } else {
      assert ks'[1..] == InsertAt(ks[1..], p - 1, key) && vs'[1..] == InsertAt(vs[1..], p - 1, value);
      assert ks[1..][p - 1..] == ks[p..];
      PairsMapInsert(ks[1..], vs[1..], p - 1, key, value);
      UnionUpdate(map[ks[0] := vs[0]], PairsMap(ks[1..], vs[1..]), key, value);
    }
  }

  lemma PairsMapSingle<V>(k: int, v: V)
    ensures PairsMap([k], [v]) == map[k := v]
  {
    assert [k][1..] == [] && [v][1..] == [];
    assert PairsMap([k], [v]) == map[k := v] + PairsMap([], []);
  }
}
