/** Algebra of the abstract views: how the leaf chain, the key sequence and
    the contents map of a node sequence decompose when the sequence is cut,
    and what the invariant implies about them. */
module Views {
  import opened SortedSeq
  import opened Nodes

  // ---------------------------------------------------------------------
  // Cutting child sequences

  lemma {:induction false} LeavesOfAppend<V>(a: seq<Node<V>>, b: seq<Node<V>>)
    ensures LeavesOf(a + b) == LeavesOf(a) + LeavesOf(b)
    decreases |a|
  {
    if |a| == 0 {
      assert a + b == b;
    } else {
      assert (a + b)[1..] == a[1..] + b;
      LeavesOfAppend(a[1..], b);
    }
  }

  lemma {:induction false} ChainMapAppend<V>(a: seq<Node<V>>, b: seq<Node<V>>)
    ensures ChainMap(a + b) == ChainMap(a) + ChainMap(b)
    decreases |a|
  {
    if |a| == 0 {
      assert a + b == b;
    } else {
      assert (a + b)[1..] == a[1..] + b;
      ChainMapAppend(a[1..], b);
      UnionAssoc(LeafMap(a[0]), ChainMap(a[1..]), ChainMap(b));
    }
  }

  lemma {:induction false} ChainKeysAppend<V>(a: seq<Node<V>>, b: seq<Node<V>>)
    ensures ChainKeys(a + b) == ChainKeys(a) + ChainKeys(b)
    decreases |a|
  {
    if |a| == 0 {
      assert a + b == b;
    } else {
      assert (a + b)[1..] == a[1..] + b;
      ChainKeysAppend(a[1..], b);
    }
  }

  lemma ChainOne<V>(a: Node<V>)
    ensures ChainKeys([a]) == a.keys && ChainMap([a]) == LeafMap(a)
  {
    assert [a][1..] == [];
  }

  lemma ChainPair<V>(a: Node<V>, b: Node<V>)
    ensures ChainKeys([a, b]) == a.keys + b.keys && ChainMap([a, b]) == LeafMap(a) + LeafMap(b)
  {
    assert [a, b][1..] == [b];
    ChainOne(b);
  }

  /** Replacing a piece of a leaf chain by one that reads the same keys and
      the same map leaves the whole chain reading the same. */
  lemma ChainReplace<V>(before: seq<Node<V>>, x: seq<Node<V>>, y: seq<Node<V>>, after: seq<Node<V>>)
    requires ChainKeys(x) == ChainKeys(y) && ChainMap(x) == ChainMap(y)
    ensures ChainKeys(before + x + after) == ChainKeys(before + y + after)
    ensures ChainMap(before + x + after) == ChainMap(before + y + after)
  {
    ChainKeysAppend(before + x, after);
    ChainKeysAppend(before, x);
    ChainKeysAppend(before + y, after);
    ChainKeysAppend(before, y);
    ChainMapAppend(before + x, after);
    ChainMapAppend(before, x);
    ChainMapAppend(before + y, after);
    ChainMapAppend(before, y);
  }

  /** Contents of siblings side by side is the union of their contents. */
  lemma ContentsOfAppend<V>(a: seq<Node<V>>, b: seq<Node<V>>)
    ensures ContentsOf(a + b) == ContentsOf(a) + ContentsOf(b)
  {
    LeavesOfAppend(a, b);
    ChainMapAppend(LeavesOf(a), LeavesOf(b));
  }

  lemma ContentsOfSingle<V>(c: Node<V>)
    ensures ContentsOf([c]) == Contents(c)
  {
    assert [c][1..] == [];
    assert LeavesOf([c]) == Leaves(c);
  }

  /** Contents of a node sequence with child i picked out. */
  lemma ContentsOfAround<V>(cs: seq<Node<V>>, i: nat)
    requires i < |cs|
    ensures ContentsOf(cs) == ContentsOf(cs[..i]) + Contents(cs[i]) + ContentsOf(cs[i + 1..])
  {
    assert cs == cs[..i] + [cs[i]] + cs[i + 1..];
    ContentsOfAppend(cs[..i] + [cs[i]], cs[i + 1..]);
    ContentsOfAppend(cs[..i], [cs[i]]);
    ContentsOfSingle(cs[i]);
  }

  /** A key is in the contents of a sequence iff it is in one member's. */
  lemma {:induction false} ContentsOfMember<V>(cs: seq<Node<V>>, x: int)
    ensures x in ContentsOf(cs) <==> exists i :: 0 <= i < |cs| && x in Contents(cs[i])
    decreases |cs|
  {
    if |cs| > 0 {
      assert cs == [cs[0]] + cs[1..];
      ContentsOfAppend([cs[0]], cs[1..]);
      ContentsOfSingle(cs[0]);
      ContentsOfMember(cs[1..], x);
      if x in ContentsOf(cs[1..]) {
        var j :| 0 <= j < |cs| - 1 && x in Contents(cs[1..][j]);
        assert x in Contents(cs[j + 1]);
      }
      if exists i :: 0 <= i < |cs| && x in Contents(cs[i]) {
        var i :| 0 <= i < |cs| && x in Contents(cs[i]);
        if i > 0 {
          assert cs[1..][i - 1] == cs[i];
        }
      }
    }
  }

  // ---------------------------------------------------------------------
  // Leaf maps

  lemma {:induction false} PairsMapAppend<V>(a: seq<int>, b: seq<int>, va: seq<V>, vb: seq<V>)
    requires |a| == |va| && |b| == |vb|
    ensures PairsMap(a + b, va + vb) == PairsMap(a, va) + PairsMap(b, vb)
    decreases |a|
  {
    if |a| == 0 {
      assert a + b == b && va + vb == vb;
    } else {
      assert (a + b)[1..] == a[1..] + b;
      assert (va + vb)[1..] == va[1..] + vb;
      PairsMapAppend(a[1..], b, va[1..], vb);
      UnionAssoc(map[a[0] := va[0]], PairsMap(a[1..], va[1..]), PairsMap(b, vb));
    }
  }

  lemma {:induction false} PairsMapKeys<V>(ks: seq<int>, vs: seq<V>)
    requires |ks| == |vs|
    ensures forall x :: x in PairsMap(ks, vs) <==> x in ks
    decreases |ks|
  {
    if |ks| > 0 {
      PairsMapKeys(ks[1..], vs[1..]);
      assert ks == [ks[0]] + ks[1..];
    }
  }

  /** In a strictly sorted leaf, key i maps to value i. */
  lemma {:induction false} PairsMapAt<V>(ks: seq<int>, vs: seq<V>, p: nat)
    requires |ks| == |vs| && StrictlySorted(ks) && p < |ks|
    ensures ks[p] in PairsMap(ks, vs) && PairsMap(ks, vs)[ks[p]] == vs[p]
    decreases |ks|
  {
    PairsMapKeys(ks[1..], vs[1..]);
    if p == 0 {
      assert ks[0] !in ks[1..];
    } else {
      PairsMapAt(ks[1..], vs[1..], p - 1);
    }
  }

  lemma LeafContents<V>(ks: seq<int>, vs: seq<V>)
    ensures Contents(Leaf(ks, vs)) == PairsMap(ks, vs)
  {
    assert Leaves(Leaf(ks, vs)) == [Leaf(ks, vs)];
    assert ChainMap([Leaf(ks, vs)]) == LeafMap(Leaf(ks, vs)) + ChainMap([]);
  }

  // ---------------------------------------------------------------------
  // Consequences of the invariant

  /** No subtree of a valid tree is empty. */
  lemma {:induction false} InvNonEmpty<V>(n: Node<V>)
    requires Inv(n)
    ensures exists x :: x in Contents(n)
    decreases n
  {
    match n
    case Leaf(ks, vs) =>
      LeafContents(ks, vs);
      PairsMapKeys(ks, vs);
      assert ks[0] in PairsMap(ks, vs);
    case Internal(ks, cs) =>
      InvNonEmpty(cs[0]);
      var x :| x in Contents(cs[0]);
      ContentsOfMember(cs, x);
      assert x in Contents(n);
  }

  // ---------------------------------------------------------------------
  // Map algebra

  lemma UpdateUnion<V>(a: map<int, V>, b: map<int, V>, k: int, v: V)
    requires k !in b
    ensures a[k := v] + b == (a + b)[k := v]
  {
  }

  lemma UnionUpdate<V>(a: map<int, V>, b: map<int, V>, k: int, v: V)
    ensures a + b[k := v] == (a + b)[k := v]
  {
  }

  lemma UnionAssoc<V>(a: map<int, V>, b: map<int, V>, c: map<int, V>)
    ensures (a + b) + c == a + (b + c)
  {
  }

  lemma UnionSingleton<V>(a: map<int, V>, k: int, v: V)
    ensures a + map[k := v] == a[k := v]
  {
  }

  /** Under the invariant a key in child i's slot is in no other child. */
  lemma OnlyInItsSlot<V>(ks: seq<int>, cs: seq<Node<V>>, i: nat, x: int)
    requires Inv(Internal(ks, cs)) && i < |cs| && InSlot(x, ks, i)
    ensures x !in ContentsOf(cs[..i]) && x !in ContentsOf(cs[i + 1..])
  {
    forall j | 0 <= j < |cs| && j != i
      ensures x !in Contents(cs[j])
    {
    }
    var before, after := cs[..i], cs[i + 1..];
    ContentsOfMember(before, x);
    ContentsOfMember(after, x);
    forall j | 0 <= j < |after|
      ensures x !in Contents(after[j])
    {
      assert after[j] == cs[i + 1 + j];
    }
  }
}
