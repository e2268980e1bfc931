/** Ordered-sequence helpers used by every node operation of the B+ tree:
    strict ordering of a key vector, positional insertion (`vector::insert`)
    and `std::lower_bound`. */
module SortedSeq {

  /** Keys strictly ascending: ordered and free of duplicates. */
  ghost predicate StrictlySorted(s: seq<int>) {
    forall i, j :: 0 <= i < j < |s| ==> s[i] < s[j]
  }

  /** `v.insert(v.begin() + i, x)`: x lands at index i, the rest shifts right. */
  function InsertAt<T>(s: seq<T>, i: nat, x: T): (r: seq<T>)
    requires i <= |s|
    ensures |r| == |s| + 1
    ensures r[i] == x
    ensures forall j :: 0 <= j < i ==> r[j] == s[j]
    ensures forall j :: i < j < |r| ==> r[j] == s[j - 1]
  {
    s[..i] + [x] + s[i..]
  }

  /** `std::lower_bound`: the first index whose key is not below `key`
      (|s| when every key is below it). */
  function LowerBound(s: seq<int>, key: int): (i: nat)
    ensures i <= |s|
    ensures forall j :: 0 <= j < i ==> s[j] < key
    ensures i < |s| ==> key <= s[i]
  {
    if |s| == 0 || key <= s[0] then 0 else 1 + LowerBound(s[1..], key)
  }

  /** The two facts LowerBound ensures pin the index down uniquely. */
  lemma LowerBoundUnique(s: seq<int>, key: int, i: nat)
    requires i <= |s|
    requires forall j :: 0 <= j < i ==> s[j] < key
    requires i < |s| ==> key <= s[i]
    ensures i == LowerBound(s, key)
  {
  }

  /** On sorted keys the lower bound finds `key` exactly when it is present. */
  lemma LowerBoundFinds(s: seq<int>, key: int)
    ensures var i := LowerBound(s, key);
      StrictlySorted(s) ==> (key in s <==> i < |s| && s[i] == key)
  {
  }

  /** Inserting a missing key at its lower bound keeps the keys strictly
      ascending and adds exactly that key. */
  lemma InsertAtLowerBoundSorted(s: seq<int>, key: int)
    requires StrictlySorted(s)
    requires key !in s
    ensures var r := InsertAt(s, LowerBound(s, key), key);
      StrictlySorted(r) && forall x :: x in r <==> x in s || x == key
  {
    var i := LowerBound(s, key);
    var r := InsertAt(s, i, key);
    assert r == s[..i] + [key] + s[i..];
    forall a, b | 0 <= a < b < |r|
      ensures r[a] < r[b]
    {
      if b < i {
      } else if b == i {
      } else if a < i {
        assert r[b] == s[b - 1];
      } else if a == i {
        assert i < |s| && key <= s[i] && s[i] != key;
        assert r[b] == s[b - 1];
      } else {
        assert r[a] == s[a - 1] && r[b] == s[b - 1];
      }
    }
    forall x
      ensures x in r <==> x in s || x == key
    {
      if x in s {
        var j :| 0 <= j < |s| && s[j] == x;
        if j < i {
          assert r[j] == x;
        } else {
          assert r[j + 1] == x;
        }
      }
    }
  }

  /** Two strictly ascending runs, every key of the first below every key
      of the second, concatenate to a strictly ascending run. */
  lemma SortedConcat(a: seq<int>, b: seq<int>)
    requires StrictlySorted(a) && StrictlySorted(b)
    requires forall x, y :: x in a && y in b ==> x < y
    ensures StrictlySorted(a + b)
  {
    var r := a + b;
    forall i, j | 0 <= i < j < |r|
      ensures r[i] < r[j]
    {
      if j < |a| {
        assert r[i] == a[i] && r[j] == a[j];
      } else if i < |a| {
        assert r[i] == a[i] && r[j] == b[j - |a|];
        assert a[i] in a && b[j - |a|] in b;
      } else {
        assert r[i] == b[i - |a|] && r[j] == b[j - |a|];
      }
    }
  }

  /** Cutting a strictly ascending run before index m leaves two ascending
      runs, the first below s[m] and the second starting at it. */
  lemma SortedCut(s: seq<int>, m: nat)
    requires StrictlySorted(s) && m < |s|
    ensures StrictlySorted(s[..m]) && StrictlySorted(s[m..])
    ensures forall x :: x in s[..m] ==> x < s[m]
    ensures forall x :: x in s[m..] ==> s[m] <= x
  {
    forall x | x in s[m..] ensures s[m] <= x {
      var j :| 0 <= j < |s| - m && s[m..][j] == x;
      assert s[m..][j] == s[m + j];
    }
  }

  /** std::lower_bound itself: a binary search that, on sorted keys, returns
      the same index as the linear definition above. */
  method BinaryLowerBound(s: seq<int>, key: int) returns (i: nat)
    requires StrictlySorted(s)
    ensures i == LowerBound(s, key)
  {
    var lo, hi := 0, |s|;
    while lo < hi
      invariant 0 <= lo <= hi <= |s|
      invariant forall j :: 0 <= j < lo ==> s[j] < key
      invariant forall j :: hi <= j < |s| ==> key <= s[j]
      decreases hi - lo
    {
      var mid := lo + (hi - lo) / 2;
      if s[mid] < key {
        lo := mid + 1;
      } else {
        hi := mid;
      }
    }
    i := lo;
    LowerBoundUnique(s, key, i);
  }
}
