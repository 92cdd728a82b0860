/**
  Python's list built-ins as the engine uses them: `list.index`, `reversed`
  and the stable `sorted(..., key=...)`, plus the notion of a sequence
  without repeated elements.
 */
module Seqs {

  /** No element occurs twice. */
  predicate Distinct<T(==)>(s: seq<T>) {
    forall i, j :: 0 <= i < j < |s| ==> s[i] != s[j]
  }

  /** `list.index(x)`: the position of the first occurrence of `x`. */
  function FirstIndex<T(==)>(s: seq<T>, x: T): (r: nat)
    requires x in s
    ensures r < |s| && s[r] == x
    ensures forall k :: 0 <= k < r ==> s[k] != x
  {
    if s[0] == x then 0 else 1 + FirstIndex(s[1..], x)
  }

  /** In a sequence without repeats, the first occurrence is the only one. */
  lemma FirstIndexDistinct<T>(s: seq<T>, k: nat)
    requires Distinct(s) && k < |s|
    ensures FirstIndex(s, s[k]) == k
  {
  }

  /** Removing the last element does not move the first occurrence of an earlier element. */
  lemma FirstIndexPrefix<T>(s: seq<T>, x: T)
    requires s != [] && x in s[..|s| - 1]
    ensures FirstIndex(s, x) == FirstIndex(s[..|s| - 1], x)
  {
    var p := s[..|s| - 1];
    var i := FirstIndex(p, x);
    assert s[i] == x;
    assert forall k :: 0 <= k < i ==> s[k] == p[k];
  }

  /** A non-empty sequence holds its first element. */
  lemma HeadIn<T>(r: seq<T>)
    ensures r != [] ==> r[0] in r
  {
  }

  /** Concatenation regroups freely. */
  lemma ConcatAssoc<T>(a: seq<T>, b: seq<T>, c: seq<T>)
    ensures a + b + c == a + (b + c)
  {
  }

  /** Appending an element that is not already there keeps a sequence repeat-free. */
  lemma DistinctSnoc<T>(s: seq<T>, x: T)
    requires Distinct(s) && x !in s
    ensures Distinct(s + [x])
  {
  }

  /** A suffix of a concatenation that starts inside the first part. */
  lemma ConcatSuffix<T>(a: seq<T>, b: seq<T>, k: nat)
    requires k <= |a|
    ensures (a + b)[k..] == a[k..] + b
  {
  }

  /** Cutting `a + x + c` inside `x`. */
  lemma CutInside<T>(a: seq<T>, x: seq<T>, c: seq<T>, i: nat)
    requires i <= |x|
    ensures (a + x + c)[..|a| + i] == a + x[..i]
    ensures (a + x + c)[|a| + i..] == x[i..] + c
  {
  }

  /** `del s[i]`: the elements before `i` stay, the ones after move down by one. */
  lemma RemoveAt<T>(s: seq<T>, i: nat, after: seq<T>)
    requires i < |s| && after == s[..i] + s[i + 1..]
    ensures |after| == |s| - 1
    ensures forall k :: 0 <= k < i ==> after[k] == s[k]
    ensures forall k :: i <= k < |after| ==> after[k] == s[k + 1]
  {
  }

  /** `list(reversed(s))`. */
  function Reverse<T(==)>(s: seq<T>): (r: seq<T>)
    ensures |r| == |s|
    ensures forall k :: 0 <= k < |s| ==> r[k] == s[|s| - 1 - k]
    ensures multiset(r) == multiset(s)
  {
    if s == [] then [] else
    assert s == [s[0]] + s[1..];
    Reverse(s[1..]) + [s[0]]
  }

  /** Ordered by `key`, ties allowed. */
  predicate Ascending<T>(s: seq<T>, key: T -> int) {
    forall i, j :: 0 <= i < j < |s| ==> key(s[i]) <= key(s[j])
  }

  /** Ordered by `key` with no two equal keys. */
  predicate StrictlyAscending<T>(s: seq<T>, key: T -> int) {
    forall i, j :: 0 <= i < j < |s| ==> key(s[i]) < key(s[j])
  }

  /** Ordered by `key` from the largest down, with no two equal keys. */
  predicate StrictlyDescending<T>(s: seq<T>, key: T -> int) {
    forall i, j :: 0 <= i < j < |s| ==> key(s[i]) > key(s[j])
  }

  /** No two elements share a key. */
  predicate DistinctKeys<T>(s: seq<T>, key: T -> int) {
    forall i, j :: 0 <= i < j < |s| ==> key(s[i]) != key(s[j])
  }

  /** The keys of the elements of `s`. */
  function KeySet<T(==)>(s: seq<T>, key: T -> int): set<int> {
    set x | x in s :: key(x)
  }

  /** Places `x` in front of the first element whose key is not smaller (stable insertion). */
  function Insert<T(==)>(x: T, s: seq<T>, key: T -> int): (r: seq<T>)
    ensures multiset(r) == multiset(s) + multiset{x}
    ensures |r| == |s| + 1
  {
    if s == [] || key(x) <= key(s[0]) then [x] + s
    else
      assert s == [s[0]] + s[1..];
      [s[0]] + Insert(x, s[1..], key)
  }

  /** Every element of `Insert(x, s, key)` is `x` or an element of `s`. */
  lemma InsertMembers<T>(x: T, s: seq<T>, key: T -> int, y: T)
    requires y in Insert(x, s, key)
    ensures y == x || y in s
  {
    assert y in multiset(Insert(x, s, key));
  }

  /** Insertion keeps a sequence ordered; with a fresh key, strictly ordered. */
  lemma InsertOrdered<T>(x: T, s: seq<T>, key: T -> int)
    ensures Ascending(s, key) ==> Ascending(Insert(x, s, key), key)
    ensures StrictlyAscending(s, key) && key(x) !in KeySet(s, key) ==> StrictlyAscending(Insert(x, s, key), key)
  {
    if Ascending(s, key) {
      InsertAscending(x, s, key);
    }
    if StrictlyAscending(s, key) && key(x) !in KeySet(s, key) {
      InsertStrict(x, s, key);
    }
  }

  /** Past the first element, insertion places `x` among the remaining ones. */
  lemma InsertTail<T>(x: T, s: seq<T>, key: T -> int, k: nat)
    requires s != [] && key(x) > key(s[0]) && k < |Insert(x, s[1..], key)|
    ensures Insert(x, s, key) == [s[0]] + Insert(x, s[1..], key)
    ensures Insert(x, s[1..], key)[k] == x || exists j :: 1 <= j < |s| && s[j] == Insert(x, s[1..], key)[k]
  {
    var tail := Insert(x, s[1..], key);
    assert tail[k] in tail;
    InsertMembers(x, s[1..], key, tail[k]);
    if tail[k] != x {
      var j :| 0 <= j < |s[1..]| && s[1..][j] == tail[k];
      assert s[j + 1] == tail[k];
    }
  }

  /** Insertion keeps a sequence ordered. */
  lemma {:induction false} InsertAscending<T>(x: T, s: seq<T>, key: T -> int)
    requires Ascending(s, key)
    ensures Ascending(Insert(x, s, key), key)
  {
    if s != [] && key(x) > key(s[0]) {
      var tail := Insert(x, s[1..], key);
      InsertAscending(x, s[1..], key);
      forall k | 0 <= k < |tail| ensures key(s[0]) <= key(tail[k]) {
        InsertTail(x, s, key, k);
      }
      InsertCons(s[0], tail, key);
    }
  }

  /** Insertion of a fresh key keeps a sequence strictly ordered. */
  lemma {:induction false} InsertStrict<T>(x: T, s: seq<T>, key: T -> int)
    requires StrictlyAscending(s, key) && key(x) !in KeySet(s, key)
    ensures StrictlyAscending(Insert(x, s, key), key)
  {
    if s == [] || key(x) <= key(s[0]) {
      assert forall k :: 0 <= k < |s| ==> key(s[k]) in KeySet(s, key);
    } else {
      var tail := Insert(x, s[1..], key);
      assert KeySet(s[1..], key) <= KeySet(s, key);
      InsertStrict(x, s[1..], key);
      forall k | 0 <= k < |tail| ensures key(s[0]) < key(tail[k]) {
        InsertTail(x, s, key, k);
      }
      InsertStrictCons(s[0], tail, key);
    }
  }

  /** An element no larger than all of an ordered sequence can go in front. */
  lemma InsertCons<T>(h: T, t: seq<T>, key: T -> int)
    requires Ascending(t, key) && forall k :: 0 <= k < |t| ==> key(h) <= key(t[k])
    ensures Ascending([h] + t, key)
  {
    assert forall k :: 0 < k < |[h] + t| ==> ([h] + t)[k] == t[k - 1];
  }

  /** An element smaller than all of a strictly ordered sequence can go in front. */
  lemma InsertStrictCons<T>(h: T, t: seq<T>, key: T -> int)
    requires StrictlyAscending(t, key) && forall k :: 0 <= k < |t| ==> key(h) < key(t[k])
    ensures StrictlyAscending([h] + t, key)
  {
    assert forall k :: 0 < k < |[h] + t| ==> ([h] + t)[k] == t[k - 1];
  }

  /** `sorted(s, key=key)`: a stable insertion sort. */
  function SortBy<T(==)>(s: seq<T>, key: T -> int): (r: seq<T>)
    ensures multiset(r) == multiset(s)
    ensures |r| == |s|
    ensures Ascending(r, key)
  {
    if s == [] then []
    else
      assert s == [s[0]] + s[1..];
      var rest := SortBy(s[1..], key);
      InsertOrdered(s[0], rest, key);
      Insert(s[0], rest, key)
  }

  /** When the keys are distinct, sorting orders them strictly. */
  lemma {:induction false} SortByStrict<T>(s: seq<T>, key: T -> int)
    requires DistinctKeys(s, key)
    ensures StrictlyAscending(SortBy(s, key), key)
  {
    if s != [] {
      var rest := SortBy(s[1..], key);
      SortByStrict(s[1..], key);
      assert s == [s[0]] + s[1..];
      assert multiset(rest) == multiset(s[1..]);
      forall y | y in rest ensures key(y) != key(s[0]) {
        assert y in multiset(s[1..]);
        var k :| 0 <= k < |s[1..]| && s[1..][k] == y;
        assert s[k + 1] == y;
      }
      InsertOrdered(s[0], rest, key);
    }
  }

  /** Reversing a strictly ascending sequence gives a strictly descending one. */
  lemma ReverseDescending<T>(s: seq<T>, key: T -> int)
    requires StrictlyAscending(s, key)
    ensures StrictlyDescending(Reverse(s), key)
  {
  }

  /** Reordering does not create repeats. */
  lemma DistinctPermutation<T>(a: seq<T>, b: seq<T>)
    requires Distinct(a) && multiset(a) == multiset(b)
    ensures Distinct(b)
  {
    forall i, j | 0 <= i < j < |b| ensures b[i] != b[j] {
      if b[i] == b[j] {
        assert multiset(b)[b[i]] >= 2 by {
          assert b == b[..i] + [b[i]] + b[i + 1..j] + [b[j]] + b[j + 1..];
        }
        DistinctCount(a, b[i]);
        assert false;
      }
    }
  }

  /** In a sequence without repeats an element occurs at most once. */
  lemma {:induction false} DistinctCount<T>(s: seq<T>, x: T)
    requires Distinct(s)
    ensures multiset(s)[x] <= 1
  {
    if s != [] {
      assert s == [s[0]] + s[1..];
      DistinctCount(s[1..], x);
      if s[0] == x {
        assert x !in s[1..];
      }
    }
  }

  /** The elements of a sequence without repeats are as many as its length. */
  lemma {:induction false} DistinctCard<T>(s: seq<T>)
    requires Distinct(s)
    ensures |set x | x in s| == |s|
  {
    if s != [] {
      DistinctCard(s[1..]);
      assert (set x | x in s) == (set x | x in s[1..]) + {s[0]};
      assert s[0] !in s[1..];
    }
  }
}
