/** Ranking a generation by score: numpy's argmin and argsort, over exact reals. */
module Ranking {

  /** Index of the first smallest score, the index numpy's argmin returns. */
  function FirstArgMin(s: seq<real>): (k: nat)
    requires |s| > 0
    ensures k < |s|
  {
    if |s| == 1 then 0
    else
      var k := FirstArgMin(s[..|s| - 1]);
      if s[|s| - 1] < s[k] then |s| - 1 else k
  }

  /** FirstArgMin finds a smallest score, and every score before it is
      strictly larger: it is the first occurrence of the minimum. */
  lemma {:induction false} FirstArgMinIsFirstMinimum(s: seq<real>)
    requires |s| > 0
    ensures forall j :: 0 <= j < |s| ==> s[FirstArgMin(s)] <= s[j]
    ensures forall j :: 0 <= j < FirstArgMin(s) ==> s[FirstArgMin(s)] < s[j]
  {
    if |s| > 1 {
      var init := s[..|s| - 1];
      FirstArgMinIsFirstMinimum(init);
      assert forall j :: 0 <= j < |init| ==> init[j] == s[j];
    }
  }

  /** The indices 0, 1, ..., n - 1 in order. */
  function Range(n: nat): (r: seq<nat>)
    ensures |r| == n
  {
    if n == 0 then [] else Range(n - 1) + [n - 1]
  }

  /** Every entry of order is an index of a sequence of length n. */
  predicate IndicesBelow(order: seq<nat>, n: nat) {
    forall i :: 0 <= i < |order| ==> order[i] < n
  }

  /** Following order visits scores that never decrease. */
  predicate SortedBy(order: seq<nat>, s: seq<real>) {
    IndicesBelow(order, |s|) &&
    forall i, j :: 0 <= i <= j < |order| ==> s[order[i]] <= s[order[j]]
  }

  /** What argsort promises: order lists every index of s exactly once, and
      in order of non-decreasing score. How ties are broken is not fixed. */
  predicate IsSortingPermutation(order: seq<nat>, s: seq<real>) {
    |order| == |s| && multiset(order) == multiset(Range(|s|)) && SortedBy(order, s)
  }

  /** Inserts index i into an order, before the first index whose score is
      above s[i], so that i comes after the indices that tie with it. */
  function InsertIndex(order: seq<nat>, i: nat, s: seq<real>): (r: seq<nat>)
    requires i < |s| && IndicesBelow(order, |s|)
    ensures |r| == |order| + 1 && IndicesBelow(r, |s|)
  {
    if order == [] then [i]
    else if s[i] < s[order[0]] then [i] + order
    else [order[0]] + InsertIndex(order[1..], i, s)
  }

  /** Insertion adds exactly i. */
  lemma {:induction false} InsertIndexCount(order: seq<nat>, i: nat, s: seq<real>)
    requires i < |s| && IndicesBelow(order, |s|)
    ensures multiset(InsertIndex(order, i, s)) == multiset(order) + multiset{i}
  {
    if order != [] && s[order[0]] <= s[i] {
      var head, tail := order[0], order[1..];
      InsertIndexCount(tail, i, s);
      assert order == [head] + tail;
      assert InsertIndex(order, i, s) == [head] + InsertIndex(tail, i, s);
    }
  }

  /** Insertion keeps a sorted order sorted. */
  lemma {:induction false} InsertIndexSorts(order: seq<nat>, i: nat, s: seq<real>)
    requires i < |s| && SortedBy(order, s)
    ensures SortedBy(InsertIndex(order, i, s), s)
  {
    if order == [] {
    } else if s[i] < s[order[0]] {
      HeadBelowAll(order, i, s);
    } else {
      var tail := order[1..];
      var rest := InsertIndex(tail, i, s);
      SortedTail(order, s);
      InsertIndexSorts(tail, i, s);
      InsertIndexCount(tail, i, s);
      HeadBelowInsert(order, i, s, rest);
    }
  }

  /** The tail of a sorted order is sorted. */
  lemma SortedTail(order: seq<nat>, s: seq<real>)
    requires SortedBy(order, s) && order != []
    ensures SortedBy(order[1..], s)
  {
    var tail := order[1..];
    forall a, b | 0 <= a <= b < |tail|
      ensures s[tail[a]] <= s[tail[b]]
    {
      assert tail[a] == order[a + 1] && tail[b] == order[b + 1];
    }
  }

  /** An index scoring below the head of a sorted order may go in front. */
  lemma HeadBelowAll(order: seq<nat>, i: nat, s: seq<real>)
    requires i < |s| && SortedBy(order, s) && order != []
    requires s[i] < s[order[0]]
    ensures SortedBy([i] + order, s)
  {
    var r := [i] + order;
    forall a, b | 0 <= a <= b < |r|
      ensures s[r[a]] <= s[r[b]]
    {
      if a > 0 {
        assert r[a] == order[a - 1] && r[b] == order[b - 1];
      } else if b > 0 {
        assert r[b] == order[b - 1];
      }
    }
  }

  /** Every index in the insertion result scores at least the head of order
      when i itself does, so the head may stay in front. */
  lemma HeadBelowInsert(order: seq<nat>, i: nat, s: seq<real>, rest: seq<nat>)
    requires i < |s| && SortedBy(order, s) && order != []
    requires s[order[0]] <= s[i]
    requires SortedBy(rest, s) && multiset(rest) == multiset(order[1..]) + multiset{i}
    ensures SortedBy([order[0]] + rest, s)
  {
    forall k | 0 <= k < |rest|
      ensures s[order[0]] <= s[rest[k]]
    {
      assert rest[k] in multiset(rest);
      if rest[k] != i {
        assert rest[k] in multiset(order[1..]);
        var m :| 0 <= m < |order[1..]| && order[1..][m] == rest[k];
        assert order[m + 1] == rest[k];
      }
    }
    var r := [order[0]] + rest;
    forall a, b | 0 <= a <= b < |r|
      ensures s[r[a]] <= s[r[b]]
    {
      if a > 0 {
        assert r[a] == rest[a - 1] && r[b] == rest[b - 1];
      } else if b > 0 {
        assert r[b] == rest[b - 1];
      }
    }
  }

  /** Sorts the first n indices of s by score. */
  function ArgSortPrefix(s: seq<real>, n: nat): (r: seq<nat>)
    requires n <= |s|
    ensures |r| == n && IndicesBelow(r, |s|)
  {
    if n == 0 then []
    else InsertIndex(ArgSortPrefix(s, n - 1), n - 1, s)
  }

  /** The first n indices, sorted by score. */
  lemma {:induction false} ArgSortPrefixSorted(s: seq<real>, n: nat)
    requires n <= |s|
    ensures SortedBy(ArgSortPrefix(s, n), s)
  {
    if n > 0 {
      ArgSortPrefixSorted(s, n - 1);
      InsertIndexSorts(ArgSortPrefix(s, n - 1), n - 1, s);
    }
  }

  /** The first n indices, each exactly once. */
  lemma {:induction false} ArgSortPrefixCount(s: seq<real>, n: nat)
    requires n <= |s|
    ensures multiset(ArgSortPrefix(s, n)) == multiset(Range(n))
  {
    if n > 0 {
      ArgSortPrefixCount(s, n - 1);
      InsertIndexCount(ArgSortPrefix(s, n - 1), n - 1, s);
      var last: nat := n - 1;
      assert Range(n) == Range(n - 1) + [last];
    }
  }

  /** The model of numpy's argsort: the indices of s by score, ties in
      index order (the order a stable sort returns). */
  function ArgSort(s: seq<real>): (r: seq<nat>)
    ensures |r| == |s| && IndicesBelow(r, |s|)
  {
    ArgSortPrefix(s, |s|)
  }

  /** ArgSort returns a sorting permutation of s. */
  lemma ArgSortSorts(s: seq<real>)
    ensures IsSortingPermutation(ArgSort(s), s)
  {
    ArgSortPrefixSorted(s, |s|);
    ArgSortPrefixCount(s, |s|);
  }

  /** Indices of equal score appear in increasing index order. */
  predicate StableBy(order: seq<nat>, s: seq<real>)
    requires IndicesBelow(order, |s|)
  {
    forall i, j :: 0 <= i < j < |order| && s[order[i]] == s[order[j]] ==> order[i] < order[j]
  }

  /** Inserting an index above every index of a sorted, stable order keeps
      it stable: i goes after every index that ties with it. */
  lemma {:induction false} InsertIndexStable(order: seq<nat>, i: nat, s: seq<real>)
    requires i < |s| && SortedBy(order, s) && StableBy(order, s)
    requires forall k :: 0 <= k < |order| ==> order[k] < i
    ensures StableBy(InsertIndex(order, i, s), s)
  {
    var r := InsertIndex(order, i, s);
    if order == [] {
    } else if s[i] < s[order[0]] {
      forall b | 0 < b < |r|
        ensures s[r[0]] < s[r[b]]
      {
        assert r[b] == order[b - 1];
      }
      forall a, b | 0 < a < b < |r| && s[r[a]] == s[r[b]]
        ensures r[a] < r[b]
      {
        assert r[a] == order[a - 1] && r[b] == order[b - 1];
      }
    } else {
      var tail := order[1..];
      var rest := InsertIndex(tail, i, s);
      SortedTail(order, s);
      InsertIndexSorts(tail, i, s);
      InsertIndexCount(tail, i, s);
      InsertIndexStable(tail, i, s);
      HeadStableInsert(order, i, s, rest);
    }
  }

  /** The head of a stable order may stay in front of the insertion result
      when it scores at most s[i]: every later index that ties with it is
      either i, which is larger, or came after it in order. */
  lemma HeadStableInsert(order: seq<nat>, i: nat, s: seq<real>, rest: seq<nat>)
    requires i < |s| && SortedBy(order, s) && StableBy(order, s) && order != []
    requires order[0] < i
    requires SortedBy(rest, s) && StableBy(rest, s) && multiset(rest) == multiset(order[1..]) + multiset{i}
    ensures IndicesBelow([order[0]] + rest, |s|)
    ensures StableBy([order[0]] + rest, s)
  {
    var r := [order[0]] + rest;
    forall a, b | 0 <= a < b < |r| && s[r[a]] == s[r[b]]
      ensures r[a] < r[b]
    {
      if a == 0 {
        assert r[b] == rest[b - 1] && rest[b - 1] in multiset(rest);
        if rest[b - 1] != i {
          assert rest[b - 1] in multiset(order[1..]);
          var m :| 0 <= m < |order[1..]| && order[1..][m] == rest[b - 1];
          assert order[m + 1] == r[b];
        }
      } else {
        assert r[a] == rest[a - 1] && r[b] == rest[b - 1];
      }
    }
  }

  /** Inserting an index below b into indices below b keeps them below b. */
  lemma {:induction false} InsertIndexBelow(order: seq<nat>, i: nat, s: seq<real>, b: nat)
    requires i < |s| && IndicesBelow(order, |s|)
    requires IndicesBelow(order, b) && i < b
    ensures IndicesBelow(InsertIndex(order, i, s), b)
  {
    if order != [] && s[order[0]] <= s[i] {
      var tail := order[1..];
      InsertIndexBelow(tail, i, s, b);
      assert InsertIndex(order, i, s) == [order[0]] + InsertIndex(tail, i, s);
    }
  }

  /** Sorting the first n indices yields only indices below n. */
  lemma {:induction false} ArgSortPrefixBelow(s: seq<real>, n: nat)
    requires n <= |s|
    ensures IndicesBelow(ArgSortPrefix(s, n), n)
  {
    if n > 0 {
      ArgSortPrefixBelow(s, n - 1);
      InsertIndexBelow(ArgSortPrefix(s, n - 1), n - 1, s, n);
    }
  }

  /** The first n indices of s, sorted by score, with ties in index order. */
  lemma {:induction false} ArgSortPrefixStable(s: seq<real>, n: nat)
    requires n <= |s|
    ensures StableBy(ArgSortPrefix(s, n), s)
  {
    if n > 0 {
      var prev := ArgSortPrefix(s, n - 1);
      ArgSortPrefixStable(s, n - 1);
      ArgSortPrefixSorted(s, n - 1);
      ArgSortPrefixBelow(s, n - 1);
      InsertIndexStable(prev, n - 1, s);
    }
  }

  /** ArgSort breaks ties by index: of two indices with equal scores, the
      smaller comes first. */
  lemma ArgSortStable(s: seq<real>)
    ensures StableBy(ArgSort(s), s)
  {
    ArgSortPrefixStable(s, |s|);
  }

  /** A multiset count of Range(n): each index below n occurs once. */
  lemma {:induction false} RangeCount(n: nat, x: nat)
    ensures x < n ==> multiset(Range(n))[x] == 1
    ensures x >= n ==> multiset(Range(n))[x] == 0
  {
    if n > 0 {
      var last: nat := n - 1;
      var prefix := Range(last);
      RangeCount(last, x);
      assert Range(n) == prefix + [last];
      assert multiset(Range(n)) == multiset(prefix) + multiset{last};
    }
  }

  /** A sorting permutation visits each index of s exactly once. */
  lemma PermutationIndices(order: seq<nat>, s: seq<real>)
    requires IsSortingPermutation(order, s)
    ensures |order| == |s|
    ensures forall q :: 0 <= q < |s| ==> q in order
    ensures forall i, j :: 0 <= i < j < |order| ==> order[i] != order[j]
  {
    forall q | 0 <= q < |s|
      ensures q in order
    {
      RangeCount(|s|, q);
      assert q in multiset(order);
    }
    forall i, j | 0 <= i < j < |order|
      ensures order[i] != order[j]
    {
      if order[i] == order[j] {
        var x := order[i];
        assert order == order[..j] + order[j..];
        assert x in order[..j] && x in order[j..];
        assert multiset(order)[x] == multiset(order[..j])[x] + multiset(order[j..])[x];
        assert multiset(order)[x] >= 2;
        RangeCount(|s|, x);
        assert false;
      }
    }
  }

  /** Truncation selection keeps the first k positions of a sorting
      permutation. No kept index is kept twice, and every kept score is at
      most every score left out, whichever way ties were broken. */
  lemma KeptScoresAreLowest(order: seq<nat>, s: seq<real>, k: nat)
    requires IsSortingPermutation(order, s) && k <= |s|
    ensures forall i, j :: 0 <= i < j < k ==> order[i] != order[j]
    ensures forall i, q :: 0 <= i < k && 0 <= q < |s| && q !in order[..k] ==> s[order[i]] <= s[q]
  {
    PermutationIndices(order, s);
    forall i, q | 0 <= i < k && 0 <= q < |s| && q !in order[..k]
      ensures s[order[i]] <= s[q]
    {
      assert q in order;
      var j :| 0 <= j < |order| && order[j] == q;
    }
  }

  /** When ties are in index order, an index left out by truncation at k
      that ties with a kept index is larger than it. */
  lemma KeptTiesComeFirst(order: seq<nat>, s: seq<real>, k: nat)
    requires IsSortingPermutation(order, s) && StableBy(order, s) && k <= |s|
    ensures forall i, q :: 0 <= i < k && 0 <= q < |s| && q !in order[..k] && s[order[i]] == s[q] ==> order[i] < q
  {
    PermutationIndices(order, s);
    forall i, q | 0 <= i < k && 0 <= q < |s| && q !in order[..k] && s[order[i]] == s[q]
      ensures order[i] < q
    {
      assert q in order;
      var j :| 0 <= j < |order| && order[j] == q;
      forall m | 0 <= m < k
        ensures order[m] != q
      {
        assert order[..k][m] == order[m];
      }
    }
  }
}
