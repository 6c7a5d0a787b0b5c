/** Ranking by vote count. Both result screens sort with JavaScript's
    `Array.prototype.sort` and the comparator `(a, b) => b.count - a.count`; that sort
    is stable, so the outcome is: non-increasing by count, and nominees with equal
    counts keep the order they had. `SortedDesc` and `SameTies` state those two facts
    for any element type and any count function. */
module Tally {

  ghost predicate SortedDesc<T>(s: seq<T>, key: T -> int) {
    forall i, j :: 0 <= i < j < |s| ==> key(s[i]) >= key(s[j])
  }

  /** The elements of s whose count is k, in the order of s. */
  function WithKey<T>(s: seq<T>, key: T -> int, k: int): seq<T> {
    if s == [] then [] else WithKey(s[..|s| - 1], key, k) + (if key(s[|s| - 1]) == k then [s[|s| - 1]] else [])
  }

  /** Stability: for every count, a and b list the elements with that count in the same order. */
  ghost predicate SameTies<T>(a: seq<T>, b: seq<T>, key: T -> int) {
    forall k :: WithKey(a, key, k) == WithKey(b, key, k)
  }

  /** What a stable descending sort guarantees of its output r for input s. */
  ghost predicate RankingOf<T>(r: seq<T>, s: seq<T>, key: T -> int) {
    SortedDesc(r, key) && multiset(r) == multiset(s) && SameTies(r, s, key)
  }

  lemma {:induction false} WithKeyConcat<T>(a: seq<T>, b: seq<T>, key: T -> int, k: int)
    ensures WithKey(a + b, key, k) == WithKey(a, key, k) + WithKey(b, key, k)
  {
    if b == [] {
      assert a + b == a;
    } else {
      var b' := b[..|b| - 1];
      assert (a + b)[..|a + b| - 1] == a + b';
      WithKeyConcat(a, b', key, k);
    }
  }

  lemma {:induction false} WithKeyAbsent<T>(s: seq<T>, key: T -> int, k: int)
    requires forall i :: 0 <= i < |s| ==> key(s[i]) != k
    ensures WithKey(s, key, k) == []
  {
    if s != [] {
      WithKeyAbsent(s[..|s| - 1], key, k);
    }
  }

  /** Insert x into a ranked list after every element whose count is at least x's. */
  function Insert<T>(x: T, s: seq<T>, key: T -> int): (r: seq<T>)
    ensures multiset(r) == multiset(s) + multiset{x}
    ensures |r| == |s| + 1
  {
    if s == [] then [x]
    else if key(s[0]) < key(x) then [x] + s
    else
      assert s == [s[0]] + s[1..];
      [s[0]] + Insert(x, s[1..], key)
  }

  /** Inserting an element no higher than a bound b into a list no higher than b
      keeps the list no higher than b. */
  lemma {:induction false} InsertBounded<T>(x: T, s: seq<T>, key: T -> int, b: int)
    requires key(x) <= b
    requires forall i :: 0 <= i < |s| ==> key(s[i]) <= b
    ensures forall i :: 0 <= i < |Insert(x, s, key)| ==> key(Insert(x, s, key)[i]) <= b
  {
    if s != [] && key(s[0]) >= key(x) {
      InsertBounded(x, s[1..], key, b);
    }
  }

  lemma {:induction false} InsertSorted<T>(x: T, s: seq<T>, key: T -> int)
    requires SortedDesc(s, key)
    ensures SortedDesc(Insert(x, s, key), key)
  {
    if s != [] && key(s[0]) >= key(x) {
      var tail := s[1..];
      InsertSorted(x, tail, key);
      InsertBounded(x, tail, key, key(s[0]));
      assert Insert(x, s, key) == [s[0]] + Insert(x, tail, key);
    }
  }

  lemma WithKeySingle<T>(x: T, key: T -> int, k: int)
    ensures WithKey([x], key, k) == if key(x) == k then [x] else []
  {
    assert [x][..0] == [];
  }

  /** x goes in front of a list whose counts are all below x's. */
  lemma InsertFrontTies<T>(x: T, s: seq<T>, key: T -> int, k: int)
    requires forall i :: 0 <= i < |s| ==> key(s[i]) < key(x)
    ensures WithKey([x] + s, key, k) == WithKey(s, key, k) + WithKey([x], key, k)
  {
    WithKeyConcat([x], s, key, k);
    WithKeySingle(x, key, k);
    if k == key(x) {
      WithKeyAbsent(s, key, k);
    }
  }

  lemma {:induction false} InsertTies<T>(x: T, s: seq<T>, key: T -> int, k: int)
    requires SortedDesc(s, key)
    ensures WithKey(Insert(x, s, key), key, k) == WithKey(s, key, k) + WithKey([x], key, k)
    decreases |s|, 1
  {
    if s == [] {
      assert Insert(x, s, key) == [x];
      assert WithKey(s, key, k) == [];
    } else if key(s[0]) < key(x) {
      assert Insert(x, s, key) == [x] + s;
      InsertFrontTies(x, s, key, k);
    } else {
      InsertTiesBehind(x, s, key, k);
    }
  }

  /** x goes behind the head s[0], into the ranking of the tail. */
  lemma {:induction false} InsertTiesBehind<T>(x: T, s: seq<T>, key: T -> int, k: int)
    requires SortedDesc(s, key) && s != [] && key(s[0]) >= key(x)
    ensures WithKey(Insert(x, s, key), key, k) == WithKey(s, key, k) + WithKey([x], key, k)
    decreases |s|, 0
  {
    var head, tail := [s[0]], s[1..];
    var rest := Insert(x, tail, key);
    SortedTail(s, key);
    InsertTies(x, tail, key, k);
    assert Insert(x, s, key) == head + rest;
    assert s == head + tail;
    WithKeyConcat(head, rest, key, k);
    WithKeyConcat(head, tail, key, k);
    ConcatAssoc(WithKey(head, key, k), WithKey(tail, key, k), WithKey([x], key, k));
  }

  lemma ConcatAssoc<T>(a: seq<T>, b: seq<T>, c: seq<T>)
    ensures a + (b + c) == (a + b) + c
  {
  }

  lemma SortedTail<T>(s: seq<T>, key: T -> int)
    requires s != [] && SortedDesc(s, key)
    ensures SortedDesc(s[1..], key)
  {
    var t := s[1..];
    forall i, j | 0 <= i < j < |t| ensures key(t[i]) >= key(t[j]) {
      assert t[i] == s[i + 1] && t[j] == s[j + 1];
    }
  }

  /** The stable descending sort, as the insertion of each element, from the last one
      back, into the ranking of the elements before it. */
  function RankDesc<T>(s: seq<T>, key: T -> int): (r: seq<T>)
    ensures |r| == |s|
  {
    if s == [] then [] else Insert(s[|s| - 1], RankDesc(s[..|s| - 1], key), key)
  }

  lemma {:induction false} RankDescIsRanking<T>(s: seq<T>, key: T -> int)
    ensures RankingOf(RankDesc(s, key), s, key)
  {
    if s != [] {
      var pre, x := s[..|s| - 1], s[|s| - 1];
      assert s == pre + [x];
      RankDescIsRanking(pre, key);
      InsertSorted(x, RankDesc(pre, key), key);
      forall k ensures WithKey(RankDesc(s, key), key, k) == WithKey(s, key, k) {
        InsertTies(x, RankDesc(pre, key), key, k);
        WithKeyConcat(pre, [x], key, k);
      }
    }
  }

  /** Swapping two neighbours with different counts keeps the order within every count. */
  lemma SwapKeepsTies<T>(s: seq<T>, j: int, key: T -> int)
    requires 0 < j < |s| && key(s[j - 1]) != key(s[j])
    ensures SameTies(s[j - 1 := s[j]][j := s[j - 1]], s, key)
  {
    var t := s[j - 1 := s[j]][j := s[j - 1]];
    var pre, post := s[..j - 1], s[j + 1..];
    assert s == pre + [s[j - 1], s[j]] + post;
    assert t == pre + [s[j], s[j - 1]] + post;
    forall k ensures WithKey(t, key, k) == WithKey(s, key, k) {
      WithKeyConcat(pre + [s[j], s[j - 1]], post, key, k);
      WithKeyConcat(pre, [s[j], s[j - 1]], key, k);
      WithKeyConcat(pre + [s[j - 1], s[j]], post, key, k);
      WithKeyConcat(pre, [s[j - 1], s[j]], key, k);
      WithKeyConcat([s[j]], [s[j - 1]], key, k);
      WithKeyConcat([s[j - 1]], [s[j]], key, k);
      assert [s[j]] + [s[j - 1]] == [s[j], s[j - 1]];
      assert [s[j - 1]] + [s[j]] == [s[j - 1], s[j]];
      if key(s[j]) == k {
        WithKeyAbsent([s[j - 1]], key, k);
      } else {
        WithKeyAbsent([s[j]], key, k);
      }
    }
  }

  /** Midway through a pass: a[..i + 1] is ranked except at position j, and the element
      at j has a strictly larger count than everything after it up to i. */
  ghost predicate Sifting<T>(s: seq<T>, i: int, j: int, key: T -> int) {
    0 <= j <= i < |s| &&
    (forall p, q :: 0 <= p < q <= i && p != j && q != j ==> key(s[p]) >= key(s[q])) &&
    (forall q :: j < q <= i ==> key(s[j]) > key(s[q]))
  }

  /** The loop invariant of a pass over the original contents orig: s is a
      rearrangement of orig keeping the order within every count, and is sifting. */
  ghost predicate SiftingFrom<T>(s: seq<T>, orig: seq<T>, i: int, j: int, key: T -> int) {
    Sifting(s, i, j, key) && multiset(s) == multiset(orig) && SameTies(s, orig, key)
  }

  lemma SiftStart<T>(s: seq<T>, i: int, key: T -> int)
    requires 0 <= i < |s| && SortedDesc(s[..i], key)
    ensures SiftingFrom(s, s, i, i, key)
  {
    forall p, q | 0 <= p < q <= i && p != i && q != i ensures key(s[p]) >= key(s[q]) {
      assert s[p] == s[..i][p] && s[q] == s[..i][q];
    }
  }

  /** One swap of the pass moves the gap one place left, keeps the elements, and keeps
      the order within every count. */
  lemma SiftSwap<T>(s: seq<T>, orig: seq<T>, i: int, j: int, key: T -> int)
    requires SiftingFrom(s, orig, i, j, key) && j > 0 && key(s[j - 1]) < key(s[j])
    ensures SiftingFrom(s[j - 1 := s[j]][j := s[j - 1]], orig, i, j - 1, key)
  {
    var t := s[j - 1 := s[j]][j := s[j - 1]];
    SwapKeepsTies(s, j, key);
    forall k ensures WithKey(t, key, k) == WithKey(orig, key, k) {
      assert WithKey(t, key, k) == WithKey(s, key, k);
    }
  }

  /** The pass stops where the element meets a count at least its own, or at the front. */
  lemma SiftDone<T>(s: seq<T>, orig: seq<T>, i: int, j: int, key: T -> int)
    requires SiftingFrom(s, orig, i, j, key) && (j == 0 || key(s[j - 1]) >= key(s[j]))
    ensures SortedDesc(s[..i + 1], key) && multiset(s) == multiset(orig) && SameTies(s, orig, key)
  {
    var r := s[..i + 1];
    forall p, q | 0 <= p < q < |r| ensures key(r[p]) >= key(r[q]) {
      assert r[p] == s[p] && r[q] == s[q];
      if p == j {
      } else if q == j {
        assert key(s[p]) >= key(s[j - 1]);
      }
    }
  }

  /** One pass of the insertion sort: a[..i] is ranked; move a[i] left past the
      elements with a strictly smaller count. */
  method SiftLeft<T>(a: array<T>, i: int, key: T -> int)
    requires 0 <= i < a.Length
    requires SortedDesc(a[..i], key)
    modifies a
    ensures SortedDesc(a[..i + 1], key)
    ensures multiset(a[..]) == multiset(old(a[..]))
    ensures SameTies(a[..], old(a[..]), key)
  {
    ghost var orig := a[..];
    SiftStart(orig, i, key);
    var j := i;
    while j > 0 && key(a[j - 1]) < key(a[j])
      invariant SiftingFrom(a[..], orig, i, j, key)
    {
      ghost var before := a[..];
      SiftSwap(before, orig, i, j, key);
      a[j - 1], a[j] := a[j], a[j - 1];
      assert a[..] == before[j - 1 := before[j]][j := before[j - 1]];
      j := j - 1;
    }
    SiftDone(a[..], orig, i, j, key);
  }

  /** The in-place `results.sort(...)`: insertion sort by adjacent swaps, moving each
      element left past those with a strictly smaller count only, which keeps ties in order. */
  method SortDescInPlace<T>(a: array<T>, key: T -> int)
    modifies a
    ensures RankingOf(a[..], old(a[..]), key)
  {
    var i := 0;
    while i < a.Length
      invariant 0 <= i <= a.Length
      invariant SortedDesc(a[..i], key)
      invariant multiset(a[..]) == multiset(old(a[..]))
      invariant SameTies(a[..], old(a[..]), key)
    {
      SiftLeft(a, i, key);
      i := i + 1;
    }
    assert a[..a.Length] == a[..];
  }

  /** `s.reduce((sum, x) => sum + key(x), 0)`. */
  function SumKey<T>(s: seq<T>, key: T -> int): int {
    if s == [] then 0 else SumKey(s[..|s| - 1], key) + key(s[|s| - 1])
  }

  lemma {:induction false} SumKeyConcat<T>(a: seq<T>, b: seq<T>, key: T -> int)
    ensures SumKey(a + b, key) == SumKey(a, key) + SumKey(b, key)
  {
    if b == [] {
      assert a + b == a;
    } else {
      assert (a + b)[..|a + b| - 1] == a + b[..|b| - 1];
      SumKeyConcat(a, b[..|b| - 1], key);
    }
  }

  lemma {:induction false} InsertSum<T>(x: T, s: seq<T>, key: T -> int)
    ensures SumKey(Insert(x, s, key), key) == SumKey(s, key) + key(x)
  {
    assert [x][..0] == [];
    if s == [] {
    } else if key(s[0]) < key(x) {
      SumKeyConcat([x], s, key);
    } else {
      InsertSum(x, s[1..], key);
      SumKeyConcat([s[0]], Insert(x, s[1..], key), key);
      SumKeyConcat([s[0]], s[1..], key);
      assert s == [s[0]] + s[1..];
      assert [s[0]][..0] == [];
    }
  }

  /** Ranking does not change the total. */
  lemma {:induction false} RankDescSum<T>(s: seq<T>, key: T -> int)
    ensures SumKey(RankDesc(s, key), key) == SumKey(s, key)
  {
    if s != [] {
      RankDescSum(s[..|s| - 1], key);
      InsertSum(s[|s| - 1], RankDesc(s[..|s| - 1], key), key);
    }
  }
}
