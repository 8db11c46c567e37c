/**
 * The sorting helpers of the polling generation (utilities.c): a top-down
 * merge sort that splits at half the length and takes from the left run on
 * ties, and `compact`, which squeezes out consecutive duplicates and fills
 * the freed tail with 0xFFFF. The C code works on `int` arrays in place;
 * here the array is a sequence, and the sort is stated for any element type
 * ordered by an integer key so that its stability can be expressed (for
 * plain ints the key is the value itself).
 */
module Utilities {

  const FILL: int := 0xFFFF

  function Id(x: int): int { x }

  ghost predicate SortedBy<T>(s: seq<T>, key: T -> int)
  {
    forall i, j :: 0 <= i < j < |s| ==> key(s[i]) <= key(s[j])
  }

  ghost predicate Sorted(s: seq<int>)
  {
    forall i, j :: 0 <= i < j < |s| ==> s[i] <= s[j]
  }

  /** The elements of `s` whose key is `k`, in order. */
  function WithKey<T>(s: seq<T>, key: T -> int, k: int): (r: seq<T>)
    ensures |r| <= |s|
  {
    if |s| == 0 then []
    else (if key(s[0]) == k then [s[0]] else []) + WithKey(s[1..], key, k)
  }

  /** `merge`: repeatedly takes the smaller head, the left one on ties. */
  function Merge<T>(a: seq<T>, b: seq<T>, key: T -> int): (r: seq<T>)
    ensures |r| == |a| + |b|
    decreases |a| + |b|
  {
    if |a| == 0 then b
    else if |b| == 0 then a
    else if key(a[0]) <= key(b[0]) then [a[0]] + Merge(a[1..], b, key)
    else [b[0]] + Merge(a, b[1..], key)
  }

  /** `merge_sort`: ranges of at most one element are left alone; longer ones
      are split at half their length, both halves sorted and merged. */
  function MergeSort<T>(s: seq<T>, key: T -> int): (r: seq<T>)
    ensures |r| == |s|
    ensures |s| <= 1 ==> r == s
    decreases |s|
  {
    if |s| <= 1 then s
    else
      var mid := |s| / 2;
      Merge(MergeSort(s[..mid], key), MergeSort(s[mid..], key), key)
  }

  // ---------------------------------------------------------------------
  // Properties of the sort

  /** Merging loses and invents nothing. */
  lemma {:induction false} MergePermutes<T>(a: seq<T>, b: seq<T>, key: T -> int)
    ensures multiset(Merge(a, b, key)) == multiset(a) + multiset(b)
    decreases |a| + |b|
  {
    if |a| > 0 && |b| > 0 {
      if key(a[0]) <= key(b[0]) {
        var tail := a[1..];
        assert multiset(a) == multiset{a[0]} + multiset(tail) by {
          assert a == [a[0]] + tail;
        }
        MergePermutes(tail, b, key);
      } else {
        var tail := b[1..];
        assert multiset(b) == multiset{b[0]} + multiset(tail) by {
          assert b == [b[0]] + tail;
        }
        MergePermutes(a, tail, key);
      }
    }
  }

  /** The sort is a permutation of its input. */
  lemma {:induction false} MergeSortPermutes<T>(s: seq<T>, key: T -> int)
    ensures multiset(MergeSort(s, key)) == multiset(s)
    decreases |s|
  {
    if |s| > 1 {
      var mid := |s| / 2;
      var lo, hi := s[..mid], s[mid..];
      assert s == lo + hi;
      assert multiset(s) == multiset(lo) + multiset(hi);
      MergeSortPermutes(lo, key);
      MergeSortPermutes(hi, key);
      assert MergeSort(s, key) == Merge(MergeSort(lo, key), MergeSort(hi, key), key);
      MergePermutes(MergeSort(lo, key), MergeSort(hi, key), key);
    }
  }

  lemma {:induction false} MergeHead<T>(a: seq<T>, b: seq<T>, key: T -> int)
    requires |a| + |b| > 0
    ensures var r := Merge(a, b, key);
      (|a| > 0 && r[0] == a[0]) || (|b| > 0 && r[0] == b[0])
  {
  }

  lemma {:induction false} MergeSorted<T>(a: seq<T>, b: seq<T>, key: T -> int)
    requires SortedBy(a, key) && SortedBy(b, key)
    ensures SortedBy(Merge(a, b, key), key)
    decreases |a| + |b|
  {
    if |a| > 0 && |b| > 0 {
      var r := Merge(a, b, key);
      if key(a[0]) <= key(b[0]) {
        MergeSorted(a[1..], b, key);
        var rest := Merge(a[1..], b, key);
        if |rest| > 0 {
          MergeHead(a[1..], b, key);
        }
        assert r == [a[0]] + rest;
      } else {
        MergeSorted(a, b[1..], key);
        var rest := Merge(a, b[1..], key);
        MergeHead(a, b[1..], key);
        assert r == [b[0]] + rest;
      }
    }
  }

  /** The result of the sort is ordered by key. */
  lemma {:induction false} MergeSortSorted<T>(s: seq<T>, key: T -> int)
    ensures SortedBy(MergeSort(s, key), key)
    decreases |s|
  {
    if |s| > 1 {
      var mid := |s| / 2;
      MergeSortSorted(s[..mid], key);
      MergeSortSorted(s[mid..], key);
      MergeSorted(MergeSort(s[..mid], key), MergeSort(s[mid..], key), key);
    }
  }

  lemma {:induction false} WithKeyAppend<T>(a: seq<T>, b: seq<T>, key: T -> int, k: int)
    ensures WithKey(a + b, key, k) == WithKey(a, key, k) + WithKey(b, key, k)
    decreases |a|
  {
    if |a| == 0 {
      assert a + b == b;
    } else {
      var ab := a + b;
      assert ab[0] == a[0];
      assert ab[1..] == a[1..] + b;
      WithKeyAppend(a[1..], b, key, k);
      var h := if key(a[0]) == k then [a[0]] else [];
      assert WithKey(ab, key, k) == h + WithKey(a[1..] + b, key, k);
      assert WithKey(a, key, k) == h + WithKey(a[1..], key, k);
    }
  }

  /** Merging keeps, for every key, the left run's elements with that key
      ahead of the right run's: this is where ties go left. */
  lemma {:induction false} MergeWithKey<T>(a: seq<T>, b: seq<T>, key: T -> int, k: int)
    requires SortedBy(a, key) && SortedBy(b, key)
    ensures WithKey(Merge(a, b, key), key, k) == WithKey(a, key, k) + WithKey(b, key, k)
    decreases |a| + |b|, 1
  {
    if |a| == 0 {
      assert WithKey(a, key, k) == [];
      assert [] + WithKey(b, key, k) == WithKey(b, key, k);
    } else if |b| == 0 {
      assert WithKey(b, key, k) == [];
      assert WithKey(a, key, k) + [] == WithKey(a, key, k);
    } else if key(a[0]) <= key(b[0]) {
      MergeWithKeyTakeLeft(a, b, key, k);
    } else {
      MergeWithKeyTakeRight(a, b, key, k);
    }
  }

  lemma {:induction false} MergeWithKeyTakeLeft<T>(a: seq<T>, b: seq<T>, key: T -> int, k: int)
    requires SortedBy(a, key) && SortedBy(b, key)
    requires |a| > 0 && |b| > 0 && key(a[0]) <= key(b[0])
    ensures WithKey(Merge(a, b, key), key, k) == WithKey(a, key, k) + WithKey(b, key, k)
    decreases |a| + |b|, 0
  {
    var rest := Merge(a[1..], b, key);
    var h := if key(a[0]) == k then [a[0]] else [];
    var wa, wb := WithKey(a[1..], key, k), WithKey(b, key, k);
    assert WithKey(Merge(a, b, key), key, k) == h + WithKey(rest, key, k) by {
      assert Merge(a, b, key) == [a[0]] + rest;
      WithKeyCons(a[0], rest, key, k);
    }
    assert WithKey(rest, key, k) == wa + wb by {
      assert SortedBy(a[1..], key);
      MergeWithKey(a[1..], b, key, k);
    }
    assert WithKey(a, key, k) == h + wa by {
      WithKeyCons(a[0], a[1..], key, k);
      assert [a[0]] + a[1..] == a;
    }
  }

  lemma {:induction false} MergeWithKeyTakeRight<T>(a: seq<T>, b: seq<T>, key: T -> int, k: int)
    requires SortedBy(a, key) && SortedBy(b, key)
    requires |a| > 0 && |b| > 0 && key(a[0]) > key(b[0])
    ensures WithKey(Merge(a, b, key), key, k) == WithKey(a, key, k) + WithKey(b, key, k)
    decreases |a| + |b|, 0
  {
    var rest := Merge(a, b[1..], key);
    var h := if key(b[0]) == k then [b[0]] else [];
    var wa, wb := WithKey(a, key, k), WithKey(b[1..], key, k);
    assert WithKey(Merge(a, b, key), key, k) == h + WithKey(rest, key, k) by {
      assert Merge(a, b, key) == [b[0]] + rest;
      WithKeyCons(b[0], rest, key, k);
    }
    assert WithKey(rest, key, k) == wa + wb by {
      assert SortedBy(b[1..], key);
      MergeWithKey(a, b[1..], key, k);
    }
    assert WithKey(b, key, k) == h + wb by {
      WithKeyCons(b[0], b[1..], key, k);
      assert [b[0]] + b[1..] == b;
    }
    if key(b[0]) == k {
      // every element of `a` has a key above k, so none is selected
      WithKeyAbove(a, key, k);
      assert h + (wa + wb) == wa + (h + wb);
    } else {
      assert h == [];
      assert h + (wa + wb) == wa + (h + wb);
    }
  }

  lemma WithKeyCons<T>(x: T, rest: seq<T>, key: T -> int, k: int)
    ensures WithKey([x] + rest, key, k) == (if key(x) == k then [x] else []) + WithKey(rest, key, k)
  {
    assert ([x] + rest)[0] == x;
    assert ([x] + rest)[1..] == rest;
  }

  /** A sorted run starting above `k` holds nothing with key `k`. */
  lemma WithKeyAbove<T>(a: seq<T>, key: T -> int, k: int)
    requires SortedBy(a, key) && |a| > 0 && key(a[0]) > k
    ensures WithKey(a, key, k) == []
  {
    assert forall i :: 0 < i < |a| ==> key(a[0]) <= key(a[i]);
    WithKeyNone(a, key, k);
  }

  lemma {:induction false} WithKeyNone<T>(a: seq<T>, key: T -> int, k: int)
    requires forall i :: 0 <= i < |a| ==> key(a[i]) != k
    ensures WithKey(a, key, k) == []
    decreases |a|
  {
    if |a| > 0 {
      WithKeyNone(a[1..], key, k);
    }
  }

  /** Stability: for every key, the elements carrying it appear in the
      sorted result in their original order. */
  lemma {:induction false} MergeSortStable<T>(s: seq<T>, key: T -> int, k: int)
    ensures WithKey(MergeSort(s, key), key, k) == WithKey(s, key, k)
    decreases |s|
  {
    if |s| > 1 {
      var mid := |s| / 2;
      MergeSortStable(s[..mid], key, k);
      MergeSortStable(s[mid..], key, k);
      MergeSortSorted(s[..mid], key);
      MergeSortSorted(s[mid..], key);
      var lo, hi := MergeSort(s[..mid], key), MergeSort(s[mid..], key);
      assert MergeSort(s, key) == Merge(lo, hi, key);
      MergeWithKey(lo, hi, key, k);
      WithKeyAppend(s[..mid], s[mid..], key, k);
      assert s[..mid] + s[mid..] == s;
    }
  }

  /** On ints the result is the ascending permutation of the input. */
  lemma MergeSortInts(s: seq<int>)
    ensures Sorted(MergeSort(s, Id))
    ensures multiset(MergeSort(s, Id)) == multiset(s)
  {
    MergeSortSorted(s, Id);
    MergeSortPermutes(s, Id);
  }

  // ---------------------------------------------------------------------
  // The imperative merge

  /** `merge` as written: three copy loops into a buffer, which is then
      copied back over the range. */
  method MergeRuns(a: seq<int>, b: seq<int>) returns (out: seq<int>)
    ensures out == Merge(a, b, Id)
  {
    var buffer, left, right := MergeHeads(a, b);
    while left < |a|
      invariant 0 <= left <= |a|
      invariant buffer + a[left..] + b[right..] == Merge(a, b, Id)
    {
      assert a[left..] == [a[left]] + a[left + 1..];
      buffer := buffer + [a[left]];
      left := left + 1;
    }
    assert a[left..] == [];
    while right < |b|
      invariant 0 <= right <= |b|
      invariant buffer + b[right..] == Merge(a, b, Id)
    {
      assert b[right..] == [b[right]] + b[right + 1..];
      buffer := buffer + [b[right]];
      right := right + 1;
    }
    assert b[right..] == [];
    out := buffer;
  }

  /** The first loop of `merge`: while both runs have elements, the smaller
      head (the left one on ties) goes into the buffer. When it stops, one
      run is exhausted, so what remains is the other run's tail. */
  method MergeHeads(a: seq<int>, b: seq<int>) returns (buffer: seq<int>, left: nat, right: nat)
    ensures left <= |a| && right <= |b| && (left == |a| || right == |b|)
    ensures buffer + a[left..] + b[right..] == Merge(a, b, Id)
  {
    buffer, left, right := [], 0, 0;
    while left < |a| && right < |b|
      invariant left <= |a| && right <= |b|
      invariant buffer + Merge(a[left..], b[right..], Id) == Merge(a, b, Id)
      decreases |a| - left + |b| - right
    {
      MergeAdvance(a, b, buffer, left, right);
      if a[left] <= b[right] {
        buffer := buffer + [a[left]];
        left := left + 1;
      } else {
        buffer := buffer + [b[right]];
        right := right + 1;
      }
    }
    MergeExhausted(a[left..], b[right..]);
  }

  lemma MergeExhausted(x: seq<int>, y: seq<int>)
    requires |x| == 0 || |y| == 0
    ensures Merge(x, y, Id) == x + y
  {
    if |x| == 0 {
      assert x + y == y;
    } else {
      assert x + y == x;
    }
  }

  /** One step of the first loop keeps the buffer followed by the merge of
      what remains equal to the whole merge. */
  lemma MergeAdvance(a: seq<int>, b: seq<int>, buffer: seq<int>, l: nat, r: nat)
    requires l < |a| && r < |b|
    ensures a[l] <= b[r] ==>
      buffer + Merge(a[l..], b[r..], Id) == (buffer + [a[l]]) + Merge(a[l + 1..], b[r..], Id)
    ensures a[l] > b[r] ==>
      buffer + Merge(a[l..], b[r..], Id) == (buffer + [b[r]]) + Merge(a[l..], b[r + 1..], Id)
  {
    if a[l] <= b[r] {
      MergeTakesLeft(a, b, l, r);
    } else {
      MergeTakesRight(a, b, l, r);
    }
  }

  lemma MergeTakesLeft(a: seq<int>, b: seq<int>, l: nat, r: nat)
    requires l < |a| && r < |b| && a[l] <= b[r]
    ensures Merge(a[l..], b[r..], Id) == [a[l]] + Merge(a[l + 1..], b[r..], Id)
  {
    assert a[l..][1..] == a[l + 1..];
  }

  lemma MergeTakesRight(a: seq<int>, b: seq<int>, l: nat, r: nat)
    requires l < |a| && r < |b| && a[l] > b[r]
    ensures Merge(a[l..], b[r..], Id) == [b[r]] + Merge(a[l..], b[r + 1..], Id)
  {
    assert b[r..][1..] == b[r + 1..];
  }

  /** `merge_sort` as written, recursing on both halves. */
  method MergeSortInPlace(s: seq<int>) returns (out: seq<int>)
    ensures out == MergeSort(s, Id)
    ensures Sorted(out) && multiset(out) == multiset(s)
    decreases |s|
  {
    MergeSortInts(s);
    if |s| <= 1 {
      out := s;
    } else {
      var mid := |s| / 2;
      var lo := MergeSortInPlace(s[..mid]);
      var hi := MergeSortInPlace(s[mid..]);
      out := MergeRuns(lo, hi);
    }
  }

  // ---------------------------------------------------------------------
  // compact

  /** `s` with every run of equal neighbours reduced to one element,
      defined from the end. */
  function Dedup(s: seq<int>): (r: seq<int>)
    ensures |s| > 0 ==> |r| > 0 && r[|r| - 1] == s[|s| - 1] && r[0] == s[0]
    ensures |r| <= |s|
    decreases |s|
  {
    if |s| <= 1 then s
    else if s[|s| - 1] == s[|s| - 2] then Dedup(s[..|s| - 1])
    else Dedup(s[..|s| - 1]) + [s[|s| - 1]]
  }

  /** One more element read: `Dedup` of the longer prefix. */
  lemma DedupStep(s: seq<int>, read: nat)
    requires 1 <= read < |s|
    ensures Dedup(s[..read + 1]) ==
      if s[read] == s[read - 1] then Dedup(s[..read]) else Dedup(s[..read]) + [s[read]]
  {
    assert s[..read + 1][..read] == s[..read];
  }

  /** `compact`: a range of at most one element is left alone and its end
      returned; otherwise the first `k` slots hold the input without
      consecutive duplicates, the rest hold 0xFFFF, and `k` is returned. */
  method Compact(s: seq<int>) returns (out: seq<int>, k: nat)
    ensures |out| == |s|
    ensures |s| <= 1 ==> out == s && k == |s|
    ensures |s| >= 2 ==> 1 <= k <= |s| && out[..k] == Dedup(s)
    ensures |s| >= 2 ==> forall i :: k <= i < |s| ==> out[i] == FILL
  {
    if |s| <= 1 {
      return s, |s|;
    }
    var write;
    out, write := CompactRuns(s);
    k := write + 1;
    out := PadFill(out, k);
  }

  /** The first loop of `compact`: squeezes runs of equal neighbours to the
      front of the range and returns the index of the last kept element. */
  method CompactRuns(s: seq<int>) returns (out: seq<int>, write: nat)
    requires |s| >= 2
    ensures |out| == |s| && write < |s|
    ensures out[..write + 1] == Dedup(s)
  {
    out := s;
    var read := 1;
    write := 0;
    while read < |s|
      invariant 0 <= write < read <= |s|
      invariant |out| == |s|
      invariant forall i :: read <= i < |s| ==> out[i] == s[i]
      invariant out[..write + 1] == Dedup(s[..read])
    {
      DedupStep(s, read);
      assert out[write] == s[read - 1];
      if out[read] != out[write] {
        var prefix := out[..write + 1];
        write := write + 1;
        out := out[write := out[read]];
        assert out[..write + 1] == prefix + [s[read]];
      }
      read := read + 1;
    }
    assert s[..read] == s;
  }

  /** The second loop of `compact`: every slot from `k` on becomes 0xFFFF. */
  method PadFill(s: seq<int>, k: nat) returns (out: seq<int>)
    requires k <= |s|
    ensures |out| == |s| && out[..k] == s[..k]
    ensures forall i :: k <= i < |s| ==> out[i] == FILL
  {
    out := s;
    var write := k;
    while write < |s|
      invariant k <= write <= |s| && |out| == |s|
      invariant out[..k] == s[..k]
      invariant forall i :: k <= i < write ==> out[i] == FILL
    {
      out := out[write := FILL];
      write := write + 1;
    }
  }

  // ---------------------------------------------------------------------
  // Properties of compact

  ghost predicate StrictlyIncreasing(s: seq<int>)
  {
    forall i, j :: 0 <= i < j < |s| ==> s[i] < s[j]
  }

  /** On sorted input the kept prefix is strictly increasing. */
  lemma {:induction false} DedupOfSorted(s: seq<int>)
    requires Sorted(s)
    ensures StrictlyIncreasing(Dedup(s))
    decreases |s|
  {
    if |s| > 1 {
      var p := s[..|s| - 1];
      assert Sorted(p);
      DedupOfSorted(p);
      DedupBounded(p);
    }
  }

  /** Every element kept comes from the input. */
  lemma {:induction false} DedupBounded(s: seq<int>)
    ensures forall x :: x in Dedup(s) ==> x in s
    decreases |s|
  {
    if |s| > 1 {
      var p := s[..|s| - 1];
      DedupBounded(p);
      assert forall x :: x in p ==> x in s;
    }
  }

  /** Nothing is lost: every input value is kept. */
  lemma {:induction false} DedupComplete(s: seq<int>)
    ensures forall x :: x in s ==> x in Dedup(s)
    decreases |s|
  {
    if |s| > 1 {
      var p := s[..|s| - 1];
      DedupComplete(p);
      assert s == p + [s[|s| - 1]];
    }
  }

  /** No two neighbours of the kept prefix are equal. */
  lemma {:induction false} DedupNoRepeats(s: seq<int>)
    ensures forall i :: 0 <= i < |Dedup(s)| - 1 ==> Dedup(s)[i] != Dedup(s)[i + 1]
    decreases |s|
  {
    if |s| > 1 {
      DedupNoRepeats(s[..|s| - 1]);
    }
  }

  /** Sorting and then compacting, as done on each step array, yields the
      distinct input values in ascending order followed by 0xFFFF. */
  method SortAndCompact(s: seq<int>) returns (out: seq<int>, k: nat)
    requires |s| >= 2
    ensures |out| == |s| && 1 <= k <= |s|
    ensures StrictlyIncreasing(out[..k])
    ensures forall x :: x in s <==> x in out[..k]
    ensures forall i :: k <= i < |s| ==> out[i] == FILL
  {
    var sorted := MergeSortInPlace(s);
    out, k := Compact(sorted);
    DedupOfSorted(sorted);
    DedupBounded(sorted);
    DedupComplete(sorted);
    forall x
      ensures x in s <==> x in sorted
    {
      assert x in s <==> x in multiset(s);
    }
  }
}
