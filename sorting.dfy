/** Index utilities of src/sorting.rs: `argsort` and `find_peaks`.
    Floating-point keys and `f64::total_cmp` are modelled by `real` and its total order. */
module Sorting {
  import opened Panics

  // ---------------------------------------------------------------------------
  // Index sequences and permutations
  // ---------------------------------------------------------------------------

  /** The indices 0, 1, ..., n-1 in order: `(0..n).collect()`. */
  function Iota(n: nat): (r: seq<nat>)
    ensures |r| == n && forall i :: 0 <= i < n ==> r[i] == i
  {
    seq(n, i requires 0 <= i => i)
  }

  predicate Distinct(s: seq<nat>) {
    forall i, j :: 0 <= i < j < |s| ==> s[i] != s[j]
  }

  predicate InRange(s: seq<nat>, n: nat) {
    forall i :: 0 <= i < |s| ==> s[i] < n
  }

  /** `s` lists every index below `n` exactly once. */
  predicate IsIndexPermutation(s: seq<nat>, n: nat) {
    |s| == n && multiset(s) == multiset(Iota(n))
  }

  /** The keys visited through `idx` never decrease. */
  predicate SortedBy(keys: seq<real>, idx: seq<nat>)
    requires InRange(idx, |keys|)
  {
    forall i, j :: 0 <= i < j < |idx| ==> keys[idx[i]] <= keys[idx[j]]
  }

  /** What `argsort(keys)` may return: a sorting permutation. The order among equal keys
      is deliberately left open, as `sort_unstable_by` leaves it. */
  predicate IsArgsort(keys: seq<real>, idx: seq<nat>) {
    IsIndexPermutation(idx, |keys|) && InRange(idx, |keys|) && SortedBy(keys, idx)
  }

  lemma {:induction false} DistinctCounts(s: seq<nat>)
    requires Distinct(s)
    ensures forall x :: multiset(s)[x] <= 1
  {
    if s != [] {
      assert s == [s[0]] + s[1..];
      assert Distinct(s[1..]) by {
        forall i, j | 0 <= i < j < |s[1..]| ensures s[1..][i] != s[1..][j] {
          assert s[1..][i] == s[i + 1] && s[1..][j] == s[j + 1];
        }
      }
      DistinctCounts(s[1..]);
      forall k | 0 <= k < |s[1..]| ensures s[1..][k] != s[0] {
        assert s[1..][k] == s[k + 1];
      }
      assert s[0] !in s[1..];
    }
  }

  lemma RepeatedCount(s: seq<nat>, i: nat, j: nat)
    requires i < j < |s|
    ensures s[i] == s[j] ==> multiset(s)[s[i]] >= 2
  {
    assert s == s[..j] + s[j..];
    assert s[i] == s[..j][i];
    assert s[j] == s[j..][0];
  }

  /** Reordering a list of distinct indices keeps them distinct. */
  lemma {:induction false} DistinctPreserved(s: seq<nat>, t: seq<nat>)
    requires multiset(s) == multiset(t) && Distinct(s)
    ensures Distinct(t)
  {
    DistinctCounts(s);
    forall i, j | 0 <= i < j < |t| ensures t[i] != t[j] {
      RepeatedCount(t, i, j);
    }
  }

  /** A permutation of 0..n, as `argsort` builds it, has length n, only indices below n,
      no index twice, and every index below n. */
  lemma {:induction false} IndexPermutationFacts(s: seq<nat>, n: nat)
    requires IsIndexPermutation(s, n)
    ensures InRange(s, n) && Distinct(s)
    ensures forall k :: 0 <= k < n ==> k in s
  {
    assert Distinct(Iota(n));
    DistinctPreserved(Iota(n), s);
    forall i | 0 <= i < |s| ensures s[i] < n {
      assert s[i] in multiset(Iota(n));
      var p :| 0 <= p < n && Iota(n)[p] == s[i];
    }
    forall k | 0 <= k < n ensures k in s {
      assert Iota(n)[k] == k;
      assert k in multiset(s);
    }
  }

  // ---------------------------------------------------------------------------
  // In-place sort of an index array by key (`sort_unstable_by` with `total_cmp`)
  // ---------------------------------------------------------------------------

  /** The first `n` entries of `idx` visit non-decreasing keys. */
  predicate SortedPrefix(keys: seq<real>, idx: seq<nat>, n: nat)
    requires InRange(idx, |keys|) && n <= |idx|
  {
    forall p, q :: 0 <= p < q < n ==> keys[idx[p]] <= keys[idx[q]]
  }

  method Swap(a: array<nat>, i: nat, j: nat)
    requires i < j < a.Length
    modifies a
    ensures a[..] == old(a[..])[i := old(a[j])][j := old(a[i])]
    ensures multiset(a[..]) == multiset(old(a[..]))
  {
    a[i], a[j] := a[j], a[i];
  }

  /** One step of insertion sort: moves `a[i]` down into the sorted prefix `a[..i]`. */
  method InsertStep(keys: seq<real>, a: array<nat>, i: nat)
    requires 0 < i < a.Length
    requires InRange(a[..], |keys|) && SortedPrefix(keys, a[..], i)
    modifies a
    ensures InRange(a[..], |keys|) && SortedPrefix(keys, a[..], i + 1)
    ensures multiset(a[..]) == multiset(old(a[..]))
  {
    var j := i;
    while j > 0 && keys[a[j - 1]] > keys[a[j]]
      invariant 0 <= j <= i
      invariant InRange(a[..], |keys|)
      invariant multiset(a[..]) == multiset(old(a[..]))
      invariant forall p, q :: 0 <= p < q <= i && p != j && q != j ==> keys[a[p]] <= keys[a[q]]
      invariant forall q :: j < q <= i ==> keys[a[j]] <= keys[a[q]]
    {
      Swap(a, j - 1, j);
      j := j - 1;
    }
  }

  /** Sorts the index array `a` so that the keys it points at are non-decreasing.
      The library's pattern-defeating quicksort is replaced by insertion sort; only the
      contract (sorted, a permutation of the old contents) is relied upon. */
  method SortByKey(keys: seq<real>, a: array<nat>)
    requires InRange(a[..], |keys|)
    modifies a
    ensures InRange(a[..], |keys|) && SortedBy(keys, a[..])
    ensures multiset(a[..]) == multiset(old(a[..]))
  {
    if a.Length == 0 {
      return;
    }
    var i := 1;
    while i < a.Length
      invariant 1 <= i <= a.Length
      invariant InRange(a[..], |keys|) && SortedPrefix(keys, a[..], i)
      invariant multiset(a[..]) == multiset(old(a[..]))
    {
      InsertStep(keys, a, i);
      i := i + 1;
    }
  }

  /** `argsort(data)`: the indices of `data` ordered by their values. */
  method Argsort(data: seq<real>) returns (indices: seq<nat>)
    ensures IsArgsort(data, indices)
    ensures InRange(indices, |data|) && Distinct(indices)
    ensures forall k :: 0 <= k < |data| ==> k in indices
  {
    var a := new nat[|data|](i requires 0 <= i => i);
    assert a[..] == Iota(|data|);
    SortByKey(data, a);
    indices := a[..];
    IndexPermutationFacts(indices, |data|);
  }

  /** The doc example of `argsort`: `argsort([2.0, 1.0, 3.0]) == [1, 0, 2]`. With distinct
      keys the sorting permutation is unique, so the unspecified tie order plays no part. */
  method ArgsortDocExample() returns (indices: seq<nat>)
    ensures indices == [1, 0, 2]
  {
    var data := [2.0, 1.0, 3.0];
    indices := Argsort(data);
    assert 1 in indices && 0 in indices && 2 in indices;
    assert data[indices[0]] <= data[indices[1]] <= data[indices[2]];
  }

  /** `data` read through `idx`: `idx.map(|i| data[i]).collect()`. */
  function Gather(data: seq<real>, idx: seq<nat>): (r: seq<real>)
    requires InRange(idx, |data|)
    ensures |r| == |idx| && forall i :: 0 <= i < |idx| ==> r[i] == data[idx[i]]
  {
    seq(|idx|, i requires 0 <= i < |idx| => data[idx[i]])
  }

  predicate NonDecreasing(x: seq<real>) {
    forall i, j :: 0 <= i < j < |x| ==> x[i] <= x[j]
  }

  lemma RemoveAt(t: seq<nat>, p: nat)
    requires p < |t|
    ensures multiset(t[..p] + t[p + 1..]) == multiset(t) - multiset{t[p]}
  {
    assert t == t[..p] + [t[p]] + t[p + 1..];
  }

  lemma GatherRemoveAt(data: seq<real>, t: seq<nat>, p: nat)
    requires p < |t| && InRange(t, |data|)
    ensures InRange(t[..p] + t[p + 1..], |data|)
    ensures multiset(Gather(data, t)) == multiset(Gather(data, t[..p] + t[p + 1..])) + multiset{data[t[p]]}
  {
    var t' := t[..p] + t[p + 1..];
    assert Gather(data, t) == Gather(data, t[..p]) + [data[t[p]]] + Gather(data, t[p + 1..]);
    assert Gather(data, t') == Gather(data, t[..p]) + Gather(data, t[p + 1..]);
  }

  lemma GatherCons(data: seq<real>, s: seq<nat>)
    requires s != [] && InRange(s, |data|)
    ensures InRange(s[1..], |data|)
    ensures multiset(s[1..]) == multiset(s) - multiset{s[0]}
    ensures multiset(Gather(data, s)) == multiset(Gather(data, s[1..])) + multiset{data[s[0]]}
  {
    assert s == [s[0]] + s[1..];
    assert Gather(data, s) == [data[s[0]]] + Gather(data, s[1..]);
  }

  /** Reading `data` through two orderings of the same indices yields the same values,
      in possibly different order. */
  lemma {:induction false} GatherPermutes(data: seq<real>, s: seq<nat>, t: seq<nat>)
    requires InRange(s, |data|) && InRange(t, |data|) && multiset(s) == multiset(t)
    ensures multiset(Gather(data, s)) == multiset(Gather(data, t))
  {
    if s == [] {
      assert |t| == |multiset(t)| == 0;
    } else {
      assert s[0] in multiset(t);
      var p :| 0 <= p < |t| && t[p] == s[0];
      RemoveAt(t, p);
      GatherRemoveAt(data, t, p);
      GatherCons(data, s);
      GatherPermutes(data, s[1..], t[..p] + t[p + 1..]);
    }
  }

  /** A sorted arrangement of a multiset of values is unique. */
  lemma {:induction false} SortedUnique(x: seq<real>, y: seq<real>)
    requires NonDecreasing(x) && NonDecreasing(y) && multiset(x) == multiset(y)
    ensures x == y
  {
    if x == [] || y == [] {
      assert |x| == |multiset(x)| == |multiset(y)| == |y|;
    } else {
      SortedHeadIsMinimum(x, y[0]);
      SortedHeadIsMinimum(y, x[0]);
      var head := x[0];
      assert y[0] == head;
      SortedTail(x);
      SortedTail(y);
      var rest := multiset(x) - multiset{head};
      assert multiset(x[1..]) == rest == multiset(y[1..]);
      SortedUnique(x[1..], y[1..]);
      assert x == [head] + x[1..] && y == [head] + y[1..];
    }
  }

  lemma SortedHeadIsMinimum(x: seq<real>, v: real)
    requires NonDecreasing(x) && v in multiset(x)
    ensures x[0] <= v
  {
    var i :| 0 <= i < |x| && x[i] == v;
  }

  lemma SortedTail(x: seq<real>)
    requires NonDecreasing(x) && x != []
    ensures NonDecreasing(x[1..])
    ensures multiset(x[1..]) == multiset(x) - multiset{x[0]}
  {
    assert x == [x[0]] + x[1..];
    assert multiset(x) == multiset{x[0]} + multiset(x[1..]);
  }

  /** Whichever tie order the unstable sort picks, the keys read in sorted order are the
      same: two results of `argsort` on the same input differ only among equal keys. */
  lemma ArgsortKeysDeterministic(keys: seq<real>, s: seq<nat>, t: seq<nat>)
    requires IsArgsort(keys, s) && IsArgsort(keys, t)
    ensures Gather(keys, s) == Gather(keys, t)
  {
    GatherPermutes(keys, s, t);
    SortedUnique(Gather(keys, s), Gather(keys, t));
  }

  /** Without ties the sorting permutation is unique. */
  lemma ArgsortUniqueWithoutTies(keys: seq<real>, s: seq<nat>, t: seq<nat>)
    requires IsArgsort(keys, s) && IsArgsort(keys, t)
    requires forall i, j :: 0 <= i < j < |keys| ==> keys[i] != keys[j]
    ensures s == t
  {
    ArgsortKeysDeterministic(keys, s, t);
    forall i | 0 <= i < |s| ensures s[i] == t[i] {
      assert keys[s[i]] == Gather(keys, s)[i] == Gather(keys, t)[i] == keys[t[i]];
    }
  }

  // ---------------------------------------------------------------------------
  // find_peaks
  // ---------------------------------------------------------------------------

  /** The filter of `find_peaks`: an interior index not below either neighbour.
      Both comparisons are `>=`, so every point of a plateau qualifies. */
  predicate IsLocalMax(data: seq<real>, i: nat) {
    1 <= i < |data| - 1 && data[i] >= data[i - 1] && data[i] >= data[i + 1]
  }

  /** The local maxima among the indices below `hi`, in increasing index order. */
  function MaximaBelow(data: seq<real>, hi: nat): seq<nat> {
    if hi == 0 then []
    else MaximaBelow(data, hi - 1) + (if IsLocalMax(data, hi - 1) then [hi - 1] else [])
  }

  /** The candidate list of `find_peaks`: every local maximum of `data`, each once, in
      increasing index order. */
  function LocalMaxima(data: seq<real>): (r: seq<nat>)
    ensures forall m: nat :: m in r <==> IsLocalMax(data, m)
    ensures forall i, j :: 0 <= i < j < |r| ==> r[i] < r[j]
  {
    MaximaBelowSpec(data, |data|);
    MaximaBelow(data, |data|)
  }

  /** The collected candidates are exactly the local maxima below `hi`, each once and
      in increasing order. */
  lemma {:induction false} MaximaBelowSpec(data: seq<real>, hi: nat)
    ensures forall m: nat :: m in MaximaBelow(data, hi) <==> m < hi && IsLocalMax(data, m)
    ensures forall i, j :: 0 <= i < j < |MaximaBelow(data, hi)| ==>
              MaximaBelow(data, hi)[i] < MaximaBelow(data, hi)[j]
  {
    if hi > 0 {
      MaximaBelowSpec(data, hi - 1);
      var prev := MaximaBelow(data, hi - 1);
      forall i | 0 <= i < |prev| ensures prev[i] < hi - 1 {
        assert prev[i] in prev;
      }
    }
  }

  /** A slice of fewer than three values has no interior index, hence no local maximum.
      On a slice of length 1 or 2, `find_peaks` therefore fails its `npeaks <= len` assert
      for every positive `npeaks`; an empty slice panics earlier, at `len() - 1`. */
  lemma ShortSliceHasNoMaxima(data: seq<real>)
    requires |data| <= 2
    ensures LocalMaxima(data) == []
  {
    assert MaximaBelow(data, 1) == [];
    assert MaximaBelow(data, 2) == [];
  }

  /** An index list returned by `find_peaks(data, npeaks)`: `npeaks` distinct local maxima
      listed by non-decreasing value, and no local maximum left out is lower than any of
      them. These are the LOWEST maxima, although the doc comment of `find_peaks` speaks of
      the highest. */
  ghost predicate IsLowestPeaks(data: seq<real>, npeaks: nat, peaks: seq<nat>) {
    && |peaks| == npeaks
    && Distinct(peaks)
    && (forall i :: 0 <= i < |peaks| ==> IsLocalMax(data, peaks[i]))
    && (forall i, j :: 0 <= i < j < |peaks| ==> data[peaks[i]] <= data[peaks[j]])
    && (forall m: nat, i :: IsLocalMax(data, m) && m !in peaks && 0 <= i < |peaks| ==> data[peaks[i]] <= data[m])
  }

  /** `find_peaks(data, npeaks)`. */
  method FindPeaks(data: seq<real>, npeaks: nat) returns (r: Result<seq<nat>>)
    ensures npeaks == 0 ==> r == Panicked(NoPeaksRequested)
    ensures npeaks > 0 && |data| == 0 ==> r == Panicked(LengthUnderflow)
    ensures npeaks > 0 && |data| > 0 && npeaks > |LocalMaxima(data)| ==> r == Panicked(TooFewMaxima)
    ensures npeaks > 0 && |data| > 0 && npeaks <= |LocalMaxima(data)| ==>
              r.Ok? && IsLowestPeaks(data, npeaks, r.value)
  {
    if npeaks == 0 {
      return Panicked(NoPeaksRequested);
    }
    if |data| == 0 {
      return Panicked(LengthUnderflow);
    }
    var end := |data| - 1;
    var maxima: seq<nat> := [];
    var i := 1;
    while i < end
      invariant 1 <= i && (i <= end || i == 1)
      invariant maxima == MaximaBelow(data, i)
    {
      if data[i] >= data[i - 1] && data[i] >= data[i + 1] {
        maxima := maxima + [i];
      }
      i := i + 1;
    }
    assert maxima == LocalMaxima(data) by {
      assert !IsLocalMax(data, i) && (i + 1 == |data| || (i == 1 && |data| == 1));
    }
    MaximaBelowSpec(data, |data|);
    forall p | 0 <= p < |maxima| ensures IsLocalMax(data, maxima[p]) {
      assert maxima[p] in maxima;
    }
    if npeaks > |maxima| {
      return Panicked(TooFewMaxima);
    }
    var a := new nat[|maxima|](j requires 0 <= j < |maxima| => maxima[j]);
    assert a[..] == maxima;
    SortByKey(data, a);
    LowestPeaksOfSorted(data, maxima, a[..], npeaks);
    r := Ok(a[..npeaks]);
  }

  /** Sorting the distinct local maxima by value and keeping the first `npeaks` gives the
      lowest `npeaks` local maxima. */
  lemma LowestPeaksOfSorted(data: seq<real>, maxima: seq<nat>, sorted: seq<nat>, npeaks: nat)
    requires maxima == LocalMaxima(data) && npeaks <= |maxima|
    requires |sorted| == |maxima| && multiset(sorted) == multiset(maxima)
    requires InRange(sorted, |data|) && SortedBy(data, sorted)
    ensures IsLowestPeaks(data, npeaks, sorted[..npeaks])
  {
    SortedMaximaFacts(data, maxima, sorted);
    var peaks := sorted[..npeaks];
    forall m: nat, q | IsLocalMax(data, m) && m !in peaks && 0 <= q < |peaks|
      ensures data[peaks[q]] <= data[m]
    {
      LaterInSorted(sorted, npeaks, m);
      var p :| npeaks <= p < |sorted| && sorted[p] == m;
      assert peaks[q] == sorted[q];
    }
  }

  /** The sorted maxima are distinct local maxima, and every local maximum is among them. */
  lemma SortedMaximaFacts(data: seq<real>, maxima: seq<nat>, sorted: seq<nat>)
    requires maxima == LocalMaxima(data)
    requires multiset(sorted) == multiset(maxima)
    ensures Distinct(sorted)
    ensures forall p :: 0 <= p < |sorted| ==> IsLocalMax(data, sorted[p])
    ensures forall m: nat :: IsLocalMax(data, m) ==> m in sorted
  {
    MaximaBelowSpec(data, |data|);
    assert Distinct(maxima);
    DistinctPreserved(maxima, sorted);
    forall p | 0 <= p < |sorted| ensures IsLocalMax(data, sorted[p]) {
      assert sorted[p] in multiset(maxima);
    }
    forall m: nat | IsLocalMax(data, m) ensures m in sorted {
      assert m in multiset(maxima);
    }
  }

  /** An element of `s` that is not among its first `n` entries sits at position `n` or later. */
  lemma LaterInSorted(s: seq<nat>, n: nat, m: nat)
    requires n <= |s| && m in s && m !in s[..n]
    ensures exists p :: n <= p < |s| && s[p] == m
  {
    var p :| 0 <= p < |s| && s[p] == m;
    forall i | 0 <= i < n ensures s[i] != m {
      assert s[..n][i] == s[i];
    }
  }

  /** The doc example of `find_peaks`: `find_peaks([0.0, 1.0, 2.0, 1.0, 0.0], 1) == [2]`. */
  method FindPeaksDocExample() returns (r: Result<seq<nat>>)
    ensures r == Ok([2])
  {
    var data := [0.0, 1.0, 2.0, 1.0, 0.0];
    assert LocalMaxima(data) == [2] by {
      assert MaximaBelow(data, 1) == [];
      assert MaximaBelow(data, 2) == [];
      assert MaximaBelow(data, 3) == [2];
      assert MaximaBelow(data, 4) == [2];
    }
    r := FindPeaks(data, 1);
    assert |r.value| == 1 && IsLocalMax(data, r.value[0]);
    assert r.value == [r.value[0]];
  }
}
