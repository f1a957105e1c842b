/** Choosing the K largest deltas: the rank that defines the choice, and the sort that computes it. */
module TopK {

  function CountEq(s: seq<int>, v: int): (c: nat)
    ensures c <= |s|
  {
    if s == [] then 0 else CountEq(s[..|s| - 1], v) + if s[|s| - 1] == v then 1 else 0
  }

  function CountGt(s: seq<int>, v: int): (c: nat)
    ensures c <= |s|
  {
    if s == [] then 0 else CountGt(s[..|s| - 1], v) + if s[|s| - 1] > v then 1 else 0
  }

  /** How many entries of a flag sequence are set. */
  function Count(b: seq<bool>): (c: nat)
    ensures c <= |b|
  {
    if b == [] then 0 else Count(b[..|b| - 1]) + if b[|b| - 1] then 1 else 0
  }

  /** How many entries come before entry `i`: the larger ones, and the equal ones at lower indices. */
  function Rank(d: seq<int>, i: nat): nat
    requires i < |d|
  {
    CountGt(d, d[i]) + CountEq(d[..i], d[i])
  }

  predicate Selected(d: seq<int>, i: nat, k: nat)
    requires i < |d|
  {
    0 < d[i] && Rank(d, i) < k
  }

  function Min(a: int, b: int): int {
    if a <= b then a else b
  }

  ghost predicate Sorted(s: seq<int>) {
    forall i, j | 0 <= i <= j < |s| :: s[i] <= s[j]
  }

  // Counting.

  lemma {:induction false} CountEqIsMultiplicity(s: seq<int>, v: int)
    ensures CountEq(s, v) == multiset(s)[v]
  {
    if s != [] {
      var front := s[..|s| - 1];
      CountEqIsMultiplicity(front, v);
      assert s == front + [s[|s| - 1]];
    }
  }

  lemma {:induction false} CountAppend(a: seq<int>, b: seq<int>, v: int)
    ensures CountEq(a + b, v) == CountEq(a, v) + CountEq(b, v)
    ensures CountGt(a + b, v) == CountGt(a, v) + CountGt(b, v)
  {
    if b == [] {
      assert a + b == a;
    } else {
      var last := |b| - 1;
      CountAppend(a, b[..last], v);
      assert (a + b)[..|a + b| - 1] == a + b[..last];
    }
  }

  function Without(s: seq<int>, i: nat): seq<int>
    requires i < |s|
  {
    s[..i] + s[i + 1..]
  }

  lemma WithoutOne(s: seq<int>, i: nat, v: int)
    requires i < |s|
    ensures multiset(Without(s, i)) == multiset(s) - multiset{s[i]}
    ensures CountGt(s, v) == CountGt(Without(s, i), v) + if s[i] > v then 1 else 0
  {
    assert s == s[..i] + ([s[i]] + s[i + 1..]);
    CountAppend(s[..i], s[i + 1..], v);
    CountAppend(s[..i], [s[i]] + s[i + 1..], v);
    CountAppend([s[i]], s[i + 1..], v);
    assert CountGt([s[i]], v) == if s[i] > v then 1 else 0;
  }

  lemma {:induction false} CountGtOfPermutation(a: seq<int>, b: seq<int>, v: int)
    requires multiset(a) == multiset(b)
    ensures CountGt(a, v) == CountGt(b, v)
  {
    assert |multiset(a)| == |multiset(b)|;
    if a != [] {
      var last := |a| - 1;
      assert a[last] in multiset(b);
      var i :| 0 <= i < |b| && b[i] == a[last];
      WithoutOne(a, last, v);
      WithoutOne(b, i, v);
      CountGtOfPermutation(Without(a, last), Without(b, i), v);
    }
  }

  lemma {:induction false} AllAtMost(s: seq<int>, v: int)
    requires forall i | 0 <= i < |s| :: s[i] <= v
    ensures CountGt(s, v) == 0
    ensures (forall i | 0 <= i < |s| :: s[i] < v) ==> CountEq(s, v) == 0
  {
    if s != [] {
      AllAtMost(s[..|s| - 1], v);
    }
  }

  lemma {:induction false} AllAtLeast(s: seq<int>, v: int)
    requires forall i | 0 <= i < |s| :: v <= s[i]
    ensures CountEq(s, v) + CountGt(s, v) == |s|
    ensures (forall i | 0 <= i < |s| :: v < s[i]) ==> CountEq(s, v) == 0
  {
    if s != [] {
      AllAtLeast(s[..|s| - 1], v);
    }
  }

  lemma {:induction false} CountsAreDisjoint(s: seq<int>, v: int)
    ensures CountEq(s, v) + CountGt(s, v) <= |s|
  {
    if s != [] {
      CountsAreDisjoint(s[..|s| - 1], v);
    }
  }

  lemma CountSplit(a: seq<int>, from: nat, v: int)
    requires from <= |a|
    ensures CountEq(a, v) == CountEq(a[..from], v) + CountEq(a[from..], v)
    ensures CountGt(a, v) == CountGt(a[..from], v) + CountGt(a[from..], v)
  {
    assert a == a[..from] + a[from..];
    CountAppend(a[..from], a[from..], v);
  }

  /** Either the whole suffix is at least `v`, or the prefix has no `v` and nothing above it. */
  lemma SortedSplit(a: seq<int>, from: nat, v: int)
    requires Sorted(a) && from < |a|
    ensures if v <= a[from] then CountEq(a[from..], v) + CountGt(a[from..], v) == |a| - from
            else CountEq(a[..from], v) == 0
    ensures if v < a[from] then CountEq(a[from..], v) == 0 else CountGt(a[..from], v) == 0
  {
    if v <= a[from] {
      AllAtLeast(a[from..], v);
    }
    if a[from] <= v {
      AllAtMost(a[..from], v);
    }
  }

  /** In a sorted sequence the larger entries come last, so a suffix holds what room they leave. */
  lemma SuffixMultiplicity(a: seq<int>, from: nat, v: int)
    requires Sorted(a) && from <= |a|
    ensures CountEq(a[from..], v) ==
            if CountGt(a, v) >= |a| - from then 0 else Min(CountEq(a, v), |a| - from - CountGt(a, v))
  {
    CountSplit(a, from, v);
    CountsAreDisjoint(a[from..], v);
    if from < |a| {
      SortedSplit(a, from, v);
    }
  }

  lemma {:induction false} CountIsMonotone(a: seq<bool>, b: seq<bool>)
    requires |a| == |b| && forall i | 0 <= i < |a| :: a[i] ==> b[i]
    ensures Count(a) <= Count(b)
  {
    if a != [] {
      CountIsMonotone(a[..|a| - 1], b[..|b| - 1]);
    }
  }

  lemma {:induction false} CountUpdate(b: seq<bool>, i: nat, v: bool)
    requires i < |b|
    ensures Count(b[i := v]) == Count(b) + (if v then 1 else 0) - (if b[i] then 1 else 0)
  {
    var last := |b| - 1;
    if i < last {
      CountUpdate(b[..last], i, v);
      assert b[i := v][..last] == b[..last][i := v];
    } else {
      assert b[i := v][..last] == b[..last];
    }
  }

  lemma {:induction false} CountNone(b: seq<bool>)
    requires forall i | 0 <= i < |b| :: !b[i]
    ensures Count(b) == 0
  {
    if b != [] {
      CountNone(b[..|b| - 1]);
    }
  }

  // The sort.

  method Swap(arr: array<int>, i: nat, j: nat)
    requires i < j < arr.Length
    modifies arr
    ensures arr[..] == old(arr[..])[i := old(arr[j])][j := old(arr[i])]
    ensures multiset(arr[..]) == multiset(old(arr[..]))
  {
    arr[i], arr[j] := arr[j], arr[i];
    assert arr[..] == old(arr[..])[i := old(arr[j])][j := old(arr[i])];
  }

  /** The inner loop: where the least of the entries from `i` on is. */
  method MinimumFrom(arr: array<int>, i: nat) returns (minIdx: nat)
    requires i < arr.Length
    ensures i <= minIdx < arr.Length
    ensures forall q | i <= q < arr.Length :: arr[minIdx] <= arr[q]
  {
    minIdx := i;
    for j := i + 1 to arr.Length
      invariant i <= minIdx < arr.Length
      invariant forall q | i <= q < j :: arr[minIdx] <= arr[q]
    {
      if arr[j] < arr[minIdx] {
        minIdx := j;
      }
    }
  }

  method SelectionSort(arr: array<int>)
    modifies arr
    ensures Sorted(arr[..]) && multiset(arr[..]) == multiset(old(arr[..]))
  {
    var n := arr.Length;
    var i := 0;
    while i < n - 1
      invariant 0 <= i <= n
      invariant n == 0 || i <= n - 1
      invariant multiset(arr[..]) == multiset(old(arr[..]))
      invariant forall p, q | 0 <= p < i && p <= q < n :: arr[p] <= arr[q]
    {
      var minIdx := MinimumFrom(arr, i);
      if minIdx != i {
        Swap(arr, i, minIdx);
      }
      i := i + 1;
    }
  }

  // Matching sorted values back to their entries.

  /**
   After the sorted values `used` have been matched, the entries taken are, for every positive
   value, its first ones, as many as `used` holds of it.
   */
  predicate Taken(d: seq<int>, used: seq<int>, i: nat)
    requires i < |d|
  {
    0 < d[i] && CountEq(d[..i], d[i]) < CountEq(used, d[i])
  }

  /** Entries that hold the same value are told apart by how many of it come before them. */
  lemma EarlierEqualsDiffer(d: seq<int>, i: nat, j: nat)
    requires i < j < |d| && d[i] == d[j]
    ensures CountEq(d[..i], d[i]) < CountEq(d[..j], d[j])
  {
    assert d[..j] == d[..i] + ([d[i]] + d[i + 1..j]);
    CountAppend(d[..i], [d[i]] + d[i + 1..j], d[i]);
    CountAppend([d[i]], d[i + 1..j], d[i]);
    assert CountEq([d[i]], d[i]) == 1;
  }

  /** Some entry holds the occurrence of `v` that has exactly `c` others before it. */
  lemma {:induction false} Occurrence(d: seq<int>, v: int, c: nat) returns (i: nat)
    requires c < CountEq(d, v)
    ensures i < |d| && d[i] == v && CountEq(d[..i], v) == c
  {
    var last := |d| - 1;
    if c < CountEq(d[..last], v) {
      i := Occurrence(d[..last], v, c);
      assert d[..last][..i] == d[..i];
    } else {
      i := last;
    }
  }

  /** There are fewer equal entries before an entry than altogether. */
  lemma EarlierEqualsAreFewer(d: seq<int>, i: nat)
    requires i < |d|
    ensures CountEq(d[..i], d[i]) < CountEq(d, d[i])
  {
    assert d == d[..i] + ([d[i]] + d[i + 1..]);
    CountAppend(d[..i], [d[i]] + d[i + 1..], d[i]);
    CountAppend([d[i]], d[i + 1..], d[i]);
    assert CountEq([d[i]], d[i]) == 1;
  }

  /** The values at `from` up to `j` do not use up the occurrences of the value at `j`. */
  lemma OneMoreOccurrence(d: seq<int>, sorted: seq<int>, from: nat, j: nat)
    requires multiset(d) == multiset(sorted) && from <= j < |sorted|
    ensures CountEq(sorted[from..j], sorted[j]) < CountEq(d, sorted[j])
  {
    CountEqIsMultiplicity(d, sorted[j]);
    CountEqIsMultiplicity(sorted, sorted[j]);
    EarlierEqualsAreFewer(sorted, j);
    assert sorted[..j] == sorted[..from] + sorted[from..j];
    CountAppend(sorted[..from], sorted[from..j], sorted[j]);
  }

  /** One more value is matched by the first free entry that holds it, and there is one. */
  lemma NextTaken(d: seq<int>, sorted: seq<int>, from: nat, j: nat) returns (i: nat)
    requires multiset(d) == multiset(sorted) && from <= j < |sorted|
    requires 0 < sorted[j]
    ensures i < |d| && d[i] == sorted[j] && !Taken(d, sorted[from..j], i)
    ensures forall k | 0 <= k < i && d[k] == sorted[j] :: Taken(d, sorted[from..j], k)
    ensures forall k | 0 <= k < |d| :: Taken(d, sorted[from..j + 1], k) <==> Taken(d, sorted[from..j], k) || k == i
  {
    var used, v := sorted[from..j], sorted[j];
    OneMoreOccurrence(d, sorted, from, j);
    i := Occurrence(d, v, CountEq(used, v));
    assert sorted[from..j + 1] == used + [v];
    forall k | 0 <= k < |d|
      ensures d[k] == v && k < i ==> CountEq(d[..k], v) < CountEq(used, v)
      ensures d[k] == v && k > i ==> CountEq(d[..k], v) > CountEq(used, v)
      ensures CountEq(used + [v], d[k]) == CountEq(used, d[k]) + if d[k] == v then 1 else 0
    {
      CountAppend(used, [v], d[k]);
      if d[k] == v && k < i {
        EarlierEqualsDiffer(d, k, i);
      } else if d[k] == v && k > i {
        EarlierEqualsDiffer(d, i, k);
      }
    }
  }

  /** A value that is not positive is matched by nothing. */
  lemma NothingTaken(d: seq<int>, sorted: seq<int>, from: nat, j: nat)
    requires from <= j < |sorted| && sorted[j] <= 0
    ensures forall k | 0 <= k < |d| :: Taken(d, sorted[from..j + 1], k) <==> Taken(d, sorted[from..j], k)
  {
    assert sorted[from..j + 1] == sorted[from..j] + [sorted[j]];
    forall k | 0 <= k < |d| && 0 < d[k]
      ensures CountEq(sorted[from..j + 1], d[k]) == CountEq(sorted[from..j], d[k])
    {
      CountAppend(sorted[from..j], [sorted[j]], d[k]);
    }
  }

  /**
   Sort-and-match is selection by rank: the entries taken by the `k` largest values are those that
   are positive and that fewer than `k` entries come before.
   */
  lemma TakenIsSelected(d: seq<int>, sorted: seq<int>, k: nat, i: nat)
    requires Sorted(sorted) && multiset(d) == multiset(sorted)
    requires k <= |sorted| && i < |d|
    ensures Taken(d, sorted[|sorted| - k..], i) <==> Selected(d, i, k)
  {
    SuffixMultiplicity(sorted, |sorted| - k, d[i]);
    CountGtOfPermutation(d, sorted, d[i]);
    CountEqIsMultiplicity(d, d[i]);
    CountEqIsMultiplicity(sorted, d[i]);
    EarlierEqualsAreFewer(d, i);
  }

  // How many are selected.

  function Flags(d: seq<int>, used: seq<int>): seq<bool> {
    seq(|d|, i requires 0 <= i < |d| => Taken(d, used, i))
  }

  function Selection(d: seq<int>, k: nat): (b: seq<bool>)
    ensures |b| == |d|
  {
    seq(|d|, i requires 0 <= i < |d| => Selected(d, i, k))
  }

  lemma TakenCountStep(d: seq<int>, sorted: seq<int>, from: nat, j: nat)
    requires multiset(d) == multiset(sorted) && from <= j < |sorted|
    ensures Count(Flags(d, sorted[from..j + 1]))
            == Count(Flags(d, sorted[from..j])) + if 0 < sorted[j] then 1 else 0
  {
    var flags := Flags(d, sorted[from..j]);
    if 0 < sorted[j] {
      var i := NextTaken(d, sorted, from, j);
      CountUpdate(flags, i, true);
      assert Flags(d, sorted[from..j + 1]) == flags[i := true];
    } else {
      NothingTaken(d, sorted, from, j);
      assert Flags(d, sorted[from..j + 1]) == flags;
    }
  }

  /** Every positive value matches exactly one entry. */
  lemma {:induction false} TakenCount(d: seq<int>, sorted: seq<int>, from: nat, j: nat)
    requires multiset(d) == multiset(sorted) && from <= j <= |sorted|
    ensures Count(Flags(d, sorted[from..j])) == CountGt(sorted[from..j], 0)
    decreases j
  {
    if j == from {
      CountNone(Flags(d, []));
      assert sorted[from..j] == [];
    } else {
      TakenCount(d, sorted, from, j - 1);
      TakenCountStep(d, sorted, from, j - 1);
      assert sorted[from..j][..j - 1 - from] == sorted[from..j - 1];
    }
  }

  lemma {:induction false} InsertSorted(s: seq<int>, x: int) returns (r: seq<int>)
    requires Sorted(s)
    ensures Sorted(r) && multiset(r) == multiset(s) + multiset{x}
  {
    if s == [] || s[|s| - 1] <= x {
      r := s + [x];
    } else {
      var last := |s| - 1;
      assert s == s[..last] + [s[last]];
      var t := InsertSorted(s[..last], x);
      r := t + [s[last]];
      forall i | 0 <= i < |t| ensures t[i] <= s[last] {
        assert t[i] in multiset(t);
      }
    }
  }

  lemma {:induction false} SortedPermutation(d: seq<int>) returns (s: seq<int>)
    ensures Sorted(s) && multiset(s) == multiset(d)
  {
    if d == [] {
      s := [];
    } else {
      var last := |d| - 1;
      assert d == d[..last] + [d[last]];
      var t := SortedPermutation(d[..last]);
      s := InsertSorted(t, d[last]);
    }
  }

  lemma SuffixCountGt(a: seq<int>, from: nat, v: int)
    requires Sorted(a) && from <= |a|
    ensures CountGt(a[from..], v) == Min(|a| - from, CountGt(a, v))
  {
    assert a == a[..from] + a[from..];
    CountAppend(a[..from], a[from..], v);
    CountsAreDisjoint(a[from..], v);
    if from < |a| {
      if v < a[from] {
        AllAtLeast(a[from..], v);
      } else {
        AllAtMost(a[..from], v);
      }
    }
  }

  lemma FlagsAreSelection(d: seq<int>, sorted: seq<int>, k: nat)
    requires Sorted(sorted) && multiset(d) == multiset(sorted)
    requires k <= |d| == |sorted|
    ensures Flags(d, sorted[|d| - k..]) == Selection(d, k)
  {
    forall i | 0 <= i < |d| ensures Taken(d, sorted[|d| - k..], i) <==> Selected(d, i, k) {
      TakenIsSelected(d, sorted, k, i);
    }
  }

  lemma TopCount(d: seq<int>, sorted: seq<int>, from: nat)
    requires Sorted(sorted) && multiset(d) == multiset(sorted)
    requires from <= |sorted|
    ensures Count(Flags(d, sorted[from..])) == Min(|sorted| - from, CountGt(d, 0))
  {
    TakenCount(d, sorted, from, |sorted|);
    assert sorted[from..|sorted|] == sorted[from..];
    CountGtOfPermutation(d, sorted, 0);
    SuffixCountGt(sorted, from, 0);
  }

  lemma PermutationLength(a: seq<int>, b: seq<int>)
    requires multiset(a) == multiset(b)
    ensures |a| == |b|
  {
    assert |multiset(a)| == |multiset(b)|;
  }

  lemma SortedSelectionCount(d: seq<int>, sorted: seq<int>, k: nat)
    requires Sorted(sorted) && multiset(d) == multiset(sorted)
    requires k <= |d| == |sorted|
    ensures Count(Selection(d, k)) == Min(k, CountGt(d, 0))
  {
    var top := sorted[|d| - k..];
    assert Count(Flags(d, top)) == Min(k, CountGt(d, 0)) by {
      TopCount(d, sorted, |d| - k);
    }
    assert Flags(d, top) == Selection(d, k) by {
      FlagsAreSelection(d, sorted, k);
    }
  }

  /** The budget is used in full when there are enough positive deltas, and never exceeded. */
  lemma SelectionCount(d: seq<int>, k: nat)
    requires k <= |d|
    ensures Count(Selection(d, k)) == Min(k, CountGt(d, 0))
  {
    var sorted := SortedPermutation(d);
    PermutationLength(d, sorted);
    SortedSelectionCount(d, sorted, k);
  }

  // What selection by rank is for.

  /** Entry `i` comes before entry `j`: it is larger, or equal with the lower index. */
  predicate Before(d: seq<int>, i: nat, j: nat)
    requires i < |d| && j < |d|
  {
    d[i] > d[j] || (d[i] == d[j] && i < j)
  }

  lemma {:induction false} AtLeastIsAbove(s: seq<int>, v: int, w: int)
    requires w < v
    ensures CountGt(s, v) + CountEq(s, v) <= CountGt(s, w)
  {
    if s != [] {
      AtLeastIsAbove(s[..|s| - 1], v, w);
    }
  }

  lemma EarlierRanksLower(d: seq<int>, i: nat, j: nat)
    requires i < |d| && j < |d| && Before(d, i, j)
    ensures Rank(d, i) < Rank(d, j)
  {
    if d[i] > d[j] {
      AtLeastIsAbove(d, d[i], d[j]);
      EarlierEqualsAreFewer(d, i);
    } else {
      EarlierEqualsDiffer(d, i, j);
    }
  }

  /** Only positive entries are selected, and none before which a positive one is left out. */
  lemma SelectionIsTheLargest(d: seq<int>, k: nat, i: nat, j: nat)
    requires i < |d| && j < |d| && Selected(d, j, k)
    ensures 0 < d[j]
    ensures Before(d, i, j) ==> Selected(d, i, k)
  {
    if Before(d, i, j) {
      EarlierRanksLower(d, i, j);
    }
  }
}
