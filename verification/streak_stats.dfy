/**
 * The counting driver of src/streaks2/streak_stats.py: `count_streaks(n)`
 * decomposes every permutation of 1..n, in the order `itertools.permutations`
 * yields them, and tallies the permutations by their number of streaks. The
 * tally is returned as a dict whose keys are in ascending order, modelled as
 * the sequence of its (key, count) items.
 */
module StreakStats {
  import opened StreakSpec
  import ExptStreaks

  function Fact(n: nat): nat
  {
    if n == 0 then 1 else n * Fact(n - 1)
  }

  /** range(lo, lo + n) */
  function Range(lo: int, n: nat): (r: seq<int>)
    ensures |r| == n && forall i :: 0 <= i < n ==> r[i] == lo + i
  {
    seq(n, i requires 0 <= i < n => lo + i)
  }

  // ---------------------------------------------------------------------
  // itertools.permutations
  // ---------------------------------------------------------------------

  /** `xs` without its element at position `i`. */
  function Remove(xs: seq<int>, i: nat): (r: seq<int>)
    requires i < |xs|
    ensures |r| == |xs| - 1
    ensures forall j :: 0 <= j < i ==> r[j] == xs[j]
    ensures forall j :: i <= j < |r| ==> r[j] == xs[j + 1]
  {
    xs[..i] + xs[i + 1..]
  }

  /** Puts `x` in front of every sequence of `ps`. */
  function Prepend(x: int, ps: seq<seq<int>>): (r: seq<seq<int>>)
    ensures |r| == |ps| && forall k :: 0 <= k < |ps| ==> r[k] == [x] + ps[k]
  {
    seq(|ps|, k requires 0 <= k < |ps| => [x] + ps[k])
  }

  /**
   * The arrangements of `xs` in the order itertools.permutations yields
   * them: those starting with xs[0] first, then those starting with xs[1],
   * and so on, each block ordered the same way on the remaining elements.
   */
  function Permutations(xs: seq<int>): seq<seq<int>>
    decreases |xs|, 1
  {
    if xs == [] then [[]] else PermsFrom(xs, 0)
  }

  /** The blocks of Permutations(xs) whose first element is xs[i], xs[i+1], ... */
  function PermsFrom(xs: seq<int>, i: nat): seq<seq<int>>
    requires i <= |xs|
    decreases |xs|, 0, |xs| - i
  {
    if i == |xs| then []
    else Prepend(xs[i], Permutations(Remove(xs, i))) + PermsFrom(xs, i + 1)
  }

  /** There are |xs|! arrangements. */
  lemma {:induction false} PermutationsCount(xs: seq<int>)
    ensures |Permutations(xs)| == Fact(|xs|)
    decreases |xs|, 1
  {
    if xs != [] {
      PermsFromCount(xs, 0);
    }
  }

  lemma {:induction false} PermsFromCount(xs: seq<int>, i: nat)
    requires 0 < |xs| && i <= |xs|
    ensures |PermsFrom(xs, i)| == (|xs| - i) * Fact(|xs| - 1)
    decreases |xs|, 0, |xs| - i
  {
    if i < |xs| {
      var f := Fact(|xs| - 1);
      PermutationsCount(Remove(xs, i));
      PermsFromCount(xs, i + 1);
      assert |PermsFrom(xs, i)| == f + (|xs| - (i + 1)) * f;
      MulSucc(|xs| - (i + 1), f);
    }
  }

  lemma MulSucc(a: nat, f: nat)
    ensures (a + 1) * f == f + a * f
  {
  }

  /** Every entry is an arrangement of `xs`: the same elements, as often. */
  lemma {:induction false} PermutationsArrange(xs: seq<int>)
    ensures forall k :: 0 <= k < |Permutations(xs)| ==> multiset(Permutations(xs)[k]) == multiset(xs)
    decreases |xs|, 1
  {
    if xs != [] {
      PermsFromArrange(xs, 0);
    }
  }

  lemma {:induction false} PermsFromArrange(xs: seq<int>, i: nat)
    requires i <= |xs|
    ensures forall k :: 0 <= k < |PermsFrom(xs, i)| ==> multiset(PermsFrom(xs, i)[k]) == multiset(xs)
    decreases |xs|, 0, |xs| - i
  {
    if i < |xs| {
      var rest := Remove(xs, i);
      var block := Prepend(xs[i], Permutations(rest));
      PermutationsArrange(rest);
      PermsFromArrange(xs, i + 1);
      assert xs == xs[..i] + [xs[i]] + xs[i + 1..];
      assert multiset(xs) == multiset([xs[i]]) + multiset(rest);
      forall k | 0 <= k < |block|
        ensures multiset(block[k]) == multiset(xs)
      {
        assert multiset(block[k]) == multiset([xs[i]]) + multiset(Permutations(rest)[k]);
      }
    }
  }

  /** Every entry's first element is one of xs[i..]. */
  lemma {:induction false} PermsFromHeads(xs: seq<int>, i: nat)
    requires i <= |xs|
    ensures forall k :: 0 <= k < |PermsFrom(xs, i)| ==>
      PermsFrom(xs, i)[k] != [] && exists t :: i <= t < |xs| && PermsFrom(xs, i)[k][0] == xs[t]
    decreases |xs| - i
  {
    if i < |xs| {
      PermsFromHeads(xs, i + 1);
      var block := Prepend(xs[i], Permutations(Remove(xs, i)));
      forall k | 0 <= k < |PermsFrom(xs, i)|
        ensures PermsFrom(xs, i)[k] != [] && exists t :: i <= t < |xs| && PermsFrom(xs, i)[k][0] == xs[t]
      {
        if k < |block| {
          assert PermsFrom(xs, i)[k][0] == xs[i];
        } else {
          assert PermsFrom(xs, i)[k] == PermsFrom(xs, i + 1)[k - |block|];
        }
      }
    }
  }

  lemma RemoveDistinct(xs: seq<int>, i: nat)
    requires i < |xs| && Distinct(xs)
    ensures Distinct(Remove(xs, i))
  {
    var r := Remove(xs, i);
    forall p, q | 0 <= p < q < |r|
      ensures r[p] != r[q]
    {
      var p' := if p < i then p else p + 1;
      var q' := if q < i then q else q + 1;
      assert r[p] == xs[p'] && r[q] == xs[q'] && p' < q';
    }
  }

  /** Over distinct elements no arrangement is listed twice. */
  lemma {:induction false} PermutationsNoRepeats(xs: seq<int>)
    requires Distinct(xs)
    ensures forall a, b :: 0 <= a < b < |Permutations(xs)| ==> Permutations(xs)[a] != Permutations(xs)[b]
    decreases |xs|, 1
  {
    if xs != [] {
      PermsFromNoRepeats(xs, 0);
    }
  }

  lemma {:induction false} PermsFromNoRepeats(xs: seq<int>, i: nat)
    requires Distinct(xs) && i <= |xs|
    ensures forall a, b :: 0 <= a < b < |PermsFrom(xs, i)| ==> PermsFrom(xs, i)[a] != PermsFrom(xs, i)[b]
    decreases |xs|, 0, |xs| - i
  {
    if i < |xs| {
      var rest := Remove(xs, i);
      RemoveDistinct(xs, i);
      PermutationsNoRepeats(rest);
      PermsFromNoRepeats(xs, i + 1);
      PermsFromHeads(xs, i + 1);
      var block := Prepend(xs[i], Permutations(rest));
      var tail := PermsFrom(xs, i + 1);
      var all := PermsFrom(xs, i);
      assert all == block + tail;
      forall a, b | 0 <= a < b < |all|
        ensures all[a] != all[b]
      {
        if b < |block| {
          assert all[a][1..] == Permutations(rest)[a];
          assert all[b][1..] == Permutations(rest)[b];
        } else if a < |block| {
          assert all[b] == tail[b - |block|];
          var t :| i + 1 <= t < |xs| && tail[b - |block|][0] == xs[t];
          assert all[a][0] == xs[i];
        } else {
          assert all[a] == tail[a - |block|] && all[b] == tail[b - |block|];
        }
      }
    }
  }

  /** Every arrangement of `xs` is listed: with `PermutationsNoRepeats`, each
      rearrangement of distinct elements appears exactly once. */
  lemma PermutationsComplete(xs: seq<int>)
    ensures forall p :: multiset(p) == multiset(xs) ==> p in Permutations(xs)
  {
    forall p | multiset(p) == multiset(xs)
      ensures p in Permutations(xs)
    {
      ArrangementListed(xs, p);
    }
  }

  lemma {:induction false} ArrangementListed(xs: seq<int>, p: seq<int>)
    requires multiset(p) == multiset(xs)
    ensures p in Permutations(xs)
    decreases |xs|
  {
    if xs == [] {
      assert |p| == |multiset(p)| == 0;
    } else {
      assert |p| == |multiset(p)| == |xs| > 0;
      assert p[0] in multiset(xs);
      var i :| 0 <= i < |xs| && xs[i] == p[0];
      var rest := Remove(xs, i);
      assert xs == xs[..i] + [xs[i]] + xs[i + 1..];
      assert multiset(xs) == multiset(rest) + multiset{p[0]};
      assert p == [p[0]] + p[1..];
      assert multiset(p) == multiset(p[1..]) + multiset{p[0]};
      assert multiset(p[1..]) == multiset(p) - multiset{p[0]};
      assert multiset(rest) == multiset(xs) - multiset{p[0]};
      ArrangementListed(rest, p[1..]);
      var k :| 0 <= k < |Permutations(rest)| && Permutations(rest)[k] == p[1..];
      assert Prepend(xs[i], Permutations(rest))[k] == p;
      PermsFromContains(xs, 0, i, p);
      assert Permutations(xs) == PermsFrom(xs, 0);
    }
  }

  /** The block headed by xs[i] lies inside PermsFrom(xs, j) for every j <= i. */
  lemma {:induction false} PermsFromContains(xs: seq<int>, j: nat, i: nat, p: seq<int>)
    requires j <= i < |xs|
    requires p in Prepend(xs[i], Permutations(Remove(xs, i)))
    ensures p in PermsFrom(xs, j)
    decreases i - j
  {
    if j < i {
      PermsFromContains(xs, j + 1, i, p);
    }
  }

  // ---------------------------------------------------------------------
  // Counter and dict(sorted(...items()))
  // ---------------------------------------------------------------------

  /** counter[k] += 1 on a Counter (a missing key counts as 0). */
  function Bump(m: map<int, int>, k: int): (r: map<int, int>)
    ensures k in r && r[k] == (if k in m then m[k] else 0) + 1
    ensures forall j :: j != k ==> (j in r <==> j in m) && (j in m ==> r[j] == m[j])
  {
    m[k := (if k in m then m[k] else 0) + 1]
  }

  /** The Counter after tallying every sequence of `ps` by its number of streaks. */
  function Tally(ps: seq<seq<int>>): map<int, int>
  {
    if ps == [] then map[] else Bump(Tally(ps[..|ps| - 1]), |Decompose(Last(ps))|)
  }

  /** The items of `m` whose keys lie in [lo, hi), in ascending key order. */
  function SortedItems(m: map<int, int>, lo: int, hi: int): seq<(int, int)>
    decreases hi - lo
  {
    if hi <= lo then []
    else SortedItems(m, lo, hi - 1) + (if hi - 1 in m then [(hi - 1, m[hi - 1])] else [])
  }

  /** Sum of the counts of a list of items. */
  function ValueSum(items: seq<(int, int)>): int
  {
    if items == [] then 0 else ValueSum(items[..|items| - 1]) + Last(items).1
  }

  /** Some item of the list has key k. */
  predicate ListsKey(items: seq<(int, int)>, k: int)
  {
    exists a :: 0 <= a < |items| && items[a].0 == k
  }

  /** The keys are strictly ascending. */
  predicate Ascending(items: seq<(int, int)>)
  {
    forall a, b :: 0 <= a < b < |items| ==> items[a].0 < items[b].0
  }

  /**
   * SortedItems lists exactly the entries of `m` with keys in [lo, hi),
   * each with its own count, in strictly ascending key order.
   */
  lemma SortedItemsProperties(m: map<int, int>, lo: int, hi: int)
    ensures Ascending(SortedItems(m, lo, hi))
    ensures forall a :: 0 <= a < |SortedItems(m, lo, hi)| ==>
      var (k, v) := SortedItems(m, lo, hi)[a]; lo <= k < hi && k in m && m[k] == v
    ensures forall k :: k in m && lo <= k < hi ==> ListsKey(SortedItems(m, lo, hi), k)
  {
    SortedItemsEntries(m, lo, hi);
    SortedItemsComplete(m, lo, hi);
  }

  /** Each listed item is an entry of `m` with key in [lo, hi), and the keys ascend. */
  lemma {:induction false} SortedItemsEntries(m: map<int, int>, lo: int, hi: int)
    ensures Ascending(SortedItems(m, lo, hi))
    ensures forall a :: 0 <= a < |SortedItems(m, lo, hi)| ==>
      var (k, v) := SortedItems(m, lo, hi)[a]; lo <= k < hi && k in m && m[k] == v
    decreases hi - lo
  {
    if lo < hi {
      SortedItemsEntries(m, lo, hi - 1);
      var prev := SortedItems(m, lo, hi - 1);
      var items := SortedItems(m, lo, hi);
      assert forall a :: 0 <= a < |prev| ==> items[a] == prev[a];
      assert |items| > |prev| ==> items[|prev|] == (hi - 1, m[hi - 1]);
      forall a, b | 0 <= a < b < |items|
        ensures items[a].0 < items[b].0
      {
        if b < |prev| {
          assert items[a] == prev[a] && items[b] == prev[b];
        } else {
          assert items[a] == prev[a];
        }
      }
    }
  }

  /** The position at which an entry of `m` with key in [lo, hi) is listed. */
  lemma {:induction false} SortedItemsIndex(m: map<int, int>, lo: int, hi: int, k: int) returns (a: int)
    requires k in m && lo <= k < hi
    ensures 0 <= a < |SortedItems(m, lo, hi)| && SortedItems(m, lo, hi)[a] == (k, m[k])
    decreases hi - lo
  {
    var prev := SortedItems(m, lo, hi - 1);
    if k < hi - 1 {
      a := SortedItemsIndex(m, lo, hi - 1, k);
      assert SortedItems(m, lo, hi)[..|prev|] == prev;
    } else {
      assert SortedItems(m, lo, hi) == prev + [(k, m[k])];
      a := |prev|;
    }
  }

  /** Every entry of `m` with key in [lo, hi) is listed. */
  lemma SortedItemsComplete(m: map<int, int>, lo: int, hi: int)
    ensures forall k :: k in m && lo <= k < hi ==> ListsKey(SortedItems(m, lo, hi), k)
  {
    forall k | k in m && lo <= k < hi
      ensures ListsKey(SortedItems(m, lo, hi), k)
    {
      var a := SortedItemsIndex(m, lo, hi, k);
      assert SortedItems(m, lo, hi)[a].0 == k;
    }
  }

  lemma {:induction false} ValueSumSnoc(items: seq<(int, int)>, extra: seq<(int, int)>)
    requires |extra| <= 1
    ensures ValueSum(items + extra) == ValueSum(items) + ValueSum(extra)
  {
    if extra == [] {
      assert items + extra == items;
    } else {
      assert (items + extra)[..|items|] == items;
      assert extra[..0] == [];
    }
  }

  /** The count of key k in a Counter: 0 when absent. */
  function CountOf(m: map<int, int>, k: int): int
  {
    if k in m then m[k] else 0
  }

  /** Listing one more key adds its count to the total. */
  lemma SortedItemsSumStep(m: map<int, int>, lo: int, hi: int)
    requires lo < hi
    ensures ValueSum(SortedItems(m, lo, hi)) == ValueSum(SortedItems(m, lo, hi - 1)) + CountOf(m, hi - 1)
  {
    var extra := if hi - 1 in m then [(hi - 1, m[hi - 1])] else [];
    ValueSumSnoc(SortedItems(m, lo, hi - 1), extra);
    assert extra[..0] == [] || extra == [];
  }

  /** Bumping a key in range adds one to the total of the listed counts. */
  lemma {:induction false} BumpSum(m: map<int, int>, k: int, lo: int, hi: int)
    requires lo <= k < hi
    ensures ValueSum(SortedItems(Bump(m, k), lo, hi)) == ValueSum(SortedItems(m, lo, hi)) + 1
    decreases hi - lo
  {
    var b := Bump(m, k);
    SortedItemsSumStep(m, lo, hi);
    SortedItemsSumStep(b, lo, hi);
    if k < hi - 1 {
      BumpSum(m, k, lo, hi - 1);
      assert CountOf(b, hi - 1) == CountOf(m, hi - 1);
    } else {
      SortedItemsUnchanged(m, b, lo, hi - 1);
      assert CountOf(b, hi - 1) == CountOf(m, hi - 1) + 1;
    }
  }

  /** Two maps that agree on [lo, hi) list the same items. */
  lemma {:induction false} SortedItemsUnchanged(m: map<int, int>, m': map<int, int>, lo: int, hi: int)
    requires forall j :: lo <= j < hi ==> (j in m <==> j in m') && (j in m ==> m[j] == m'[j])
    ensures SortedItems(m, lo, hi) == SortedItems(m', lo, hi)
    decreases hi - lo
  {
    if lo < hi {
      SortedItemsUnchanged(m, m', lo, hi - 1);
    }
  }

  /** Every sequence of `ps` is counted once: the counts add up to |ps|. */
  lemma {:induction false} TallySum(ps: seq<seq<int>>, lo: int, hi: int)
    requires forall i :: 0 <= i < |ps| ==> lo <= |Decompose(ps[i])| < hi
    ensures ValueSum(SortedItems(Tally(ps), lo, hi)) == |ps|
  {
    if ps == [] {
      EmptyItems(lo, hi);
    } else {
      var init := ps[..|ps| - 1];
      assert forall i :: 0 <= i < |init| ==> init[i] == ps[i];
      TallySum(init, lo, hi);
      BumpSum(Tally(init), |Decompose(Last(ps))|, lo, hi);
    }
  }

  lemma {:induction false} EmptyItems(lo: int, hi: int)
    ensures ValueSum(SortedItems(map[], lo, hi)) == 0
    decreases hi - lo
  {
    if lo < hi {
      EmptyItems(lo, hi - 1);
      assert SortedItems(map[], lo, hi) == SortedItems(map[], lo, hi - 1);
    }
  }

  /** The keys of the tally are streak counts of some tallied sequence. */
  lemma {:induction false} TallyKeys(ps: seq<seq<int>>, lo: int, hi: int)
    requires forall i :: 0 <= i < |ps| ==> lo <= |Decompose(ps[i])| < hi
    ensures forall k :: k in Tally(ps) ==> lo <= k < hi
  {
    if ps != [] {
      var init := ps[..|ps| - 1];
      assert forall i :: 0 <= i < |init| ==> init[i] == ps[i];
      TallyKeys(init, lo, hi);
    }
  }

  // ---------------------------------------------------------------------
  // count_streaks
  // ---------------------------------------------------------------------

  /** The permutations of 1..n that count_streaks enumerates. */
  function PermutationsUpTo(n: nat): seq<seq<int>>
  {
    Permutations(Range(1, n))
  }

  /** The sequences count_streaks walks through are the permutations of 1..n,
      each exactly once: every entry rearranges 1..n, every rearrangement of
      1..n is an entry, and no entry repeats. */
  lemma PermutationsUpToExactlyOnce(n: nat)
    ensures forall i :: 0 <= i < |PermutationsUpTo(n)| ==>
      multiset(PermutationsUpTo(n)[i]) == multiset(Range(1, n))
    ensures forall p :: multiset(p) == multiset(Range(1, n)) ==> p in PermutationsUpTo(n)
    ensures forall a, b :: 0 <= a < b < |PermutationsUpTo(n)| ==>
      PermutationsUpTo(n)[a] != PermutationsUpTo(n)[b]
  {
    var r := Range(1, n);
    PermutationsArrange(r);
    PermutationsComplete(r);
    assert Distinct(r);
    PermutationsNoRepeats(r);
  }

  /** Each enumerated permutation has n elements, so 1..n streaks when n >= 1 and none when n == 0. */
  lemma StreakCountBounds(n: nat)
    ensures forall i :: 0 <= i < |PermutationsUpTo(n)| ==>
      (if n == 0 then 0 else 1) <= |Decompose(PermutationsUpTo(n)[i])| <= n
  {
    var ps := PermutationsUpTo(n);
    PermutationsArrange(Range(1, n));
    forall i | 0 <= i < |ps|
      ensures (if n == 0 then 0 else 1) <= |Decompose(ps[i])| <= n
    {
      assert |ps[i]| == |multiset(ps[i])| == |multiset(Range(1, n))| == n;
      SplitCount(ps[i], false);
    }
  }

  /** How many sequences of `ps` have exactly `k` streaks. */
  function CountWith(ps: seq<seq<int>>, k: int): nat
  {
    if ps == [] then 0
    else CountWith(ps[..|ps| - 1], k) + (if |Decompose(Last(ps))| == k then 1 else 0)
  }

  /** The Counter holds exactly the streak counts that occur, each with its number of sequences. */
  lemma {:induction false} TallyIsCount(ps: seq<seq<int>>)
    ensures forall k :: k in Tally(ps) <==> 0 < CountWith(ps, k)
    ensures forall k :: k in Tally(ps) ==> Tally(ps)[k] == CountWith(ps, k)
  {
    if ps != [] {
      TallyIsCount(ps[..|ps| - 1]);
    }
  }

  /** The result of count_streaks(n). */
  function CountStreaksResult(n: nat): seq<(int, int)>
  {
    SortedItems(Tally(PermutationsUpTo(n)), 0, n + 1)
  }

  /**
   * What count_streaks(n) promises: ascending keys, each a possible streak
   * count (1..n, or 0 for n == 0) paired with the number of permutations
   * having that many streaks; every count that occurs is listed; and the
   * counts add up to n!.
   */
  lemma CountStreaksProperties(n: nat)
    ensures Ascending(CountStreaksResult(n))
    ensures forall a :: 0 <= a < |CountStreaksResult(n)| ==>
      var (k, v) := CountStreaksResult(n)[a];
      (if n == 0 then k == 0 else 1 <= k <= n) && v == CountWith(PermutationsUpTo(n), k) && 1 <= v
    ensures forall k :: 0 < CountWith(PermutationsUpTo(n), k) ==> ListsKey(CountStreaksResult(n), k)
    ensures ValueSum(CountStreaksResult(n)) == Fact(n)
  {
    CountStreaksEntries(n);
    CountStreaksCovers(n);
    CountStreaksTotal(n);
  }

  lemma CountStreaksEntries(n: nat)
    ensures Ascending(CountStreaksResult(n))
    ensures forall a :: 0 <= a < |CountStreaksResult(n)| ==>
      var (k, v) := CountStreaksResult(n)[a];
      (if n == 0 then k == 0 else 1 <= k <= n) && v == CountWith(PermutationsUpTo(n), k) && 1 <= v
  {
    var ps := PermutationsUpTo(n);
    StreakCountBounds(n);
    TallyKeys(ps, if n == 0 then 0 else 1, n + 1);
    TallyIsCount(ps);
    SortedItemsEntries(Tally(ps), 0, n + 1);
  }

  lemma CountStreaksCovers(n: nat)
    ensures forall k :: 0 < CountWith(PermutationsUpTo(n), k) ==> ListsKey(CountStreaksResult(n), k)
  {
    var ps := PermutationsUpTo(n);
    StreakCountBounds(n);
    TallyKeys(ps, 0, n + 1);
    TallyIsCount(ps);
    SortedItemsComplete(Tally(ps), 0, n + 1);
  }

  lemma CountStreaksTotal(n: nat)
    ensures ValueSum(CountStreaksResult(n)) == Fact(n)
  {
    StreakCountBounds(n);
    PermutationsCount(Range(1, n));
    TallySum(PermutationsUpTo(n), 0, n + 1);
  }

  /** count_streaks(0) == {0: 1}: the one empty permutation has no streak. */
  lemma CountStreaksZero()
    ensures CountStreaksResult(0) == [(0, 1)]
  {
    assert PermutationsUpTo(0) == [[]];
    assert Decompose([]) == [];
    assert Tally([[]]) == map[0 := 1];
    assert SortedItems(map[0 := 1], 0, 0) == [];
  }

  // ---------------------------------------------------------------------
  // Streaks as prefix minima, and the Stirling numbers for small n
  // ---------------------------------------------------------------------

  /** x is smaller than every element of s. */
  predicate Below(x: int, s: seq<int>)
  {
    forall j :: 0 <= j < |s| ==> x < s[j]
  }

  /** The number of prefix minima of s: positions holding a value below everything before it. */
  function PrefixMinima(s: seq<int>): nat
  {
    if s == [] then 0
    else PrefixMinima(s[..|s| - 1]) + (if Below(Last(s), s[..|s| - 1]) then 1 else 0)
  }

  /**
   * The leader of the last streak is the minimum of the sequence so far,
   * so a new streak opens exactly at a new prefix minimum: the number of
   * streaks is the number of prefix minima.
   */
  lemma {:induction false} StreaksArePrefixMinima(s: seq<int>)
    ensures |Decompose(s)| == PrefixMinima(s)
    ensures s != [] ==> Last(Decompose(s))[0] in s && forall j :: 0 <= j < |s| ==> Last(Decompose(s))[0] <= s[j]
  {
    if s != [] {
      var init := s[..|s| - 1];
      assert s == init + [Last(s)];
      StreaksArePrefixMinima(init);
      if init == [] {
        SplitSnoc(init, Last(s), false);
        assert s == [Last(s)];
      } else {
        PrefixMinimaStep(init, Last(s));
      }
    }
  }

  /** Appending x to a non-empty sequence whose last leader is its minimum. */
  lemma PrefixMinimaStep(init: seq<int>, x: int)
    requires init != []
    requires |Decompose(init)| == PrefixMinima(init)
    requires Last(Decompose(init))[0] in init
    requires forall j :: 0 <= j < |init| ==> Last(Decompose(init))[0] <= init[j]
    ensures |Decompose(init + [x])| == PrefixMinima(init + [x])
    ensures Last(Decompose(init + [x]))[0] in init + [x]
    ensures forall j :: 0 <= j < |init| + 1 ==> Last(Decompose(init + [x]))[0] <= (init + [x])[j]
  {
    var s := init + [x];
    assert s[..|s| - 1] == init && Last(s) == x;
    assert PrefixMinima(s) == PrefixMinima(init) + (if Below(x, init) then 1 else 0);
    var d := Decompose(init);
    if x >= Last(d)[0] {
      PrefixMinimaJoin(init, x, d);
    } else {
      PrefixMinimaOpen(init, x, d);
    }
  }

  /** x at or above the last leader extends the last streak; x is no new prefix minimum. */
  lemma PrefixMinimaJoin(init: seq<int>, x: int, d: seq<seq<int>>)
    requires init != [] && d == Decompose(init)
    requires Last(d)[0] in init && x >= Last(d)[0]
    ensures |Decompose(init + [x])| == |d| && Last(Decompose(init + [x]))[0] == Last(d)[0]
    ensures !Below(x, init)
  {
    SplitSnoc(init, x, false);
    var d' := d[..|d| - 1] + [Last(d) + [x]];
    assert Last(d') == Last(d) + [x];
    var j :| 0 <= j < |init| && init[j] == Last(d)[0];
  }

  /** x below the last leader, which is the minimum so far, opens a streak at a new prefix minimum. */
  lemma PrefixMinimaOpen(init: seq<int>, x: int, d: seq<seq<int>>)
    requires init != [] && d == Decompose(init)
    requires forall j :: 0 <= j < |init| ==> Last(d)[0] <= init[j]
    requires x < Last(d)[0]
    ensures |Decompose(init + [x])| == |d| + 1 && Last(Decompose(init + [x]))[0] == x
    ensures Below(x, init)
  {
    SplitSnoc(init, x, false);
    assert Last(d + [[x]]) == [x];
  }

  lemma PermutationsOne(x: int)
    ensures Permutations([x]) == [[x]]
  {
    assert Remove([x], 0) == [] && PermsFrom([x], 1) == [];
    assert Permutations([]) == [[]];
    var b := Prepend(x, [[]]);
    assert |b| == 1 && b[0] == [x] + [] == [x];
    assert b == [[x]];
    assert PermsFrom([x], 0) == b + [];
  }

  lemma PermutationsTwo(x: int, y: int)
    ensures Permutations([x, y]) == [[x, y], [y, x]]
  {
    assert Remove([x, y], 0) == [y] && Remove([x, y], 1) == [x];
    PermutationsOne(x);
    PermutationsOne(y);
    assert PermsFrom([x, y], 2) == [];
    var bx := Prepend(x, [[y]]);
    var bY := Prepend(y, [[x]]);
    assert |bx| == 1 && bx[0] == [x] + [y] == [x, y];
    assert |bY| == 1 && bY[0] == [y] + [x] == [y, x];
    assert PermsFrom([x, y], 1) == bY + [] == [[y, x]];
    assert PermsFrom([x, y], 0) == bx + [[y, x]];
  }

  /** The unsigned Stirling numbers of the first kind, by their recurrence. */
  function Stirling1(n: nat, k: nat): nat
  {
    if n == 0 then (if k == 0 then 1 else 0)
    else if k == 0 then 0
    else (n - 1) * Stirling1(n - 1, k) + Stirling1(n - 1, k - 1)
  }

  lemma PermutationsThree(x: int, y: int, z: int)
    ensures Permutations([x, y, z]) == [[x, y, z], [x, z, y], [y, x, z], [y, z, x], [z, x, y], [z, y, x]]
  {
    var xs := [x, y, z];
    var tz := [[z, x, y], [z, y, x]];
    var tY := [[y, x, z], [y, z, x]] + tz;
    PermsFromThree(xs, 2, [x, y], [], tz);
    PermsFromThree(xs, 1, [x, z], tz, tY);
    PermsFromThree(xs, 0, [y, z], tY, [[x, y, z], [x, z, y]] + tY);
  }

  /** The block of arrangements of a three-element `xs` led by xs[i], followed by the later blocks. */
  lemma PermsFromThree(xs: seq<int>, i: nat, rest: seq<int>, later: seq<seq<int>>, all: seq<seq<int>>)
    requires |xs| == 3 && i < 3 && |rest| == 2
    requires Remove(xs, i) == rest && PermsFrom(xs, i + 1) == later
    requires all == [[xs[i], rest[0], rest[1]], [xs[i], rest[1], rest[0]]] + later
    ensures PermsFrom(xs, i) == all
  {
    var u, v := rest[0], rest[1];
    PermutationsTwo(u, v);
    assert rest == [u, v];
    var block := Prepend(xs[i], [[u, v], [v, u]]);
    assert block[0] == [xs[i]] + [u, v] == [xs[i], u, v];
    assert block[1] == [xs[i]] + [v, u] == [xs[i], v, u];
    assert block == [[xs[i], u, v], [xs[i], v, u]];
  }

  lemma TallySnoc(ps: seq<seq<int>>, p: seq<int>)
    ensures Tally(ps + [p]) == Bump(Tally(ps), |Decompose(p)|)
  {
    assert (ps + [p])[..|ps|] == ps;
  }

  /** The number of streaks of a sequence of up to three elements, by its prefix minima. */
  lemma StreakCountSmall(a: int, b: int, c: int)
    ensures |Decompose([a])| == 1
    ensures |Decompose([a, b])| == 1 + (if b < a then 1 else 0)
    ensures |Decompose([a, b, c])| == 1 + (if b < a then 1 else 0) + (if c < a && c < b then 1 else 0)
  {
    StreaksArePrefixMinima([a]);
    StreaksArePrefixMinima([a, b]);
    StreaksArePrefixMinima([a, b, c]);
    assert [a, b, c][..2] == [a, b] && [a, b][..1] == [a] && [a][..0] == [];
  }

  /** count_streaks(1) == {1: c(1, 1)} == {1: 1}. */
  lemma CountStreaksOne(n: nat)
    requires n == 1
    ensures CountStreaksResult(n) == [(1, Stirling1(n, 1))]
  {
    var a := 1;
    assert Range(1, n) == [a];
    PermutationsOne(a);
    assert |Decompose([a])| == 1 by { StreakCountSmall(a, a, a); }
    TallyStep([], [a], map[], 1);
    assert [] + [[a]] == [[a]];
    var m := map[1 := Stirling1(n, 1)];
    assert Tally(PermutationsUpTo(n)) == m;
    assert SortedItems(m, 0, 1) == [];
  }

  /** count_streaks(2) == {1: c(2, 1), 2: c(2, 2)} == {1: 1, 2: 1}. */
  lemma CountStreaksTwo(n: nat)
    requires n == 2
    ensures CountStreaksResult(n) == [(1, Stirling1(n, 1)), (2, Stirling1(n, 2))]
  {
    TallyTwo(n);
    StirlingTwo(n);
    SortedItemsOfTwo(Stirling1(n, 1), Stirling1(n, 2));
  }

  lemma TallyTwo(n: nat)
    requires n == 2
    ensures Tally(PermutationsUpTo(n)) == map[1 := 1, 2 := 1]
  {
    var a, b := 1, 2;
    assert Range(1, n) == [a, b];
    PermutationsTwo(a, b);
    StreakCountSmall(a, b, 0);
    StreakCountSmall(b, a, 0);
    TallyOfTwo([a, b], [b, a]);
  }

  /** Tallying two sequences with 1 and 2 streaks. */
  lemma TallyOfTwo(p0: seq<int>, p1: seq<int>)
    requires |Decompose(p0)| == 1 && |Decompose(p1)| == 2
    ensures Tally([p0, p1]) == map[1 := 1, 2 := 1]
  {
    var q0: seq<seq<int>> := [];
    TallyStep(q0, p0, map[], 1);
    var q1 := q0 + [p0];
    TallyStep(q1, p1, map[1 := 1], 2);
    assert q1 + [p1] == [p0, p1];
  }

  lemma StirlingTwo(n: nat)
    requires n == 2
    ensures Stirling1(n, 1) == 1 && Stirling1(n, 2) == 1
  {
    assert Stirling1(n - 1, 1) == 1 && Stirling1(n - 1, 2) == 0;
  }

  lemma SortedItemsOfTwo(x: int, y: int)
    ensures SortedItems(map[1 := x, 2 := y], 0, 3) == [(1, x), (2, y)]
  {
    var m := map[1 := x, 2 := y];
    assert SortedItems(m, 0, 1) == [];
    assert SortedItems(m, 0, 2) == [(1, x)];
  }

  /** The streak counts of the six arrangements of a < b < c. */
  lemma ThreeStreakCounts(a: int, b: int, c: int)
    requires a < b < c
    ensures |Decompose([a, b, c])| == 1 && |Decompose([a, c, b])| == 1
    ensures |Decompose([b, a, c])| == 2 && |Decompose([b, c, a])| == 2
    ensures |Decompose([c, a, b])| == 2 && |Decompose([c, b, a])| == 3
  {
    StreakCountSmall(a, b, c);
    StreakCountSmall(a, c, b);
    StreakCountSmall(b, a, c);
    StreakCountSmall(b, c, a);
    StreakCountSmall(c, a, b);
    StreakCountSmall(c, b, a);
  }

  /** One more tallied sequence bumps its streak count. */
  lemma TallyStep(ps: seq<seq<int>>, p: seq<int>, m: map<int, int>, k: int)
    requires Tally(ps) == m && |Decompose(p)| == k
    ensures Tally(ps + [p]) == Bump(m, k)
  {
    TallySnoc(ps, p);
  }

  /** Tallying the six arrangements of a < b < c, in the order Permutations lists them. */
  lemma TallyOfThree(a: int, b: int, c: int)
    requires a < b < c
    ensures Tally([[a, b, c], [a, c, b], [b, a, c], [b, c, a], [c, a, b], [c, b, a]]) == map[1 := 2, 2 := 3, 3 := 1]
  {
    ThreeStreakCounts(a, b, c);
    TallyOfSix([a, b, c], [a, c, b], [b, a, c], [b, c, a], [c, a, b], [c, b, a]);
  }

  /** Tallying six sequences with 1, 1, 2, 2, 2 and 3 streaks. */
  lemma TallyOfSix(p0: seq<int>, p1: seq<int>, p2: seq<int>, p3: seq<int>, p4: seq<int>, p5: seq<int>)
    requires |Decompose(p0)| == 1 && |Decompose(p1)| == 1
    requires |Decompose(p2)| == 2 && |Decompose(p3)| == 2 && |Decompose(p4)| == 2
    requires |Decompose(p5)| == 3
    ensures Tally([p0, p1, p2, p3, p4, p5]) == map[1 := 2, 2 := 3, 3 := 1]
  {
    var q0: seq<seq<int>> := [];
    TallyStep(q0, p0, map[], 1);
    var q1 := q0 + [p0];
    TallyStep(q1, p1, map[1 := 1], 1);
    var q2 := q1 + [p1];
    TallyStep(q2, p2, map[1 := 2], 2);
    var q3 := q2 + [p2];
    TallyStep(q3, p3, map[1 := 2, 2 := 1], 2);
    var q4 := q3 + [p3];
    TallyStep(q4, p4, map[1 := 2, 2 := 2], 2);
    var q5 := q4 + [p4];
    TallyStep(q5, p5, map[1 := 2, 2 := 3], 3);
    assert q5 + [p5] == [p0, p1, p2, p3, p4, p5];
  }

  lemma TallyThree(n: nat)
    requires n == 3
    ensures Tally(PermutationsUpTo(n)) == map[1 := 2, 2 := 3, 3 := 1]
  {
    var a, b, c := 1, 2, 3;
    assert Range(1, n) == [a, b, c];
    PermutationsThree(a, b, c);
    TallyOfThree(a, b, c);
  }

  /** count_streaks(3) == {1: c(3, 1), 2: c(3, 2), 3: c(3, 3)} == {1: 2, 2: 3, 3: 1}. */
  lemma CountStreaksThree(n: nat)
    requires n == 3
    ensures CountStreaksResult(n) == [(1, Stirling1(n, 1)), (2, Stirling1(n, 2)), (3, Stirling1(n, 3))]
  {
    TallyThree(n);
    StirlingThree(n);
    SortedItemsOfThree(Stirling1(n, 1), Stirling1(n, 2), Stirling1(n, 3));
  }

  lemma StirlingThree(n: nat)
    requires n == 3
    ensures Stirling1(n, 1) == 2 && Stirling1(n, 2) == 3 && Stirling1(n, 3) == 1
  {
    assert Stirling1(n - 1, 1) == 1 && Stirling1(n - 1, 2) == 1 && Stirling1(n - 1, 3) == 0;
  }

  lemma SortedItemsOfThree(x: int, y: int, z: int)
    ensures SortedItems(map[1 := x, 2 := y, 3 := z], 0, 4) == [(1, x), (2, y), (3, z)]
  {
    var m := map[1 := x, 2 := y, 3 := z];
    assert SortedItems(m, 0, 1) == [];
    assert SortedItems(m, 0, 2) == [(1, x)];
    assert SortedItems(m, 0, 3) == [(1, x), (2, y)];
  }

  /**
   * count_streaks(n): the tally, over every permutation of 1..n, of the
   * number of streaks, with keys ascending; every permutation is counted
   * once, so the counts add up to n!.
   */
  method CountStreaks(n: nat) returns (counts: seq<(int, int)>)
    ensures counts == CountStreaksResult(n)
    ensures Ascending(counts)
    ensures forall a :: 0 <= a < |counts| ==>
      var (k, v) := counts[a];
      (if n == 0 then k == 0 else 1 <= k <= n) && v == CountWith(PermutationsUpTo(n), k) && 1 <= v
    ensures ValueSum(counts) == Fact(n)
  {
    var perms := Permutations(Range(1, n));
    var streakCounts: map<int, int> := map[];
    for idx := 0 to |perms|
      invariant streakCounts == Tally(perms[..idx])
    {
      var streaksList := ExptStreaks.FindStreaks(perms[idx]);
      var k := |streaksList|;
      streakCounts := streakCounts[k := (if k in streakCounts then streakCounts[k] else 0) + 1];
      assert perms[..idx + 1][..idx] == perms[..idx] && Last(perms[..idx + 1]) == perms[idx];
    }
    assert perms[..|perms|] == perms;
    counts := SortedItems(streakCounts, 0, n + 1);
    CountStreaksProperties(n);
  }
}
