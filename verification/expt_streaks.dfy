/** The free-function decomposers of src/expt/streaks.py. */
module ExptStreaks {
  import opened StreakSpec

  /** `find_streaks`: the list decomposition, built by a left-to-right scan that keeps the
      current streak and closes it when an element is smaller than its first element. */
  method FindStreaks(lst: seq<int>) returns (streaks: seq<seq<int>>)
    ensures streaks == Decompose(lst)
    ensures Flatten(streaks) == lst
    ensures NonEmptyStreaks(streaks)
    ensures forall i :: 0 <= i < |streaks| ==> HeadIsMin(streaks[i])
    ensures LeadersDecrease(streaks)
  {
    if lst == [] {
      DecomposeProperties(lst);
      return [];
    }
    streaks := [];
    var current := [lst[0]];
    ScanStart(lst, false);
    for i := 1 to |lst|
      invariant current != []
      invariant streaks + [current] == Decompose(lst[..i])
    {
      assert lst[..i + 1] == lst[..i] + [lst[i]];
      ScanStep(lst[..i], lst[i], streaks, current, false);
      if lst[i] >= current[0] {
        current := current + [lst[i]];
      } else {
        streaks := streaks + [current];
        current := [lst[i]];
      }
    }
    streaks := streaks + [current];
    assert lst[..|lst|] == lst;
    DecomposeProperties(lst);
  }

  /** `lst.any()` on a numeric array: some element is nonzero. */
  predicate AnyNonzero(lst: seq<int>) {
    exists i :: 0 <= i < |lst| && lst[i] != 0
  }

  /** `kv_streaks`: the leader -> length dict, built by a scan that keeps the current leader
      and length and closes the streak when an element is not greater than the leader. An
      input with no nonzero element (the empty array, but also `[0]`) gives `{}`. */
  method KvStreaks(lst: seq<int>) returns (kv: map<int, int>)
    ensures !AnyNonzero(lst) ==> kv == map[]
    ensures AnyNonzero(lst) ==> kv == LengthMap(CompactSplit(lst))
    ensures AnyNonzero(lst) && Distinct(lst) ==>
      && (forall k :: k in kv <==> k in Leaders(Decompose(lst)))
      && (forall i :: 0 <= i < |Decompose(lst)| ==>
            Decompose(lst)[i][0] in kv && kv[Decompose(lst)[i][0]] == |Decompose(lst)[i]|)
      && |kv| == |Decompose(lst)|
      && SumOver(kv, Leaders(Decompose(lst))) == |lst|
  {
    kv := map[];
    if !AnyNonzero(lst) {
      return;
    }
    var start := lst[0];
    var length := 1;
    KvScanStart(lst, map[], true);
    for i := 1 to |lst|
      invariant KvScanState(lst[..i], start, length, map[], kv, true)
    {
      assert lst[..i + 1] == lst[..i] + [lst[i]];
      KvScanStep(lst[..i], lst[i], start, length, map[], kv, true);
      if lst[i] > start {
        length := length + 1;
      } else {
        kv := kv[start := length];
        start := lst[i];
        length := 1;
      }
    }
    assert lst[..|lst|] == lst;
    KvScanEnd(lst, start, length, map[], kv, true);
    kv := kv[start := length];
    if Distinct(lst) {
      CompactAgreesOnDistinct(lst);
      DecomposeLengthMap(lst);
    }
  }

  /** The documented and tested examples of `find_streaks`. */
  lemma FindStreaksExamples()
    ensures Decompose([]) == []
    ensures Decompose([1]) == [[1]]
    ensures Decompose([1, 2, 3]) == [[1, 2, 3]]
    ensures Decompose([3, 2, 1]) == [[3], [2], [1]]
    ensures Decompose([2, 1, 3]) == [[2], [1, 3]]
    ensures Decompose([1, 3, 2, 4]) == [[1, 3, 2, 4]]
  {
    OneStreak([1], false);
    OneStreak([1, 2, 3], false);
    OneStreak([1, 3, 2, 4], false);
    ThreeTwoOne(false);
    TwoOneThree(false);
  }

  /** The tested examples of `kv_streaks` (each input has a nonzero element). */
  lemma KvStreaksExamples()
    ensures LengthMap(CompactSplit([1])) == map[1 := 1]
    ensures LengthMap(CompactSplit([1, 2, 3])) == map[1 := 3]
    ensures LengthMap(CompactSplit([3, 2, 1])) == map[3 := 1, 2 := 1, 1 := 1]
    ensures LengthMap(CompactSplit([2, 1, 3])) == map[2 := 1, 1 := 2]
    ensures LengthMap(CompactSplit([1, 3, 2, 4])) == map[1 := 4]
  {
    OneStreak([1], true);
    OneStreak([1, 2, 3], true);
    OneStreak([1, 3, 2, 4], true);
    ThreeTwoOne(true);
    TwoOneThree(true);
    assert [[3], [2], [1]][..2] == [[3], [2]] && [[3], [2]][..1] == [[3]] && [[3]][..0] == [];
    assert [[2], [1, 3]][..1] == [[2]] && [[2]][..0] == [];
    assert [[1]][..0] == [] && [[1, 2, 3]][..0] == [] && [[1, 3, 2, 4]][..0] == [];
  }

  /** A sequence that never drops below its first element is one streak. */
  lemma OneStreak(s: seq<int>, strict: bool)
    requires s != [] && forall j :: 1 <= j < |s| ==> Joins(s[j], s[0], strict)
    ensures Split(s, strict) == [s]
  {
    FlattenSingle(s);
    SplitUnique(s, [s], strict);
  }

  lemma ThreeTwoOne(strict: bool)
    ensures Split([3, 2, 1], strict) == [[3], [2], [1]]
  {
    FlattenSingle([1]);
    assert [[2], [1]][1..] == [[1]];
    assert Flatten([[2], [1]]) == [2, 1];
    assert [[3], [2], [1]][1..] == [[2], [1]];
    assert Flatten([[3], [2], [1]]) == [3, 2, 1];
    SplitUnique([3, 2, 1], [[3], [2], [1]], strict);
  }

  lemma TwoOneThree(strict: bool)
    ensures Split([2, 1, 3], strict) == [[2], [1, 3]]
  {
    FlattenSingle([1, 3]);
    assert [[2], [1, 3]][1..] == [[1, 3]];
    assert Flatten([[2], [1, 3]]) == [2, 1, 3];
    SplitUnique([2, 1, 3], [[2], [1, 3]], strict);
  }
}
