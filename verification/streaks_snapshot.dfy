/** The older, unchecked snapshot src/streaks2-1/src/streaks2/streaks.py: the same scans as
    the checked classes, but no assertion at all, and an empty input decomposes into one
    empty streak. */
module StreaksSnapshot {
  import opened StreakSpec

  /** The snapshot's `Streak` wraps any list: no minimum check. */
  type Streak = seq<int>

  datatype Streaks = Streaks(streaks: seq<Streak>)

  /** `Streaks(seq)`: accepts every list, repeated values included. */
  method NewStreaks(s: seq<int>) returns (r: Streaks)
    ensures s == [] ==> r.streaks == [[]]
    ensures s != [] ==> r.streaks == Decompose(s)
    ensures Flatten(r.streaks) == s
  {
    var found := FindStreaks(s);
    r := Streaks(found);
  }

  /** `Streaks._find_streaks`: the `>=` scan; the empty list yields `[Streak([])]`. Each
      streak is headed by its minimum and the leaders strictly decrease, repeated values or
      not. */
  method FindStreaks(s: seq<int>) returns (streaks: seq<Streak>)
    ensures s == [] ==> streaks == [[]]
    ensures s != [] ==> streaks == Decompose(s) && NonEmptyStreaks(streaks)
    ensures Flatten(streaks) == s
    ensures forall i :: 0 <= i < |streaks| ==> HeadIsMin(streaks[i])
    ensures s != [] ==> forall i, j :: 0 <= i < j < |streaks| ==> streaks[j][0] < streaks[i][0]
  {
    if s == [] {
      FlattenSingle([]);
      return [[]];
    }
    streaks := [];
    var current := [s[0]];
    ScanStart(s, false);
    for i := 1 to |s|
      invariant current != []
      invariant streaks + [current] == Decompose(s[..i])
    {
      assert s[..i + 1] == s[..i] + [s[i]];
      ScanStep(s[..i], s[i], streaks, current, false);
      if s[i] >= current[0] {
        current := current + [s[i]];
      } else {
        streaks := streaks + [current];
        current := [s[i]];
      }
    }
    streaks := streaks + [current];
    assert s[..|s|] == s;
    DecomposeProperties(s);
  }

  /** The snapshot's `KvStreaks`: a dict from leader to streak length, no distinctness check. */
  class KvStreaks {
    var kvStreaks: map<int, int>

    /** `KvStreaks(seq)`: start from an empty dict and fill it. */
    constructor (s: seq<int>)
      ensures kvStreaks == LengthMap(CompactSplit(s))
    {
      kvStreaks := map[];
      new;
      FindKvStreaks(s);
    }

    /** `KvStreaks._find_kv_streaks`: the `>` scan; an empty list leaves the dict as it is.
        A repeated leader overwrites the earlier entry. */
    method FindKvStreaks(s: seq<int>)
      modifies this
      ensures kvStreaks == Record(old(kvStreaks), CompactSplit(s))
      ensures s == [] ==> kvStreaks == old(kvStreaks)
    {
      if s == [] {
        return;
      }
      var start := s[0];
      var length := 1;
      KvScanStart(s, old(kvStreaks), true);
      for i := 1 to |s|
        invariant KvScanState(s[..i], start, length, old(kvStreaks), kvStreaks, true)
      {
        assert s[..i + 1] == s[..i] + [s[i]];
        KvScanStep(s[..i], s[i], start, length, old(kvStreaks), kvStreaks, true);
        if s[i] > start {
          length := length + 1;
        } else {
          kvStreaks := kvStreaks[start := length];
          start := s[i];
          length := 1;
        }
      }
      assert s[..|s|] == s;
      KvScanEnd(s, start, length, old(kvStreaks), kvStreaks, true);
      kvStreaks := kvStreaks[start := length];
    }
  }

  /** On distinct input the two variants describe the same streaks. */
  lemma VariantsAgreeOnDistinct(s: seq<int>)
    requires Distinct(s)
    ensures LengthMap(CompactSplit(s)) == LengthMap(Decompose(s))
    ensures |LengthMap(CompactSplit(s))| == |Decompose(s)|
  {
    CompactAgreesOnDistinct(s);
    DecomposeLengthMap(s);
  }

  /** With a repeated value they part ways: `[1, 1]` is one streak of length 2 for
      `Streaks`, while `KvStreaks` closes the streak at the second 1 and its entry for
      leader 1 overwrites the first, leaving `{1: 1}`. */
  lemma VariantsDivergeOnRepeat()
    ensures Decompose([1, 1]) == [[1, 1]]
    ensures CompactSplit([1, 1]) == [[1], [1]]
    ensures LengthMap(CompactSplit([1, 1])) == map[1 := 1]
  {
    assert Split([1, 1], false) == [[1, 1]] by {
      FlattenSingle([1, 1]);
      SplitUnique([1, 1], [[1, 1]], false);
    }
    assert Split([1, 1], true) == [[1], [1]] by {
      FlattenSingle([1]);
      assert [[1], [1]][1..] == [[1]];
      SplitUnique([1, 1], [[1], [1]], true);
    }
    assert [[1], [1]][..1] == [[1]] && [[1]][..0] == [];
  }

  /** A repeated value does not always part them: in `[2, 1, 2]` the second 2 is above
      the leader 1 under both rules, so both give `[[2], [1, 2]]`. */
  lemma VariantsMayAgreeOnRepeat(strict: bool)
    ensures Split([2, 1, 2], strict) == [[2], [1, 2]]
  {
    FlattenSingle([1, 2]);
    assert [[2], [1, 2]][1..] == [[1, 2]];
    assert Flatten([[2], [1, 2]]) == [2, 1, 2];
    SplitUnique([2, 1, 2], [[2], [1, 2]], strict);
  }
}
