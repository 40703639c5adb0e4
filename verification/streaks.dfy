/** The checked classes of src/streaks2/streaks.py: `Streak`, `Streaks` and `KvStreaks`.
    Their assertions become `Err(AssertionError)` results. */
module Streaks {
  import opened Wrappers
  import opened StreakSpec

  /** A Streak holds a list whose first element is its minimum; the empty list is allowed. */
  type Streak = t: seq<int> | HeadIsMin(t)

  /** Python's `min` of a non-empty list. */
  function Min(t: seq<int>): (m: int)
    requires t != []
    ensures m in t && forall j :: 0 <= j < |t| ==> m <= t[j]
  {
    if |t| == 1 then t[0]
    else
      var r := Min(t[1..]);
      if t[0] <= r then t[0] else r
  }

  /** `Streak(seq)`: a non-empty list is accepted only when `min(seq) == seq[0]`. */
  function NewStreak(t: seq<int>): (r: Result<Streak>)
    ensures r.Ok? <==> forall j :: 0 <= j < |t| ==> t[0] <= t[j]
    ensures r.Ok? ==> r.value == t
    ensures r.Err? ==> r.error == AssertionError
  {
    if t != [] && Min(t) != t[0] then Err(AssertionError) else Ok(t)
  }

  /** The elements as a set (`set(seq)`). */
  function Elems(s: seq<int>): set<int> {
    set x | x in s
  }

  /** `len(seq) == len(set(seq))` holds exactly for lists without a repeated value. */
  lemma {:induction false} ElemsCount(s: seq<int>)
    ensures |Elems(s)| <= |s|
    ensures |Elems(s)| == |s| <==> Distinct(s)
  {
    if s != [] {
      var t := s[1..];
      ElemsCount(t);
      assert Elems(s) == {s[0]} + Elems(t);
      if s[0] in Elems(t) {
        assert Elems(s) == Elems(t);
        var j :| 0 <= j < |t| && t[j] == s[0];
        assert s[0] == s[j + 1];
      } else {
        assert |Elems(s)| == |Elems(t)| + 1;
        if Distinct(t) {
          forall i, j | 0 <= i < j < |s| ensures s[i] != s[j] {
            if i > 0 {
              assert s[i] == t[i - 1] && s[j] == t[j - 1];
            } else {
              assert s[j] == t[j - 1];
            }
          }
        } else {
          var i, j :| 0 <= i < j < |t| && t[i] == t[j];
          assert s[i + 1] == s[j + 1];
        }
      }
    }
  }

  /** A `Streaks` object: the decomposition it was built with. */
  datatype Streaks = Streaks(streaks: seq<Streak>) {
    /** `len(streaks_object)`: the number of streaks. */
    function Len(): nat {
      |streaks|
    }
  }

  /** `Streaks(seq)`: rejects a list with a repeated value, otherwise decomposes it. */
  method NewStreaks(s: seq<int>) returns (r: Result<Streaks>)
    ensures r.Err? <==> !Distinct(s)
    ensures r.Err? ==> r.error == AssertionError
    ensures r.Ok? ==> r.value.streaks == Decompose(s) && Flatten(r.value.streaks) == s
    ensures r.Ok? && s == [] ==> r.value.Len() == 0
  {
    ElemsCount(s);
    if |s| != |Elems(s)| {
      return Err(AssertionError);
    }
    var found := FindStreaks(s);
    return Ok(Streaks(found));
  }

  /** `Streaks._find_streaks`: a left-to-right scan that closes the current streak when the
      next element is smaller than its first element. Every list it wraps in a `Streak`
      passes the Streak check, so the scan never fails. */
  method FindStreaks(s: seq<int>) returns (streaks: seq<Streak>)
    ensures streaks == Decompose(s)
    ensures Flatten(streaks) == s
    ensures forall i :: 0 <= i < |streaks| ==> streaks[i] != []
    ensures forall i, j :: 0 <= i < j < |streaks| ==> streaks[j][0] < streaks[i][0]
  {
    if s == [] {
      return [];
    }
    streaks := [];
    var current := [s[0]];
    ScanStart(s, false);
    for i := 1 to |s|
      invariant current != [] && HeadIsMin(current)
      invariant streaks + [current] == Decompose(s[..i])
    {
      assert s[..i + 1] == s[..i] + [s[i]];
      ScanStep(s[..i], s[i], streaks, current, false);
      if s[i] >= current[0] {
        current := current + [s[i]];
      } else {
        var closed := NewStreak(current);
        assert closed.Ok?;
        streaks := streaks + [closed.value];
        current := [s[i]];
      }
    }
    var closed := NewStreak(current);
    assert closed.Ok?;
    streaks := streaks + [closed.value];
    assert s[..|s|] == s;
    DecomposeProperties(s);
  }

  /** A `KvStreaks` object: a dict from each streak's leader to the streak's length. */
  class KvStreaks {
    var kvStreaks: map<int, int>

    /** The body of `KvStreaks(seq)` once its distinctness assertion has passed: start from
        an empty dict and fill it. */
    constructor (s: seq<int>)
      ensures kvStreaks == LengthMap(CompactSplit(s))
    {
      kvStreaks := map[];
      new;
      FindKvStreaks(s);
    }

    /** `KvStreaks._find_kv_streaks`: a scan keeping the current leader and length; when an
        element is not greater than the leader, the pair is written to the dict and a new
        streak starts. */
    method FindKvStreaks(s: seq<int>)
      modifies this
      ensures kvStreaks == Record(old(kvStreaks), CompactSplit(s))
    {
      if s == [] {
        return;
      }
      var start := s[0];
      var length := 1;
      KvScanStart(s, old(kvStreaks), true);
      for i := 1 to |s|
        invariant KvScanState(s[..i], start, length, old(kvStreaks), kvStreaks, true)
      {
        assert s[..i + 1] == s[..i] + [s[i]];
        KvScanStep(s[..i], s[i], start, length, old(kvStreaks), kvStreaks, true);
        if s[i] > start {
          length := length + 1;
        } else {
          kvStreaks := kvStreaks[start := length];
          start := s[i];
          length := 1;
        }
      }
      assert s[..|s|] == s;
      KvScanEnd(s, start, length, old(kvStreaks), kvStreaks, true);
      kvStreaks := kvStreaks[start := length];
    }

    /** `len(kv_streaks_object)`: the number of leaders recorded. */
    function Len(): nat
      reads this
    {
      |kvStreaks|
    }
  }

  /** `KvStreaks(seq)`: rejects a list with a repeated value; otherwise the dict maps exactly
      the leaders of `Streaks(seq)` to their streaks' lengths, and both `len()`s agree. */
  method NewKvStreaks(s: seq<int>) returns (r: Result<KvStreaks>)
    ensures r.Err? <==> !Distinct(s)
    ensures r.Err? ==> r.error == AssertionError
    ensures r.Ok? ==> fresh(r.value) && r.value.kvStreaks == LengthMap(Decompose(s))
    ensures r.Ok? ==> r.value.Len() == |Decompose(s)|
  {
    ElemsCount(s);
    if |s| != |Elems(s)| {
      return Err(AssertionError);
    }
    var kv := new KvStreaks(s);
    CompactMatchesStreaks(s);
    return Ok(kv);
  }

  /** On a list without repeated values the compact decomposition agrees with `Streaks`:
      its keys are exactly the leaders, each with its streak's length, there are as many
      keys as streaks, every length is positive and the lengths add up to `len(seq)`. */
  lemma CompactMatchesStreaks(s: seq<int>)
    requires Distinct(s)
    ensures LengthMap(CompactSplit(s)) == LengthMap(Decompose(s))
    ensures forall k :: k in LengthMap(CompactSplit(s)) <==> k in Leaders(Decompose(s))
    ensures forall i :: 0 <= i < |Decompose(s)| ==>
      LengthMap(CompactSplit(s))[Decompose(s)[i][0]] == |Decompose(s)[i]| >= 1
    ensures |LengthMap(CompactSplit(s))| == |Decompose(s)|
    ensures SumOver(LengthMap(CompactSplit(s)), Leaders(Decompose(s))) == |s|
  {
    CompactAgreesOnDistinct(s);
    DecomposeLengthMap(s);
  }

  /** The empty list gives no streaks and an empty dict. */
  lemma EmptyInput()
    ensures Decompose([]) == [] && LengthMap(CompactSplit([])) == map[]
  {
  }
}
