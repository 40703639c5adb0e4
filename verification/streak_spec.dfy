/** Reference definitions shared by every copy of the streak decomposer.

    A streak is led by its first element (its "leader"); the scan keeps an element in the
    current streak while it "joins" the leader. The list decomposers use `>=`, the compact
    leader->length decomposers use `>`; `strict` selects the comparison. `Split` is an
    independent, recursive definition (each streak is the longest prefix that joins its
    leader); the loops in the other modules are proved equal to it. */
module StreakSpec {

  /** Does `x` stay in the streak led by `lead`? */
  predicate Joins(x: int, lead: int, strict: bool) {
    if strict then x > lead else x >= lead
  }

  function Last<T>(s: seq<T>): T
    requires s != []
  {
    s[|s| - 1]
  }

  /** Concatenation of the streaks, in order. */
  function Flatten(ss: seq<seq<int>>): seq<int> {
    if ss == [] then [] else ss[0] + Flatten(ss[1..])
  }

  lemma {:induction false} FlattenAppend(a: seq<seq<int>>, b: seq<seq<int>>)
    ensures Flatten(a + b) == Flatten(a) + Flatten(b)
  {
    if a == [] {
      assert a + b == b;
    } else {
      assert (a + b)[1..] == a[1..] + b;
      FlattenAppend(a[1..], b);
    }
  }

  lemma FlattenSingle(t: seq<int>)
    ensures Flatten([t]) == t
  {
    assert [t][1..] == [];
  }

  /** The Streak invariant: the first element is the minimum. */
  predicate HeadIsMin(t: seq<int>) {
    forall j :: 0 <= j < |t| ==> t[0] <= t[j]
  }

  /** The values are pairwise distinct. */
  predicate Distinct(s: seq<int>) {
    forall i, j :: 0 <= i < j < |s| ==> s[i] != s[j]
  }

  predicate NonEmptyStreaks(ss: seq<seq<int>>) {
    forall i :: 0 <= i < |ss| ==> ss[i] != []
  }

  /** The leaders, in streak order. */
  function Leaders(ss: seq<seq<int>>): (ls: seq<int>)
    requires NonEmptyStreaks(ss)
    ensures |ls| == |ss| && forall i :: 0 <= i < |ss| ==> ls[i] == ss[i][0]
  {
    if ss == [] then [] else Leaders(ss[..|ss| - 1]) + [Last(ss)[0]]
  }

  /** `ss` is a decomposition of `s` under the given comparison: the streaks concatenate to
      `s`, none is empty, every element joins its own leader and every leader fails to join
      the previous leader (which is why the previous streak ended). */
  predicate IsSplit(s: seq<int>, ss: seq<seq<int>>, strict: bool) {
    && Flatten(ss) == s
    && NonEmptyStreaks(ss)
    && (forall i, j :: 0 <= i < |ss| && 0 < j < |ss[i]| ==> Joins(ss[i][j], ss[i][0], strict))
    && (forall i :: 0 < i < |ss| ==> !Joins(ss[i][0], ss[i - 1][0], strict))
  }

  /** The first index at or after `i` whose element does not join `lead` (or |s|). */
  function RunEnd(s: seq<int>, lead: int, i: nat, strict: bool): (k: nat)
    requires i <= |s|
    ensures i <= k <= |s|
    ensures forall j :: i <= j < k ==> Joins(s[j], lead, strict)
    ensures k < |s| ==> !Joins(s[k], lead, strict)
    decreases |s| - i
  {
    if i == |s| || !Joins(s[i], lead, strict) then i else RunEnd(s, lead, i + 1, strict)
  }

  /** The reference decomposition: the first streak is the longest prefix joining s[0]. */
  function Split(s: seq<int>, strict: bool): (ss: seq<seq<int>>)
    ensures (ss == []) == (s == [])
    ensures NonEmptyStreaks(ss)
    decreases |s|
  {
    if s == [] then []
    else
      var k := RunEnd(s, s[0], 1, strict);
      [s[..k]] + Split(s[k..], strict)
  }

  /** The decomposition produced by the list decomposers (`>=` rule). */
  function Decompose(s: seq<int>): seq<seq<int>> {
    Split(s, false)
  }

  /** The decomposition underlying the compact decomposers (`>` rule). */
  function CompactSplit(s: seq<int>): seq<seq<int>> {
    Split(s, true)
  }

  lemma SplitHead(s: seq<int>, strict: bool)
    requires s != []
    ensures Split(s, strict)[0] != [] && Split(s, strict)[0][0] == s[0]
  {
  }

  /** `Split` meets its characterisation. */
  lemma {:induction false} SplitIsSplit(s: seq<int>, strict: bool)
    ensures IsSplit(s, Split(s, strict), strict)
    decreases |s|
  {
    if s != [] {
      var k := RunEnd(s, s[0], 1, strict);
      var rest := Split(s[k..], strict);
      assert Split(s, strict) == [s[..k]] + rest;
      SplitIsSplit(s[k..], strict);
      if rest != [] {
        SplitHead(s[k..], strict);
      }
      ConsIsSplit(s[..k], rest, strict);
      assert s[..k] + s[k..] == s;
    }
  }

  /** A streak whose elements join its leader, put in front of a decomposition whose first
      leader does not join it, gives a decomposition. */
  lemma ConsIsSplit(t: seq<int>, rest: seq<seq<int>>, strict: bool)
    requires t != [] && forall j :: 0 < j < |t| ==> Joins(t[j], t[0], strict)
    requires IsSplit(Flatten(rest), rest, strict)
    requires rest != [] ==> !Joins(rest[0][0], t[0], strict)
    ensures IsSplit(t + Flatten(rest), [t] + rest, strict)
  {
    var d := [t] + rest;
    assert d[1..] == rest;
    forall i, j | 0 <= i < |d| && 0 < j < |d[i]|
      ensures Joins(d[i][j], d[i][0], strict)
    {
      if i > 0 {
        assert d[i] == rest[i - 1];
      }
    }
    forall i | 0 < i < |d|
      ensures !Joins(d[i][0], d[i - 1][0], strict)
    {
      if i > 1 {
        assert d[i] == rest[i - 1] && d[i - 1] == rest[i - 2];
      }
    }
  }

  /** The characterisation determines the decomposition: there is exactly one. */
  lemma {:induction false} SplitUnique(s: seq<int>, ss: seq<seq<int>>, strict: bool)
    requires IsSplit(s, ss, strict)
    ensures ss == Split(s, strict)
    decreases |s|
  {
    if ss == [] {
      assert s == [];
    } else {
      var L := |ss[0]|;
      FirstStreakIsRun(s, ss, strict);
      SplitTail(ss, strict);
      SplitUnique(s[L..], ss[1..], strict);
      assert ss == [ss[0]] + ss[1..];
    }
  }

  /** In any decomposition the first streak is the longest prefix joining s[0]. */
  lemma FirstStreakIsRun(s: seq<int>, ss: seq<seq<int>>, strict: bool)
    requires IsSplit(s, ss, strict) && ss != []
    ensures s != [] && RunEnd(s, s[0], 1, strict) == |ss[0]|
    ensures s[..|ss[0]|] == ss[0] && s[|ss[0]|..] == Flatten(ss[1..])
  {
    var t := ss[0];
    var L := |t|;
    var tail := ss[1..];
    assert s == t + Flatten(tail);
    var k := RunEnd(s, s[0], 1, strict);
    assert forall j :: 1 <= j < L ==> s[j] == t[j] && Joins(s[j], s[0], strict);
    if L < |s| {
      assert tail != [];
      assert Flatten(tail) == tail[0] + Flatten(tail[1..]);
      assert s[L] == ss[1][0];
    }
  }

  /** Dropping the first streak of a decomposition leaves a decomposition of the rest. */
  lemma SplitTail(ss: seq<seq<int>>, strict: bool)
    requires ss != [] && IsSplit(Flatten(ss), ss, strict)
    ensures IsSplit(Flatten(ss[1..]), ss[1..], strict)
  {
    var tail := ss[1..];
    forall i, j | 0 <= i < |tail| && 0 < j < |tail[i]|
      ensures Joins(tail[i][j], tail[i][0], strict)
    {
      assert tail[i] == ss[i + 1];
    }
    forall i | 0 < i < |tail|
      ensures !Joins(tail[i][0], tail[i - 1][0], strict)
    {
      assert tail[i] == ss[i + 1] && tail[i - 1] == ss[i];
    }
  }

  /** Appending an element that joins the last leader extends the last streak. */
  lemma SnocExtends(s: seq<int>, x: int, strict: bool)
    requires s != []
    requires Joins(x, Last(Split(s, strict))[0], strict)
    ensures var d := Split(s, strict);
      Split(s + [x], strict) == d[..|d| - 1] + [Last(d) + [x]]
  {
    var d := Split(s, strict);
    SplitIsSplit(s, strict);
    var init := d[..|d| - 1];
    var last := Last(d);
    assert d == init + [last];
    FlattenAppend(init, [last]);
    FlattenSingle(last);
    var c := init + [last + [x]];
    FlattenAppend(init, [last + [x]]);
    FlattenSingle(last + [x]);
    assert Flatten(c) == s + [x];
    forall i, j | 0 <= i < |c| && 0 < j < |c[i]|
      ensures Joins(c[i][j], c[i][0], strict)
    {
      if i < |init| {
        assert c[i] == d[i];
      } else {
        assert c[i] == last + [x];
        assert c[i][0] == last[0];
        if j < |last| {
          assert c[i][j] == d[|d| - 1][j];
        }
      }
    }
    forall i | 0 < i < |c|
      ensures !Joins(c[i][0], c[i - 1][0], strict)
    {
      assert c[i - 1] == d[i - 1];
      assert c[i][0] == d[i][0];
    }
    SplitUnique(s + [x], c, strict);
  }

  /** Appending an element that does not join the last leader opens a new streak. */
  lemma SnocOpens(s: seq<int>, x: int, strict: bool)
    requires s != []
    requires !Joins(x, Last(Split(s, strict))[0], strict)
    ensures Split(s + [x], strict) == Split(s, strict) + [[x]]
  {
    var d := Split(s, strict);
    SplitIsSplit(s, strict);
    var c := d + [[x]];
    FlattenAppend(d, [[x]]);
    FlattenSingle([x]);
    forall i, j | 0 <= i < |c| && 0 < j < |c[i]|
      ensures Joins(c[i][j], c[i][0], strict)
    {
      assert c[i] == d[i];
    }
    forall i | 0 < i < |c|
      ensures !Joins(c[i][0], c[i - 1][0], strict)
    {
      assert c[i - 1] == d[i - 1];
      if i < |d| {
        assert c[i] == d[i];
      }
    }
    SplitUnique(s + [x], c, strict);
  }

  /** Appending one element either extends the last streak or opens a new one: the step
      that every left-to-right scan performs. */
  lemma SplitSnoc(s: seq<int>, x: int, strict: bool)
    ensures var d := Split(s, strict);
      Split(s + [x], strict) ==
        if s == [] then [[x]]
        else if Joins(x, Last(d)[0], strict) then d[..|d| - 1] + [Last(d) + [x]]
        else d + [[x]]
  {
    if s == [] {
      FlattenSingle([x]);
      assert [] + [x] == [x];
      SplitUnique([x], [[x]], strict);
    } else if Joins(x, Last(Split(s, strict))[0], strict) {
      SnocExtends(s, x, strict);
    } else {
      SnocOpens(s, x, strict);
    }
  }

  /** One step of a scan that holds the closed streaks `done` and the open streak `current`
      of `prefix`: the next element `x` either extends `current` or closes it and opens [x]. */
  lemma ScanStep(prefix: seq<int>, x: int, done: seq<seq<int>>, current: seq<int>, strict: bool)
    requires current != [] && done + [current] == Split(prefix, strict)
    ensures Joins(x, current[0], strict) ==> Split(prefix + [x], strict) == done + [current + [x]]
    ensures !Joins(x, current[0], strict) ==> Split(prefix + [x], strict) == done + [current] + [[x]]
  {
    var d := done + [current];
    assert Last(d) == current && d[..|d| - 1] == done;
    SplitSnoc(prefix, x, strict);
  }

  /** A scan starts with the first element as a one-element open streak. */
  lemma ScanStart(s: seq<int>, strict: bool)
    requires s != []
    ensures Split(s[..1], strict) == [] + [[s[0]]]
  {
    SplitSnoc([], s[0], strict);
    assert s[..1] == [] + [s[0]];
  }

  /** Leaders of a `>=` decomposition strictly decrease, so they are pairwise distinct. */
  lemma {:induction false} LeadersChain(ss: seq<seq<int>>, i: nat, j: nat)
    requires NonEmptyStreaks(ss)
    requires forall k :: 0 < k < |ss| ==> ss[k][0] < ss[k - 1][0]
    requires i < j < |ss|
    ensures ss[j][0] < ss[i][0]
    decreases j - i
  {
    if j > i + 1 {
      LeadersChain(ss, i, j - 1);
    }
  }

  predicate LeadersDecrease(ss: seq<seq<int>>)
    requires NonEmptyStreaks(ss)
  {
    forall i, j :: 0 <= i < j < |ss| ==> ss[j][0] < ss[i][0]
  }

  /** The list decomposition: concatenation gives back the input, each streak is headed by
      its minimum and the leaders strictly decrease. */
  lemma DecomposeProperties(s: seq<int>)
    ensures Flatten(Decompose(s)) == s
    ensures NonEmptyStreaks(Decompose(s))
    ensures forall i :: 0 <= i < |Decompose(s)| ==> HeadIsMin(Decompose(s)[i])
    ensures LeadersDecrease(Decompose(s))
  {
    var d := Decompose(s);
    SplitIsSplit(s, false);
    forall i | 0 <= i < |d| ensures HeadIsMin(d[i]) {
      forall j | 0 <= j < |d[i]| ensures d[i][0] <= d[i][j] {
        if j > 0 {
          assert Joins(d[i][j], d[i][0], false);
        }
      }
    }
    forall i, j | 0 <= i < j < |d| ensures d[j][0] < d[i][0] {
      LeadersChain(d, i, j);
    }
  }

  /** Streak count bounds: no streak is empty, so there are at most |s| of them. */
  lemma {:induction false} SplitCount(s: seq<int>, strict: bool)
    ensures |Split(s, strict)| <= |s|
    ensures s != [] ==> 1 <= |Split(s, strict)|
    decreases |s|
  {
    if s != [] {
      var k := RunEnd(s, s[0], 1, strict);
      SplitCount(s[k..], strict);
    }
  }

  /** On distinct input the `>` and `>=` scans cut at the same places. */
  lemma {:induction false} RunEndAgrees(s: seq<int>, lead: int, i: nat)
    requires i <= |s|
    requires forall j :: i <= j < |s| ==> s[j] != lead
    ensures RunEnd(s, lead, i, true) == RunEnd(s, lead, i, false)
    decreases |s| - i
  {
    if i < |s| {
      RunEndAgrees(s, lead, i + 1);
    }
  }

  lemma {:induction false} CompactAgreesOnDistinct(s: seq<int>)
    requires Distinct(s)
    ensures CompactSplit(s) == Decompose(s)
    decreases |s|
  {
    if s != [] {
      RunEndAgrees(s, s[0], 1);
      var k := RunEnd(s, s[0], 1, false);
      assert Distinct(s[k..]);
      CompactAgreesOnDistinct(s[k..]);
    }
  }

  /** The dict updates of the compact decomposers: for each streak in order, write
      leader -> length into `m`, a later write to the same leader overwriting an earlier one. */
  function Record(m: map<int, int>, ss: seq<seq<int>>): map<int, int>
    requires NonEmptyStreaks(ss)
  {
    if ss == [] then m else Record(m, ss[..|ss| - 1])[Last(ss)[0] := |Last(ss)|]
  }

  /** The leader -> length map of a decomposition, starting from an empty dict. */
  function LengthMap(ss: seq<seq<int>>): map<int, int>
    requires NonEmptyStreaks(ss)
  {
    Record(map[], ss)
  }

  /** The state of a leader -> length scan after `prefix`: `start` and `length` describe the
      open (last) streak, and `m` is `m0` with every closed streak recorded. */
  predicate KvScanState(prefix: seq<int>, start: int, length: int, m0: map<int, int>, m: map<int, int>, strict: bool)
  {
    var d := Split(prefix, strict);
    d != [] && start == Last(d)[0] && length == |Last(d)| && m == Record(m0, d[..|d| - 1])
  }

  /** The scan starts with the first element as the open streak and nothing recorded. */
  lemma KvScanStart(s: seq<int>, m0: map<int, int>, strict: bool)
    requires s != []
    ensures KvScanState(s[..1], s[0], 1, m0, m0, strict)
  {
    var d := Split(s[..1], strict);
    ScanStart(s, strict);
    assert d == [[s[0]]];
    assert Last(d) == [s[0]] && d[..|d| - 1] == [];
  }

  /** One step of the scan: the next element lengthens the open streak, or the open streak
      is recorded and the element opens a new one. */
  lemma KvScanStep(prefix: seq<int>, x: int, start: int, length: int, m0: map<int, int>, m: map<int, int>, strict: bool)
    requires KvScanState(prefix, start, length, m0, m, strict)
    ensures Joins(x, start, strict) ==> KvScanState(prefix + [x], start, length + 1, m0, m, strict)
    ensures !Joins(x, start, strict) ==> KvScanState(prefix + [x], x, 1, m0, m[start := length], strict)
  {
    if Joins(x, start, strict) {
      KvScanJoin(prefix, x, start, length, m0, m, strict);
    } else {
      KvScanOpen(prefix, x, start, length, m0, m, strict);
    }
  }

  lemma KvScanJoin(prefix: seq<int>, x: int, start: int, length: int, m0: map<int, int>, m: map<int, int>, strict: bool)
    requires KvScanState(prefix, start, length, m0, m, strict) && Joins(x, start, strict)
    ensures KvScanState(prefix + [x], start, length + 1, m0, m, strict)
  {
    var d := Split(prefix, strict);
    SplitSnoc(prefix, x, strict);
    var d' := d[..|d| - 1] + [Last(d) + [x]];
    assert Split(prefix + [x], strict) == d';
    assert Last(d') == Last(d) + [x];
    assert d'[..|d'| - 1] == d[..|d| - 1];
  }

  lemma KvScanOpen(prefix: seq<int>, x: int, start: int, length: int, m0: map<int, int>, m: map<int, int>, strict: bool)
    requires KvScanState(prefix, start, length, m0, m, strict) && !Joins(x, start, strict)
    ensures KvScanState(prefix + [x], x, 1, m0, m[start := length], strict)
  {
    var d := Split(prefix, strict);
    SplitSnoc(prefix, x, strict);
    var d' := d + [[x]];
    assert Split(prefix + [x], strict) == d';
    assert Last(d') == [x];
    assert d'[..|d'| - 1] == d;
    assert d[..|d| - 1] + [Last(d)] == d;
    assert Record(m0, d) == Record(m0, d[..|d| - 1])[Last(d)[0] := |Last(d)|];
  }

  /** Recording the open streak at the end gives the whole decomposition recorded. */
  lemma KvScanEnd(s: seq<int>, start: int, length: int, m0: map<int, int>, m: map<int, int>, strict: bool)
    requires KvScanState(s, start, length, m0, m, strict)
    ensures m[start := length] == Record(m0, Split(s, strict))
  {
  }

  /** Sum of `m`'s values at the keys `ks`, in order. */
  function SumOver(m: map<int, int>, ks: seq<int>): int
    requires forall i :: 0 <= i < |ks| ==> ks[i] in m
  {
    if ks == [] then 0 else SumOver(m, ks[..|ks| - 1]) + m[Last(ks)]
  }

  lemma {:induction false} SumOverAgree(m: map<int, int>, m': map<int, int>, ks: seq<int>)
    requires forall i :: 0 <= i < |ks| ==> ks[i] in m && ks[i] in m' && m[ks[i]] == m'[ks[i]]
    ensures SumOver(m, ks) == SumOver(m', ks)
  {
    if ks != [] {
      SumOverAgree(m, m', ks[..|ks| - 1]);
    }
  }

  /** Every leader, and nothing else, becomes a key. */
  lemma {:induction false} LengthMapKeys(ss: seq<seq<int>>)
    requires NonEmptyStreaks(ss)
    ensures forall k :: k in LengthMap(ss) <==> k in Leaders(ss)
  {
    if ss != [] {
      var init := ss[..|ss| - 1];
      LengthMapKeys(init);
      assert Leaders(ss) == Leaders(init) + [Last(ss)[0]];
    }
  }

  /** With pairwise distinct leaders nothing is overwritten: each leader maps to its own
      streak's length and there are as many entries as streaks. */
  lemma LengthMapOfDistinctLeaders(ss: seq<seq<int>>)
    requires NonEmptyStreaks(ss)
    requires Distinct(Leaders(ss))
    ensures forall i :: 0 <= i < |ss| ==> ss[i][0] in LengthMap(ss) && LengthMap(ss)[ss[i][0]] == |ss[i]|
    ensures |LengthMap(ss)| == |ss|
  {
    LengthMapValues(ss);
    LengthMapSize(ss);
  }

  /** With distinct leaders, the last leader is not a key of the map of the earlier streaks. */
  lemma LastLeaderFresh(ss: seq<seq<int>>)
    requires NonEmptyStreaks(ss) && ss != []
    requires Distinct(Leaders(ss))
    ensures Distinct(Leaders(ss[..|ss| - 1]))
    ensures Last(ss)[0] !in LengthMap(ss[..|ss| - 1])
  {
    var init := ss[..|ss| - 1];
    assert Leaders(ss) == Leaders(init) + [Last(ss)[0]];
    LengthMapKeys(init);
    forall i | 0 <= i < |init|
      ensures Leaders(init)[i] != Last(ss)[0]
    {
      assert Leaders(ss)[i] != Leaders(ss)[|init|];
    }
  }

  lemma {:induction false} LengthMapValues(ss: seq<seq<int>>)
    requires NonEmptyStreaks(ss)
    requires Distinct(Leaders(ss))
    ensures forall i :: 0 <= i < |ss| ==> ss[i][0] in LengthMap(ss) && LengthMap(ss)[ss[i][0]] == |ss[i]|
  {
    if ss != [] {
      var init := ss[..|ss| - 1];
      var last := Last(ss);
      LastLeaderFresh(ss);
      LengthMapValues(init);
      assert LengthMap(ss) == LengthMap(init)[last[0] := |last|];
      forall i | 0 <= i < |ss|
        ensures ss[i][0] in LengthMap(ss) && LengthMap(ss)[ss[i][0]] == |ss[i]|
      {
        if i < |init| {
          assert ss[i] == init[i];
          assert Leaders(ss)[i] != Leaders(ss)[|init|];
        }
      }
    }
  }

  lemma {:induction false} LengthMapSize(ss: seq<seq<int>>)
    requires NonEmptyStreaks(ss)
    requires Distinct(Leaders(ss))
    ensures |LengthMap(ss)| == |ss|
  {
    if ss != [] {
      var init := ss[..|ss| - 1];
      var last := Last(ss);
      LastLeaderFresh(ss);
      LengthMapSize(init);
      assert LengthMap(ss) == LengthMap(init)[last[0] := |last|];
    }
  }

  /** With pairwise distinct leaders the lengths add up to the decomposed sequence's length. */
  lemma {:induction false} LengthMapSum(ss: seq<seq<int>>)
    requires NonEmptyStreaks(ss)
    requires Distinct(Leaders(ss))
    ensures forall i :: 0 <= i < |ss| ==> Leaders(ss)[i] in LengthMap(ss)
    ensures SumOver(LengthMap(ss), Leaders(ss)) == |Flatten(ss)|
  {
    LengthMapKeys(ss);
    if ss != [] {
      var init := ss[..|ss| - 1];
      assert Distinct(Leaders(init)) by { assert forall i :: 0 <= i < |init| ==> Leaders(init)[i] == Leaders(ss)[i]; }
      LengthMapSum(init);
      LastLeaderFresh(ss);
      assert ss == init + [Last(ss)];
      LengthMapSumStep(init, Last(ss));
      FlattenStep(ss);
    }
  }

  /** Summing over one more, fresh key adds that key's value. */
  lemma SumOverSnocFresh(m0: map<int, int>, ks: seq<int>, k: int, v: int)
    requires forall i :: 0 <= i < |ks| ==> ks[i] in m0
    requires k !in m0
    ensures forall i :: 0 <= i < |ks + [k]| ==> (ks + [k])[i] in m0[k := v]
    ensures SumOver(m0[k := v], ks + [k]) == SumOver(m0, ks) + v
  {
    assert (ks + [k])[..|ks|] == ks;
    SumOverAgree(m0[k := v], m0, ks);
  }

  /** Adding a last streak with a fresh leader adds its length to the sum over the leaders. */
  lemma LengthMapSumStep(init: seq<seq<int>>, last: seq<int>)
    requires NonEmptyStreaks(init) && last != []
    requires last[0] !in LengthMap(init)
    requires forall i :: 0 <= i < |init| ==> Leaders(init)[i] in LengthMap(init)
    ensures NonEmptyStreaks(init + [last])
    ensures forall i :: 0 <= i < |init| + 1 ==> Leaders(init + [last])[i] in LengthMap(init + [last])
    ensures SumOver(LengthMap(init + [last]), Leaders(init + [last]))
         == SumOver(LengthMap(init), Leaders(init)) + |last|
  {
    var ss := init + [last];
    assert ss[..|ss| - 1] == init;
    assert Last(ss) == last;
    assert LengthMap(ss) == LengthMap(init)[last[0] := |last|];
    assert Leaders(ss) == Leaders(init) + [last[0]];
    SumOverSnocFresh(LengthMap(init), Leaders(init), last[0], |last|);
  }

  lemma FlattenStep(ss: seq<seq<int>>)
    requires ss != []
    ensures |Flatten(ss)| == |Flatten(ss[..|ss| - 1])| + |Last(ss)|
  {
    assert ss == ss[..|ss| - 1] + [Last(ss)];
    FlattenAppend(ss[..|ss| - 1], [Last(ss)]);
    FlattenSingle(Last(ss));
  }

  /** Leaders that strictly decrease are pairwise distinct. */
  lemma DecreasingLeadersDistinct(ss: seq<seq<int>>)
    requires NonEmptyStreaks(ss)
    requires LeadersDecrease(ss)
    ensures Distinct(Leaders(ss))
  {
  }

  /** The `>=` decomposition and its leader -> length map describe the same streaks. */
  lemma DecomposeLengthMap(s: seq<int>)
    ensures NonEmptyStreaks(Decompose(s))
    ensures forall k :: k in LengthMap(Decompose(s)) <==> k in Leaders(Decompose(s))
    ensures forall i :: 0 <= i < |Decompose(s)| ==>
      LengthMap(Decompose(s))[Decompose(s)[i][0]] == |Decompose(s)[i]|
    ensures |LengthMap(Decompose(s))| == |Decompose(s)|
    ensures SumOver(LengthMap(Decompose(s)), Leaders(Decompose(s))) == |s|
  {
    DecomposeProperties(s);
    DecreasingLeadersDistinct(Decompose(s));
    LengthMapKeys(Decompose(s));
    LengthMapOfDistinctLeaders(Decompose(s));
    LengthMapSum(Decompose(s));
  }
}
