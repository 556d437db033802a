/** The XP chart of the profile page (`XPGraph`, fed by the later
    `designTasks`): the qualifying XP transactions as points, sorted by date,
    with each amount replaced by the running total. */
module Xp {
  import opened Wrappers
  import opened Text
  import opened Records
  import opened Units

  /** One `{date, xp, task}` record of `xpData`. */
  datatype XpPoint = XpPoint(date: int, xp: int, task: string)

  /** The `xps.map(...)` callback: `task` is the path's last segment. */
  function ToPoint(t: Transaction): XpPoint {
    XpPoint(t.createdAt, t.amount, LastSegment(t.path))
  }

  function ToPoints(ts: seq<Transaction>): seq<XpPoint> {
    seq(|ts|, i requires 0 <= i < |ts| => ToPoint(ts[i]))
  }

  /** `xps.reduce((total, element) => total + element.amount, 0)`. */
  function XpSum(ts: seq<Transaction>): int {
    if ts == [] then 0 else XpSum(ts[..|ts| - 1]) + ts[|ts| - 1].amount
  }

  /** The sum of the `xp` fields, added from the left. */
  function Total(s: seq<XpPoint>): int {
    if s == [] then 0 else Total(s[..|s| - 1]) + s[|s| - 1].xp
  }

  predicate SortedByDate(s: seq<XpPoint>) {
    forall i, j :: 0 <= i < j < |s| ==> s[i].date <= s[j].date
  }

  /** The points of `s` dated `d`, in order. */
  function WithDate(s: seq<XpPoint>, d: int): seq<XpPoint> {
    if s == [] then []
    else (if s[0].date == d then [s[0]] else []) + WithDate(s[1..], d)
  }

  /** Insert `p` before the first point that is not earlier than it. */
  function InsertByDate(p: XpPoint, s: seq<XpPoint>): (r: seq<XpPoint>)
    ensures |r| == |s| + 1
    ensures multiset(r) == multiset(s) + multiset{p}
  {
    if s == [] || p.date <= s[0].date then [p] + s
    else
      assert s == [s[0]] + s[1..];
      [s[0]] + InsertByDate(p, s[1..])
  }

  /** Every date of the inserted sequence is at least a bound that `p` and
      every point of `s` respect. */
  lemma InsertAboveBound(p: XpPoint, s: seq<XpPoint>, lo: int)
    requires lo <= p.date
    requires forall x :: x in s ==> lo <= x.date
    ensures forall k :: 0 <= k < |InsertByDate(p, s)| ==> lo <= InsertByDate(p, s)[k].date
  {
    var r := InsertByDate(p, s);
    forall k | 0 <= k < |r| ensures lo <= r[k].date {
      assert r[k] in multiset(s) + multiset{p};
      if r[k] != p {
        assert r[k] in s;
      }
    }
  }

  /** A point no later than every point of a sorted sequence can go in front. */
  lemma ConsSorted(x: XpPoint, s: seq<XpPoint>)
    requires SortedByDate(s)
    requires forall k :: 0 <= k < |s| ==> x.date <= s[k].date
    ensures SortedByDate([x] + s)
  {
    var r := [x] + s;
    forall i, j | 0 <= i < j < |r| ensures r[i].date <= r[j].date {
      assert r[j] == s[j - 1];
      if i > 0 {
        assert r[i] == s[i - 1];
      }
    }
  }

  /** Inserting into a sorted sequence keeps it sorted. */
  lemma {:induction false} InsertByDateSorted(p: XpPoint, s: seq<XpPoint>)
    requires SortedByDate(s)
    ensures SortedByDate(InsertByDate(p, s))
  {
    if s != [] && p.date > s[0].date {
      var tail := s[1..];
      var rest := InsertByDate(p, tail);
      assert InsertByDate(p, s) == [s[0]] + rest;
      assert forall i :: 0 <= i < |tail| ==> tail[i] == s[i + 1];
      InsertByDateSorted(p, tail);
      InsertAboveBound(p, tail, s[0].date);
      ConsSorted(s[0], rest);
    }
  }

  /** `xpData.sort((a, b) => a.date - b.date)`: a stable sort by date,
      written as an insertion sort. */
  function SortByDate(s: seq<XpPoint>): (r: seq<XpPoint>)
    ensures |r| == |s|
    ensures multiset(r) == multiset(s)
    ensures SortedByDate(r)
  {
    if s == [] then []
    else
      assert s == [s[0]] + s[1..];
      InsertByDateSorted(s[0], SortByDate(s[1..]));
      InsertByDate(s[0], SortByDate(s[1..]))
  }

  /** Inserting keeps the relative order of the points of each date, with the
      inserted point first among those of its date. */
  lemma {:induction false} InsertByDateWithDate(p: XpPoint, s: seq<XpPoint>, d: int)
    ensures WithDate(InsertByDate(p, s), d) ==
            (if p.date == d then [p] else []) + WithDate(s, d)
  {
    if s == [] || p.date <= s[0].date {
      assert ([p] + s)[1..] == s;
    } else {
      InsertByDateWithDate(p, s[1..], d);
      var rest := InsertByDate(p, s[1..]);
      assert InsertByDate(p, s) == [s[0]] + rest;
      assert ([s[0]] + rest)[1..] == rest;
      assert WithDate([s[0]] + rest, d) == (if s[0].date == d then [s[0]] else []) + WithDate(rest, d);
      if p.date == d {
        assert s[0].date != d;
      }
    }
  }

  /** The sort is stable: the points of any one date keep their input order. */
  lemma {:induction false} SortByDateStable(s: seq<XpPoint>, d: int)
    ensures WithDate(SortByDate(s), d) == WithDate(s, d)
  {
    if s != [] {
      var sortedRest := SortByDate(s[1..]);
      assert SortByDate(s) == InsertByDate(s[0], sortedRest);
      SortByDateStable(s[1..], d);
      InsertByDateWithDate(s[0], sortedRest, d);
    }
  }

  /** Adding a point in front adds its amount. */
  lemma {:induction false} TotalCons(p: XpPoint, s: seq<XpPoint>)
    ensures Total([p] + s) == p.xp + Total(s)
    decreases |s|
  {
    if s != [] {
      TotalCons(p, s[..|s| - 1]);
      assert ([p] + s)[..|s|] == [p] + s[..|s| - 1];
    } else {
      assert ([p] + s)[..0] == [];
    }
  }

  /** Inserting a point adds its amount. */
  lemma {:induction false} TotalInsert(p: XpPoint, s: seq<XpPoint>)
    ensures Total(InsertByDate(p, s)) == p.xp + Total(s)
  {
    if s == [] || p.date <= s[0].date {
      TotalCons(p, s);
    } else {
      TotalInsert(p, s[1..]);
      TotalCons(s[0], InsertByDate(p, s[1..]));
      TotalCons(s[0], s[1..]);
      assert [s[0]] + s[1..] == s;
    }
  }

  /** Sorting does not change the total. */
  lemma {:induction false} TotalSort(s: seq<XpPoint>)
    ensures Total(SortByDate(s)) == Total(s)
  {
    if s != [] {
      var sortedRest := SortByDate(s[1..]);
      calc {
        Total(SortByDate(s));
        Total(InsertByDate(s[0], sortedRest));
        { TotalInsert(s[0], sortedRest); }
        s[0].xp + Total(sortedRest);
        { TotalSort(s[1..]); }
        s[0].xp + Total(s[1..]);
        { TotalCons(s[0], s[1..]); }
        Total([s[0]] + s[1..]);
        { assert [s[0]] + s[1..] == s; }
        Total(s);
      }
    }
  }

  /** The points carry the transactions' amounts, so their total is the
      `designTasks` sum. */
  lemma {:induction false} TotalPoints(ts: seq<Transaction>)
    ensures Total(ToPoints(ts)) == XpSum(ts)
  {
    if ts != [] {
      TotalPoints(ts[..|ts| - 1]);
      assert ToPoints(ts)[..|ts| - 1] == ToPoints(ts[..|ts| - 1]);
    }
  }

  /** With no negative amounts, a longer prefix never has a smaller total. */
  lemma {:induction false} TotalPrefixMonotone(s: seq<XpPoint>, i: nat, j: nat)
    requires i <= j <= |s|
    requires forall k :: 0 <= k < |s| ==> s[k].xp >= 0
    ensures Total(s[..i]) <= Total(s[..j])
    decreases j
  {
    if i < j {
      TotalPrefixMonotone(s, i, j - 1);
      assert s[..j][..j - 1] == s[..j - 1];
    }
  }

  /** Sorting points made from non-negative amounts yields non-negative points. */
  lemma SortedPointsNonNegative(xps: seq<Transaction>)
    requires forall t :: t in xps ==> t.amount >= 0
    ensures var sorted := SortByDate(ToPoints(xps));
      forall k :: 0 <= k < |sorted| ==> sorted[k].xp >= 0
  {
    var points := ToPoints(xps);
    var sorted := SortByDate(points);
    forall k | 0 <= k < |sorted| ensures sorted[k].xp >= 0 {
      assert sorted[k] in multiset(points);
      var idx :| 0 <= idx < |points| && points[idx] == sorted[k];
      assert xps[idx] in xps;
    }
  }

  /** Running totals of non-negative amounts never decrease. */
  lemma RunningTotalsMonotone(sorted: seq<XpPoint>, series: seq<XpPoint>)
    requires |series| == |sorted|
    requires forall k :: 0 <= k < |sorted| ==> sorted[k].xp >= 0
    requires forall k :: 0 <= k < |series| ==> series[k].xp == Total(sorted[..k + 1])
    ensures forall i, j :: 0 <= i <= j < |series| ==> series[i].xp <= series[j].xp
  {
    forall i, j | 0 <= i <= j < |series| ensures series[i].xp <= series[j].xp {
      TotalPrefixMonotone(sorted, i + 1, j + 1);
    }
  }

  lemma TakeAll(s: seq<XpPoint>)
    ensures s[..|s|] == s
  {
  }

  /** What the running totals of the sorted points promise: dates in
      order, the last total equal to the `designTasks` sum, and no decrease
      when no amount is negative. */
  lemma RunningTotalsProperties(xps: seq<Transaction>, series: seq<XpPoint>)
    requires |series| == |xps|
    requires var sorted := SortByDate(ToPoints(xps));
      forall i :: 0 <= i < |series| ==>
        series[i].date == sorted[i].date && series[i].xp == Total(sorted[..i + 1])
    ensures SortedByDate(series)
    ensures |series| > 0 ==> series[|series| - 1].xp == XpSum(xps)
    ensures (forall t :: t in xps ==> t.amount >= 0) ==>
      forall i, j :: 0 <= i <= j < |series| ==> series[i].xp <= series[j].xp
  {
    var sorted := SortByDate(ToPoints(xps));
    assert |sorted| == |series|;
    if |sorted| > 0 {
      TakeAll(sorted);
      TotalSort(ToPoints(xps));
      TotalPoints(xps);
    }
    if forall t :: t in xps ==> t.amount >= 0 {
      SortedPointsNonNegative(xps);
      RunningTotalsMonotone(sorted, series);
    }
  }

  /** Each point with its `xp` replaced by the total of all amounts up to
      and including it. */
  function RunningTotals(s: seq<XpPoint>): (r: seq<XpPoint>)
    ensures |r| == |s|
  {
    seq(|s|, i requires 0 <= i < |s| => s[i].(xp := Total(s[..i + 1])))
  }

  /** Entry i of the running totals is entry i of the input carrying the
      total of entries 0..i. */
  lemma RunningTotalsEntries(s: seq<XpPoint>, r: seq<XpPoint>)
    requires r == RunningTotals(s)
    ensures |r| == |s|
    ensures forall i :: 0 <= i < |r| ==>
      r[i].date == s[i].date && r[i].task == s[i].task && r[i].xp == Total(s[..i + 1])
  {
  }

  /** `for (let i = 1; i < xpData.length; i++) { xpData[i].xp += xpData[i - 1].xp; }` */
  method AccumulateInPlace(xpData: array<XpPoint>)
    modifies xpData
    ensures xpData[..] == RunningTotals(old(xpData[..]))
  {
    ghost var s := xpData[..];
    if xpData.Length > 0 {
      assert s[..1] == [s[0]] && [s[0]][..0] == [];
    }
    var i := 1;
    while i < xpData.Length
      invariant 1 <= i <= xpData.Length || xpData.Length == 0
      invariant forall k :: 0 <= k < i && k < xpData.Length ==> xpData[k] == s[k].(xp := Total(s[..k + 1]))
      invariant forall k :: i <= k < xpData.Length ==> xpData[k] == s[k]
    {
      assert s[..i + 1][..i] == s[..i];
      xpData[i] := xpData[i].(xp := xpData[i].xp + xpData[i - 1].xp);
      i := i + 1;
    }
  }

  /** `XPGraph` up to the chart call: map the XP transactions to points, sort
      them by date, then add each running total into place. */
  method CumulativeXp(xps: seq<Transaction>) returns (series: seq<XpPoint>)
    ensures |series| == |xps|
    ensures var sorted := SortByDate(ToPoints(xps));
      forall i :: 0 <= i < |series| ==>
        && series[i].date == sorted[i].date
        && series[i].task == sorted[i].task
        && series[i].xp == Total(sorted[..i + 1])
    ensures SortedByDate(series)
    ensures |series| > 0 ==> series[|series| - 1].xp == XpSum(xps)
    ensures (forall t :: t in xps ==> t.amount >= 0) ==>
      forall i, j :: 0 <= i <= j < |series| ==> series[i].xp <= series[j].xp
  {
    var sorted := SortByDate(ToPoints(xps));
    var xpData := new XpPoint[|sorted|](k requires 0 <= k < |sorted| => sorted[k]);
    assert xpData[..] == sorted;
    AccumulateInPlace(xpData);
    series := xpData[..];
    RunningTotalsEntries(sorted, series);
    RunningTotalsProperties(xps, series);
  }

  /** The chart's data: each running total in KB via `bytesConversion`;
      a total of 0 gives `undefined`. */
  function KbAmounts(series: seq<XpPoint>): seq<Option<int>> {
    seq(|series|, i requires 0 <= i < |series| => Amount(BytesConversion(series[i].xp, "KB")))
  }

  /** A non-decreasing series of positive totals plots as a non-decreasing
      line of defined KB values. */
  lemma KbAmountsMonotone(series: seq<XpPoint>)
    requires forall i :: 0 <= i < |series| ==> series[i].xp > 0
    requires forall i, j :: 0 <= i <= j < |series| ==> series[i].xp <= series[j].xp
    ensures var kb := KbAmounts(series);
      forall i, j :: 0 <= i <= j < |kb| ==> kb[i].Some? && kb[j].Some? && kb[i].value <= kb[j].value
  {
    var kb := KbAmounts(series);
    forall i, j | 0 <= i <= j < |kb| ensures kb[i].Some? && kb[j].Some? && kb[i].value <= kb[j].value {
      ConversionMonotone(series[i].xp, series[j].xp, "KB");
    }
  }

  /** Every sorted point is the point of some transaction of `xps`. */
  lemma SortedPointsFrom(xps: seq<Transaction>)
    ensures var sorted := SortByDate(ToPoints(xps));
      forall k :: 0 <= k < |sorted| ==> exists t :: t in xps && sorted[k] == ToPoint(t)
  {
    var points := ToPoints(xps);
    var sorted := SortByDate(points);
    forall k | 0 <= k < |sorted| ensures exists t :: t in xps && sorted[k] == ToPoint(t) {
      assert sorted[k] in multiset(points);
      var idx :| 0 <= idx < |points| && points[idx] == sorted[k];
      assert xps[idx] in xps;
    }
  }

  /** The first running total is the first amount. */
  lemma TotalFirst(s: seq<XpPoint>)
    requires |s| > 0
    ensures Total(s[..1]) == s[0].xp
  {
    assert s[..1][..0] == [];
  }

  /** Each entry of the series carries the date and task of an `"xp"`
      transaction outside the piscine and rust tracks. */
  lemma SeriesFromCandidates(ts: seq<Transaction>, series: seq<XpPoint>)
    requires var sorted := SortByDate(ToPoints(Candidates(ts, XpKind)));
      |series| == |sorted| &&
      forall i :: 0 <= i < |series| ==> series[i].date == sorted[i].date && series[i].task == sorted[i].task
    ensures forall i :: 0 <= i < |series| ==>
      exists t :: (t in ts && Qualifies(t, XpKind) &&
                   series[i].date == t.createdAt && series[i].task == LastSegment(t.path))
  {
    var xps := Candidates(ts, XpKind);
    var sorted := SortByDate(ToPoints(xps));
    SortedPointsFrom(xps);
    forall i | 0 <= i < |series|
      ensures exists t :: (t in ts && Qualifies(t, XpKind) &&
                           series[i].date == t.createdAt && series[i].task == LastSegment(t.path))
    {
      var t :| t in xps && sorted[i] == ToPoint(t);
    }
  }

  /** When every qualifying amount is positive, the running totals plot as
      defined, non-decreasing KB values. */
  lemma PositiveSeriesPlots(ts: seq<Transaction>, series: seq<XpPoint>)
    requires var sorted := SortByDate(ToPoints(Candidates(ts, XpKind)));
      |series| == |sorted| &&
      forall i :: 0 <= i < |series| ==> series[i].xp == Total(sorted[..i + 1])
    requires forall i, j :: 0 <= i <= j < |series| ==> series[i].xp <= series[j].xp
    requires forall t :: t in ts && Qualifies(t, XpKind) ==> t.amount > 0
    ensures var kb := KbAmounts(series);
      forall i, j :: 0 <= i <= j < |kb| ==> kb[i].Some? && kb[j].Some? && kb[i].value <= kb[j].value
  {
    var xps := Candidates(ts, XpKind);
    var sorted := SortByDate(ToPoints(xps));
    if |series| > 0 {
      assert series[0].xp == Total(sorted[..0 + 1]);
      TotalFirst(sorted);
      SortedPointsFrom(xps);
      var t0 :| t0 in xps && sorted[0] == ToPoint(t0);
      assert forall i :: 0 <= i < |series| ==> series[i].xp >= series[0].xp > 0;
    }
    KbAmountsMonotone(series);
  }

  /** The later `designTasks` with `XPGraph`: the XP transactions outside the
      piscine and rust tracks become the chart's running-total series and the
      KB values it plots. */
  method DesignTasks(ts: seq<Transaction>) returns (series: seq<XpPoint>, kb: seq<Option<int>>)
    ensures |series| == |Candidates(ts, XpKind)| && |kb| == |series|
    ensures var sorted := SortByDate(ToPoints(Candidates(ts, XpKind)));
      forall i :: 0 <= i < |series| ==>
        && series[i].date == sorted[i].date
        && series[i].task == sorted[i].task
        && series[i].xp == Total(sorted[..i + 1])
    ensures forall i :: 0 <= i < |series| ==>
      exists t :: (t in ts && Qualifies(t, XpKind) &&
                   series[i].date == t.createdAt && series[i].task == LastSegment(t.path))
    ensures SortedByDate(series)
    ensures |series| > 0 ==> series[|series| - 1].xp == XpSum(Candidates(ts, XpKind))
    ensures forall i :: 0 <= i < |kb| ==> kb[i] == Amount(BytesConversion(series[i].xp, "KB"))
    ensures (forall t :: t in ts && Qualifies(t, XpKind) ==> t.amount > 0) ==>
      forall i, j :: 0 <= i <= j < |kb| ==> kb[i].Some? && kb[j].Some? && kb[i].value <= kb[j].value
  {
    var xps := Candidates(ts, XpKind);
    series := CumulativeXp(xps);
    kb := KbAmounts(series);
    SeriesFromCandidates(ts, series);
    if forall t :: t in ts && Qualifies(t, XpKind) ==> t.amount > 0 {
      PositiveSeriesPlots(ts, series);
    }
  }
}
