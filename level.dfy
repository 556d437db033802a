/** The "Level" and "Last completed task" lines of the profile page: the
    highest-amount level transaction outside the piscine and rust tracks. */
module Level {
  import opened Wrappers
  import opened Text
  import opened Records

  /** `reduce` without an initial value throws on an empty array. */
  datatype Error = EmptyReduce

  /** What the page shows: the level amount and the last segment of the
      winning transaction's path. */
  datatype LevelInfo = LevelInfo(amount: int, lastTask: string)

  /** The reducer: the current element replaces the accumulator only when its
      amount is strictly greater. */
  function Keep(prev: Transaction, cur: Transaction): Transaction {
    if cur.amount > prev.amount then cur else prev
  }

  /** One step of the reduce: if `prev` is the first maximal element of `init`,
      keeping it against `last` gives the first maximal element of
      `init + [last]`. */
  lemma KeepStep(init: seq<Transaction>, prev: Transaction, last: Transaction)
    requires forall t :: t in init ==> t.amount <= prev.amount
    requires exists k :: 0 <= k < |init| && init[k] == prev &&
                         forall j :: 0 <= j < k ==> init[j].amount < prev.amount
    ensures var ts, best := init + [last], Keep(prev, last);
      && (forall t :: t in ts ==> t.amount <= best.amount)
      && exists k :: 0 <= k < |ts| && ts[k] == best &&
                     forall j :: 0 <= j < k ==> ts[j].amount < best.amount
  {
    var ts := init + [last];
    var k :| 0 <= k < |init| && init[k] == prev &&
             forall j :: 0 <= j < k ==> init[j].amount < prev.amount;
    assert forall j :: 0 <= j < |init| ==> ts[j] == init[j];
    assert ts[k] == prev;
    assert forall t :: t in ts <==> t in init || t == last;
    if last.amount > prev.amount {
      assert forall j :: 0 <= j < |ts| - 1 ==> ts[j].amount < last.amount;
      assert ts[|ts| - 1] == last;
    }
  }

  /** `ts.reduce(Keep)` with no initial value: the accumulator starts at the
      first element and folds the rest in from the left. The result is the
      first element, in input order, whose amount is maximal. */
  function ReduceByAmount(ts: seq<Transaction>): (best: Transaction)
    requires ts != []
    ensures forall t :: t in ts ==> t.amount <= best.amount
    ensures exists k :: 0 <= k < |ts| && ts[k] == best &&
                        forall j :: 0 <= j < k ==> ts[j].amount < best.amount
  {
    if |ts| == 1 then ts[0]
    else
      var init := ts[..|ts| - 1];
      KeepStep(init, ReduceByAmount(init), ts[|ts| - 1]);
      assert init + [ts[|ts| - 1]] == ts;
      Keep(ReduceByAmount(init), ts[|ts| - 1])
  }

  /** The filter and reduce of `userChart`: the winning level transaction, or
      the error `reduce` raises when no level transaction qualifies. */
  function HighestLevel(ts: seq<Transaction>): (r: Result<Transaction, Error>)
    ensures r.Failure? <==> Candidates(ts, LevelKind) == []
    ensures r.Success? ==> r.value in ts && Qualifies(r.value, LevelKind)
    ensures r.Success? ==> forall t :: t in ts && Qualifies(t, LevelKind) ==> t.amount <= r.value.amount
  {
    var candidates := Candidates(ts, LevelKind);
    if candidates == [] then Failure(EmptyReduce)
    else
      var best := ReduceByAmount(candidates);
      assert best in candidates;
      Success(best)
  }

  /** On a tie the reduce keeps the earliest candidate: the winner is the
      first candidate, in input order, whose amount no other candidate exceeds. */
  lemma HighestLevelIsFirstMaximal(ts: seq<Transaction>)
    ensures var r := HighestLevel(ts);
      r.Success? ==>
        exists k :: 0 <= k < |Candidates(ts, LevelKind)| &&
                    Candidates(ts, LevelKind)[k] == r.value &&
                    forall j :: 0 <= j < k ==> Candidates(ts, LevelKind)[j].amount < r.value.amount
  {
    var candidates := Candidates(ts, LevelKind);
    if candidates != [] {
      assert HighestLevel(ts).value == ReduceByAmount(candidates);
    }
  }

  /** `userChart` without its DOM writes: the level amount and the last-task
      label of the transaction the reduce picks. */
  function CurrentLevel(ts: seq<Transaction>): (r: Result<LevelInfo, Error>)
    ensures r.Failure? <==> Candidates(ts, LevelKind) == []
    ensures r.Success? ==>
      && HighestLevel(ts).Success?
      && r.value == LevelInfo(HighestLevel(ts).value.amount, LastSegment(HighestLevel(ts).value.path))
  {
    match HighestLevel(ts)
    case Failure(e) => Failure(e)
    case Success(t) => Success(LevelInfo(t.amount, LastSegment(t.path)))
  }

  /** `info` is the level line for transaction `t`: `t` qualifies and has the
      highest qualifying amount, `info` shows that amount, and its label is
      the part of `t`'s path after the last `/`. */
  ghost predicate LevelLineOf(ts: seq<Transaction>, info: LevelInfo, t: Transaction) {
    && t in ts && Qualifies(t, LevelKind)
    && info.amount == t.amount
    && (forall u :: u in ts && Qualifies(u, LevelKind) ==> u.amount <= t.amount)
    && '/' !in info.lastTask && |info.lastTask| <= |t.path|
    && t.path[|t.path| - |info.lastTask|..] == info.lastTask
    && (|info.lastTask| == |t.path| || t.path[|t.path| - |info.lastTask| - 1] == '/')
  }

  /** The level line built from a maximal qualifying transaction `t`. */
  lemma LevelLineFor(ts: seq<Transaction>, t: Transaction)
    requires t in ts && Qualifies(t, LevelKind)
    requires forall u :: u in ts && Qualifies(u, LevelKind) ==> u.amount <= t.amount
    ensures LevelLineOf(ts, LevelInfo(t.amount, LastSegment(t.path)), t)
  {
    LastSegmentIsAfterLastSlash(t.path);
  }

  /** The level line shows the highest qualifying amount, and its label is the
      part of the winner's path after the last `/`. */
  lemma CurrentLevelShowsHighest(ts: seq<Transaction>)
    ensures CurrentLevel(ts).Success? ==> exists t :: LevelLineOf(ts, CurrentLevel(ts).value, t)
  {
    if CurrentLevel(ts).Success? {
      var t := HighestLevel(ts).value;
      LevelLineFor(ts, t);
      assert CurrentLevel(ts).value == LevelInfo(t.amount, LastSegment(t.path));
    }
  }
}
