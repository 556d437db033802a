# Student dashboard aggregation, modelled in Dafny

This project models the data aggregation inside the profile page of a
student dashboard (`profile.js`). The page receives one user record from a
GraphQL query: transactions, progresses and byte totals. It derives four
things from that record and hands them to a chart library:

- **Level line** (`userChart`): keep `"level"` transactions whose path
  contains neither `piscine` nor `rust`, reduce them to the one with the
  highest amount, and show its amount and the last `/`-segment of its path.
- **Skills radar** (`createSkillsChart`): three nested loops over progresses,
  their parents and each parent's `baseSkills` fill a JavaScript `Map` with
  the highest value per skill name, in first-insertion order.
- **Audit section** (the later `designAudits`, which shadows the earlier one):
  `Math.round(totalUp / totalDown * 10) / 10`, the status "Almost perfect!"
  when that exceeds 0.4, otherwise "Be careful, buddy.", a colour that is the
  same on both branches, and both totals in MB via `bytesConversion`.
- **XP chart** (the later `designTasks` and `XPGraph`): keep qualifying
  `"xp"` transactions, map each to `{date, xp, task}`, sort by date, then
  turn each `xp` into the running total in place; the chart plots each total
  in KB.

Modules, one per concern of the page script:

| file | module | contents |
|---|---|---|
| wrappers.dfy | `Wrappers` | `Option`, `Result` |
| text.dfy | `Text` | `includes`, `split`/`join` on one character, last path segment |
| records.dfy | `Records` | `Transaction`, the piscine/rust filter |
| level.dfy | `Level` | the reduce without an initial value, the level line |
| skills.dfy | `Skills` | the skill map, its nested-loop construction and its properties |
| units.dfy | `Units` | the two rounding rules, `bytesConversion` with an explicit unit |
| audit.dfy | `Audit` | the audit ratio, its threshold and the audit section |
| xp.dfy | `Xp` | the stable date sort, the in-place running totals, the KB values |

Modelling choices:

- Amounts, byte totals, timestamps and skill values are integers. Rounding is stated on
  exact rationals. `Math.round` rounds to the nearest integer with halves
  upward. `toFixed(2)` rounds the magnitude to the nearest hundredth with
  halves upward, then restores the sign, so halves go away from zero.
  Rounded results are kept as whole numbers of tenths or hundredths.
- `totalDown == 0` follows what the JavaScript actually does: the code
  divides by zero. `up / 0` is `Infinity`, which passes the `> 0.4` test. `0 / 0` is
  `NaN`, which fails it. The model has `Ratio = Tenths | PosInfinity | NotANumber`.
- `bytesConversion(0, ...)` returns the string `"0 Byte"`, and `.amount` on
  it is `undefined`. This is kept as the `ZeroByte` case, which `Amount`
  maps to `None`. So a zero total gives an undefined bar length or chart
  point.
- When level amounts tie, the first maximal candidate in input order wins,
  because the reducer replaces only on a strictly greater amount.
- `Array.prototype.sort` is stable. It is modelled as a functional stable
  insertion sort on dates. The running-total loop that follows is modelled
  in place on an `array`.
- The JavaScript `Map` is the value `SkillMap(order, best)`, reassigned
  inside the loops. `order` lists keys in first-insertion order, and `set`
  on an existing key keeps its place. `best` holds the values.

## Model

| member | source | states |
|---|---|---|
| `Text.IncludesIffOccurs` | profile.js:73 | the scanning `includes` is true exactly when the substring occurs at some index |
| `Text.Split` | profile.js:77 | `split("/")` yields at least one piece and no piece contains the separator |
| `Text.JoinSplit` | profile.js:77 | joining the pieces of a split with the separator gives back the string |
| `Text.SplitJoin` | profile.js:77 | splitting a join of separator-free pieces gives back the pieces |
| `Text.LastSegmentIsAfterLastSlash` | profile.js:77 | the last-task label has no `/`, is a suffix of the path, is the whole path or directly follows a `/`, and is the whole path when the path has no `/` |
| `Text.AfterLastSlashUnique` | profile.js:283 | the after-last-slash description determines the last-task label uniquely; the XP chart's `split('/')[length - 1]` takes the same last piece |
| `Records.Candidates` | profile.js:72-73 | a transaction is kept iff its type matches and its path contains neither "piscine" nor "rust" |
| `Records.CandidatesCount` | profile.js:346 | each qualifying transaction is kept with its multiplicity and every other one is dropped |
| `Records.CandidatesAppend` | profile.js:346 | filtering preserves input order: it distributes over concatenation |
| `Level.ReduceByAmount` | profile.js:74-76 | the reduce without an initial value returns an element whose amount is at least every other amount, and no earlier element reaches it |
| `Level.KeepStep` | profile.js:74-76 | one reducer call keeps the first maximal element: against a strictly greater amount the new element wins, otherwise the accumulator stays |
| `Level.HighestLevel` | profile.js:72-76 | fails exactly when no level transaction qualifies, as `reduce` throws; otherwise returns a qualifying transaction with the maximal amount |
| `Level.HighestLevelIsFirstMaximal` | profile.js:74-76 | on a tie the earliest candidate wins: the winner is the first qualifying transaction, in input order, that no other candidate exceeds |
| `Level.CurrentLevel` | profile.js:72-77 | fails iff nothing qualifies; otherwise shows the amount of the transaction the reduce picks and the last `/`-segment of that transaction's path |
| `Level.LevelLineFor` | profile.js:77 | from a maximal qualifying transaction, the shown amount is its amount and the label is the `/`-free suffix of its path that is the whole path or directly follows a `/` |
| `Level.CurrentLevelShowsHighest` | profile.js:72-77 | whenever the level line is shown, some qualifying transaction has the highest qualifying amount, the line shows that amount, and the label is the part of its path after the last `/` |
| `Skills.RecordGrows` | profile.js:118-120 | one loop step never removes a key or lowers a value, only appends to key order, keeps the map well-formed and stores at least the visited value |
| `Skills.AggregateWellFormed` | profile.js:118-119 | keys are distinct and the key order lists exactly the stored keys |
| `Skills.AggregateKeys` | profile.js:118-119 | the map's keys are exactly the skill names met |
| `Skills.AggregateBounds` | profile.js:118-119 | every value met is at most the stored value for its name |
| `Skills.AggregateAttained` | profile.js:118-119 | every stored value is the value of some entry of that name |
| `Skills.AggregateIsPerNameMax` | profile.js:110-125 | the keys are exactly the skill names met, and each value is the largest value met for that name and is one of them |
| `Skills.RecordKeepsOrder` | profile.js:118-119 | one step keeps the keys in first-occurrence order |
| `Skills.AggregateOrder` | profile.js:223-226 | the key order, which becomes the chart's label order, is the order in which names first occur |
| `Skills.AggregateOrderStep` | profile.js:118-119 | one more entry keeps the key order in first-occurrence order |
| `Skills.SameEntriesSameValues` | profile.js:115-120 | the values depend only on the entries met, not on the order in which they are met |
| `Skills.ValuesDominated` | profile.js:115-120 | meeting a superset of entries yields every key with a value at least as large |
| `Skills.ParentsSkillsAppend` | profile.js:111 | the entries visited for two parent lists in a row are the two lists' entries in a row |
| `Skills.BareParentAddsNothing` | profile.js:112-113 | a parent without `attrs` or `baseSkills` is skipped: removing it changes neither the visited entries nor the map |
| `Skills.ProgressesSkillsAppend` | profile.js:110-111 | the entries visited for two progress lists in a row are the two lists' entries in a row |
| `Skills.ProgressesSkillsPermutation` | profile.js:110-111 | permuting the progresses permutes the visited entries |
| `Skills.ValuesIgnoreProgressOrder` | profile.js:107-125 | permuting the progresses leaves every skill's value unchanged |
| `Skills.ParentsSkillsSplit` | profile.js:111 | the entries visited for `left + [x] + right` parents are those of `left`, then of `x`, then of `right` |
| `Skills.ParentsSkillsPermutation` | profile.js:111 | permuting the parents of a progress permutes the visited entries |
| `Skills.ValuesIgnoreParentOrder` | profile.js:107-125 | replacing one progress's parents by a permutation of them leaves every skill's value unchanged |
| `Skills.VisitBaseSkills` | profile.js:115-122 | the innermost loop extends the map from the entries seen so far with one `baseSkills` object |
| `Skills.CreateSkillMap` | profile.js:103-125 | the nested loops produce the aggregate of all entries; parents without `attrs` or `baseSkills` add nothing; keys are the names met and values their maxima |
| `Units.IndexOf` | profile.js:361 | `indexOf` returns the first index holding the unit, or -1 exactly when the unit is absent |
| `Units.RoundHalfUp` | profile.js:337 | `Math.round(n / d)` is the nearest integer with a half rounded up |
| `Units.RoundHalfAway` | profile.js:362 | `toFixed` rounding is nearest with a half rounded away from zero |
| `Units.RoundHalfUpUnique` | profile.js:337 | the nearest-integer description determines the rounded value |
| `Units.RoundHalfUpMonotone` | profile.js:362 | rounding never reverses the order of two dividends |
| `Units.BytesConversion` | profile.js:357-366 | returns `"0 Byte"` exactly for zero bytes; for a listed unit, the unit's name and the amount within half a hundredth of bytes / 1000^index; for an unlisted unit, no name and bytes x 1000 |
| `Units.ExactMultiple` | profile.js:362 | a whole number of units converts exactly, in base 1000 |
| `Units.ListedConversion` | profile.js:362-364 | with a listed unit, non-zero bytes become their hundredths of that unit rounded as `toFixed(2)` does, labelled with the unit |
| `Units.ConversionMonotone` | profile.js:362 | more positive bytes never give a smaller amount in the same unit |
| `Units.OnePointFiveMegabytes` | profile.js:357-366 | 1 500 000 bytes in MB is `{amount: 1.5, size: "MB"}` |
| `Audit.AuditRatio` | profile.js:337 | the ratio is the nearest tenth of up/down, a half rounded up; division by zero gives `Infinity`, or `NaN` when both are zero |
| `Audit.AboveThresholdIff` | profile.js:338 | with bytes received, the rounded ratio exceeds 0.4 iff 20 x up >= 9 x down |
| `Audit.DesignAudits` | profile.js:332-342 | the ratio shown is `AuditRatio(up, down)` and the status is "Almost perfect!" exactly when that ratio passes the threshold, that is iff 20 x up >= 9 x down, or iff up > 0 when down is 0; the colour is the same either way; bar lengths are undefined for zero bytes, otherwise the `bytesConversion(…, "MB")` amount, the one whole number of hundredths that lies above bytes/10^6 minus half a hundredth and at most half a hundredth above it |
| `Audit.HalfRatioPasses` | profile.js:337-338 | 1 000 000 audited against 2 000 000 received gives 0.5 and passes |
| `Xp.InsertByDate` | profile.js:286 | insertion adds exactly the one point |
| `Xp.InsertByDateSorted` | profile.js:286 | inserting into a date-sorted sequence keeps it sorted |
| `Xp.SortByDate` | profile.js:286 | the sort is a permutation of its input and is ascending by date |
| `Xp.InsertByDateWithDate` | profile.js:286 | an insertion puts the new point ahead of the earlier points of its date and keeps their order |
| `Xp.SortByDateStable` | profile.js:286 | the sort is stable: the points of any one date keep their input order |
| `Xp.TotalCons` | profile.js:287 | a point added in front adds its amount to the total |
| `Xp.TotalInsert` | profile.js:286 | insertion adds the inserted amount to the total |
| `Xp.TotalSort` | profile.js:286-287 | sorting does not change the total |
| `Xp.TotalPoints` | profile.js:279-285 | the mapped points carry the transactions' amounts, so their total is the `designTasks` sum |
| `Xp.TotalPrefixMonotone` | profile.js:287 | with no negative amounts a longer prefix has no smaller total |
| `Xp.SortedPointsNonNegative` | profile.js:279-286 | sorting points made from non-negative amounts gives non-negative points |
| `Xp.RunningTotalsMonotone` | profile.js:287 | running totals of non-negative amounts never decrease |
| `Xp.RunningTotalsProperties` | profile.js:286-287 | running totals of the sorted points are date-ordered, end at the `designTasks` sum, and never decrease when no amount is negative |
| `Xp.AccumulateInPlace` | profile.js:287 | the in-place loop leaves each entry with the total of all amounts up to and including it, date and task unchanged |
| `Xp.CumulativeXp` | profile.js:276-287 | the series has one entry per transaction passed in; entry i has the date and task of the i-th point after the stable sort, and its xp is the total of sorted amounts 0..i; dates ascend; the last entry equals the `designTasks` sum; with no negative amounts the series never decreases |
| `Xp.KbAmountsMonotone` | profile.js:289 | a non-decreasing series of positive totals plots as a non-decreasing line of defined KB values |
| `Xp.RunningTotalsEntries` | profile.js:287 | entry i of the running totals keeps date and task and carries the total of amounts 0..i |
| `Xp.SeriesFromCandidates` | profile.js:279-285 | every chart entry carries the date and task of an `"xp"` transaction outside the piscine and rust tracks |
| `Xp.PositiveSeriesPlots` | profile.js:287-289 | with positive amounts the plotted KB values are all defined and never decrease |
| `Xp.SortedPointsFrom` | profile.js:279-286 | every point of the sorted series is the point of one of the transactions it was built from |
| `Xp.DesignTasks` | profile.js:345-355 | the chart has one entry per `"xp"` transaction outside the piscine and rust tracks: entry i is the i-th of their points sorted by date (a permutation of them), carrying the total of sorted amounts 0..i; each entry's date and task come from such a transaction; dates ascend; the last total is their `reduce` sum; the plotted values are the KB conversions of the totals, defined and non-decreasing when every qualifying amount is positive |

## Left out

- `auth.js` entirely: DOM event wiring, the sign-in `fetch`, HTTP Basic
  credentials (section 2 of RFC 7617), `localStorage` and the redirect.
- `setup`, `displayData`, `logoutButton` and `updateCharts`
  (profile.js:1-67, 89-100): token storage, the GraphQL request, promise
  chains and redirects. The model takes the already-fetched record as its
  input.
- Every DOM write (`innerHTML`, `createElement`, `append`, `style.color`)
  and the text formatting of the ratio, for example `${auditR}`. The model
  keeps the status words and the colour value only.
- `AuditGraph`, `SkillsGraph` and the Chart.js configuration in `XPGraph`
  (profile.js:164-330). These hand the computed series to a library that is
  not part of this model. Only the key order `SkillsGraph` reads and the KB
  values `XPGraph` plots are modelled.
- `bytesConversion` with no unit (profile.js:361, reached from
  profile.js:347). It picks a unit with `Math.floor(Math.log(bytes) /
  Math.log(1000))`, which is floating-point. It is also unclamped: from
  10^9 bytes it indexes past `"MB"`. Its result, `sum`, is never used on the
  page.
- Units.BytesConversion: covers only an explicit unit. Rounding is exact,
  not IEEE-754 double arithmetic. Near a half, the page's double quotient
  can round the last hundredth the other way. Once the value passes about
  2^53 hundredths (bytes / 1000^index above roughly 9 x 10^13), the
  double's own spacing exceeds a hundredth and the page can differ by more:
  2^64 bytes in "KB" is exactly 18446744073709551.616, which the model
  gives as 1844674407370955162 hundredths while the page shows
  18446744073709552.00.
- Audit.AuditRatio: computes the ratio exactly. The page's
  `totalUp / totalDown * 10` is a double and can round a near-half
  differently.
- `new Date(createdAt)` and `toLocaleDateString` (profile.js:281, 288):
  dates are integer timestamps and labels are not produced.
- The shadowed first `designAudits` and `designTasks` (profile.js:133-162):
  they never run. The only behavioural difference is that the later
  `designAudits` uses one colour on both branches (profile.js:339). The
  model keeps that single colour.
- Fields the code dereferences without a guard are assumed present:
  `path` on every transaction (profile.js:73, 77, 283, 346), and `object`
  and its `parents` list on every progress (profile.js:111). When one is
  missing or null the page throws a
  `TypeError`, which aborts `userChart` or the chart being drawn and every
  chart after it. The model has no such crash path.
- The page-level effect of an empty level list: when no level transaction
  qualifies, `reduce` with no initial value throws (profile.js:74). That
  aborts `userChart` before the name, e-mail and level lines are written and
  before `updateCharts` runs, so nothing is drawn; the error reaches the
  `catch` at profile.js:64. The model has no page composition: it returns
  `Failure(EmptyReduce)` from `Level.HighestLevel` and `Level.CurrentLevel`.
- `hasOwnProperty` (profile.js:116) is always true for a parsed JSON
  object, so `baseSkills` is a list of its own entries in key order.
- Xp.SortByDate: the in-place library sort is modelled as a function on
  sequences. The array it sorts is then updated in place by
  `Xp.AccumulateInPlace`.
