# healthy_shifts: a verified model of the shift-constraint core

healthy_shifts plans who works each recurring shift. A **shift** is a weekly
template: a start time given in seconds since midnight, a duration in
seconds, and the weekdays it runs on, stored as strings "0" (Sunday) to
"6" (Saturday). A **shift constraint** links a shift to a linked shift with
a window `within_last_shifts`. It stops one member from working both shifts
too close together: for a window w > 0 the scheduler forbids a member
working the linked shift 1..w days after working the shift
(services/schedule_service.py:50-51). A window of 0 is meant to forbid both
shifts on one day, but the scheduler adds no exclusion for it (see
"## Findings").

This project models these parts of the system:

* `Shifts` (`shift.dfy`) models the shift record, its field bounds and its
  defaults. It also models `int()` on a weekday string.
* `ShiftConstraints` (`shift_constraint.dfy`) models the constraint record
  and its validator. It also models the two time tests: a same-day overlap
  of half-open ranges, and a cross-midnight spill into the next weekday.
* `ConstraintGeneration` (`generate_from_overlaps.dfy`) models
  `generate_from_overlaps`, in two phases:
  * Detection scans every pair of shifts and gathers a set of
    `(shift, linked shift, window)` triples. The set is specified by
    `Detected`. The loop methods `DetectConstraints`, `DetectRow`,
    `DetectPair` and `ScanSpill` are proved equal to it. When there are at
    least two shifts, a weekday that `int()` refuses makes the whole run
    fail.
  * Reconciliation runs those triples against the stored constraint rows
    and counts what it did as created, updated or unchanged.
* `Scheduling` (`schedule_service.dfy`) models the scheduler service:
  * `find_key_in_dict`;
  * the constraints `schedule_shifts` gives its solver, written as a
    checker over one assignment `x[member][day][shift]` (see "Left out"):
    coverage, exclusion windows from linked shifts, eligibility, and the
    fairness penalty it minimises;
  * the statistics it prints for each member.

  `schedule_shifts` builds one CP-SAT model over all days at once and asks
  the solver to minimise the fairness penalty. The model states those
  constraints and that objective over a given assignment.
* `Wrappers` holds `Option` and `Result`.

Identifiers are natural numbers instead of UUIDs.

The database session is modelled as values:
* The list of shifts is a `seq<Shift>`.
* The table of stored constraints is a `map<(Id, Id), int>` from
  `(shift_id, linked_shift_id)` to `within_last_shifts`.
* `GenerateFromOverlaps` returns the new table together with the counts.

The detected triples live in a Python `set`, and reconciliation walks that
set in an order the program does not fix. `IterationOrder` picks some order
of the set, and every property of `GenerateFromOverlaps` holds for any
order. Reconciliation is the left fold `Reconcile` over that order. Like
the source, it:
* compares a stored key against that key's current value, which an
  earlier triple may already have changed;
* does not add a created key to the stored rows, so a key detected twice
  is created twice.

Where the code and the repository's own tests or comments differ, the
model follows the code:
* `ValidateWithinLastShifts` accepts 0 and every positive value.
  `tests/test_shift_constraint.py:265-288` expects 0 to be refused, but
  the validator at `models/shift_constraint.py:25` refuses only `None` and
  negative values.
* `NewShift` sets no upper bound on the start time and accepts an empty
  list of weekdays: the fields are only a non-negative and a positive
  integer (`models/shift.py:14-17`).

Direction of a link. A constraint links `shift_id` (the model's `from`) to
`linked_shift_id` (`to`). The exclusion loop at
`services/schedule_service.py:50-51` puts `from` on day d and `to` on one of
the days d+1 .. d+w, so the shift is the earlier one and the linked shift
the later one. The model takes that direction. It is also the one the
generator needs: a shift A that spills past midnight into B yields the
triple (A, B, 1) (`models/shift_constraint.py:147`), and with this direction
that forbids working A and then B on the next day. The comment at
`models/shift_constraint.py:16-17` reads the other way round (it speaks of
the member having worked the *linked* shift before); see "Left out".

## Model

| member | source | states |
|---|---|---|
| Shifts.NewShift | models/shift.py:8-18 | construction succeeds exactly when the start time is missing or non-negative and the duration is missing or positive; the result is a valid shift with the given id; missing fields take the defaults 0, 3600, no weekdays and an empty description |
| Shifts.NewShiftBoundaries | tests/test_shift.py:161-188 | start times -1, 0 and 86399 and durations 0, -1 and 86400 are accepted or refused as the field types require; a shift built with no fields is (id, 0, 3600, [], "") |
| Shifts.DecimalString | models/shift.py:16-17 | helper for stating which strings `int()` accepts: the decimal spelling of a weekday number (what `str()` gives; the source never calls it) is a non-empty string of ASCII digits |
| Shifts.DigitsRoundTrip | models/shift.py:16-17 | helper for `ParseDecimalString`: reading the digits of the decimal spelling of n gives back n |
| Shifts.ParseDecimalString | models/shift_constraint.py:133 | `ParseInt`, the model of `int()`, maps the decimal spelling of n to n, so weekdays stored as "0".."6" parse |
| Shifts.WeekdayStrings | models/shift_constraint.py:132-135 | `ParseInt` on weekday strings: "0" and "6" parse as 0 and 6; "" and "Mon" are refused; "-1" parses as -1 |
| ShiftConstraints.ValidateWithinLastShifts | models/shift_constraint.py:23-26 | the validator accepts exactly the present, non-negative windows |
| ShiftConstraints.NewShiftConstraint | models/shift_constraint.py:7-26 | a constraint built with a missing window gets the default 1; construction succeeds exactly when the window is non-negative, and it keeps both shift ids |
| ShiftConstraints.ValidatorBoundaries | models/shift_constraint.py:23-26 | None and -1 are refused; 0 is accepted; the default constraint has window 1 |
| ShiftConstraints.OverlapIffCommonSecond | models/shift_constraint.py:28-49 | `ShiftsOverlapOnDay`, the model of `_shifts_overlap_on_day`, holds exactly when some second lies in both half-open ranges; for positive durations, exactly when each range starts before the other ends |
| ShiftConstraints.OverlapSymmetric | models/shift_constraint.py:28-49 | swapping the two shifts does not change the same-day answer |
| ShiftConstraints.TouchingShiftsDoNotOverlap | models/shift_constraint.py:44-49 | a shift that ends exactly when the other starts does not overlap it |
| ShiftConstraints.NextWeekday | models/shift_constraint.py:75 | the next weekday is always in 0..6 |
| ShiftConstraints.CrossDayCases | models/shift_constraint.py:51-85 | `CheckCrossDayOverlap`, the model of `_check_cross_day_overlap`: a shift ending by midnight gives (false, false); a crossing shift gives (true, false) unless the other day is the next weekday, and otherwise (true, other start < spill-over end); overlap implies crossing |
| ShiftConstraints.SaturdayIsFollowedBySunday | models/shift_constraint.py:75-77 | a Saturday night shift can reach a Sunday shift, but never another Saturday shift |
| ShiftConstraints.SpillOverIsSameDayOverlap | models/shift_constraint.py:79-83 | for a valid next-day shift, the cross-day verdict equals the same-day test between the spill-over range [0, end - 86400) and that shift |
| ConstraintGeneration.DetectedMembers | models/shift_constraint.py:113-165 | a triple is detected exactly when some pair p < q of shifts yields it through `PairTriples`, the triples one pair adds at lines 116-165 |
| ConstraintGeneration.SameDayTriples | models/shift_constraint.py:116-129 | (x, y, 0) is detected exactly when two shifts with ids x and y share a weekday and their time ranges overlap, in either direction |
| ConstraintGeneration.SameDayTriplesSymmetric | models/shift_constraint.py:126-128 | same-day constraints are generated in both directions |
| ConstraintGeneration.CrossDayTriples | models/shift_constraint.py:131-165 | (x, y, 1) is detected exactly when shift x spills past midnight into shift y, which runs on the next weekday; the constraint points in the direction of the spill only |
| ConstraintGeneration.DetectedValuesAreValid | models/shift_constraint.py:127-165 | every detected window is 0 or 1, so the validator accepts it |
| ConstraintGeneration.NoSelfConstraints | models/shift_constraint.py:113-115 | with distinct shift ids, no shift is linked to itself |
| ConstraintGeneration.ParseErrorIff | models/shift_constraint.py:131-165 | some pair runs into a weekday that does not parse exactly when there are at least two shifts and one of them holds such a weekday |
| ConstraintGeneration.ScanSpill | models/shift_constraint.py:132-147 | the nested weekday loop fails exactly when A holds a bad weekday, or A has weekdays and B holds a bad one; otherwise it reports whether A spills into B |
| ConstraintGeneration.ScanSpillFromDay | models/shift_constraint.py:134-147 | the inner loop for one weekday of A fails exactly when B holds a bad weekday; otherwise it reports whether A on that day spills into some day of B |
| ConstraintGeneration.DetectPair | models/shift_constraint.py:115-165 | one pair fails exactly when either shift holds a bad weekday; otherwise it yields exactly that pair's triples |
| ConstraintGeneration.ExtendRow | models/shift_constraint.py:115-165 | adding the next partner to the row built so far fails exactly when that pair fails; otherwise it yields the row extended by that pair |
| ConstraintGeneration.RowFails | models/shift_constraint.py:115-165 | one failing pair makes the whole row fail |
| ConstraintGeneration.DetectRow | models/shift_constraint.py:115-165 | the row for shift i fails exactly when a pair (i, q) with q > i fails; otherwise it yields the triples of all those pairs |
| ConstraintGeneration.DetectConstraints | models/shift_constraint.py:113-165 | detection fails exactly when some pair fails; otherwise it yields exactly `Detected(shifts)` |
| ConstraintGeneration.Reconcile | models/shift_constraint.py:173-192 | the fold of `ReconcileStep` (one pass of the loop body at lines 175-192) over the walk; reconciling never removes a stored key |
| ConstraintGeneration.LastValueIsDetected | models/shift_constraint.py:173-192 | the value a key ends with comes from a triple with that key |
| ConstraintGeneration.ReconcileCounts | models/shift_constraint.py:173-192 | each triple adds exactly one to one counter; created counts the triples whose key was not stored |
| ConstraintGeneration.ReconcileTable | models/shift_constraint.py:173-192 | the new table holds the stored keys plus the detected ones; stored keys that were not detected keep their value; a detected key holds the window of its last triple |
| ConstraintGeneration.ReconcileDistinctKeys | models/shift_constraint.py:177-184 | when keys are distinct, updated counts the rows that were stored with another window, unchanged counts the rows stored with the same window, and every key ends with its triple's window |
| ConstraintGeneration.FreshKeyStep | models/shift_constraint.py:177-192 | a triple whose key is new to the walk writes its window into the table and adds one to created when its key is not stored, to updated when it is stored with another window, and to unchanged when it is stored with the same window |
| ConstraintGeneration.ReconcileNothingToDo | models/shift_constraint.py:183-184 | when every triple already matches its stored row, the table is left as it was and every triple counts as unchanged |
| ConstraintGeneration.ReconcileIdempotent | models/shift_constraint.py:173-192 | when each key is detected once, running the reconciliation a second time changes nothing and counts every triple unchanged (see `RepeatedKeyNeverSettles` for a key detected twice) |
| ConstraintGeneration.RepeatedKeyNeverSettles | models/shift_constraint.py:177-182 | for a stored key walked as two triples with any two different windows a then b: the first run leaves b stored and counts one update and one unchanged if a was stored, two updates otherwise; a second run that walks the triples in the same order counts two updates and nothing unchanged |
| ConstraintGeneration.RepeatedKeyIsDetected | models/shift_constraint.py:113-165 | two concrete shifts (20:00 for 8 h on "1"; 01:00 for 20 h on "1" and "2") yield both (1, 2, 0) and (1, 2, 1) |
| ConstraintGeneration.CountWhereIsCard | models/shift_constraint.py:173-192 | over a walk without repeats, the count of each kind equals the number of distinct triples of that kind |
| ConstraintGeneration.IterationOrder | models/shift_constraint.py:174 | the walk visits each detected triple exactly once |
| ConstraintGeneration.ApplyDetected | models/shift_constraint.py:173-192 | the loop computes the fold `Reconcile` |
| ConstraintGeneration.GenerateFromOverlaps | models/shift_constraint.py:87-200 | fails exactly on a bad weekday in a scanned pair; otherwise the counts add up to the number of detected triples; created counts the triples with unstored keys; the table gains exactly the detected keys, keeps the others, and each detected key holds a detected window; when keys are unique, updated and unchanged count the stored rows with a different or the same window |
| ConstraintGeneration.ReconcileCountFacts | models/shift_constraint.py:173-200 | the counters, in terms of the detected set rather than the walk |
| ConstraintGeneration.NewRowsAreUnstored | models/shift_constraint.py:185-192 | the triples counted as created are those whose key is not stored |
| ConstraintGeneration.SplitByStored | models/shift_constraint.py:177-192 | every detected triple is either stored or new |
| ConstraintGeneration.ReconcileTableFacts | models/shift_constraint.py:173-192 | the new table, in terms of the detected set |
| ConstraintGeneration.ReconcileUniqueFacts | models/shift_constraint.py:177-184 | with unique keys: every detected triple ends in the table, and updated and unchanged count the stored rows with a different or the same window |
| ConstraintGeneration.UniqueKeysAreDistinct | models/shift_constraint.py:174-175 | a walk over a set with unique keys visits each key only once |
| ConstraintGeneration.StoredRowsByDisposition | models/shift_constraint.py:177-184 | the triples counted as updated (or unchanged) are those stored with a different (or the same) window |
| Scheduling.KeyForIsFirstMatch | services/schedule_service.py:159-163 | `KeyFor`, the functional model of `find_key_in_dict`, finds nothing exactly when no item has the id; otherwise it returns the key of the first item that has it |
| Scheduling.KeyForEnumerated | services/schedule_service.py:159-163 | over an enumerated list, the lookup fails exactly when the id is absent; otherwise it returns the position of the first occurrence |
| Scheduling.FindKeyInDict | services/schedule_service.py:159-163 | raises "No such object" exactly when no item has the id; otherwise it returns the key of the first item with that id |
| Scheduling.FirstMatchIsKeyFor | services/schedule_service.py:160-162 | the first item with the id decides the answer |
| Scheduling.ResolveConstraints | services/schedule_service.py:41-46 | resolving fails exactly when some constraint names a shift that is not in the dictionary; otherwise each constraint becomes the link between its two shift keys with its window |
| Scheduling.Headcount | services/schedule_service.py:37 | the number of members on a shift on a day is at most the number of members |
| Scheduling.CountAssigned | services/schedule_service.py:37 | the loop counts the members on shift s on day d |
| Scheduling.CheckCoverage | services/schedule_service.py:34-38 | true exactly when every shift on every day has exactly its required number of members |
| Scheduling.CoverageNeedsAttainableRequirements | services/schedule_service.py:34-38 | a covered schedule with at least one day needs every requirement to lie between 0 and the number of members |
| Scheduling.ExclusionStaysInWindow | services/schedule_service.py:47-51 | every day index the exclusion loop builds lies strictly inside the horizon |
| Scheduling.NoExclusionForDegenerateWindow | services/schedule_service.py:46-48 | a window of 0 or less, or one at least the number of days, adds no exclusion at all |
| Scheduling.SelfLinkRestsOneDay | services/schedule_service.py:47-53 | a shift linked to itself with window 1 is never worked by one member on two consecutive days |
| Scheduling.CheckMemberLink | services/schedule_service.py:47-53 | true exactly when the member never works the linked shift 1..w days after the shift, for start days below num_days - w |
| Scheduling.CheckLinks | services/schedule_service.py:40-53 | true exactly when every link is respected by every member |
| Scheduling.CheckMemberEligibility | services/schedule_service.py:70-74 | true exactly when the member works only shifts they are eligible for |
| Scheduling.CheckEligibility | services/schedule_service.py:69-74 | true exactly when no member works a shift they are not eligible for |
| Scheduling.CheckSchedule | services/schedule_service.py:9-74 | fails exactly when there are members and some constraint's shift is missing; otherwise it reports the conjunction of coverage, eligibility and every resolved link |
| Scheduling.DaysWorked | services/schedule_service.py:85-89 | a member works a shift on at most as many days as the horizon has |
| Scheduling.MemberShiftCount | services/schedule_service.py:85-89 | the loop counts the days member n works shift s |
| Scheduling.IneligibleMemberWorksNone | services/schedule_service.py:70-74 | under eligibility, a member not eligible for a shift works it on no day |
| Scheduling.SeqExtremes | services/schedule_service.py:92-97 | the minimum and maximum of the counts bound every count and are attained |
| Scheduling.OptimalPenaltyIsLeastAdmissible | services/schedule_service.py:80-102 | for a shift with more than one eligible member, max minus min of the counts is an admissible penalty, is non-negative, and is at most every other admissible choice of (min, max, diff) |
| Scheduling.FairnessPenalty | services/schedule_service.py:80-102 | the loop computes that least penalty, or none when at most one member is eligible |
| Scheduling.ObjectiveIsLeast | services/schedule_service.py:78-105 | the sum of the least penalties is non-negative and at most the objective of any admissible choice |
| Scheduling.PenaltySumStep | services/schedule_service.py:80-102 | a shift with more than one eligible member adds its penalty to the sum; any other shift adds nothing |
| Scheduling.ObjectiveIsAttained | services/schedule_service.py:78-105 | choosing the true min and max for every shift is admissible and reaches that sum |
| Scheduling.FairnessObjective | services/schedule_service.py:78-105 | computes the list of penalties and their total; the total is non-negative, is at most the objective of every admissible choice of (min, max, diff), and is attained by the choice of the true minimum and maximum, so it is the least value the objective can take for this assignment |
| Scheduling.ShiftsOnDay | services/schedule_service.py:145 | helper for `CountsTotalIsCellsWorked`: the cells a member works on one day, counted shift by shift, are at most the number of shifts |
| Scheduling.CountsTotalIsCellsWorked | services/schedule_service.py:138-145 | adding up the counts per shift gives the number of (day, shift) cells the member works |
| Scheduling.MemberStatistics | services/schedule_service.py:138-145 | each count is the number of days the member works that shift; the total is their sum and equals the number of cells worked |
| Scheduling.CheckMemberLinkIntended | services/schedule_service.py:47-53 | the exclusion loops with corrected ranges are true exactly when the member never works the linked shift on a day in the intended window of a day they work the shift, over the whole horizon |
| Scheduling.IntendedImpliesAsWritten | services/schedule_service.py:47-53 | the intended window is at least as strict as the loop as written |
| Scheduling.WindowOneIsExact | services/schedule_service.py:47-53 | for window 1, the loop as written and the intended window agree |
| Scheduling.IntendedLooksBack | services/schedule_service.py:50-51 | for w > 0, the intended rule is: whoever works the linked shift on day e did not work the shift on any of the w days before e |
| Scheduling.IntendedSameDay | models/shift_constraint.py:18 | for w = 0, the intended rule is: no member works both shifts on the same day |
| Scheduling.IntendedFeasibleIsFeasible | services/schedule_service.py:34-74 | a schedule that meets the intended rules meets the rules as written |
| Scheduling.TailPairUnconstrained | services/schedule_service.py:47-48 | with 3 days and window 2, working the shift on days 1 and 2 passes the loop as written but breaks the intended window |
| Scheduling.SameDayLinkIgnored | services/schedule_service.py:47-48 | a same-day link (window 0) lets one member work both shifts on the same day |

## Left out

- The database session, queries, `session.add` and `session.commit` become values: a list of shifts, a table of stored rows, and the returned new table.
- A key that is detected twice is "created" twice in the table, as in the source. This happens when a pair overlaps on the same day and also spills into the next day (`RepeatedKeyIsDetected`). The primary-key error that the commit would then raise is not modelled. Once such a key is stored, a run that walks its two triples in the same order as the run before updates it twice and never counts it unchanged (`RepeatedKeyNeverSettles`); a run that walks them in the other order counts one update and one unchanged. The window left stored depends on the set order.
- The validator is modelled as a check that accepts or refuses a value. It returns nothing, so what SQLAlchemy then stores in the attribute is not modelled.
- The CP-SAT solve is not modelled. The model states the constraints and the objective that `schedule_shifts` builds, as predicates over one given assignment. It states that the objective's value is the least for that assignment. The search for an optimal assignment, the solver's status, and `linearization_level` are left out.
- Scheduling.CheckSchedule: the list of eligible members and `members_required` are inputs. The `MemberGroupShift` query that builds them is I/O, and `members_required` is not a field of the shift source shown here.
- The number of days is an input. The `datetime` subtraction that gives it is not modelled.
- Printing, the emoji and text layout of the report, `hello.py`, the ICS export and the other model files are left out. They are output or schema only.
- Shifts.ParseInt: models `int()` with an optional sign and ASCII digits only. Surrounding whitespace, underscores and non-ASCII digits, which Python also accepts, are not modelled.
- UUID ids become natural numbers. Only their equality matters in this code.
- `created_at` and `updated_at` are not modelled. They come from the clock.
- ConstraintGeneration.GenerateFromOverlaps: the order of the walk over the detected set is any order, because Python's set order is not fixed. The properties are proved for every order. Where keys are not unique, the final value of such a key is proved to be one of its detected windows, not a particular one.
- Updates through shared ORM objects (aliasing) are modelled as map updates.
- Scheduling.CheckMemberLink: follows the direction of the code at services/schedule_service.py:50-51 (the shift before, the linked shift after). The comment at models/shift_constraint.py:16-17, read literally, puts the linked shift first. The opposite reading is not modelled, because the generator's (A, B, 1) triple for a spill from A into B only makes sense in the code's direction. For a shift linked to itself the two readings agree.
- A shift longer than a day spills past more than one midnight. Like the source, the model looks only at the next weekday.

## Findings

| source | as written | input that shows it | evidently intended | confidence | as-written member | corrected member |
|---|---|---|---|---|---|---|
| services/schedule_service.py:47-48 | the outer loop runs `d` over `range(num_days - within)`, so no exclusion starts on the last `within` days; a pair of days (d, e) with d < e <= d + w is dropped when d >= num_days - w | 3 days, one shift linked to itself with window 2: one member works days 1 and 2, which the window forbids, yet no constraint covers the pair (1, 2) | every pair of days d < e <= d + w inside the horizon is excluded | medium, not executed | Scheduling.TailPairUnconstrained | Scheduling.IntendedLooksBack |
| services/schedule_service.py:47-48 | with window 0 the inner `range(within)` is empty, so a same-day constraint adds no exclusion at all, although the record's comment (models/shift_constraint.py:18) says 0 forbids both shifts on the same day, and generation emits 0 for every same-day overlap | 1 day, two shifts linked with window 0: one member works both shifts on day 0 | window 0 forbids working both shifts on the same day | high, not executed | Scheduling.SameDayLinkIgnored | Scheduling.IntendedSameDay |
