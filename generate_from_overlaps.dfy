/**
 * Automatic constraint generation: every pair of shift templates is tested
 * for a same-day overlap and for a cross-midnight spill-over, the findings
 * are collected as (shift, linked shift, within_last_shifts) triples, and
 * the triples are reconciled against the constraints already stored.
 *
 * The database session is replaced by its contents: the list of shifts and
 * a map from (shift id, linked shift id) to the stored within_last_shifts.
 */
module ConstraintGeneration {
  import opened Wrappers
  import opened Shifts
  import opened ShiftConstraints

  /** Primary key of a stored constraint: (shift id, linked shift id). */
  type Key = (Id, Id)

  /** A detected constraint: (shift id, linked shift id, within_last_shifts). */
  type Triple = (Id, Id, int)

  function KeyOf(t: Triple): (k: Key)
  {
    (t.0, t.1)
  }

  /** int() refused one of the weekday strings (Python's ValueError). */
  datatype GenerateError = InvalidWeekday

  // ---------------------------------------------------------------------
  // What is detected for one pair of shifts
  // ---------------------------------------------------------------------

  /** The weekday string is one of b's. */
  predicate RunsOn(b: Shift, day: string)
  {
    day in b.days
  }

  /** The two weekday lists, compared as strings, have an element in common. */
  predicate SharesDay(a: Shift, b: Shift)
  {
    exists i {:trigger RunsOn(b, a.days[i])} :: 0 <= i < |a.days| && RunsOn(b, a.days[i])
  }

  predicate SameDayOverlap(a: Shift, b: Shift)
  {
    SharesDay(a, b) &&
    ShiftsOverlapOnDay(a.secondsSinceMidnight, a.durationSeconds, b.secondsSinceMidnight, b.durationSeconds)
  }

  /** Shift a, run on weekday string dayA, spills into shift b run on weekday string dayB. */
  predicate SpillsOn(a: Shift, b: Shift, dayA: string, dayB: string)
  {
    var pa := ParseInt(dayA);
    var pb := ParseInt(dayB);
    pa.Some? && pb.Some? &&
    CheckCrossDayOverlap(a.secondsSinceMidnight, a.durationSeconds, b.secondsSinceMidnight, pa.value, pb.value) == (true, true)
  }

  /** For some weekday of a and some weekday of b, a spills past midnight into b. */
  predicate SpillsInto(a: Shift, b: Shift)
  {
    exists i, j {:trigger SpillsOn(a, b, a.days[i], b.days[j])} ::
      0 <= i < |a.days| && 0 <= j < |b.days| && SpillsOn(a, b, a.days[i], b.days[j])
  }

  /** int() accepts the weekday string. */
  predicate WeekdayParses(day: string)
  {
    ParseInt(day).Some?
  }

  /** Every weekday string of the shift is accepted by int(). */
  predicate DaysParse(s: Shift)
  {
    forall i {:trigger WeekdayParses(s.days[i])} :: 0 <= i < |s.days| ==> WeekdayParses(s.days[i])
  }

  predicate PairParses(a: Shift, b: Shift)
  {
    DaysParse(a) && DaysParse(b)
  }

  /** Shift i can be paired with every later shift without a parse error. */
  predicate RowParses(shifts: seq<Shift>, i: nat)
    requires i < |shifts|
  {
    forall q :: i < q < |shifts| ==> PairParses(shifts[i], shifts[q])
  }

  /** No pair p < q runs into a parse error. */
  predicate AllPairsParse(shifts: seq<Shift>)
  {
    forall p :: 0 <= p < |shifts| ==> RowParses(shifts, p)
  }

  /** The triples contributed by one unordered pair of shifts. */
  function PairTriples(a: Shift, b: Shift): (triples: set<Triple>)
  {
    (if SameDayOverlap(a, b) then {(a.id, b.id, 0), (b.id, a.id, 0)} else {})
    + (if SpillsInto(a, b) then {(a.id, b.id, 1)} else {})
    + (if SpillsInto(b, a) then {(b.id, a.id, 1)} else {})
  }

  /** Union of pair(shifts[i], shifts[q]) over i < q < j. */
  function RowTriples(pair: (Shift, Shift) -> set<Triple>, shifts: seq<Shift>, i: nat, j: nat): (row: set<Triple>)
    requires i < |shifts| && j <= |shifts|
    decreases j
  {
    if j <= i + 1 then {} else RowTriples(pair, shifts, i, j - 1) + pair(shifts[i], shifts[j - 1])
  }

  /** Union of pair(shifts[p], shifts[q]) over p < i and p < q. */
  function DetectedBefore(pair: (Shift, Shift) -> set<Triple>, shifts: seq<Shift>, i: nat): (triples: set<Triple>)
    requires i <= |shifts|
  {
    if i == 0 then {} else DetectedBefore(pair, shifts, i - 1) + RowTriples(pair, shifts, i - 1, |shifts|)
  }

  /** Everything detected over all pairs i < j of the shift list. */
  function Detected(shifts: seq<Shift>): (triples: set<Triple>)
  {
    DetectedBefore(PairTriples, shifts, |shifts|)
  }

  // ---------------------------------------------------------------------
  // Properties of detection
  // ---------------------------------------------------------------------

  lemma {:induction false} RowTriplesMembers(pair: (Shift, Shift) -> set<Triple>, shifts: seq<Shift>, i: nat, j: nat, t: Triple)
    requires i < |shifts| && j <= |shifts|
    ensures t in RowTriples(pair, shifts, i, j) <==>
            exists q :: i < q < j && t in pair(shifts[i], shifts[q])
    decreases j
  {
    if j > i + 1 {
      RowTriplesMembers(pair, shifts, i, j - 1, t);
    }
  }

  lemma {:induction false} DetectedBeforeMembers(pair: (Shift, Shift) -> set<Triple>, shifts: seq<Shift>, i: nat, t: Triple)
    requires i <= |shifts|
    ensures t in DetectedBefore(pair, shifts, i) <==>
            exists p, q :: 0 <= p < i && p < q < |shifts| && t in pair(shifts[p], shifts[q])
  {
    if i > 0 {
      DetectedBeforeMembers(pair, shifts, i - 1, t);
      RowTriplesMembers(pair, shifts, i - 1, |shifts|, t);
      if t in RowTriples(pair, shifts, i - 1, |shifts|) {
        var q :| i - 1 < q < |shifts| && t in pair(shifts[i - 1], shifts[q]);
        assert 0 <= i - 1 < i && i - 1 < q < |shifts| && t in pair(shifts[i - 1], shifts[q]);
      }
      if exists p, q :: 0 <= p < i && p < q < |shifts| && t in pair(shifts[p], shifts[q]) {
        var p, q :| 0 <= p < i && p < q < |shifts| && t in pair(shifts[p], shifts[q]);
        if p == i - 1 {
          assert t in RowTriples(pair, shifts, i - 1, |shifts|);
        } else {
          assert t in DetectedBefore(pair, shifts, i - 1);
        }
      }
    }
  }

  /** A triple is detected exactly when some pair of positions p < q contributes it. */
  lemma DetectedMembers(shifts: seq<Shift>, t: Triple)
    ensures t in Detected(shifts) <==>
            exists p, q :: 0 <= p < q < |shifts| && t in PairTriples(shifts[p], shifts[q])
  {
    DetectedBeforeMembers(PairTriples, shifts, |shifts|, t);
  }

  /**
   * (x, y, 0) is detected exactly when two shifts at distinct positions share
   * a weekday string and their time ranges overlap, in either order.
   */
  lemma SameDayTriples(shifts: seq<Shift>, x: Id, y: Id)
    ensures (x, y, 0) in Detected(shifts) <==>
            exists p, q :: 0 <= p < q < |shifts| && SameDayOverlap(shifts[p], shifts[q]) &&
                           ((x, y) == (shifts[p].id, shifts[q].id) || (x, y) == (shifts[q].id, shifts[p].id))
  {
    DetectedMembers(shifts, (x, y, 0));
  }

  /** Same-day constraints come in both directions. */
  lemma SameDayTriplesSymmetric(shifts: seq<Shift>, x: Id, y: Id)
    ensures (x, y, 0) in Detected(shifts) ==> (y, x, 0) in Detected(shifts)
  {
    SameDayTriples(shifts, x, y);
    SameDayTriples(shifts, y, x);
  }

  /**
   * (x, y, 1) is detected exactly when, for some pair of positions, the shift
   * with id x spills past midnight into the shift with id y: one direction only.
   */
  lemma CrossDayTriples(shifts: seq<Shift>, x: Id, y: Id)
    ensures (x, y, 1) in Detected(shifts) <==>
            exists p, q :: 0 <= p < q < |shifts| &&
                           ((SpillsInto(shifts[p], shifts[q]) && (x, y) == (shifts[p].id, shifts[q].id)) ||
                            (SpillsInto(shifts[q], shifts[p]) && (x, y) == (shifts[q].id, shifts[p].id)))
  {
    DetectedMembers(shifts, (x, y, 1));
  }

  /** Only the values 0 and 1 are produced, and both pass the attribute validator. */
  lemma DetectedValuesAreValid(shifts: seq<Shift>, t: Triple)
    requires t in Detected(shifts)
    ensures t.2 == 0 || t.2 == 1
    ensures ValidateWithinLastShifts(Some(t.2)).Success?
  {
    DetectedMembers(shifts, t);
  }

  predicate UniqueIds(shifts: seq<Shift>)
  {
    forall p, q :: 0 <= p < q < |shifts| ==> shifts[p].id != shifts[q].id
  }

  /** With distinct primary keys, no shift is ever linked to itself. */
  lemma NoSelfConstraints(shifts: seq<Shift>, t: Triple)
    requires UniqueIds(shifts)
    requires t in Detected(shifts)
    ensures t.0 != t.1
  {
    DetectedMembers(shifts, t);
  }

  /** int() is reached for every weekday of every shift as soon as there is a pair. */
  lemma ParseErrorIff(shifts: seq<Shift>)
    ensures !AllPairsParse(shifts) <==> |shifts| >= 2 && exists k :: 0 <= k < |shifts| && !DaysParse(shifts[k])
  {
    if |shifts| >= 2 && exists k :: 0 <= k < |shifts| && !DaysParse(shifts[k]) {
      var k :| 0 <= k < |shifts| && !DaysParse(shifts[k]);
      if k + 1 < |shifts| {
        assert !PairParses(shifts[k], shifts[k + 1]);
        assert !RowParses(shifts, k);
      } else {
        assert !PairParses(shifts[0], shifts[k]);
        assert !RowParses(shifts, 0);
      }
    }
  }

  // ---------------------------------------------------------------------
  // Detection, as the nested loops of the source
  // ---------------------------------------------------------------------

  /** The two nested weekday loops testing whether a spills into b. */
  method ScanSpill(a: Shift, b: Shift) returns (r: Result<bool, GenerateError>)
    ensures r.Failure? <==> !DaysParse(a) || (|a.days| > 0 && !DaysParse(b))
    ensures r.Success? ==> r.value == SpillsInto(a, b)
  {
    var found := false;
    var i := 0;
    while i < |a.days|
      invariant 0 <= i <= |a.days|
      invariant forall i' :: 0 <= i' < i ==> WeekdayParses(a.days[i'])
      invariant i > 0 ==> DaysParse(b)
      invariant found <==> exists i', j' :: 0 <= i' < i && 0 <= j' < |b.days| && SpillsOn(a, b, a.days[i'], b.days[j'])
    {
      var dayA := ParseInt(a.days[i]);
      if dayA.None? {
        assert !WeekdayParses(a.days[i]);
        return Failure(InvalidWeekday);
      }
      var fromDay := ScanSpillFromDay(a, b, a.days[i], dayA.value);
      if fromDay.Failure? {
        return Failure(fromDay.error);
      }
      found := found || fromDay.value;
      i := i + 1;
    }
    return Success(found);
  }

  /** The inner weekday loop: does a, run on weekday string dayA (read as dayValue), spill into b? */
  method ScanSpillFromDay(a: Shift, b: Shift, dayA: string, dayValue: int) returns (r: Result<bool, GenerateError>)
    requires ParseInt(dayA) == Some(dayValue)
    ensures r.Success? <==> DaysParse(b)
    ensures r.Success? ==> r.value == exists j :: 0 <= j < |b.days| && SpillsOn(a, b, dayA, b.days[j])
  {
    var found := false;
    var j := 0;
    while j < |b.days|
      invariant 0 <= j <= |b.days|
      invariant forall j' :: 0 <= j' < j ==> WeekdayParses(b.days[j'])
      invariant found <==> exists j' :: 0 <= j' < j && SpillsOn(a, b, dayA, b.days[j'])
    {
      var dayB := ParseInt(b.days[j]);
      if dayB.None? {
        assert !WeekdayParses(b.days[j]);
        return Failure(InvalidWeekday);
      }
      var (crosses, overlaps) :=
        CheckCrossDayOverlap(a.secondsSinceMidnight, a.durationSeconds, b.secondsSinceMidnight, dayValue, dayB.value);
      if crosses && overlaps {
        found := true;
      }
      j := j + 1;
    }
    return Success(found);
  }

  /** The body of the pair loop for the pair (a, b). */
  method DetectPair(a: Shift, b: Shift) returns (r: Result<set<Triple>, GenerateError>)
    ensures r.Success? <==> PairParses(a, b)
    ensures r.Success? ==> r.value == PairTriples(a, b)
  {
    var found: set<Triple> := {};
    if SharesDay(a, b) &&
       ShiftsOverlapOnDay(a.secondsSinceMidnight, a.durationSeconds, b.secondsSinceMidnight, b.durationSeconds)
    {
      found := found + {(a.id, b.id, 0), (b.id, a.id, 0)};
    }
    var intoB := ScanSpill(a, b);
    if intoB.Failure? {
      return Failure(intoB.error);
    }
    if intoB.value {
      found := found + {(a.id, b.id, 1)};
    }
    var intoA := ScanSpill(b, a);
    if intoA.Failure? {
      return Failure(intoA.error);
    }
    if intoA.value {
      found := found + {(b.id, a.id, 1)};
    }
    return Success(found);
  }

  /** The inner pair loop: shift i against every later shift j. */
  method DetectRow(shifts: seq<Shift>, i: nat) returns (r: Result<set<Triple>, GenerateError>)
    requires i < |shifts|
    ensures r.Success? <==> RowParses(shifts, i)
    ensures r.Success? ==> r.value == RowTriples(PairTriples, shifts, i, |shifts|)
  {
    var row: set<Triple> := {};
    var j := i + 1;
    while j < |shifts|
      invariant i + 1 <= j <= |shifts|
      invariant row == RowTriples(PairTriples, shifts, i, j)
      invariant forall q :: i < q < j ==> PairParses(shifts[i], shifts[q])
    {
      var extended := ExtendRow(shifts, i, j, row);
      if extended.Failure? {
        RowFails(shifts, i, j);
        return Failure(extended.error);
      }
      row := extended.value;
      j := j + 1;
    }
    return Success(row);
  }

  lemma RowFails(shifts: seq<Shift>, i: nat, j: nat)
    requires i < j < |shifts| && !PairParses(shifts[i], shifts[j])
    ensures !RowParses(shifts, i)
  {
  }

  /** One iteration of the inner pair loop: add what the pair (i, j) contributes. */
  method ExtendRow(shifts: seq<Shift>, i: nat, j: nat, row: set<Triple>) returns (r: Result<set<Triple>, GenerateError>)
    requires i < j < |shifts| && row == RowTriples(PairTriples, shifts, i, j)
    ensures r.Success? <==> PairParses(shifts[i], shifts[j])
    ensures r.Success? ==> r.value == RowTriples(PairTriples, shifts, i, j + 1)
  {
    var pair := DetectPair(shifts[i], shifts[j]);
    if pair.Failure? {
      return Failure(pair.error);
    }
    return Success(row + pair.value);
  }

  /** The outer pair loop over every shift i, pairing it with each later shift. */
  method DetectConstraints(shifts: seq<Shift>) returns (r: Result<set<Triple>, GenerateError>)
    ensures r.Success? <==> AllPairsParse(shifts)
    ensures r.Success? ==> r.value == Detected(shifts)
  {
    var detected: set<Triple> := {};
    var i := 0;
    while i < |shifts|
      invariant 0 <= i <= |shifts|
      invariant detected == DetectedBefore(PairTriples, shifts, i)
      invariant forall p :: 0 <= p < i ==> RowParses(shifts, p)
    {
      var row := DetectRow(shifts, i);
      if row.Failure? {
        return Failure(row.error);
      }
      detected := detected + row.value;
      i := i + 1;
    }
    return Success(detected);
  }

  // ---------------------------------------------------------------------
  // Reconciling the detected triples with the stored constraints
  // ---------------------------------------------------------------------

  datatype Counts = Counts(createdCount: nat, updatedCount: nat, unchangedCount: nat)

  /** The constraint table after reconciling, and the three counters. */
  datatype Reconciled = Reconciled(table: map<Key, int>, counts: Counts)

  /**
   * One iteration of the reconcile loop. Only keys stored before the run
   * count as existing (rows created during the run are not added to the
   * lookup dict); an existing row is updated in place when its value differs.
   */
  function ReconcileStep(existing: map<Key, int>, st: Reconciled, t: Triple): (next: Reconciled)
    requires existing.Keys <= st.table.Keys
  {
    var k := KeyOf(t);
    var c := st.counts;
    if k in existing then
      if st.table[k] != t.2 then Reconciled(st.table[k := t.2], c.(updatedCount := c.updatedCount + 1))
      else Reconciled(st.table, c.(unchangedCount := c.unchangedCount + 1))
    else Reconciled(st.table[k := t.2], c.(createdCount := c.createdCount + 1))
  }

  /** The reconcile loop run over the triples in the given iteration order. */
  function Reconcile(existing: map<Key, int>, order: seq<Triple>): (r: Reconciled)
    ensures existing.Keys <= r.table.Keys
    decreases |order|
  {
    if order == [] then Reconciled(existing, Counts(0, 0, 0))
    else ReconcileStep(existing, Reconcile(existing, order[..|order| - 1]), order[|order| - 1])
  }

  function KeysOf(order: seq<Triple>): (keys: set<Key>)
  {
    set t | t in order :: KeyOf(t)
  }

  /** How a detected triple relates to the stored table before the run. */
  datatype Disposition = NoStoredRow | StoredDiffers | StoredMatches

  function DispositionOf(existing: map<Key, int>, t: Triple): (d: Disposition)
  {
    if KeyOf(t) !in existing then NoStoredRow
    else if existing[KeyOf(t)] != t.2 then StoredDiffers
    else StoredMatches
  }

  /** Number of triples of order with the given disposition. */
  function CountWhere(existing: map<Key, int>, order: seq<Triple>, d: Disposition): (count: nat)
    decreases |order|
  {
    if order == [] then 0
    else CountWhere(existing, order[..|order| - 1], d) + (if DispositionOf(existing, order[|order| - 1]) == d then 1 else 0)
  }

  /** The value of the last triple in order whose key is k. */
  function LastValueFor(order: seq<Triple>, k: Key): (w: int)
    requires k in KeysOf(order)
    decreases |order|
  {
    var last := order[|order| - 1];
    if KeyOf(last) == k then last.2
    else
      assert k in KeysOf(order[..|order| - 1]) by {
        var t :| t in order && KeyOf(t) == k;
        var i :| 0 <= i < |order| && order[i] == t;
        assert i < |order| - 1 && order[..|order| - 1][i] == t;
      }
      LastValueFor(order[..|order| - 1], k)
  }

  /** The last value recorded for a key is the value of one of the triples with that key. */
  lemma {:induction false} LastValueIsDetected(order: seq<Triple>, k: Key)
    requires k in KeysOf(order)
    ensures exists i :: 0 <= i < |order| && KeyOf(order[i]) == k && order[i].2 == LastValueFor(order, k)
    decreases |order|
  {
    var last := order[|order| - 1];
    if KeyOf(last) != k {
      var init := order[..|order| - 1];
      KeysOfSnoc(order);
      LastValueIsDetected(init, k);
      var i :| 0 <= i < |init| && KeyOf(init[i]) == k && init[i].2 == LastValueFor(init, k);
      assert order[i] == init[i];
    }
  }

  predicate Distinct(order: seq<Triple>)
  {
    forall i, j :: 0 <= i < j < |order| ==> order[i] != order[j]
  }

  predicate DistinctKeys(order: seq<Triple>)
  {
    forall i, j :: 0 <= i < j < |order| ==> KeyOf(order[i]) != KeyOf(order[j])
  }

  lemma KeysOfSnoc(order: seq<Triple>)
    requires order != []
    ensures KeysOf(order) == KeysOf(order[..|order| - 1]) + {KeyOf(order[|order| - 1])}
  {
    assert order == order[..|order| - 1] + [order[|order| - 1]];
  }

  /**
   * Every triple is counted exactly once, and the created count is precisely the
   * triples whose key had no stored constraint.
   */
  lemma {:induction false} ReconcileCounts(existing: map<Key, int>, order: seq<Triple>)
    ensures var c := Reconcile(existing, order).counts;
            c.createdCount + c.updatedCount + c.unchangedCount == |order| &&
            c.createdCount == CountWhere(existing, order, NoStoredRow)
    decreases |order|
  {
    if order != [] {
      ReconcileCounts(existing, order[..|order| - 1]);
    }
  }

  /**
   * The resulting table holds the stored keys and the detected keys; a stored
   * constraint whose key was not detected keeps its value; a detected key ends
   * with the value of the last triple processed for it.
   */
  lemma {:induction false} ReconcileTable(existing: map<Key, int>, order: seq<Triple>)
    ensures var r := Reconcile(existing, order);
            r.table.Keys == existing.Keys + KeysOf(order) &&
            (forall k :: k in existing && k !in KeysOf(order) ==> r.table[k] == existing[k]) &&
            (forall k :: k in KeysOf(order) ==> r.table[k] == LastValueFor(order, k))
    decreases |order|
  {
    if order != [] {
      var init := order[..|order| - 1];
      ReconcileTable(existing, init);
      KeysOfSnoc(order);
    }
  }

  /**
   * With one triple per key, each detected key ends with its detected value,
   * and the updated/unchanged split is decided by the stored value.
   */
  lemma {:induction false} ReconcileDistinctKeys(existing: map<Key, int>, order: seq<Triple>)
    requires DistinctKeys(order)
    ensures var r := Reconcile(existing, order);
            r.counts.updatedCount == CountWhere(existing, order, StoredDiffers) &&
            r.counts.unchangedCount == CountWhere(existing, order, StoredMatches) &&
            (forall i :: 0 <= i < |order| ==> KeyOf(order[i]) in r.table && r.table[KeyOf(order[i])] == order[i].2)
    decreases |order|
  {
    if order != [] {
      var init := order[..|order| - 1];
      var last := order[|order| - 1];
      LastKeyIsNew(order);
      ReconcileDistinctKeys(existing, init);
      assert order == init + [last];
      FreshKeyStep(existing, init, last);
      var r := Reconcile(existing, order);
      forall i | 0 <= i < |order|
        ensures KeyOf(order[i]) in r.table && r.table[KeyOf(order[i])] == order[i].2
      {
        if i < |init| {
          assert order[i] == init[i];
        }
      }
    }
  }

  /** With distinct keys, the last triple's key is not among the earlier ones. */
  lemma LastKeyIsNew(order: seq<Triple>)
    requires DistinctKeys(order) && order != []
    ensures DistinctKeys(order[..|order| - 1])
    ensures KeyOf(order[|order| - 1]) !in KeysOf(order[..|order| - 1])
  {
    var init := order[..|order| - 1];
    forall i | 0 <= i < |init|
      ensures KeyOf(init[i]) != KeyOf(order[|order| - 1])
    {
      assert init[i] == order[i];
    }
  }

  /** Reconciling a triple whose key was not detected before: its key takes its value, one counter moves. */
  lemma FreshKeyStep(existing: map<Key, int>, init: seq<Triple>, last: Triple)
    requires KeyOf(last) !in KeysOf(init)
    ensures var before := Reconcile(existing, init);
            var after := Reconcile(existing, init + [last]);
            && after.table == before.table[KeyOf(last) := last.2]
            && after.counts.updatedCount ==
               before.counts.updatedCount + (if DispositionOf(existing, last) == StoredDiffers then 1 else 0)
            && after.counts.unchangedCount ==
               before.counts.unchangedCount + (if DispositionOf(existing, last) == StoredMatches then 1 else 0)
            && after.counts.createdCount ==
               before.counts.createdCount + (if DispositionOf(existing, last) == NoStoredRow then 1 else 0)
  {
    ReconcileTable(existing, init);
    assert (init + [last])[..|init|] == init;
  }

  /** A table that already holds every triple's value reconciles with nothing to do. */
  lemma {:induction false} ReconcileNothingToDo(existing: map<Key, int>, order: seq<Triple>)
    requires forall i :: 0 <= i < |order| ==> KeyOf(order[i]) in existing && existing[KeyOf(order[i])] == order[i].2
    ensures Reconcile(existing, order) == Reconciled(existing, Counts(0, 0, |order|))
    decreases |order|
  {
    if order != [] {
      ReconcileNothingToDo(existing, order[..|order| - 1]);
    }
  }

  /**
   * Running generation a second time over the same detections creates and
   * updates nothing and leaves the table as it was.
   */
  lemma ReconcileIdempotent(existing: map<Key, int>, order: seq<Triple>)
    requires DistinctKeys(order)
    ensures var once := Reconcile(existing, order).table;
            Reconcile(once, order) == Reconciled(once, Counts(0, 0, |order|))
  {
    ReconcileDistinctKeys(existing, order);
    ReconcileTable(existing, order);
    var once := Reconcile(existing, order).table;
    forall i | 0 <= i < |order|
      ensures KeyOf(order[i]) in once && once[KeyOf(order[i])] == order[i].2
    {
      assert KeyOf(order[i]) in KeysOf(order);
    }
    ReconcileNothingToDo(once, order);
  }

  /**
   * A pair that both overlaps on a day and spills into the next one is
   * detected as (x, y, 0) and (x, y, 1): one stored key with two windows a
   * and b, walked in either order (a and b are arbitrary). The first run
   * leaves the window of the triple walked last; a second run that walks the
   * two triples in the same order rewrites the row twice and counts nothing
   * unchanged.
   */
  lemma RepeatedKeyNeverSettles(existing: map<Key, int>, k: Key, a: int, b: int)
    requires k in existing && a != b
    ensures var order := [(k.0, k.1, a), (k.0, k.1, b)];
            var first := Reconcile(existing, order);
            && first.table == existing[k := b]
            && first.counts == (if existing[k] == a then Counts(0, 1, 1) else Counts(0, 2, 0))
            && Reconcile(first.table, order).counts == Counts(0, 2, 0)
  {
    var order: seq<Triple> := [(k.0, k.1, a), (k.0, k.1, b)];
    assert order[..1] == [(k.0, k.1, a)];
    assert order[..1][..0] == [];
    assert Reconcile(existing, order[..1][..0]) == Reconciled(existing, Counts(0, 0, 0));
    var half := Reconcile(existing, order[..1]);
    assert half == ReconcileStep(existing, Reconciled(existing, Counts(0, 0, 0)), order[0]);
    assert half.table == existing[k := a];
    assert Reconcile(existing, order) == ReconcileStep(existing, half, order[1]);
    var once := existing[k := b];
    assert Reconcile(existing, order).table == once;
    assert Reconcile(once, order[..1][..0]) == Reconciled(once, Counts(0, 0, 0));
    var again := Reconcile(once, order[..1]);
    assert again == ReconcileStep(once, Reconciled(once, Counts(0, 0, 0)), order[0]);
    assert again == Reconciled(once[k := a], Counts(0, 1, 0));
    assert Reconcile(once, order) == ReconcileStep(once, again, order[1]);
  }

  /** Both triples of that pair are detected from two concrete shifts. */
  lemma RepeatedKeyIsDetected()
    ensures var shifts := [Shift(1, 72000, 28800, ["1"], ""), Shift(2, 3600, 72000, ["1", "2"], "")];
            (1, 2, 0) in Detected(shifts) && (1, 2, 1) in Detected(shifts)
  {
    var shifts := [Shift(1, 72000, 28800, ["1"], ""), Shift(2, 3600, 72000, ["1", "2"], "")];
    assert RunsOn(shifts[1], shifts[0].days[0]);
    assert SameDayOverlap(shifts[0], shifts[1]);
    assert ParseInt("1") == Some(1) && ParseInt("2") == Some(2);
    assert SpillsOn(shifts[0], shifts[1], shifts[0].days[0], shifts[1].days[1]);
    assert SpillsInto(shifts[0], shifts[1]);
    SameDayTriples(shifts, 1, 2);
    CrossDayTriples(shifts, 1, 2);
  }

  /** For a duplicate-free order, counting equals the size of the filtered set. */
  lemma {:induction false} CountWhereIsCard(existing: map<Key, int>, order: seq<Triple>, d: Disposition)
    requires Distinct(order)
    ensures CountWhere(existing, order, d) == |set t | t in order && DispositionOf(existing, t) == d|
    decreases |order|
  {
    if order != [] {
      var init := order[..|order| - 1];
      var last := order[|order| - 1];
      assert Distinct(init);
      CountWhereIsCard(existing, init, d);
      forall i | 0 <= i < |init|
        ensures init[i] != last
      {
        assert init[i] == order[i];
      }
      assert order == init + [last];
      FilterSnoc(existing, init, last, d);
    }
  }

  /** Appending a triple not yet present adds one to the filtered set exactly when it matches. */
  lemma FilterSnoc(existing: map<Key, int>, init: seq<Triple>, last: Triple, d: Disposition)
    requires last !in init
    ensures |set t | t in init + [last] && DispositionOf(existing, t) == d| ==
            |set t | t in init && DispositionOf(existing, t) == d| + (if DispositionOf(existing, last) == d then 1 else 0)
  {
    var before := set t | t in init && DispositionOf(existing, t) == d;
    var after := set t | t in init + [last] && DispositionOf(existing, t) == d;
    if DispositionOf(existing, last) == d {
      assert after == before + {last};
    } else {
      assert after == before;
    }
  }

  // ---------------------------------------------------------------------
  // The imperative steps of generation
  // ---------------------------------------------------------------------

  /**
   * Python iterates the detected set in an order of its own choosing; any
   * duplicate-free enumeration of the set may be taken.
   */
  method IterationOrder(detected: set<Triple>) returns (order: seq<Triple>)
    ensures |order| == |detected|
    ensures forall t :: t in order <==> t in detected
    ensures Distinct(order)
  {
    order := [];
    var rest := detected;
    while rest != {}
      invariant rest <= detected
      invariant forall t :: t in order <==> t in detected && t !in rest
      invariant Distinct(order)
      invariant |order| + |rest| == |detected|
      decreases |rest|
    {
      var t :| t in rest;
      order := order + [t];
      rest := rest - {t};
    }
  }

  /** The reconcile loop: create, update in place, or count as unchanged. */
  method ApplyDetected(existing: map<Key, int>, order: seq<Triple>) returns (table: map<Key, int>, counts: Counts)
    ensures Reconciled(table, counts) == Reconcile(existing, order)
  {
    table := existing;
    var createdCount, updatedCount, unchangedCount := 0, 0, 0;
    var i := 0;
    while i < |order|
      invariant 0 <= i <= |order|
      invariant Reconciled(table, Counts(createdCount, updatedCount, unchangedCount)) == Reconcile(existing, order[..i])
    {
      assert order[..i + 1][..i] == order[..i];
      var (shiftId, linkedShiftId, withinLast) := order[i];
      var key := (shiftId, linkedShiftId);
      if key in existing {
        if table[key] != withinLast {
          table := table[key := withinLast];
          updatedCount := updatedCount + 1;
        } else {
          unchangedCount := unchangedCount + 1;
        }
      } else {
        table := table[key := withinLast];
        createdCount := createdCount + 1;
      }
      i := i + 1;
    }
    assert order[..|order|] == order;
    counts := Counts(createdCount, updatedCount, unchangedCount);
  }

  /** The keys of a set of triples. */
  function DetectedKeys(detected: set<Triple>): (keys: set<Key>)
  {
    set t | t in detected :: KeyOf(t)
  }

  /** No key is detected with two different values. */
  predicate UniqueKeys(detected: set<Triple>)
  {
    forall t1, t2 :: t1 in detected && t2 in detected && KeyOf(t1) == KeyOf(t2) ==> t1 == t2
  }

  /**
   * The whole generator: detect over all pairs, then reconcile in Python's
   * set-iteration order (any order). Stored constraints whose key is not
   * detected are never touched; nothing is deleted.
   */
  method GenerateFromOverlaps(shifts: seq<Shift>, existing: map<Key, int>) returns (r: Result<Reconciled, GenerateError>)
    ensures r.Failure? <==> |shifts| >= 2 && exists k :: 0 <= k < |shifts| && !DaysParse(shifts[k])
    ensures r.Success? ==>
      var detected := Detected(shifts);
      var c := r.value.counts;
      var table := r.value.table;
      && c.createdCount + c.updatedCount + c.unchangedCount == |detected|
      && c.createdCount == |set t | t in detected && KeyOf(t) !in existing|
      && c.updatedCount + c.unchangedCount == |set t | t in detected && KeyOf(t) in existing|
      && table.Keys == existing.Keys + DetectedKeys(detected)
      && (forall k :: k in existing && k !in DetectedKeys(detected) ==> table[k] == existing[k])
      && (forall k :: k in DetectedKeys(detected) ==> exists t :: t in detected && KeyOf(t) == k && table[k] == t.2)
    ensures r.Success? && UniqueKeys(Detected(shifts)) ==>
      var detected := Detected(shifts);
      var c := r.value.counts;
      && (forall t :: t in detected ==> KeyOf(t) in r.value.table && r.value.table[KeyOf(t)] == t.2)
      && c.updatedCount == |set t | t in detected && KeyOf(t) in existing && existing[KeyOf(t)] != t.2|
      && c.unchangedCount == |set t | t in detected && KeyOf(t) in existing && existing[KeyOf(t)] == t.2|
  {
    var found := DetectConstraints(shifts);
    ParseErrorIff(shifts);
    if found.Failure? {
      return Failure(found.error);
    }
    var detected := found.value;
    var order := IterationOrder(detected);
    var table, counts := ApplyDetected(existing, order);
    ReconcileCountFacts(existing, detected, order);
    ReconcileTableFacts(existing, detected, order);
    if UniqueKeys(detected) {
      ReconcileUniqueFacts(existing, detected, order);
    }
    return Success(Reconciled(table, counts));
  }

  /** The set-level reading of the counting lemma, for an enumeration of the detected set. */
  lemma ReconcileCountFacts(existing: map<Key, int>, detected: set<Triple>, order: seq<Triple>)
    requires |order| == |detected| && Distinct(order)
    requires forall t :: t in order <==> t in detected
    ensures var c := Reconcile(existing, order).counts;
      && c.createdCount + c.updatedCount + c.unchangedCount == |detected|
      && c.createdCount == |set t | t in detected && KeyOf(t) !in existing|
      && c.updatedCount + c.unchangedCount == |set t | t in detected && KeyOf(t) in existing|
  {
    ReconcileCounts(existing, order);
    CountWhereIsCard(existing, order, NoStoredRow);
    NewRowsAreUnstored(existing, detected, order);
    SplitByStored(existing, detected);
  }

  lemma NewRowsAreUnstored(existing: map<Key, int>, detected: set<Triple>, order: seq<Triple>)
    requires forall t :: t in order <==> t in detected
    ensures (set t | t in order && DispositionOf(existing, t) == NoStoredRow) ==
            (set t | t in detected && KeyOf(t) !in existing)
  {
  }

  /** Every detected triple either has a stored row for its key or has not. */
  lemma SplitByStored(existing: map<Key, int>, detected: set<Triple>)
    ensures |detected| == |set t | t in detected && KeyOf(t) !in existing| +
                          |set t | t in detected && KeyOf(t) in existing|
  {
    var created := set t | t in detected && KeyOf(t) !in existing;
    var stored := set t | t in detected && KeyOf(t) in existing;
    assert detected == created + stored;
    assert created !! stored;
  }

  /** The set-level reading of the table lemma, for an enumeration of the detected set. */
  lemma ReconcileTableFacts(existing: map<Key, int>, detected: set<Triple>, order: seq<Triple>)
    requires forall t :: t in order <==> t in detected
    ensures var table := Reconcile(existing, order).table;
      && table.Keys == existing.Keys + DetectedKeys(detected)
      && (forall k :: k in existing && k !in DetectedKeys(detected) ==> table[k] == existing[k])
      && (forall k :: k in DetectedKeys(detected) ==> exists t :: t in detected && KeyOf(t) == k && table[k] == t.2)
  {
    var table := Reconcile(existing, order).table;
    ReconcileTable(existing, order);
    assert KeysOf(order) == DetectedKeys(detected);
    forall k | k in DetectedKeys(detected)
      ensures exists t :: t in detected && KeyOf(t) == k && table[k] == t.2
    {
      LastValueIsDetected(order, k);
      var i :| 0 <= i < |order| && KeyOf(order[i]) == k && order[i].2 == LastValueFor(order, k);
      assert order[i] in detected;
    }
  }

  /** With one value per detected key the outcome no longer depends on the order. */
  lemma ReconcileUniqueFacts(existing: map<Key, int>, detected: set<Triple>, order: seq<Triple>)
    requires |order| == |detected| && Distinct(order)
    requires forall t :: t in order <==> t in detected
    requires UniqueKeys(detected)
    ensures var r := Reconcile(existing, order);
      && (forall t :: t in detected ==> KeyOf(t) in r.table && r.table[KeyOf(t)] == t.2)
      && r.counts.updatedCount == |set t | t in detected && KeyOf(t) in existing && existing[KeyOf(t)] != t.2|
      && r.counts.unchangedCount == |set t | t in detected && KeyOf(t) in existing && existing[KeyOf(t)] == t.2|
  {
    var r := Reconcile(existing, order);
    UniqueKeysAreDistinct(detected, order);
    ReconcileDistinctKeys(existing, order);
    CountWhereIsCard(existing, order, StoredDiffers);
    CountWhereIsCard(existing, order, StoredMatches);
    StoredRowsByDisposition(existing, detected, order);
    forall t | t in detected
      ensures KeyOf(t) in r.table && r.table[KeyOf(t)] == t.2
    {
      var i :| 0 <= i < |order| && order[i] == t;
    }
  }

  lemma UniqueKeysAreDistinct(detected: set<Triple>, order: seq<Triple>)
    requires forall t :: t in order <==> t in detected
    requires Distinct(order) && UniqueKeys(detected)
    ensures DistinctKeys(order)
  {
    forall i, j | 0 <= i < j < |order|
      ensures KeyOf(order[i]) != KeyOf(order[j])
    {
      assert order[i] in detected && order[j] in detected;
    }
  }

  lemma StoredRowsByDisposition(existing: map<Key, int>, detected: set<Triple>, order: seq<Triple>)
    requires forall t :: t in order <==> t in detected
    ensures (set t | t in order && DispositionOf(existing, t) == StoredDiffers) ==
            (set t | t in detected && KeyOf(t) in existing && existing[KeyOf(t)] != t.2)
    ensures (set t | t in order && DispositionOf(existing, t) == StoredMatches) ==
            (set t | t in detected && KeyOf(t) in existing && existing[KeyOf(t)] == t.2)
  {
  }
}
