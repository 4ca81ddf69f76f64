/**
 * The shift-constraint record and the two time-range tests that the
 * constraint generator is built on.
 */
module ShiftConstraints {
  import opened Wrappers
  import opened Shifts

  /**
   * A constraint between a shift and a linked shift. For w > 0 the scheduler
   * forbids a member working the linked shift 1..w days after working the
   * shift; w = 0 is meant to forbid both on one day, but the scheduler adds
   * no exclusion for it (see Scheduling.SameDayLinkIgnored).
   */
  datatype ShiftConstraint = ShiftConstraint(shiftId: Id, linkedShiftId: Id, withinLastShifts: int)

  const DefaultWithinLastShifts: int := 1

  datatype ConstraintError = WithinLastShiftsMustBeNonNegative

  /**
   * The attribute validator: a missing value (None) or a negative one is
   * refused, zero and every positive value are accepted.
   */
  function ValidateWithinLastShifts(withinLastShifts: Option<int>): (r: Result<(), ConstraintError>)
    ensures r.Success? <==> withinLastShifts.Some? && withinLastShifts.value >= 0
  {
    if withinLastShifts.None? || withinLastShifts.value < 0 then Failure(WithinLastShiftsMustBeNonNegative)
    else Success(())
  }

  /** Builds a constraint, with `withinLastShifts` defaulting to 1; validation may refuse it. */
  function NewShiftConstraint(shiftId: Id, linkedShiftId: Id, withinLastShifts: Option<int>):
    (r: Result<ShiftConstraint, ConstraintError>)
    ensures r.Success? <==> Given(withinLastShifts, DefaultWithinLastShifts) >= 0
    ensures r.Success? ==> r.value.withinLastShifts == Given(withinLastShifts, 1) &&
                           r.value.shiftId == shiftId && r.value.linkedShiftId == linkedShiftId
  {
    var w := Given(withinLastShifts, DefaultWithinLastShifts);
    match ValidateWithinLastShifts(Some(w))
    case Failure(e) => Failure(e)
    case Success(_) => Success(ShiftConstraint(shiftId, linkedShiftId, w))
  }

  /** The validator's boundary cases: None and -1 are refused, 0 and the default 1 are accepted. */
  lemma ValidatorBoundaries()
    ensures ValidateWithinLastShifts(None).Failure?
    ensures ValidateWithinLastShifts(Some(-1)).Failure?
    ensures ValidateWithinLastShifts(Some(0)).Success?
    ensures NewShiftConstraint(0, 1, None) == Success(ShiftConstraint(0, 1, 1))
  {
  }

  // ---------------------------------------------------------------------
  // Same-day overlap
  // ---------------------------------------------------------------------

  function Max(a: int, b: int): (m: int) { if a >= b then a else b }
  function Min(a: int, b: int): (m: int) { if a <= b then a else b }

  /** Do the ranges [startA, startA + durationA) and [startB, startB + durationB) overlap? */
  function ShiftsOverlapOnDay(startA: int, durationA: int, startB: int, durationB: int): (overlaps: bool)
  {
    var endA := startA + durationA;
    var endB := startB + durationB;
    Max(startA, startB) < Min(endA, endB)
  }

  /** Second t lies in the half-open range [start, start + duration). */
  predicate Covers(start: int, duration: int, t: int)
  {
    start <= t < start + duration
  }

  /**
   * The overlap test holds exactly when some second lies in both half-open
   * ranges; for positive durations, exactly when each range starts before
   * the other one ends.
   */
  lemma OverlapIffCommonSecond(startA: int, durationA: int, startB: int, durationB: int)
    ensures ShiftsOverlapOnDay(startA, durationA, startB, durationB) <==>
            (exists t :: Covers(startA, durationA, t) && Covers(startB, durationB, t))
    ensures durationA > 0 && durationB > 0 ==>
            (ShiftsOverlapOnDay(startA, durationA, startB, durationB) <==>
             startA < startB + durationB && startB < startA + durationA)
  {
    if ShiftsOverlapOnDay(startA, durationA, startB, durationB) {
      var t := Max(startA, startB);
      assert Covers(startA, durationA, t) && Covers(startB, durationB, t);
    }
    forall t | Covers(startA, durationA, t) && Covers(startB, durationB, t)
      ensures ShiftsOverlapOnDay(startA, durationA, startB, durationB)
    {
      assert Max(startA, startB) <= t < Min(startA + durationA, startB + durationB);
    }
  }

  /** Swapping the two shifts does not change the answer. */
  lemma OverlapSymmetric(startA: int, durationA: int, startB: int, durationB: int)
    ensures ShiftsOverlapOnDay(startA, durationA, startB, durationB) ==
            ShiftsOverlapOnDay(startB, durationB, startA, durationA)
  {
  }

  /** A shift that ends exactly when the other starts does not overlap it. */
  lemma TouchingShiftsDoNotOverlap(startA: int, durationA: int, durationB: int)
    ensures !ShiftsOverlapOnDay(startA, durationA, startA + durationA, durationB)
  {
  }

  // ---------------------------------------------------------------------
  // Cross-midnight overlap
  // ---------------------------------------------------------------------

  /** The weekday after `day`, with Saturday (6) followed by Sunday (0). */
  function NextWeekday(day: int): (r: int)
    ensures 0 <= r < 7
  {
    (day + 1) % 7
  }

  /**
   * (crossesMidnight, overlapsNextDayShift): does shift A, on weekday dayA,
   * run past midnight, and does its spill-over reach the start of shift B,
   * which runs on weekday dayB?
   */
  function CheckCrossDayOverlap(startA: int, durationA: int, startB: int, dayA: int, dayB: int): (r: (bool, bool))
  {
    var endA := startA + durationA;
    var crossesMidnight := endA > SecondsPerDay;
    if !crossesMidnight then (false, false)
    else if dayB != NextWeekday(dayA) then (true, false)
    else
      var spilloverEnd := endA - SecondsPerDay;
      (true, startB < spilloverEnd)
  }

  /**
   * The full case analysis: a shift ending by midnight gives (false, false);
   * a crossing shift gives (true, false) unless B runs on the next weekday;
   * the second component implies the first, and when it can be true it is
   * "B starts before the spill-over ends".
   */
  lemma CrossDayCases(startA: int, durationA: int, startB: int, dayA: int, dayB: int)
    ensures startA + durationA <= SecondsPerDay ==>
            CheckCrossDayOverlap(startA, durationA, startB, dayA, dayB) == (false, false)
    ensures startA + durationA > SecondsPerDay && dayB != (dayA + 1) % 7 ==>
            CheckCrossDayOverlap(startA, durationA, startB, dayA, dayB) == (true, false)
    ensures CheckCrossDayOverlap(startA, durationA, startB, dayA, dayB).1 ==>
            CheckCrossDayOverlap(startA, durationA, startB, dayA, dayB).0
    ensures startA + durationA > SecondsPerDay && dayB == (dayA + 1) % 7 ==>
            CheckCrossDayOverlap(startA, durationA, startB, dayA, dayB) ==
            (true, startB < startA + durationA - SecondsPerDay)
  {
  }

  /** Saturday wraps to Sunday: a Saturday night shift reaches into a Sunday shift. */
  lemma SaturdayIsFollowedBySunday(startA: int, durationA: int, startB: int)
    requires startA + durationA > SecondsPerDay
    ensures CheckCrossDayOverlap(startA, durationA, startB, 6, 0) ==
            (true, startB < startA + durationA - SecondsPerDay)
    ensures CheckCrossDayOverlap(startA, durationA, startB, 6, 6) == (true, false)
  {
  }

  /**
   * For a valid next-day shift B (non-negative start, positive duration), the
   * cross-day verdict is the same-day overlap test between A's spill-over
   * range [0, endA - 86400) and B's own range.
   */
  lemma SpillOverIsSameDayOverlap(startA: int, durationA: int, startB: int, durationB: int, dayA: int)
    requires startA + durationA > SecondsPerDay
    requires startB >= 0 && durationB > 0
    ensures CheckCrossDayOverlap(startA, durationA, startB, dayA, NextWeekday(dayA)).1 ==
            ShiftsOverlapOnDay(0, startA + durationA - SecondsPerDay, startB, durationB)
  {
    OverlapIffCommonSecond(0, startA + durationA - SecondsPerDay, startB, durationB);
  }
}
