/**
 * The rules the scheduler hands to its constraint solver, stated as a
 * checker over a finished assignment table x[n][d][s] ("member n works
 * shift s on day d"), together with the per-member counts, the fairness
 * penalty and the statistics the scheduler derives from that table.
 * Members and shifts are identified by their position (the keys that
 * enumerate() gives them); the solver itself is not modelled.
 */
module Scheduling {
  import opened Wrappers
  import opened Shifts
  import opened ShiftConstraints

  /** x[n][d][s]: member n works shift s on day d. */
  type Table = seq<seq<seq<bool>>>

  /** Every member has a row per day and every day a cell per shift. */
  predicate Shaped(x: Table, numDays: nat, numShifts: nat)
  {
    forall n :: 0 <= n < |x| ==>
      |x[n]| == numDays && forall d :: 0 <= d < numDays ==> |x[n][d]| == numShifts
  }

  // ---------------------------------------------------------------------
  // Looking up a shift key by id
  // ---------------------------------------------------------------------

  datatype LookupError = NoSuchObject

  /** The dict built by enumerate() over objects with these ids, in iteration order. */
  function EnumerateIds(ids: seq<Id>): (items: seq<(nat, Id)>)
  {
    seq(|ids|, i requires 0 <= i < |ids| => (i, ids[i]))
  }

  /** The key of the first item, in iteration order, whose object has id objId. */
  function KeyFor(items: seq<(nat, Id)>, objId: Id): (k: Option<nat>)
  {
    if items == [] then None
    else if items[0].1 == objId then Some(items[0].0)
    else KeyFor(items[1..], objId)
  }

  /** KeyFor finds the first matching item, and finds nothing only when no item matches. */
  lemma {:induction false} KeyForIsFirstMatch(items: seq<(nat, Id)>, objId: Id)
    ensures KeyFor(items, objId).None? <==> forall i :: 0 <= i < |items| ==> items[i].1 != objId
    ensures KeyFor(items, objId).Some? ==>
            exists i :: 0 <= i < |items| && items[i] == (KeyFor(items, objId).value, objId) &&
                        forall j :: 0 <= j < i ==> items[j].1 != objId
  {
    if items != [] && items[0].1 != objId {
      KeyForIsFirstMatch(items[1..], objId);
      if KeyFor(items, objId).Some? {
        var i :| 0 <= i < |items[1..]| && items[1..][i] == (KeyFor(items, objId).value, objId) &&
                 forall j :: 0 <= j < i ==> items[1..][j].1 != objId;
        assert items[i + 1] == items[1..][i];
        assert forall j :: 0 < j < i + 1 ==> items[j] == items[1..][j - 1];
      }
      assert forall i :: 0 < i < |items| ==> items[i] == items[1..][i - 1];
    }
  }

  /** In an enumerated dict the key found for shifts[k]'s id is a valid position holding that id. */
  lemma KeyForEnumerated(ids: seq<Id>, objId: Id)
    ensures KeyFor(EnumerateIds(ids), objId).None? <==> objId !in ids
    ensures KeyFor(EnumerateIds(ids), objId).Some? ==>
            var k := KeyFor(EnumerateIds(ids), objId).value;
            k < |ids| && ids[k] == objId && objId !in ids[..k]
  {
    var items := EnumerateIds(ids);
    KeyForIsFirstMatch(items, objId);
    if KeyFor(items, objId).None? {
      assert forall i :: 0 <= i < |ids| ==> ids[i] == items[i].1;
    } else {
      var i :| 0 <= i < |items| && items[i] == (KeyFor(items, objId).value, objId) &&
               forall j :: 0 <= j < i ==> items[j].1 != objId;
      assert forall j :: 0 <= j < i ==> ids[..i][j] == items[j].1;
    }
  }

  /**
   * A linear search with early return over the dict's items: the first key
   * whose object carries objId, or the "No such object" error.
   */
  method FindKeyInDict(objId: Id, items: seq<(nat, Id)>) returns (r: Result<nat, LookupError>)
    ensures r.Failure? <==> forall i :: 0 <= i < |items| ==> items[i].1 != objId
    ensures r.Success? ==>
            exists i :: 0 <= i < |items| && items[i] == (r.value, objId) &&
                        forall j :: 0 <= j < i ==> items[j].1 != objId
    ensures r.Success? <==> KeyFor(items, objId).Some?
    ensures r.Success? ==> r.value == KeyFor(items, objId).value
  {
    KeyForIsFirstMatch(items, objId);
    var i := 0;
    while i < |items|
      invariant 0 <= i <= |items|
      invariant forall j :: 0 <= j < i ==> items[j].1 != objId
    {
      var (k, id) := items[i];
      if id == objId {
        FirstMatchIsKeyFor(items, objId, i);
        return Success(k);
      }
      i := i + 1;
    }
    return Failure(NoSuchObject);
  }

  lemma {:induction false} FirstMatchIsKeyFor(items: seq<(nat, Id)>, objId: Id, i: nat)
    requires i < |items| && items[i].1 == objId
    requires forall j :: 0 <= j < i ==> items[j].1 != objId
    ensures KeyFor(items, objId) == Some(items[i].0)
  {
    if i > 0 {
      assert items[0].1 != objId;
      FirstMatchIsKeyFor(items[1..], objId, i - 1);
    }
  }

  // ---------------------------------------------------------------------
  // Constraints resolved to shift keys
  // ---------------------------------------------------------------------

  /** A constraint whose shift ids have been turned into shift keys. */
  datatype Link = Link(from: nat, to: nat, within: int)

  function ResolveLink(items: seq<(nat, Id)>, c: ShiftConstraint): (l: Option<Link>)
  {
    match (KeyFor(items, c.shiftId), KeyFor(items, c.linkedShiftId))
    case (Some(f), Some(t)) => Some(Link(f, t, c.withinLastShifts))
    case _ => None
  }

  /** Looks both ids of every constraint up; the first failed lookup is the error. */
  method ResolveConstraints(constraints: seq<ShiftConstraint>, items: seq<(nat, Id)>)
    returns (r: Result<seq<Link>, LookupError>)
    ensures r.Failure? <==> exists i :: 0 <= i < |constraints| && ResolveLink(items, constraints[i]).None?
    ensures r.Success? ==> |r.value| == |constraints|
    ensures r.Success? ==>
            forall i :: 0 <= i < |constraints| ==> ResolveLink(items, constraints[i]) == Some(r.value[i])
  {
    var links: seq<Link> := [];
    var i := 0;
    while i < |constraints|
      invariant 0 <= i <= |constraints|
      invariant |links| == i
      invariant forall j :: 0 <= j < i ==> ResolveLink(items, constraints[j]) == Some(links[j])
    {
      var from := FindKeyInDict(constraints[i].shiftId, items);
      if from.Failure? {
        return Failure(from.error);
      }
      var to := FindKeyInDict(constraints[i].linkedShiftId, items);
      if to.Failure? {
        return Failure(to.error);
      }
      links := links + [Link(from.value, to.value, constraints[i].withinLastShifts)];
      i := i + 1;
    }
    return Success(links);
  }

  // ---------------------------------------------------------------------
  // The hard rules
  // ---------------------------------------------------------------------

  /** Number of members n < m working shift s on day d. */
  function Headcount(x: Table, numDays: nat, numShifts: nat, d: nat, s: nat, m: nat): (c: nat)
    requires Shaped(x, numDays, numShifts) && d < numDays && s < numShifts && m <= |x|
    ensures c <= m
    decreases m
  {
    if m == 0 then 0 else Headcount(x, numDays, numShifts, d, s, m - 1) + (if x[m - 1][d][s] then 1 else 0)
  }

  /** Shift s on day d has exactly the required number of members. */
  predicate Staffed(x: Table, numDays: nat, requirements: seq<int>, d: nat, s: nat)
    requires Shaped(x, numDays, |requirements|) && d < numDays && s < |requirements|
  {
    Headcount(x, numDays, |requirements|, d, s, |x|) == requirements[s]
  }

  /** Coverage: an equality for every day and shift, not a minimum. */
  predicate Covered(x: Table, numDays: nat, requirements: seq<int>)
    requires Shaped(x, numDays, |requirements|)
  {
    forall d, s :: 0 <= d < numDays && 0 <= s < |requirements| ==> Staffed(x, numDays, requirements, d, s)
  }

  predicate LinkInRange(l: Link, numShifts: nat)
  {
    l.from < numShifts && l.to < numShifts
  }

  /** Member n works l.from on day d and l.to on day e. */
  predicate Clash(x: Table, numDays: nat, numShifts: nat, n: nat, d: nat, e: nat, l: Link)
    requires Shaped(x, numDays, numShifts) && LinkInRange(l, numShifts)
    requires n < |x| && d < numDays && e < numDays
  {
    x[n][d][l.from] && x[n][e][l.to]
  }

  /**
   * The exclusion as the scheduler adds it for one member: for d in
   * range(numDays - w) and i in range(w), not both x[n][d][from] and
   * x[n][d + i + 1][to], where e = d + i + 1.
   */
  predicate MemberKeepsLink(x: Table, numDays: nat, numShifts: nat, n: nat, l: Link)
    requires Shaped(x, numDays, numShifts) && LinkInRange(l, numShifts) && n < |x|
  {
    forall d, e :: 0 <= d < numDays - l.within && d + 1 <= e <= d + l.within ==>
      !Clash(x, numDays, numShifts, n, d, e, l)
  }

  predicate LinkRespected(x: Table, numDays: nat, numShifts: nat, l: Link)
    requires Shaped(x, numDays, numShifts) && LinkInRange(l, numShifts)
  {
    forall n :: 0 <= n < |x| ==> MemberKeepsLink(x, numDays, numShifts, n, l)
  }

  /** Member n either is eligible for shift s or does not work it on day d. */
  predicate EligibleOrIdle(x: Table, numDays: nat, eligibility: seq<seq<nat>>, n: nat, d: nat, s: nat)
    requires Shaped(x, numDays, |eligibility|) && n < |x| && d < numDays && s < |eligibility|
  {
    n in eligibility[s] || !x[n][d][s]
  }

  predicate EligibilityRespected(x: Table, numDays: nat, eligibility: seq<seq<nat>>)
    requires Shaped(x, numDays, |eligibility|)
  {
    forall n, d, s :: 0 <= n < |x| && 0 <= d < numDays && 0 <= s < |eligibility| ==>
      EligibleOrIdle(x, numDays, eligibility, n, d, s)
  }

  predicate LinksInRange(links: seq<Link>, numShifts: nat)
  {
    forall i :: 0 <= i < |links| ==> LinkInRange(links[i], numShifts)
  }

  /** All hard rules of the solver model hold of the table. */
  predicate Feasible(x: Table, numDays: nat, requirements: seq<int>, links: seq<Link>, eligibility: seq<seq<nat>>)
    requires |eligibility| == |requirements| && Shaped(x, numDays, |requirements|)
    requires LinksInRange(links, |requirements|)
  {
    && Covered(x, numDays, requirements)
    && (forall i :: 0 <= i < |links| ==> LinkRespected(x, numDays, |requirements|, links[i]))
    && EligibilityRespected(x, numDays, eligibility)
  }

  // ---------------------------------------------------------------------
  // Properties of the hard rules
  // ---------------------------------------------------------------------

  /** Every day index the exclusion pairs with day d stays inside the planning window. */
  lemma ExclusionStaysInWindow(numDays: nat, within: int, d: int, i: int)
    requires 0 <= d < numDays - within && 0 <= i < within
    ensures 0 < d + i + 1 < numDays
  {
  }

  /** A window of 0 (or less), or one covering the whole horizon, adds no exclusion. */
  lemma NoExclusionForDegenerateWindow(x: Table, numDays: nat, numShifts: nat, l: Link)
    requires Shaped(x, numDays, numShifts) && LinkInRange(l, numShifts)
    requires l.within <= 0 || l.within >= numDays
    ensures LinkRespected(x, numDays, numShifts, l)
  {
  }

  /** A shift linked to itself with window 1 is never worked by one member on two consecutive days. */
  lemma SelfLinkRestsOneDay(x: Table, numDays: nat, numShifts: nat, s: nat, n: nat, d: nat)
    requires Shaped(x, numDays, numShifts) && s < numShifts
    requires LinkRespected(x, numDays, numShifts, Link(s, s, 1))
    requires n < |x| && d + 1 < numDays
    ensures !(x[n][d][s] && x[n][d + 1][s])
  {
    assert MemberKeepsLink(x, numDays, numShifts, n, Link(s, s, 1));
    assert !Clash(x, numDays, numShifts, n, d, d + 1, Link(s, s, 1));
  }

  /** Exact coverage can only be met by a requirement between 0 and the number of members. */
  lemma CoverageNeedsAttainableRequirements(x: Table, numDays: nat, requirements: seq<int>, s: nat)
    requires Shaped(x, numDays, |requirements|)
    requires Covered(x, numDays, requirements)
    requires numDays > 0 && s < |requirements|
    ensures 0 <= requirements[s] <= |x|
  {
    assert Staffed(x, numDays, requirements, 0, s);
  }

  // ---------------------------------------------------------------------
  // Checking the hard rules, loop by loop as the scheduler adds them
  // ---------------------------------------------------------------------

  /** sum(x[n][d][s] for n in all_members). */
  method CountAssigned(x: Table, numDays: nat, numShifts: nat, d: nat, s: nat) returns (c: nat)
    requires Shaped(x, numDays, numShifts) && d < numDays && s < numShifts
    ensures c == Headcount(x, numDays, numShifts, d, s, |x|)
  {
    c := 0;
    var n := 0;
    while n < |x|
      invariant 0 <= n <= |x|
      invariant c == Headcount(x, numDays, numShifts, d, s, n)
    {
      if x[n][d][s] {
        c := c + 1;
      }
      n := n + 1;
    }
  }

  method CheckCoverage(x: Table, numDays: nat, requirements: seq<int>) returns (ok: bool)
    requires Shaped(x, numDays, |requirements|)
    ensures ok == Covered(x, numDays, requirements)
  {
    ok := true;
    var d := 0;
    while d < numDays
      invariant 0 <= d <= numDays
      invariant ok <==> forall d', s' :: 0 <= d' < d && 0 <= s' < |requirements| ==>
                          Staffed(x, numDays, requirements, d', s')
    {
      var s := 0;
      while s < |requirements|
        invariant 0 <= s <= |requirements|
        invariant ok <==> (forall d', s' :: 0 <= d' < d && 0 <= s' < |requirements| ==>
                             Staffed(x, numDays, requirements, d', s')) &&
                          (forall s' :: 0 <= s' < s ==> Staffed(x, numDays, requirements, d, s'))
      {
        var c := CountAssigned(x, numDays, |requirements|, d, s);
        assert Staffed(x, numDays, requirements, d, s) <==> c == requirements[s];
        ok := ok && c == requirements[s];
        s := s + 1;
      }
      d := d + 1;
    }
  }

  /** The two inner loops of the exclusion, for one member and one constraint. */
  method CheckMemberLink(x: Table, numDays: nat, numShifts: nat, n: nat, l: Link) returns (ok: bool)
    requires Shaped(x, numDays, numShifts) && LinkInRange(l, numShifts) && n < |x|
    ensures ok == MemberKeepsLink(x, numDays, numShifts, n, l)
  {
    ok := true;
    var bound := numDays - l.within;
    var d := 0;
    while d < bound
      invariant 0 <= d && (d <= bound || d == 0)
      invariant ok <==> forall d', e :: 0 <= d' < d && d' + 1 <= e <= d' + l.within ==>
                          !Clash(x, numDays, numShifts, n, d', e, l)
    {
      var i := 0;
      while i < l.within
        invariant 0 <= i && (i <= l.within || i == 0)
        invariant ok <==> (forall d', e :: 0 <= d' < d && d' + 1 <= e <= d' + l.within ==>
                             !Clash(x, numDays, numShifts, n, d', e, l)) &&
                          (forall e :: d + 1 <= e <= d + i ==> !Clash(x, numDays, numShifts, n, d, e, l))
      {
        if x[n][d][l.from] && x[n][d + i + 1][l.to] {
          ok := false;
        }
        assert Clash(x, numDays, numShifts, n, d, d + i + 1, l) == (x[n][d][l.from] && x[n][d + i + 1][l.to]);
        i := i + 1;
      }
      d := d + 1;
    }
  }

  /** for n in all_members: for each constraint: the exclusion. */
  method CheckLinks(x: Table, numDays: nat, numShifts: nat, links: seq<Link>) returns (ok: bool)
    requires Shaped(x, numDays, numShifts) && LinksInRange(links, numShifts)
    ensures ok == forall i :: 0 <= i < |links| ==> LinkRespected(x, numDays, numShifts, links[i])
  {
    ok := true;
    var n := 0;
    while n < |x|
      invariant 0 <= n <= |x|
      invariant ok <==> forall n', i :: 0 <= n' < n && 0 <= i < |links| ==>
                          MemberKeepsLink(x, numDays, numShifts, n', links[i])
    {
      var i := 0;
      while i < |links|
        invariant 0 <= i <= |links|
        invariant ok <==> (forall n', j :: 0 <= n' < n && 0 <= j < |links| ==>
                             MemberKeepsLink(x, numDays, numShifts, n', links[j])) &&
                          (forall j :: 0 <= j < i ==> MemberKeepsLink(x, numDays, numShifts, n, links[j]))
      {
        var kept := CheckMemberLink(x, numDays, numShifts, n, links[i]);
        ok := ok && kept;
        i := i + 1;
      }
      n := n + 1;
    }
  }

  /** The eligibility loops over days and shifts, for one member. */
  method CheckMemberEligibility(x: Table, numDays: nat, eligibility: seq<seq<nat>>, n: nat) returns (ok: bool)
    requires Shaped(x, numDays, |eligibility|) && n < |x|
    ensures ok == forall d, s :: 0 <= d < numDays && 0 <= s < |eligibility| ==>
                    EligibleOrIdle(x, numDays, eligibility, n, d, s)
  {
    ok := true;
    var d := 0;
    while d < numDays
      invariant 0 <= d <= numDays
      invariant ok <==> forall d', s' :: 0 <= d' < d && 0 <= s' < |eligibility| ==>
                          EligibleOrIdle(x, numDays, eligibility, n, d', s')
    {
      var s := 0;
      while s < |eligibility|
        invariant 0 <= s <= |eligibility|
        invariant ok <==> (forall d', s' :: 0 <= d' < d && 0 <= s' < |eligibility| ==>
                             EligibleOrIdle(x, numDays, eligibility, n, d', s')) &&
                          (forall s' :: 0 <= s' < s ==> EligibleOrIdle(x, numDays, eligibility, n, d, s'))
      {
        assert EligibleOrIdle(x, numDays, eligibility, n, d, s) <==> !(n !in eligibility[s] && x[n][d][s]);
        if n !in eligibility[s] && x[n][d][s] {
          ok := false;
        }
        s := s + 1;
      }
      d := d + 1;
    }
  }

  method CheckEligibility(x: Table, numDays: nat, eligibility: seq<seq<nat>>) returns (ok: bool)
    requires Shaped(x, numDays, |eligibility|)
    ensures ok == EligibilityRespected(x, numDays, eligibility)
  {
    ok := true;
    var n := 0;
    while n < |x|
      invariant 0 <= n <= |x|
      invariant ok <==> forall n', d, s :: 0 <= n' < n && 0 <= d < numDays && 0 <= s < |eligibility| ==>
                          EligibleOrIdle(x, numDays, eligibility, n', d, s)
    {
      var member := CheckMemberEligibility(x, numDays, eligibility, n);
      ok := ok && member;
      n := n + 1;
    }
  }

  /**
   * The whole set of hard rules for a given table. The constraint lookups
   * sit inside the loop over members, so with no members no lookup is made
   * and no lookup error can occur.
   */
  method CheckSchedule(
    x: Table, numDays: nat, shiftIds: seq<Id>, requirements: seq<int>,
    constraints: seq<ShiftConstraint>, eligibility: seq<seq<nat>>)
    returns (r: Result<bool, LookupError>)
    requires |shiftIds| == |requirements| == |eligibility|
    requires Shaped(x, numDays, |shiftIds|)
    ensures r.Failure? <==>
            |x| > 0 && exists i :: 0 <= i < |constraints| && ResolveLink(EnumerateIds(shiftIds), constraints[i]).None?
    ensures r.Success? ==>
            r.value == (
              && Covered(x, numDays, requirements)
              && EligibilityRespected(x, numDays, eligibility)
              && forall i :: 0 <= i < |constraints| ==>
                   var l := ResolveLink(EnumerateIds(shiftIds), constraints[i]);
                   l.Some? ==> LinkInRange(l.value, |shiftIds|) && LinkRespected(x, numDays, |shiftIds|, l.value))
  {
    var items := EnumerateIds(shiftIds);
    forall c | c in constraints
      ensures var l := ResolveLink(items, c); l.Some? ==> LinkInRange(l.value, |shiftIds|)
    {
      KeyForEnumerated(shiftIds, c.shiftId);
      KeyForEnumerated(shiftIds, c.linkedShiftId);
    }
    var links: seq<Link> := [];
    if |x| > 0 {
      var resolved := ResolveConstraints(constraints, items);
      if resolved.Failure? {
        return Failure(resolved.error);
      }
      links := resolved.value;
      assert forall i :: 0 <= i < |constraints| ==> constraints[i] in constraints;
    }
    var covered := CheckCoverage(x, numDays, requirements);
    var excluded := CheckLinks(x, numDays, |shiftIds|, links);
    var eligible := CheckEligibility(x, numDays, eligibility);
    return Success(covered && excluded && eligible);
  }

  // ---------------------------------------------------------------------
  // Per-member counts and the fairness penalty
  // ---------------------------------------------------------------------

  /** Days d < k on which member n works shift s. */
  function DaysWorked(x: Table, numDays: nat, numShifts: nat, n: nat, s: nat, k: nat): (c: nat)
    requires Shaped(x, numDays, numShifts) && n < |x| && s < numShifts && k <= numDays
    ensures c <= k
  {
    if k == 0 then 0 else DaysWorked(x, numDays, numShifts, n, s, k - 1) + (if x[n][k - 1][s] then 1 else 0)
  }

  /** sum(x[n][d][s] for d in all_days). */
  method MemberShiftCount(x: Table, numDays: nat, numShifts: nat, n: nat, s: nat) returns (c: nat)
    requires Shaped(x, numDays, numShifts) && n < |x| && s < numShifts
    ensures c == DaysWorked(x, numDays, numShifts, n, s, numDays)
  {
    c := 0;
    var d := 0;
    while d < numDays
      invariant 0 <= d <= numDays
      invariant c == DaysWorked(x, numDays, numShifts, n, s, d)
    {
      if x[n][d][s] {
        c := c + 1;
      }
      d := d + 1;
    }
  }

  /** A member who is not eligible for shift s never works it. */
  lemma {:induction false} IneligibleMemberWorksNone(
    x: Table, numDays: nat, eligibility: seq<seq<nat>>, n: nat, s: nat, k: nat)
    requires Shaped(x, numDays, |eligibility|) && EligibilityRespected(x, numDays, eligibility)
    requires n < |x| && s < |eligibility| && n !in eligibility[s] && k <= numDays
    ensures DaysWorked(x, numDays, |eligibility|, n, s, k) == 0
  {
    if k > 0 {
      IneligibleMemberWorksNone(x, numDays, eligibility, n, s, k - 1);
      assert EligibleOrIdle(x, numDays, eligibility, n, k - 1, s);
    }
  }

  predicate MembersInRange(members: seq<nat>, m: nat)
  {
    forall j :: 0 <= j < |members| ==> members[j] < m
  }

  predicate EligibilityInRange(eligibility: seq<seq<nat>>, m: nat)
  {
    forall s :: 0 <= s < |eligibility| ==> MembersInRange(eligibility[s], m)
  }

  /** member_shift_counts: the count of shift s for each eligible member, in list order. */
  function EligibleCounts(x: Table, numDays: nat, numShifts: nat, s: nat, members: seq<nat>): (counts: seq<int>)
    requires Shaped(x, numDays, numShifts) && s < numShifts && MembersInRange(members, |x|)
  {
    seq(|members|, j requires 0 <= j < |members| => DaysWorked(x, numDays, numShifts, members[j], s, numDays))
  }

  function SeqMin(c: seq<int>): (lo: int)
    requires |c| > 0
  {
    if |c| == 1 then c[0] else Min(SeqMin(c[..|c| - 1]), c[|c| - 1])
  }

  function SeqMax(c: seq<int>): (hi: int)
    requires |c| > 0
  {
    if |c| == 1 then c[0] else Max(SeqMax(c[..|c| - 1]), c[|c| - 1])
  }

  /** SeqMin is a lower and SeqMax an upper bound of the elements, and each is attained at some position. */
  lemma {:induction false} SeqExtremes(c: seq<int>)
    requires |c| > 0
    ensures forall j :: 0 <= j < |c| ==> SeqMin(c) <= c[j] <= SeqMax(c)
    ensures exists j :: 0 <= j < |c| && c[j] == SeqMin(c)
    ensures exists j :: 0 <= j < |c| && c[j] == SeqMax(c)
  {
    if |c| > 1 {
      var init := c[..|c| - 1];
      SeqExtremes(init);
      assert forall j :: 0 <= j < |init| ==> init[j] == c[j];
      var jMin :| 0 <= jMin < |init| && init[jMin] == SeqMin(init);
      var jMax :| 0 <= jMax < |init| && init[jMax] == SeqMax(init);
      if SeqMin(init) <= c[|c| - 1] {
        assert c[jMin] == SeqMin(c);
      } else {
        assert c[|c| - 1] == SeqMin(c);
      }
      if SeqMax(init) >= c[|c| - 1] {
        assert c[jMax] == SeqMax(c);
      } else {
        assert c[|c| - 1] == SeqMax(c);
      }
    }
  }

  /**
   * The values the solver may give min_count, max_count and diff for shift
   * s on this table: all three in [0, numDays], min_count a lower and
   * max_count an upper bound of every eligible member's count, and
   * diff == max_count - min_count.
   */
  predicate PenaltyAdmissible(
    x: Table, numDays: nat, numShifts: nat, s: nat, members: seq<nat>, lo: int, hi: int, diff: int)
    requires Shaped(x, numDays, numShifts) && s < numShifts && MembersInRange(members, |x|)
  {
    && 0 <= lo <= numDays && 0 <= hi <= numDays && 0 <= diff <= numDays
    && (forall j :: 0 <= j < |members| ==>
          lo <= DaysWorked(x, numDays, numShifts, members[j], s, numDays) <= hi)
    && diff == hi - lo
  }

  /** The penalty at the optimum: none for one eligible member or fewer, else max minus min of the counts. */
  function OptimalPenalty(x: Table, numDays: nat, numShifts: nat, s: nat, members: seq<nat>): (p: Option<int>)
    requires Shaped(x, numDays, numShifts) && s < numShifts && MembersInRange(members, |x|)
  {
    if |members| > 1 then
      var counts := EligibleCounts(x, numDays, numShifts, s, members);
      Some(SeqMax(counts) - SeqMin(counts))
    else None
  }

  /**
   * With two or more eligible members, the optimal penalty is itself an
   * admissible diff and every admissible diff is at least as large; it is
   * never negative.
   */
  lemma OptimalPenaltyIsLeastAdmissible(x: Table, numDays: nat, numShifts: nat, s: nat, members: seq<nat>)
    requires Shaped(x, numDays, numShifts) && s < numShifts && MembersInRange(members, |x|)
    requires |members| > 1
    ensures OptimalPenalty(x, numDays, numShifts, s, members).Some?
    ensures var counts := EligibleCounts(x, numDays, numShifts, s, members);
            PenaltyAdmissible(x, numDays, numShifts, s, members, SeqMin(counts), SeqMax(counts),
                              OptimalPenalty(x, numDays, numShifts, s, members).value)
    ensures OptimalPenalty(x, numDays, numShifts, s, members).value >= 0
    ensures forall lo, hi, diff :: PenaltyAdmissible(x, numDays, numShifts, s, members, lo, hi, diff) ==>
              OptimalPenalty(x, numDays, numShifts, s, members).value <= diff
  {
    var counts := EligibleCounts(x, numDays, numShifts, s, members);
    assert forall j :: 0 <= j < |members| ==> counts[j] == DaysWorked(x, numDays, numShifts, members[j], s, numDays);
    SeqExtremes(counts);
    var jMin :| 0 <= jMin < |counts| && counts[jMin] == SeqMin(counts);
    var jMax :| 0 <= jMax < |counts| && counts[jMax] == SeqMax(counts);
    assert 0 <= counts[jMin] <= numDays;
    assert 0 <= counts[jMax] <= numDays;
    forall lo, hi, diff | PenaltyAdmissible(x, numDays, numShifts, s, members, lo, hi, diff)
      ensures SeqMax(counts) - SeqMin(counts) <= diff
    {
      assert lo <= counts[jMin] && counts[jMax] <= hi;
    }
  }

  /** Extending a prefix by one element updates its extremes by one comparison. */
  lemma ExtremesOfPrefix(c: seq<int>, j: nat)
    requires 0 < j <= |c|
    ensures j == 1 ==> SeqMin(c[..j]) == c[0] && SeqMax(c[..j]) == c[0]
    ensures j > 1 ==> SeqMin(c[..j]) == Min(SeqMin(c[..j - 1]), c[j - 1]) &&
                      SeqMax(c[..j]) == Max(SeqMax(c[..j - 1]), c[j - 1])
  {
    if j > 1 {
      assert c[..j][..j - 1] == c[..j - 1];
    } else {
      assert c[..j] == [c[0]];
    }
  }

  /** For one shift: the tightest min_count and max_count over the eligible members' counts. */
  method FairnessPenalty(x: Table, numDays: nat, numShifts: nat, s: nat, members: seq<nat>) returns (p: Option<int>)
    requires Shaped(x, numDays, numShifts) && s < numShifts && MembersInRange(members, |x|)
    ensures p == OptimalPenalty(x, numDays, numShifts, s, members)
  {
    if |members| <= 1 {
      return None;
    }
    ghost var counts := EligibleCounts(x, numDays, numShifts, s, members);
    var lo := MemberShiftCount(x, numDays, numShifts, members[0], s);
    var hi := lo;
    ExtremesOfPrefix(counts, 1);
    var j := 1;
    while j < |members|
      invariant 1 <= j <= |members|
      invariant lo == SeqMin(counts[..j]) && hi == SeqMax(counts[..j])
    {
      var c := MemberShiftCount(x, numDays, numShifts, members[j], s);
      assert c == counts[j];
      ExtremesOfPrefix(counts, j + 1);
      lo := Min(lo, c);
      hi := Max(hi, c);
      j := j + 1;
    }
    assert counts[..j] == counts;
    return Some(hi - lo);
  }

  function Sum(c: seq<int>): (total: int)
  {
    if c == [] then 0 else Sum(c[..|c| - 1]) + c[|c| - 1]
  }

  /** fairness_penalties for shifts s < k: one optimal penalty per shift with two or more eligible members. */
  function Penalties(x: Table, numDays: nat, eligibility: seq<seq<nat>>, k: nat): (penalties: seq<int>)
    requires Shaped(x, numDays, |eligibility|) && EligibilityInRange(eligibility, |x|) && k <= |eligibility|
  {
    if k == 0 then []
    else
      match OptimalPenalty(x, numDays, |eligibility|, k - 1, eligibility[k - 1])
      case Some(p) => Penalties(x, numDays, eligibility, k - 1) + [p]
      case None => Penalties(x, numDays, eligibility, k - 1)
  }

  /** One (min_count, max_count, diff) per shift; only those of shifts with two or more eligible members are used. */
  predicate ChoiceAdmissible(
    x: Table, numDays: nat, eligibility: seq<seq<nat>>, choice: seq<(int, int, int)>)
    requires Shaped(x, numDays, |eligibility|) && EligibilityInRange(eligibility, |x|)
  {
    && |choice| == |eligibility|
    && forall s :: 0 <= s < |eligibility| && |eligibility[s]| > 1 ==>
         PenaltyAdmissible(x, numDays, |eligibility|, s, eligibility[s], choice[s].0, choice[s].1, choice[s].2)
  }

  /** sum(fairness_penalties) for shifts s < k under a given choice of solver values. */
  function ChosenObjective(eligibility: seq<seq<nat>>, choice: seq<(int, int, int)>, k: nat): (objective: int)
    requires k <= |eligibility| && |choice| == |eligibility|
  {
    if k == 0 then 0
    else ChosenObjective(eligibility, choice, k - 1) + (if |eligibility[k - 1]| > 1 then choice[k - 1].2 else 0)
  }

  /**
   * The minimised objective: on this table no admissible choice of the
   * solver's variables gives a total below the sum of the optimal
   * penalties, and that sum is never negative.
   */
  lemma {:induction false} ObjectiveIsLeast(
    x: Table, numDays: nat, eligibility: seq<seq<nat>>, choice: seq<(int, int, int)>, k: nat)
    requires Shaped(x, numDays, |eligibility|) && EligibilityInRange(eligibility, |x|) && k <= |eligibility|
    requires ChoiceAdmissible(x, numDays, eligibility, choice)
    ensures 0 <= Sum(Penalties(x, numDays, eligibility, k)) <= ChosenObjective(eligibility, choice, k)
  {
    if k > 0 {
      ObjectiveIsLeast(x, numDays, eligibility, choice, k - 1);
      PenaltySumStep(x, numDays, eligibility, k);
      if |eligibility[k - 1]| > 1 {
        OptimalPenaltyIsLeastAdmissible(x, numDays, |eligibility|, k - 1, eligibility[k - 1]);
        assert PenaltyAdmissible(x, numDays, |eligibility|, k - 1, eligibility[k - 1],
                                 choice[k - 1].0, choice[k - 1].1, choice[k - 1].2);
      }
    }
  }

  lemma SumSnoc(c: seq<int>, v: int)
    ensures Sum(c + [v]) == Sum(c) + v
  {
    assert (c + [v])[..|c|] == c;
  }

  /** Shift k - 1 adds its optimal penalty to the sum when it has two or more eligible members. */
  lemma PenaltySumStep(x: Table, numDays: nat, eligibility: seq<seq<nat>>, k: nat)
    requires Shaped(x, numDays, |eligibility|) && EligibilityInRange(eligibility, |x|) && 0 < k <= |eligibility|
    ensures |eligibility[k - 1]| > 1 ==>
            Sum(Penalties(x, numDays, eligibility, k)) ==
            Sum(Penalties(x, numDays, eligibility, k - 1)) +
            OptimalPenalty(x, numDays, |eligibility|, k - 1, eligibility[k - 1]).value
    ensures |eligibility[k - 1]| <= 1 ==>
            Penalties(x, numDays, eligibility, k) == Penalties(x, numDays, eligibility, k - 1)
  {
    if |eligibility[k - 1]| > 1 {
      SumSnoc(Penalties(x, numDays, eligibility, k - 1),
              OptimalPenalty(x, numDays, |eligibility|, k - 1, eligibility[k - 1]).value);
    }
  }

  /** The choice that sets min_count and max_count to the actual extremes reaches the least objective. */
  lemma {:induction false} ObjectiveIsAttained(x: Table, numDays: nat, eligibility: seq<seq<nat>>, k: nat)
    requires Shaped(x, numDays, |eligibility|) && EligibilityInRange(eligibility, |x|) && k <= |eligibility|
    ensures var choice := OptimalChoice(x, numDays, eligibility);
            ChoiceAdmissible(x, numDays, eligibility, choice) &&
            ChosenObjective(eligibility, choice, k) == Sum(Penalties(x, numDays, eligibility, k))
  {
    var choice := OptimalChoice(x, numDays, eligibility);
    forall s | 0 <= s < |eligibility| && |eligibility[s]| > 1
      ensures PenaltyAdmissible(x, numDays, |eligibility|, s, eligibility[s], choice[s].0, choice[s].1, choice[s].2)
    {
      OptimalPenaltyIsLeastAdmissible(x, numDays, |eligibility|, s, eligibility[s]);
    }
    if k > 0 {
      ObjectiveIsAttained(x, numDays, eligibility, k - 1);
      PenaltySumStep(x, numDays, eligibility, k);
    }
  }

  /** Per shift: the extremes of the counts and their difference, or zeros where no penalty is made. */
  function OptimalChoice(x: Table, numDays: nat, eligibility: seq<seq<nat>>): (choice: seq<(int, int, int)>)
    requires Shaped(x, numDays, |eligibility|) && EligibilityInRange(eligibility, |x|)
  {
    seq(|eligibility|, s requires 0 <= s < |eligibility| =>
      if |eligibility[s]| > 1 then
        var counts := EligibleCounts(x, numDays, |eligibility|, s, eligibility[s]);
        (SeqMin(counts), SeqMax(counts), SeqMax(counts) - SeqMin(counts))
      else (0, 0, 0))
  }

  /** The loop over all shifts that builds fairness_penalties and the minimised sum. */
  method FairnessObjective(x: Table, numDays: nat, eligibility: seq<seq<nat>>) returns (penalties: seq<int>, total: int)
    requires Shaped(x, numDays, |eligibility|) && EligibilityInRange(eligibility, |x|)
    ensures penalties == Penalties(x, numDays, eligibility, |eligibility|)
    ensures total == Sum(penalties) && total >= 0
    ensures forall choice :: ChoiceAdmissible(x, numDays, eligibility, choice) ==>
              total <= ChosenObjective(eligibility, choice, |eligibility|)
    ensures ChoiceAdmissible(x, numDays, eligibility, OptimalChoice(x, numDays, eligibility)) &&
            ChosenObjective(eligibility, OptimalChoice(x, numDays, eligibility), |eligibility|) == total
  {
    penalties := [];
    total := 0;
    var s := 0;
    while s < |eligibility|
      invariant 0 <= s <= |eligibility|
      invariant penalties == Penalties(x, numDays, eligibility, s)
      invariant total == Sum(penalties)
    {
      var p := FairnessPenalty(x, numDays, |eligibility|, s, eligibility[s]);
      if p.Some? {
        assert (penalties + [p.value])[..|penalties|] == penalties;
        penalties := penalties + [p.value];
        total := total + p.value;
      }
      s := s + 1;
    }
    forall choice | ChoiceAdmissible(x, numDays, eligibility, choice)
      ensures total <= ChosenObjective(eligibility, choice, |eligibility|)
    {
      ObjectiveIsLeast(x, numDays, eligibility, choice, |eligibility|);
    }
    ObjectiveIsAttained(x, numDays, eligibility, |eligibility|);
    ObjectiveIsLeast(x, numDays, eligibility, OptimalChoice(x, numDays, eligibility), |eligibility|);
  }

  // ---------------------------------------------------------------------
  // Statistics per member
  // ---------------------------------------------------------------------

  /** Shifts s < k that member n works on day d. */
  function ShiftsOnDay(x: Table, numDays: nat, numShifts: nat, n: nat, d: nat, k: nat): (c: nat)
    requires Shaped(x, numDays, numShifts) && n < |x| && d < numDays && k <= numShifts
    ensures c <= k
  {
    if k == 0 then 0 else ShiftsOnDay(x, numDays, numShifts, n, d, k - 1) + (if x[n][d][k - 1] then 1 else 0)
  }

  /** Cells of member n's table on days d < k that are set, counted day by day. */
  function CellsWorked(x: Table, numDays: nat, numShifts: nat, n: nat, k: nat): (cells: nat)
    requires Shaped(x, numDays, numShifts) && n < |x| && k <= numDays
  {
    if k == 0 then 0 else CellsWorked(x, numDays, numShifts, n, k - 1) + ShiftsOnDay(x, numDays, numShifts, n, k - 1, numShifts)
  }

  /** Sum over shifts s < j of member n's count of shift s on days before k. */
  function CountsTotal(x: Table, numDays: nat, numShifts: nat, n: nat, j: nat, k: nat): (total: nat)
    requires Shaped(x, numDays, numShifts) && n < |x| && j <= numShifts && k <= numDays
  {
    if j == 0 then 0 else CountsTotal(x, numDays, numShifts, n, j - 1, k) + DaysWorked(x, numDays, numShifts, n, j - 1, k)
  }

  lemma {:induction false} CountsTotalLastDay(x: Table, numDays: nat, numShifts: nat, n: nat, j: nat, k: nat)
    requires Shaped(x, numDays, numShifts) && n < |x| && j <= numShifts && 0 < k <= numDays
    ensures CountsTotal(x, numDays, numShifts, n, j, k) ==
            CountsTotal(x, numDays, numShifts, n, j, k - 1) + ShiftsOnDay(x, numDays, numShifts, n, k - 1, j)
  {
    if j > 0 {
      CountsTotalLastDay(x, numDays, numShifts, n, j - 1, k);
    }
  }

  /** Counting shift by shift or day by day gives the same number of worked cells. */
  lemma {:induction false} CountsTotalIsCellsWorked(x: Table, numDays: nat, numShifts: nat, n: nat, k: nat)
    requires Shaped(x, numDays, numShifts) && n < |x| && k <= numDays
    ensures CountsTotal(x, numDays, numShifts, n, numShifts, k) == CellsWorked(x, numDays, numShifts, n, k)
  {
    if k == 0 {
      CountsTotalNoDays(x, numDays, numShifts, n, numShifts);
    } else {
      CountsTotalIsCellsWorked(x, numDays, numShifts, n, k - 1);
      CountsTotalLastDay(x, numDays, numShifts, n, numShifts, k);
    }
  }

  lemma {:induction false} CountsTotalNoDays(x: Table, numDays: nat, numShifts: nat, n: nat, j: nat)
    requires Shaped(x, numDays, numShifts) && n < |x| && j <= numShifts
    ensures CountsTotal(x, numDays, numShifts, n, j, 0) == 0
  {
    if j > 0 {
      CountsTotalNoDays(x, numDays, numShifts, n, j - 1);
    }
  }

  /**
   * shift_counts and total for one member: the count of every shift over
   * all days, and their sum, which is the number of cells the member works.
   */
  method MemberStatistics(x: Table, numDays: nat, numShifts: nat, n: nat) returns (counts: seq<int>, total: int)
    requires Shaped(x, numDays, numShifts) && n < |x|
    ensures |counts| == numShifts
    ensures forall s :: 0 <= s < numShifts ==> counts[s] == DaysWorked(x, numDays, numShifts, n, s, numDays)
    ensures total == Sum(counts)
    ensures total == CellsWorked(x, numDays, numShifts, n, numDays)
  {
    counts := [];
    var s := 0;
    while s < numShifts
      invariant 0 <= s <= numShifts
      invariant |counts| == s
      invariant forall s' :: 0 <= s' < s ==> counts[s'] == DaysWorked(x, numDays, numShifts, n, s', numDays)
      invariant Sum(counts) == CountsTotal(x, numDays, numShifts, n, s, numDays)
    {
      var c := MemberShiftCount(x, numDays, numShifts, n, s);
      assert (counts + [c])[..|counts|] == counts;
      counts := counts + [c];
      s := s + 1;
    }
    total := 0;
    var i := 0;
    while i < |counts|
      invariant 0 <= i <= |counts|
      invariant total == Sum(counts[..i])
    {
      assert counts[..i + 1][..i] == counts[..i];
      total := total + counts[i];
      i := i + 1;
    }
    assert counts[..i] == counts;
    CountsTotalIsCellsWorked(x, numDays, numShifts, n, numDays);
  }

  // ---------------------------------------------------------------------
  // The exclusion window as evidently intended
  // ---------------------------------------------------------------------

  /** Day e lies in the window of day d: the same day for w = 0, one of the next w days otherwise. */
  predicate InWindow(within: int, d: int, e: int)
  {
    if within == 0 then e == d else d < e <= d + within
  }

  /** The exclusion for one member, over every pair of days inside the horizon. */
  predicate MemberKeepsLinkIntended(x: Table, numDays: nat, numShifts: nat, n: nat, l: Link)
    requires Shaped(x, numDays, numShifts) && LinkInRange(l, numShifts) && n < |x|
  {
    forall d, e :: 0 <= d < numDays && 0 <= e < numDays && InWindow(l.within, d, e) ==>
      !Clash(x, numDays, numShifts, n, d, e, l)
  }

  predicate IntendedLinkRespected(x: Table, numDays: nat, numShifts: nat, l: Link)
    requires Shaped(x, numDays, numShifts) && LinkInRange(l, numShifts)
  {
    forall n :: 0 <= n < |x| ==> MemberKeepsLinkIntended(x, numDays, numShifts, n, l)
  }

  /** The exclusion loops with the corrected ranges: every start day, and every day of its window. */
  method CheckMemberLinkIntended(x: Table, numDays: nat, numShifts: nat, n: nat, l: Link) returns (ok: bool)
    requires Shaped(x, numDays, numShifts) && LinkInRange(l, numShifts) && n < |x|
    ensures ok == MemberKeepsLinkIntended(x, numDays, numShifts, n, l)
  {
    ok := true;
    var d := 0;
    while d < numDays
      invariant 0 <= d <= numDays
      invariant ok <==> forall d', e :: 0 <= d' < d && 0 <= e < numDays && InWindow(l.within, d', e) ==>
                          !Clash(x, numDays, numShifts, n, d', e, l)
    {
      var e := 0;
      while e < numDays
        invariant 0 <= e <= numDays
        invariant ok <==> (forall d', e' :: 0 <= d' < d && 0 <= e' < numDays && InWindow(l.within, d', e') ==>
                             !Clash(x, numDays, numShifts, n, d', e', l)) &&
                          (forall e' :: 0 <= e' < e && InWindow(l.within, d, e') ==> !Clash(x, numDays, numShifts, n, d, e', l))
      {
        if InWindow(l.within, d, e) && x[n][d][l.from] && x[n][e][l.to] {
          ok := false;
        }
        assert Clash(x, numDays, numShifts, n, d, e, l) == (x[n][d][l.from] && x[n][e][l.to]);
        e := e + 1;
      }
      d := d + 1;
    }
  }

  /** The intended exclusion forbids everything the written one forbids. */
  lemma IntendedImpliesAsWritten(x: Table, numDays: nat, numShifts: nat, l: Link)
    requires Shaped(x, numDays, numShifts) && LinkInRange(l, numShifts)
    requires IntendedLinkRespected(x, numDays, numShifts, l)
    ensures LinkRespected(x, numDays, numShifts, l)
  {
    forall n | 0 <= n < |x|
      ensures MemberKeepsLink(x, numDays, numShifts, n, l)
    {
      assert MemberKeepsLinkIntended(x, numDays, numShifts, n, l);
      forall d, e | 0 <= d < numDays - l.within && d + 1 <= e <= d + l.within
        ensures !Clash(x, numDays, numShifts, n, d, e, l)
      {
        assert InWindow(l.within, d, e);
      }
    }
  }

  /** For window 1, as consecutive-day constraints are generated, the written exclusion is the intended one. */
  lemma WindowOneIsExact(x: Table, numDays: nat, numShifts: nat, l: Link)
    requires Shaped(x, numDays, numShifts) && LinkInRange(l, numShifts) && l.within == 1
    ensures LinkRespected(x, numDays, numShifts, l) <==> IntendedLinkRespected(x, numDays, numShifts, l)
  {
    if LinkRespected(x, numDays, numShifts, l) {
      forall n | 0 <= n < |x|
        ensures MemberKeepsLinkIntended(x, numDays, numShifts, n, l)
      {
        assert MemberKeepsLink(x, numDays, numShifts, n, l);
      }
    }
    if IntendedLinkRespected(x, numDays, numShifts, l) {
      IntendedImpliesAsWritten(x, numDays, numShifts, l);
    }
  }

  /**
   * For a positive window w: whenever a member works l.to on day e, they
   * worked l.from on none of the w days before e (within the horizon).
   */
  lemma IntendedLooksBack(x: Table, numDays: nat, numShifts: nat, l: Link)
    requires Shaped(x, numDays, numShifts) && LinkInRange(l, numShifts) && l.within > 0
    ensures IntendedLinkRespected(x, numDays, numShifts, l) <==>
            forall n, e, d :: 0 <= n < |x| && 0 <= e < numDays && x[n][e][l.to] && 0 <= d < e && e - l.within <= d ==>
              !x[n][d][l.from]
  {
    if IntendedLinkRespected(x, numDays, numShifts, l) {
      forall n, e, d | 0 <= n < |x| && 0 <= e < numDays && x[n][e][l.to] && 0 <= d < e && e - l.within <= d
        ensures !x[n][d][l.from]
      {
        assert MemberKeepsLinkIntended(x, numDays, numShifts, n, l);
        assert InWindow(l.within, d, e);
      }
    }
  }

  /** For window 0: no member works both shifts on the same day. */
  lemma IntendedSameDay(x: Table, numDays: nat, numShifts: nat, l: Link)
    requires Shaped(x, numDays, numShifts) && LinkInRange(l, numShifts) && l.within == 0
    ensures IntendedLinkRespected(x, numDays, numShifts, l) <==>
            forall n, d :: 0 <= n < |x| && 0 <= d < numDays ==> !(x[n][d][l.from] && x[n][d][l.to])
  {
    if IntendedLinkRespected(x, numDays, numShifts, l) {
      forall n, d | 0 <= n < |x| && 0 <= d < numDays
        ensures !(x[n][d][l.from] && x[n][d][l.to])
      {
        assert MemberKeepsLinkIntended(x, numDays, numShifts, n, l);
        assert InWindow(l.within, d, d);
      }
    }
  }

  /** The hard rules with the intended exclusion window. */
  predicate IntendedFeasible(x: Table, numDays: nat, requirements: seq<int>, links: seq<Link>, eligibility: seq<seq<nat>>)
    requires |eligibility| == |requirements| && Shaped(x, numDays, |requirements|)
    requires LinksInRange(links, |requirements|)
  {
    && Covered(x, numDays, requirements)
    && (forall i :: 0 <= i < |links| ==> IntendedLinkRespected(x, numDays, |requirements|, links[i]))
    && EligibilityRespected(x, numDays, eligibility)
  }

  /** Every table meeting the intended rules meets the written ones. */
  lemma IntendedFeasibleIsFeasible(
    x: Table, numDays: nat, requirements: seq<int>, links: seq<Link>, eligibility: seq<seq<nat>>)
    requires |eligibility| == |requirements| && Shaped(x, numDays, |requirements|)
    requires LinksInRange(links, |requirements|)
    requires IntendedFeasible(x, numDays, requirements, links, eligibility)
    ensures Feasible(x, numDays, requirements, links, eligibility)
  {
    forall i | 0 <= i < |links|
      ensures LinkRespected(x, numDays, |requirements|, links[i])
    {
      IntendedImpliesAsWritten(x, numDays, |requirements|, links[i]);
    }
  }

  /**
   * Three days, one shift linked to itself with window 2, worked on days 1
   * and 2: the written loop only looks at d = 0 and lets the pair through.
   */
  lemma TailPairUnconstrained()
    ensures Shaped([[[false], [true], [true]]], 3, 1)
    ensures LinkRespected([[[false], [true], [true]]], 3, 1, Link(0, 0, 2))
    ensures !IntendedLinkRespected([[[false], [true], [true]]], 3, 1, Link(0, 0, 2))
  {
    var x: Table := [[[false], [true], [true]]];
    assert Clash(x, 3, 1, 0, 1, 2, Link(0, 0, 2)) && InWindow(2, 1, 2);
    assert !MemberKeepsLinkIntended(x, 3, 1, 0, Link(0, 0, 2));
  }

  /**
   * One day, two shifts joined by a same-day (window 0) constraint, both
   * worked by the one member: the written loop adds nothing.
   */
  lemma SameDayLinkIgnored()
    ensures Shaped([[[true, true]]], 1, 2)
    ensures LinkRespected([[[true, true]]], 1, 2, Link(0, 1, 0))
    ensures !IntendedLinkRespected([[[true, true]]], 1, 2, Link(0, 1, 0))
  {
    var x: Table := [[[true, true]]];
    assert Clash(x, 1, 2, 0, 0, 0, Link(0, 1, 0)) && InWindow(0, 0, 0);
    assert !MemberKeepsLinkIntended(x, 1, 2, 0, Link(0, 1, 0));
  }
}
