/** `_calculate_caregiver_hours` and `_get_max_hours_violations` of
    scheduler/evaluator.py. Hours are exact reals; the specification counts
    whole minutes. */
module Hours {
  import opened Models
  import opened Lookups

  /** Length of a visit in minutes, `end_minutes - start_minutes`. It is
      negative for a visit whose end lies before its start. */
  function Duration(v: Visit): int
  {
    v.end - v.start
  }

  /** Every assignment of the caregiver names an existing visit: `next(...)`
      raises StopIteration otherwise. */
  predicate VisitsKnownFor(assignments: seq<Assignment>, visits: seq<Visit>, caregiverId: string)
  {
    forall a :: a in assignments && a.caregiverId == caregiverId ==> a.visitId in Ids(visits, VisitId)
  }

  /** Total minutes of the caregiver's assignments, each visit found by its first match. */
  function AssignedMinutes(assignments: seq<Assignment>, visits: seq<Visit>, caregiverId: string): int
    requires VisitsKnownFor(assignments, visits, caregiverId)
    decreases |assignments|
  {
    if assignments == [] then 0
    else
      var a := assignments[|assignments| - 1];
      AssignedMinutes(assignments[..|assignments| - 1], visits, caregiverId) +
      if a.caregiverId == caregiverId then Duration(FirstBy(visits, VisitId, a.visitId)) else 0
  }

  /** Minutes add up over concatenated assignment lists. */
  lemma {:induction false} AssignedMinutesAppend(xs: seq<Assignment>, ys: seq<Assignment>, visits: seq<Visit>, caregiverId: string)
    requires VisitsKnownFor(xs + ys, visits, caregiverId)
    ensures VisitsKnownFor(xs, visits, caregiverId) && VisitsKnownFor(ys, visits, caregiverId)
    ensures AssignedMinutes(xs + ys, visits, caregiverId) ==
            AssignedMinutes(xs, visits, caregiverId) + AssignedMinutes(ys, visits, caregiverId)
    decreases |ys|
  {
    assert forall a :: a in xs ==> a in xs + ys;
    assert forall a :: a in ys ==> a in xs + ys;
    if ys == [] {
      assert xs + ys == xs;
    } else {
      var init := ys[..|ys| - 1];
      assert (xs + ys)[..|xs + ys| - 1] == xs + init;
      assert forall a :: a in init ==> a in ys;
      AssignedMinutesAppend(xs, init, visits, caregiverId);
    }
  }

  /** Assignments of other caregivers contribute nothing. */
  lemma {:induction false} OtherCaregiversIgnored(assignments: seq<Assignment>, visits: seq<Visit>, caregiverId: string)
    requires forall a :: a in assignments ==> a.caregiverId != caregiverId
    ensures VisitsKnownFor(assignments, visits, caregiverId)
    ensures AssignedMinutes(assignments, visits, caregiverId) == 0
    decreases |assignments|
  {
    if assignments != [] {
      var init := assignments[..|assignments| - 1];
      assert forall a :: a in init ==> a in assignments;
      OtherCaregiversIgnored(init, visits, caregiverId);
    }
  }

  /** When every visit ends no earlier than it starts, no caregiver has negative minutes. */
  lemma {:induction false} AssignedMinutesNonNegative(assignments: seq<Assignment>, visits: seq<Visit>, caregiverId: string)
    requires VisitsKnownFor(assignments, visits, caregiverId)
    requires forall v :: v in visits ==> v.start <= v.end
    ensures AssignedMinutes(assignments, visits, caregiverId) >= 0
    decreases |assignments|
  {
    if assignments != [] {
      var init := assignments[..|assignments| - 1];
      assert forall a :: a in init ==> a in assignments;
      AssignedMinutesNonNegative(init, visits, caregiverId);
    }
  }

  /** The comparison of real hours with the integer limit is the comparison of
      minutes with sixty times the limit. */
  lemma ExceedsInMinutes(minutes: int, maxHours: int)
    ensures (minutes as real / 60.0 > maxHours as real) <==> minutes > 60 * maxHours
  {
    assert minutes as real / 60.0 * 60.0 == minutes as real;
    if minutes > 60 * maxHours {
      assert minutes as real > 60.0 * maxHours as real;
    } else {
      assert minutes as real <= 60.0 * maxHours as real;
    }
  }

  /** `_calculate_caregiver_hours`: sum the hours of the caregiver's visits. */
  method CaregiverHours(assignments: seq<Assignment>, visits: seq<Visit>, caregiverId: string) returns (totalHours: real)
    requires VisitsKnownFor(assignments, visits, caregiverId)
    ensures totalHours == AssignedMinutes(assignments, visits, caregiverId) as real / 60.0
  {
    totalHours := 0.0;
    for i := 0 to |assignments|
      invariant VisitsKnownFor(assignments[..i], visits, caregiverId)
      invariant totalHours == AssignedMinutes(assignments[..i], visits, caregiverId) as real / 60.0
    {
      var assignment := assignments[i];
      assert assignments[..i + 1][..i] == assignments[..i];
      assert forall a :: a in assignments[..i + 1] ==> a in assignments;
      if assignment.caregiverId == caregiverId {
        var visit := FirstBy(visits, VisitId, assignment.visitId);
        var startMinutes: int := visit.start;
        var endMinutes: int := visit.end;
        var hours := (endMinutes - startMinutes) as real / 60.0;
        totalHours := totalHours + hours;
      }
    }
    assert assignments[..|assignments|] == assignments;
  }

  /** One entry of the max-hours report. */
  datatype MaxHoursViolation = MaxHoursViolation(caregiverId: string, assignedHours: real, maxHours: int)

  /** Every assignment of a listed caregiver names an existing visit. */
  predicate VisitsKnownForAll(assignments: seq<Assignment>, visits: seq<Visit>, caregivers: seq<Caregiver>)
  {
    forall c :: c in caregivers ==> VisitsKnownFor(assignments, visits, c.id)
  }

  /** The caregiver is over its limit. */
  predicate OverLimit(assignments: seq<Assignment>, visits: seq<Visit>, c: Caregiver)
    requires VisitsKnownFor(assignments, visits, c.id)
  {
    AssignedMinutes(assignments, visits, c.id) > 60 * c.maxHours
  }

  /** The report entry for a caregiver. */
  function Entry(assignments: seq<Assignment>, visits: seq<Visit>, c: Caregiver): MaxHoursViolation
    requires VisitsKnownFor(assignments, visits, c.id)
  {
    MaxHoursViolation(c.id, AssignedMinutes(assignments, visits, c.id) as real / 60.0, c.maxHours)
  }

  /** The report: one entry per caregiver over its limit, in caregiver order. */
  function OverHours(assignments: seq<Assignment>, visits: seq<Visit>, caregivers: seq<Caregiver>): seq<MaxHoursViolation>
    requires VisitsKnownForAll(assignments, visits, caregivers)
    decreases |caregivers|
  {
    if caregivers == [] then []
    else
      var c := caregivers[|caregivers| - 1];
      OverHours(assignments, visits, caregivers[..|caregivers| - 1]) +
      if OverLimit(assignments, visits, c) then [Entry(assignments, visits, c)] else []
  }

  /** An entry is reported exactly for the caregivers over their limit, with
      their exact hours and limit. */
  lemma {:induction false} OverHoursExactly(assignments: seq<Assignment>, visits: seq<Visit>, caregivers: seq<Caregiver>)
    requires VisitsKnownForAll(assignments, visits, caregivers)
    ensures |OverHours(assignments, visits, caregivers)| <= |caregivers|
    ensures forall c :: c in caregivers && OverLimit(assignments, visits, c) ==>
              Entry(assignments, visits, c) in OverHours(assignments, visits, caregivers)
    ensures forall e :: e in OverHours(assignments, visits, caregivers) ==>
              exists c :: c in caregivers && OverLimit(assignments, visits, c) && e == Entry(assignments, visits, c)
    decreases |caregivers|
  {
    if caregivers != [] {
      var init := caregivers[..|caregivers| - 1];
      assert caregivers == init + [caregivers[|caregivers| - 1]];
      OverHoursExactly(assignments, visits, init);
    }
  }

  /** A caregiver listed twice and over its limit is reported twice. */
  lemma CaregiverListedTwiceReportedTwice()
    ensures var visits := [Visit("v1", "MONDAY", 480, 780, "c1", "s", "n"),
                           Visit("v2", "TUESDAY", 480, 780, "c2", "s", "n")];
            var assignments := [Assignment("v1", "g1"), Assignment("v2", "g1")];
            var caregivers := [Caregiver("g1", "Ann", 8, [], []), Caregiver("g1", "Ann", 8, [], [])];
            VisitsKnownForAll(assignments, visits, caregivers) &&
            OverHours(assignments, visits, caregivers) == [MaxHoursViolation("g1", 10.0, 8), MaxHoursViolation("g1", 10.0, 8)]
  {
    var visits := [Visit("v1", "MONDAY", 480, 780, "c1", "s", "n"),
                   Visit("v2", "TUESDAY", 480, 780, "c2", "s", "n")];
    var assignments := [Assignment("v1", "g1"), Assignment("v2", "g1")];
    var c := Caregiver("g1", "Ann", 8, [], []);
    assert visits[0] in visits && visits[1] in visits;
    assert VisitId(visits[0]) in Ids(visits, VisitId) && VisitId(visits[1]) in Ids(visits, VisitId);
    assert assignments[..1] == [assignments[0]];
    assert AssignedMinutes(assignments, visits, "g1") == 600;
    assert [c, c][..1] == [c];
  }

  /** `_get_max_hours_violations`: compute each caregiver's hours and report
      those above `max_hours`. */
  method MaxHoursViolations(assignments: seq<Assignment>, visits: seq<Visit>, caregivers: seq<Caregiver>)
    returns (violations: seq<MaxHoursViolation>)
    requires VisitsKnownForAll(assignments, visits, caregivers)
    ensures violations == OverHours(assignments, visits, caregivers)
  {
    violations := [];
    for i := 0 to |caregivers|
      invariant violations == OverHours(assignments, visits, caregivers[..i])
    {
      var caregiver := caregivers[i];
      assert caregivers[..i + 1][..i] == caregivers[..i];
      var totalHours := CaregiverHours(assignments, visits, caregiver.id);
      ExceedsInMinutes(AssignedMinutes(assignments, visits, caregiver.id), caregiver.maxHours);
      if totalHours > caregiver.maxHours as real {
        violations := violations + [MaxHoursViolation(caregiver.id, totalHours, caregiver.maxHours)];
      }
    }
    assert caregivers[..|caregivers|] == caregivers;
  }

  /** A caregiver with an 8-hour limit and two 5-hour visits on different days
      is reported with 10 assigned hours. */
  lemma TwoFiveHourVisitsExceedEight()
    ensures var visits := [Visit("v1", "MONDAY", 480, 780, "c1", "s", "n"),
                           Visit("v2", "TUESDAY", 480, 780, "c2", "s", "n")];
            var assignments := [Assignment("v1", "g1"), Assignment("v2", "g1")];
            var caregivers := [Caregiver("g1", "Ann", 8, [], [])];
            VisitsKnownForAll(assignments, visits, caregivers) &&
            OverHours(assignments, visits, caregivers) == [MaxHoursViolation("g1", 10.0, 8)]
  {
    var visits := [Visit("v1", "MONDAY", 480, 780, "c1", "s", "n"),
                   Visit("v2", "TUESDAY", 480, 780, "c2", "s", "n")];
    var assignments := [Assignment("v1", "g1"), Assignment("v2", "g1")];
    assert visits[0] in visits && visits[1] in visits;
    assert VisitId(visits[0]) in Ids(visits, VisitId) && VisitId(visits[1]) in Ids(visits, VisitId);
    assert assignments[..1] == [assignments[0]];
    assert AssignedMinutes(assignments, visits, "g1") == 600;
  }
}
