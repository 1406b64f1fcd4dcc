/** `_get_unassigned_visits` and `_get_availability_violations` of
    scheduler/evaluator.py. */
module Violations {
  import opened Models
  import opened Lookups
  import opened TimeRules

  /** `_get_unassigned_visits`: identifiers of visits that no assignment names.
      The source turns this set into a list in hash order; the model keeps the set. */
  function UnassignedVisits(assignments: seq<Assignment>, visits: seq<Visit>): (unassigned: set<string>)
    ensures forall id :: id in unassigned ==> id in Ids(visits, VisitId)
    ensures forall v :: v in visits ==> (v.id in unassigned <==> forall a :: a in assignments ==> a.visitId != v.id)
  {
    var assignedVisitIds := set a | a in assignments :: a.visitId;
    var allVisitIds := Ids(visits, VisitId);
    allVisitIds - assignedVisitIds
  }

  /** The caregiver named by the assignment is available for its visit, both
      found through the dictionaries (a later duplicate identifier wins). */
  predicate AssignmentAvailable(a: Assignment, visits: seq<Visit>, caregivers: seq<Caregiver>)
    requires a.visitId in Ids(visits, VisitId) && a.caregiverId in Ids(caregivers, CaregiverId)
  {
    var visit := IndexBy(visits, VisitId)[a.visitId];
    var caregiver := IndexBy(caregivers, CaregiverId)[a.caregiverId];
    Available(caregiver.availability, visit)
  }

  /** The assignments whose caregiver is not available, in assignment order. */
  function Unavailable(assignments: seq<Assignment>, visits: seq<Visit>, caregivers: seq<Caregiver>): seq<Assignment>
    requires VisitsKnown(assignments, visits) && CaregiversKnown(assignments, caregivers)
    decreases |assignments|
  {
    if assignments == [] then []
    else
      var init := assignments[..|assignments| - 1];
      var a := assignments[|assignments| - 1];
      assert forall x :: x in init ==> x in assignments;
      Unavailable(init, visits, caregivers) +
      if !AssignmentAvailable(a, visits, caregivers) then [a] else []
  }

  /** Every unavailable assignment is reported as often as it occurs, and
      nothing else is. */
  lemma UnavailableExactly(assignments: seq<Assignment>, visits: seq<Visit>, caregivers: seq<Caregiver>)
    requires VisitsKnown(assignments, visits) && CaregiversKnown(assignments, caregivers)
    ensures |Unavailable(assignments, visits, caregivers)| <= |assignments|
    ensures forall a :: a in assignments ==>
              multiset(Unavailable(assignments, visits, caregivers))[a] ==
              if AssignmentAvailable(a, visits, caregivers) then 0 else multiset(assignments)[a]
    ensures forall a :: a in Unavailable(assignments, visits, caregivers) ==>
              a in assignments && !AssignmentAvailable(a, visits, caregivers)
  {
    UnavailableSound(assignments, visits, caregivers);
    forall a | a in assignments
      ensures multiset(Unavailable(assignments, visits, caregivers))[a] ==
              if AssignmentAvailable(a, visits, caregivers) then 0 else multiset(assignments)[a]
    {
      UnavailableCount(assignments, visits, caregivers, a);
    }
  }

  /** The report is a sub-list of unavailable assignments. */
  lemma {:induction false} UnavailableSound(assignments: seq<Assignment>, visits: seq<Visit>, caregivers: seq<Caregiver>)
    requires VisitsKnown(assignments, visits) && CaregiversKnown(assignments, caregivers)
    ensures |Unavailable(assignments, visits, caregivers)| <= |assignments|
    ensures forall a :: a in Unavailable(assignments, visits, caregivers) ==>
              a in assignments && !AssignmentAvailable(a, visits, caregivers)
    decreases |assignments|
  {
    if assignments != [] {
      var init := assignments[..|assignments| - 1];
      assert assignments == init + [assignments[|assignments| - 1]];
      assert forall x :: x in init ==> x in assignments;
      UnavailableSound(init, visits, caregivers);
    }
  }

  /** An assignment a of the list is reported as often as it occurs when its
      caregiver is unavailable, and never otherwise. */
  lemma {:induction false} UnavailableCount(assignments: seq<Assignment>, visits: seq<Visit>, caregivers: seq<Caregiver>, a: Assignment)
    requires VisitsKnown(assignments, visits) && CaregiversKnown(assignments, caregivers)
    requires a.visitId in Ids(visits, VisitId) && a.caregiverId in Ids(caregivers, CaregiverId)
    ensures multiset(Unavailable(assignments, visits, caregivers))[a] ==
            if AssignmentAvailable(a, visits, caregivers) then 0 else multiset(assignments)[a]
    decreases |assignments|
  {
    if assignments != [] {
      var init := assignments[..|assignments| - 1];
      var last := assignments[|assignments| - 1];
      assert assignments == init + [last];
      assert forall x :: x in init ==> x in assignments;
      UnavailableCount(init, visits, caregivers, a);
      var added: seq<Assignment> := if !AssignmentAvailable(last, visits, caregivers) then [last] else [];
      assert Unavailable(assignments, visits, caregivers) == Unavailable(init, visits, caregivers) + added;
      assert multiset(Unavailable(assignments, visits, caregivers))[a] ==
             multiset(Unavailable(init, visits, caregivers))[a] + multiset(added)[a];
      assert multiset(assignments)[a] == multiset(init)[a] + multiset([last])[a];
      if last == a {
        assert multiset(added)[a] == if AssignmentAvailable(a, visits, caregivers) then 0 else 1;
      } else {
        assert multiset(added)[a] == 0 && multiset([last])[a] == 0;
      }
    }
  }

  /** `_get_availability_violations`: keep each assignment whose caregiver is
      not available for its visit. */
  method AvailabilityViolations(assignments: seq<Assignment>, visits: seq<Visit>, caregivers: seq<Caregiver>)
    returns (violations: seq<Assignment>)
    requires VisitsKnown(assignments, visits) && CaregiversKnown(assignments, caregivers)
    ensures violations == Unavailable(assignments, visits, caregivers)
  {
    var visitLookup := IndexBy(visits, VisitId);
    var caregiverLookup := IndexBy(caregivers, CaregiverId);
    violations := [];
    for i := 0 to |assignments|
      invariant violations == Unavailable(assignments[..i], visits, caregivers)
    {
      var assignment := assignments[i];
      assert assignments[..i + 1][..i] == assignments[..i];
      var visit := visitLookup[assignment.visitId];
      var caregiver := caregiverLookup[assignment.caregiverId];
      var available := IsCaregiverAvailable(caregiver, visit);
      if !available {
        violations := violations + [assignment];
      }
    }
    assert assignments[..|assignments|] == assignments;
  }
}
