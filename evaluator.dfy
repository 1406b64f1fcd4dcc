/** `_check_constraint_violations` and `evaluate` of scheduler/evaluator.py:
    the four hard-constraint reports and the two quality metrics of a schedule. */
module Evaluator {
  import opened Models
  import opened Lookups
  import opened Grouping
  import opened TimeRules
  import opened Violations
  import opened Overlap
  import opened Hours
  import opened Continuity
  import opened Travel

  /** The `constraint_violations` dictionary. */
  datatype ConstraintViolations = ConstraintViolations(
    unassignedVisits: set<string>,
    availabilityViolations: seq<Assignment>,
    overlapViolations: seq<OverlapViolation>,
    maxHoursViolations: seq<MaxHoursViolation>)

  /** The `optimization_metrics` dictionary. */
  datatype OptimizationMetrics = OptimizationMetrics(continuityScore: real, travelEfficiencyScore: real)

  /** The dictionary `evaluate` returns. */
  datatype Evaluation = Evaluation(constraintViolations: ConstraintViolations, optimizationMetrics: OptimizationMetrics)

  /** What `evaluate` needs to finish without a KeyError: every assignment
      names an existing visit and an existing caregiver. */
  predicate Evaluable(assignments: seq<Assignment>, visits: seq<Visit>, caregivers: seq<Caregiver>)
  {
    VisitsKnown(assignments, visits) && CaregiversKnown(assignments, caregivers)
  }

  /** Known visits are known for every caregiver's hours. */
  lemma KnownForAll(assignments: seq<Assignment>, visits: seq<Visit>, caregivers: seq<Caregiver>)
    requires VisitsKnown(assignments, visits)
    ensures VisitsKnownForAll(assignments, visits, caregivers)
  {
  }

  /** The four reports. */
  function ConstraintReport(assignments: seq<Assignment>, visits: seq<Visit>, caregivers: seq<Caregiver>): ConstraintViolations
    requires Evaluable(assignments, visits, caregivers)
  {
    KnownForAll(assignments, visits, caregivers);
    ConstraintViolations(
      UnassignedVisits(assignments, visits),
      Unavailable(assignments, visits, caregivers),
      OverlapReport(assignments, visits),
      OverHours(assignments, visits, caregivers))
  }

  /** The whole evaluation. Both metrics lie in [0, 1]. */
  function EvaluationOf(assignments: seq<Assignment>, visits: seq<Visit>, caregivers: seq<Caregiver>): (e: Evaluation)
    requires Evaluable(assignments, visits, caregivers)
    ensures 0.0 <= e.optimizationMetrics.continuityScore <= 1.0
    ensures 0.0 <= e.optimizationMetrics.travelEfficiencyScore <= 1.0
  {
    ContinuityBounds(assignments, visits);
    TravelBounds(assignments, visits);
    Evaluation(
      ConstraintReport(assignments, visits, caregivers),
      OptimizationMetrics(ContinuityOf(assignments, visits), TravelOf(assignments, visits)))
  }

  /** Nothing in any of the four reports. */
  predicate NoViolations(r: ConstraintViolations)
  {
    r.unassignedVisits == {} && r.availabilityViolations == [] && r.overlapViolations == [] && r.maxHoursViolations == []
  }

  /** Each visit has an assignment. */
  predicate AllAssigned(assignments: seq<Assignment>, visits: seq<Visit>)
  {
    forall v :: v in visits ==> v.id in (set a | a in assignments :: a.visitId)
  }

  /** Each assigned caregiver is available for its visit. */
  predicate AllAvailable(assignments: seq<Assignment>, visits: seq<Visit>, caregivers: seq<Caregiver>)
    requires Evaluable(assignments, visits, caregivers)
  {
    forall a :: a in assignments ==> AssignmentAvailable(a, visits, caregivers)
  }

  /** No caregiver has two assignments whose visits clash. */
  predicate NoClashes(assignments: seq<Assignment>, visits: seq<Visit>)
    requires VisitsKnown(assignments, visits)
  {
    forall i, j :: 0 <= i < j < |assignments| && assignments[i].caregiverId == assignments[j].caregiverId ==>
      !Clash(assignments, IndexBy(visits, VisitId), i, j)
  }

  /** No caregiver works more minutes than sixty times its limit. */
  predicate WithinLimits(assignments: seq<Assignment>, visits: seq<Visit>, caregivers: seq<Caregiver>)
    requires VisitsKnownForAll(assignments, visits, caregivers)
  {
    forall c :: c in caregivers ==> !OverLimit(assignments, visits, c)
  }

  /** The schedule meets every hard constraint. */
  predicate Feasible(assignments: seq<Assignment>, visits: seq<Visit>, caregivers: seq<Caregiver>)
    requires Evaluable(assignments, visits, caregivers)
  {
    KnownForAll(assignments, visits, caregivers);
    && AllAssigned(assignments, visits)
    && AllAvailable(assignments, visits, caregivers)
    && NoClashes(assignments, visits)
    && WithinLimits(assignments, visits, caregivers)
  }

  /** The reports are all empty exactly when the schedule is feasible. */
  lemma NoViolationsIffFeasible(assignments: seq<Assignment>, visits: seq<Visit>, caregivers: seq<Caregiver>)
    requires Evaluable(assignments, visits, caregivers)
    ensures NoViolations(ConstraintReport(assignments, visits, caregivers)) <==> Feasible(assignments, visits, caregivers)
  {
    KnownForAll(assignments, visits, caregivers);
    UnassignedIff(assignments, visits);
    UnavailableIff(assignments, visits, caregivers);
    OverlapIff(assignments, visits);
    OverHoursIff(assignments, visits, caregivers);
  }

  /** No visit is unassigned exactly when each visit has an assignment. */
  lemma UnassignedIff(assignments: seq<Assignment>, visits: seq<Visit>)
    ensures UnassignedVisits(assignments, visits) == {} <==> AllAssigned(assignments, visits)
  {
    var u := UnassignedVisits(assignments, visits);
    if u != {} {
      var id :| id in u;
      var v :| v in visits && v.id == id;
      assert v.id !in (set a | a in assignments :: a.visitId);
    } else {
      forall v | v in visits
        ensures v.id in (set a | a in assignments :: a.visitId)
      {
        assert v.id !in u;
        var a :| a in assignments && a.visitId == v.id;
      }
    }
  }

  /** No availability violation exactly when each caregiver is available. */
  lemma UnavailableIff(assignments: seq<Assignment>, visits: seq<Visit>, caregivers: seq<Caregiver>)
    requires Evaluable(assignments, visits, caregivers)
    ensures Unavailable(assignments, visits, caregivers) == [] <==> AllAvailable(assignments, visits, caregivers)
  {
    UnavailableExactly(assignments, visits, caregivers);
    var r := Unavailable(assignments, visits, caregivers);
    if r != [] {
      assert r[0] in r;
    } else {
      forall a | a in assignments
        ensures AssignmentAvailable(a, visits, caregivers)
      {
        assert multiset(r)[a] == 0;
        assert a in multiset(assignments);
      }
    }
  }

  /** No overlap violation exactly when no caregiver has clashing visits. */
  lemma OverlapIff(assignments: seq<Assignment>, visits: seq<Visit>)
    requires VisitsKnown(assignments, visits)
    ensures OverlapReport(assignments, visits) == [] <==> NoClashes(assignments, visits)
  {
    var lookup := IndexBy(visits, VisitId);
    var r := OverlapReport(assignments, visits);
    if r != [] {
      OverlapReportSound(assignments, visits, r[0]);
    } else {
      forall i, j | 0 <= i < j < |assignments| && assignments[i].caregiverId == assignments[j].caregiverId
        ensures !Clash(assignments, lookup, i, j)
      {
        if Clash(assignments, lookup, i, j) {
          var e := OverlapViolation(assignments[i].caregiverId, (assignments[i].visitId, assignments[j].visitId));
          OverlapReportComplete(assignments, visits, i, j, e);
          assert false;
        }
      }
    }
  }

  /** No max-hours violation exactly when every caregiver is within its limit. */
  lemma OverHoursIff(assignments: seq<Assignment>, visits: seq<Visit>, caregivers: seq<Caregiver>)
    requires VisitsKnownForAll(assignments, visits, caregivers)
    ensures OverHours(assignments, visits, caregivers) == [] <==> WithinLimits(assignments, visits, caregivers)
  {
    OverHoursExactly(assignments, visits, caregivers);
    var r := OverHours(assignments, visits, caregivers);
    if r != [] {
      assert r[0] in r;
    }
  }

  /** With no assignments every visit is unassigned, nothing else is violated
      except by a caregiver with a negative limit, and both metrics are 0. */
  lemma EmptySchedule(visits: seq<Visit>, caregivers: seq<Caregiver>)
    requires forall c :: c in caregivers ==> c.maxHours >= 0
    ensures var e := EvaluationOf([], visits, caregivers);
            && e.constraintViolations == ConstraintViolations(Ids(visits, VisitId), [], [], [])
            && e.optimizationMetrics == OptimizationMetrics(0.0, 0.0)
  {
    KnownForAll([], visits, caregivers);
    forall c | c in caregivers
      ensures !OverLimit([], visits, c)
    {
    }
    OverHoursIff([], visits, caregivers);
    assert Keys([], CaregiverOf) == [];
  }

  /** `_check_constraint_violations`. */
  method CheckConstraintViolations(assignments: seq<Assignment>, visits: seq<Visit>, caregivers: seq<Caregiver>)
    returns (r: ConstraintViolations)
    requires Evaluable(assignments, visits, caregivers)
    ensures r == ConstraintReport(assignments, visits, caregivers)
  {
    KnownForAll(assignments, visits, caregivers);
    var unassigned := UnassignedVisits(assignments, visits);
    var availability := AvailabilityViolations(assignments, visits, caregivers);
    var overlap := OverlapViolations(assignments, visits);
    var maxHours := MaxHoursViolations(assignments, visits, caregivers);
    r := ConstraintViolations(unassigned, availability, overlap, maxHours);
  }

  /** `evaluate`: build the result with both metrics at 0.0, then fill them in. */
  method Evaluate(assignments: seq<Assignment>, visits: seq<Visit>, caregivers: seq<Caregiver>) returns (evaluation: Evaluation)
    requires Evaluable(assignments, visits, caregivers)
    ensures evaluation == EvaluationOf(assignments, visits, caregivers)
    ensures 0.0 <= evaluation.optimizationMetrics.continuityScore <= 1.0
    ensures 0.0 <= evaluation.optimizationMetrics.travelEfficiencyScore <= 1.0
  {
    var violations := CheckConstraintViolations(assignments, visits, caregivers);
    evaluation := Evaluation(violations, OptimizationMetrics(0.0, 0.0));
    var continuity := ContinuityScore(assignments, visits);
    evaluation := evaluation.(optimizationMetrics := evaluation.optimizationMetrics.(continuityScore := continuity));
    var travel := TravelEfficiencyScore(assignments, visits);
    evaluation := evaluation.(optimizationMetrics := evaluation.optimizationMetrics.(travelEfficiencyScore := travel));
  }
}
