/** `_get_overlap_violations` of scheduler/evaluator.py: group the assignments
    by caregiver, then report every pair of one caregiver's assignments, earlier
    one first, whose visits fall on the same day and overlap in time. */
module Overlap {
  import opened Models
  import opened Lookups
  import opened TimeRules
  import opened Grouping

  /** One entry of the report: the caregiver and the two visit identifiers. */
  datatype OverlapViolation = OverlapViolation(caregiverId: string, conflictingVisits: (string, string))

  function CaregiverOf(a: Assignment): string { a.caregiverId }

  /** Every assignment can be looked up in the visit dictionary. */
  predicate Resolvable(g: seq<Assignment>, lookup: map<string, Visit>)
  {
    forall a :: a in g ==> a.visitId in lookup
  }

  /** The visits of positions i and j of g are both in the dictionary, on the
      same day, and overlap. */
  predicate Clash(g: seq<Assignment>, lookup: map<string, Visit>, i: int, j: int)
    requires 0 <= i < |g| && 0 <= j < |g|
  {
    && g[i].visitId in lookup && g[j].visitId in lookup
    && var v1 := lookup[g[i].visitId];
       var v2 := lookup[g[j].visitId];
       v1.day == v2.day && TimesOverlap(v1.start, v1.end, v2.start, v2.end)
  }

  /** The pair (i, j); completeness facts are stated about it so that they
      come into play only where a pair of positions is named. */
  function PairOf(i: nat, j: nat): (nat, nat) { (i, j) }

  /** The clashing pairs (i, j) with i < j < hi, in increasing j. */
  function RowPairs(g: seq<Assignment>, lookup: map<string, Visit>, i: nat, hi: nat): (ps: seq<(nat, nat)>)
    requires i < |g| && hi <= |g|
    ensures forall p :: p in ps ==> p.0 == i && i < p.1 < hi
    ensures forall j {:trigger PairOf(i, j)} :: i < j < hi && Clash(g, lookup, i, j) ==> PairOf(i, j) in ps
    decreases hi
  {
    if hi <= i + 1 then []
    else RowPairs(g, lookup, i, hi - 1) + if Clash(g, lookup, i, hi - 1) then [(i, hi - 1)] else []
  }

  /** The clashing pairs (i, j) with i < n and i < j < |g|, in the order the
      two nested loops meet them. */
  function Pairs(g: seq<Assignment>, lookup: map<string, Visit>, n: nat): (ps: seq<(nat, nat)>)
    requires n <= |g|
    ensures forall p :: p in ps ==> p.0 < n && p.0 < p.1 < |g|
    ensures forall i, j {:trigger PairOf(i, j)} :: 0 <= i < n && i < j < |g| && Clash(g, lookup, i, j) ==> PairOf(i, j) in ps
    decreases n
  {
    if n == 0 then [] else Pairs(g, lookup, n - 1) + RowPairs(g, lookup, n - 1, |g|)
  }

  predicate PairLess(p: (nat, nat), q: (nat, nat))
  {
    p.0 < q.0 || (p.0 == q.0 && p.1 < q.1)
  }

  /** Strictly increasing pairs: in particular, no pair twice. */
  predicate StrictlyOrdered(ps: seq<(nat, nat)>)
  {
    forall a, b :: 0 <= a < b < |ps| ==> PairLess(ps[a], ps[b])
  }

  /** Every pair of the row of i clashes. */
  lemma {:induction false} RowPairsSound(g: seq<Assignment>, lookup: map<string, Visit>, i: nat, hi: nat)
    requires i < |g| && hi <= |g|
    ensures forall p :: p in RowPairs(g, lookup, i, hi) ==> Clash(g, lookup, p.0, p.1)
    decreases hi
  {
    if hi > i + 1 {
      RowPairsSound(g, lookup, i, hi - 1);
      var before := RowPairs(g, lookup, i, hi - 1);
      var added: seq<(nat, nat)> := if Clash(g, lookup, i, hi - 1) then [(i, hi - 1)] else [];
      assert RowPairs(g, lookup, i, hi) == before + added;
      forall p: (nat, nat) | p in before + added
        ensures Clash(g, lookup, p.0, p.1)
      {
        if p !in before {
          assert p in added;
        }
      }
    }
  }

  /** The row of i is in increasing order of j. */
  lemma {:induction false} RowPairsOrdered(g: seq<Assignment>, lookup: map<string, Visit>, i: nat, hi: nat)
    requires i < |g| && hi <= |g|
    ensures StrictlyOrdered(RowPairs(g, lookup, i, hi))
    decreases hi
  {
    if hi > i + 1 {
      RowPairsOrdered(g, lookup, i, hi - 1);
      var before := RowPairs(g, lookup, i, hi - 1);
      if Clash(g, lookup, i, hi - 1) {
        var all := before + [(i, hi - 1)];
        assert RowPairs(g, lookup, i, hi) == all;
        forall a, b | 0 <= a < b < |all|
          ensures PairLess(all[a], all[b])
        {
          if b < |before| {
            assert all[a] == before[a] && all[b] == before[b];
          } else {
            assert all[a] == before[a] && before[a] in before;
          }
        }
      } else {
        assert RowPairs(g, lookup, i, hi) == before + [];
        assert before + [] == before;
      }
    }
  }

  /** The row of i has at most one pair per later position. */
  lemma {:induction false} RowPairsLength(g: seq<Assignment>, lookup: map<string, Visit>, i: nat, hi: nat)
    requires i < |g| && hi <= |g|
    ensures i < hi ==> |RowPairs(g, lookup, i, hi)| <= hi - i - 1
    decreases hi
  {
    if hi > i + 1 {
      RowPairsLength(g, lookup, i, hi - 1);
    }
  }

  /** Every reported pair is i < j within the group, with clashing visits. */
  lemma {:induction false} PairsSound(g: seq<Assignment>, lookup: map<string, Visit>, n: nat)
    requires n <= |g|
    ensures forall p :: p in Pairs(g, lookup, n) ==> Clash(g, lookup, p.0, p.1)
    decreases n
  {
    if n > 0 {
      PairsSound(g, lookup, n - 1);
      RowPairsSound(g, lookup, n - 1, |g|);
      var before := Pairs(g, lookup, n - 1);
      var row := RowPairs(g, lookup, n - 1, |g|);
      assert Pairs(g, lookup, n) == before + row;
      forall p: (nat, nat) | p in before + row
        ensures Clash(g, lookup, p.0, p.1)
      {
        if p !in before {
          assert p in row;
        }
      }
    }
  }

  /** Every clashing pair i < j of the group is reported. */
  lemma PairsComplete(g: seq<Assignment>, lookup: map<string, Visit>, n: nat, i: nat, j: nat)
    requires n <= |g|
    requires i < n && i < j < |g| && Clash(g, lookup, i, j)
    ensures (i, j) in Pairs(g, lookup, n)
  {
    assert PairOf(i, j) in Pairs(g, lookup, n);
  }

  /** Pairs come out in strictly increasing order, so none is reported twice. */
  lemma {:induction false} PairsOrdered(g: seq<Assignment>, lookup: map<string, Visit>, n: nat)
    requires n <= |g|
    ensures StrictlyOrdered(Pairs(g, lookup, n))
    decreases n
  {
    if n > 0 {
      PairsOrdered(g, lookup, n - 1);
      RowPairsOrdered(g, lookup, n - 1, |g|);
      PairsOrderedStep(g, lookup, n);
    }
  }

  lemma PairsOrderedStep(g: seq<Assignment>, lookup: map<string, Visit>, n: nat)
    requires 0 < n <= |g|
    requires StrictlyOrdered(Pairs(g, lookup, n - 1)) && StrictlyOrdered(RowPairs(g, lookup, n - 1, |g|))
    ensures StrictlyOrdered(Pairs(g, lookup, n))
  {
    var before := Pairs(g, lookup, n - 1);
    var row := RowPairs(g, lookup, n - 1, |g|);
    assert Pairs(g, lookup, n) == before + row;
    OrderedAppend(before, row, n - 1);
  }

  /** Ordered pairs whose first components are below m, followed by ordered
      pairs whose first component is m, stay ordered. */
  lemma OrderedAppend(before: seq<(nat, nat)>, row: seq<(nat, nat)>, m: nat)
    requires StrictlyOrdered(before) && StrictlyOrdered(row)
    requires forall p :: p in before ==> p.0 < m
    requires forall p :: p in row ==> p.0 == m
    ensures StrictlyOrdered(before + row)
  {
    var all := before + row;
    forall a, b | 0 <= a < b < |all|
      ensures PairLess(all[a], all[b])
    {
      if b < |before| {
        assert all[a] == before[a] && all[b] == before[b];
      } else if a < |before| {
        assert all[a] == before[a] && before[a] in before;
        assert all[b] == row[b - |before|] && row[b - |before|] in row;
      } else {
        assert all[a] == row[a - |before|] && all[b] == row[b - |before|];
      }
    }
  }

  /** A group of k assignments yields at most k(k-1)/2 pairs. */
  lemma {:induction false} PairsCount(g: seq<Assignment>, lookup: map<string, Visit>, n: nat)
    requires n <= |g|
    ensures 2 * |Pairs(g, lookup, n)| <= n * (2 * |g| - n - 1)
    decreases n
  {
    if n > 0 {
      PairsCount(g, lookup, n - 1);
      RowPairsLength(g, lookup, n - 1, |g|);
      assert |Pairs(g, lookup, n)| == |Pairs(g, lookup, n - 1)| + |RowPairs(g, lookup, n - 1, |g|)|;
      TriangleStep(n, |g|);
    }
  }

  lemma TriangleStep(n: int, k: int)
    ensures (n - 1) * (2 * k - n) + 2 * (k - n) == n * (2 * k - n - 1)
  {
    calc {
      (n - 1) * (2 * k - n) + 2 * (k - n);
      == n * (2 * k - n) - (2 * k - n) + 2 * k - 2 * n;
      == n * (2 * k - n) - n;
      == n * (2 * k - n - 1);
    }
  }

  lemma GroupPairsAtMostHalfSquare(g: seq<Assignment>, lookup: map<string, Visit>)
    ensures |Pairs(g, lookup, |g|)| <= |g| * (|g| - 1) / 2
  {
    PairsCount(g, lookup, |g|);
  }

  /** The report entries for pairs of g. */
  function Report(caregiverId: string, g: seq<Assignment>, ps: seq<(nat, nat)>): seq<OverlapViolation>
    requires forall p :: p in ps ==> p.0 < |g| && p.1 < |g|
    decreases |ps|
  {
    if ps == [] then []
    else
      var p := ps[|ps| - 1];
      Report(caregiverId, g, ps[..|ps| - 1]) + [OverlapViolation(caregiverId, (g[p.0].visitId, g[p.1].visitId))]
  }

  lemma {:induction false} ReportAppend(caregiverId: string, g: seq<Assignment>, ps: seq<(nat, nat)>, qs: seq<(nat, nat)>)
    requires forall p :: p in ps + qs ==> p.0 < |g| && p.1 < |g|
    ensures Report(caregiverId, g, ps + qs) == Report(caregiverId, g, ps) + Report(caregiverId, g, qs)
    decreases |qs|
  {
    if qs == [] {
      assert ps + qs == ps;
    } else {
      var init := qs[..|qs| - 1];
      assert (ps + qs)[..|ps + qs| - 1] == ps + init;
      ReportAppend(caregiverId, g, ps, init);
    }
  }

  /** An entry is in the report exactly when it is the entry of a listed pair. */
  lemma {:induction false} ReportMembers(caregiverId: string, g: seq<Assignment>, ps: seq<(nat, nat)>)
    requires forall p :: p in ps ==> p.0 < |g| && p.1 < |g|
    ensures forall p :: p in ps ==> OverlapViolation(caregiverId, (g[p.0].visitId, g[p.1].visitId)) in Report(caregiverId, g, ps)
    ensures forall e :: e in Report(caregiverId, g, ps) ==>
              exists p :: p in ps && e == OverlapViolation(caregiverId, (g[p.0].visitId, g[p.1].visitId))
    ensures |Report(caregiverId, g, ps)| == |ps|
    decreases |ps|
  {
    if ps != [] {
      var init := ps[..|ps| - 1];
      assert ps == init + [ps[|ps| - 1]];
      ReportMembers(caregiverId, g, init);
    }
  }

  /** The entries the nested loops produce for one caregiver's group. */
  function GroupReport(caregiverId: string, g: seq<Assignment>, lookup: map<string, Visit>): seq<OverlapViolation>
  {
    Report(caregiverId, g, Pairs(g, lookup, |g|))
  }

  /** The entries for the groups of the given caregivers, in that order. */
  function GroupsReport(assignments: seq<Assignment>, lookup: map<string, Visit>, caregiverIds: seq<string>): seq<OverlapViolation>
    decreases |caregiverIds|
  {
    if caregiverIds == [] then []
    else
      var cid := caregiverIds[|caregiverIds| - 1];
      GroupsReport(assignments, lookup, caregiverIds[..|caregiverIds| - 1]) +
      GroupReport(cid, Members(assignments, CaregiverOf, cid), lookup)
  }

  /** The whole report: groups in order of first appearance of their caregiver. */
  function OverlapReport(assignments: seq<Assignment>, visits: seq<Visit>): seq<OverlapViolation>
    requires VisitsKnown(assignments, visits)
  {
    var lookup := IndexBy(visits, VisitId);
    GroupsReport(assignments, lookup, Keys(assignments, CaregiverOf))
  }

  /** Positions i < j of the assignment list name the same caregiver and
      clashing visits, and e is their report entry. */
  predicate ConflictAt(assignments: seq<Assignment>, lookup: map<string, Visit>, i: int, j: int, e: OverlapViolation)
  {
    && 0 <= i < j < |assignments|
    && assignments[i].caregiverId == assignments[j].caregiverId
    && Clash(assignments, lookup, i, j)
    && e == OverlapViolation(assignments[i].caregiverId, (assignments[i].visitId, assignments[j].visitId))
  }

  /** An entry of the groups' report comes from the group of one of the caregivers. */
  lemma {:induction false} GroupsReportSource(assignments: seq<Assignment>, lookup: map<string, Visit>, caregiverIds: seq<string>, e: OverlapViolation)
    requires e in GroupsReport(assignments, lookup, caregiverIds)
    ensures exists n :: 0 <= n < |caregiverIds| &&
              e in GroupReport(caregiverIds[n], Members(assignments, CaregiverOf, caregiverIds[n]), lookup)
    decreases |caregiverIds|
  {
    var last := |caregiverIds| - 1;
    var init := caregiverIds[..last];
    var cid := caregiverIds[last];
    if e !in GroupReport(cid, Members(assignments, CaregiverOf, cid), lookup) {
      GroupsReportSource(assignments, lookup, init, e);
      var n :| 0 <= n < |init| && e in GroupReport(init[n], Members(assignments, CaregiverOf, init[n]), lookup);
      assert init[n] == caregiverIds[n];
    }
  }

  /** Every entry of a listed caregiver's group is in the groups' report. */
  lemma {:induction false} GroupsReportContains(assignments: seq<Assignment>, lookup: map<string, Visit>, caregiverIds: seq<string>, cid: string, e: OverlapViolation)
    requires cid in caregiverIds
    requires e in GroupReport(cid, Members(assignments, CaregiverOf, cid), lookup)
    ensures e in GroupsReport(assignments, lookup, caregiverIds)
    decreases |caregiverIds|
  {
    var init := caregiverIds[..|caregiverIds| - 1];
    if cid != caregiverIds[|caregiverIds| - 1] {
      assert caregiverIds == init + [caregiverIds[|caregiverIds| - 1]];
      assert cid in init;
      GroupsReportContains(assignments, lookup, init, cid, e);
    }
  }

  /** Each reported entry comes from positions i < j of the assignment list with
      the same caregiver and clashing visits. */
  lemma OverlapReportSound(assignments: seq<Assignment>, visits: seq<Visit>, e: OverlapViolation)
    requires VisitsKnown(assignments, visits)
    requires e in OverlapReport(assignments, visits)
    ensures exists i, j :: ConflictAt(assignments, IndexBy(visits, VisitId), i, j, e)
  {
    var lookup := IndexBy(visits, VisitId);
    var keys := Keys(assignments, CaregiverOf);
    GroupsReportSource(assignments, lookup, keys, e);
    var n :| 0 <= n < |keys| && e in GroupReport(keys[n], Members(assignments, CaregiverOf, keys[n]), lookup);
    GroupReportSource(assignments, lookup, keys[n], e);
  }

  /** An entry of one caregiver's report comes from two of that caregiver's
      assignments, in list order, with clashing visits. */
  lemma GroupReportSource(assignments: seq<Assignment>, lookup: map<string, Visit>, cid: string, e: OverlapViolation)
    requires e in GroupReport(cid, Members(assignments, CaregiverOf, cid), lookup)
    ensures exists i, j :: ConflictAt(assignments, lookup, i, j, e)
  {
    var g := Members(assignments, CaregiverOf, cid);
    var ps := Pairs(g, lookup, |g|);
    ReportMembers(cid, g, ps);
    var p :| p in ps && e == OverlapViolation(cid, (g[p.0].visitId, g[p.1].visitId));
    PairsSound(g, lookup, |g|);
    MembersOrder(assignments, CaregiverOf, cid, p.0, p.1);
    var i, j :| 0 <= i < j < |assignments| && assignments[i] == g[p.0] && assignments[j] == g[p.1];
    assert g[p.0] in g && g[p.1] in g;
    assert Clash(assignments, lookup, i, j);
    assert ConflictAt(assignments, lookup, i, j, e);
  }

  /** Each pair i < j of the assignment list with the same caregiver and
      clashing visits is reported. */
  lemma OverlapReportComplete(assignments: seq<Assignment>, visits: seq<Visit>, i: int, j: int, e: OverlapViolation)
    requires VisitsKnown(assignments, visits)
    requires ConflictAt(assignments, IndexBy(visits, VisitId), i, j, e)
    ensures e in OverlapReport(assignments, visits)
  {
    var lookup := IndexBy(visits, VisitId);
    var keys := Keys(assignments, CaregiverOf);
    var cid := assignments[i].caregiverId;
    assert CaregiverOf(assignments[i]) == cid && CaregiverOf(assignments[j]) == cid;
    MembersPositions(assignments, CaregiverOf, i, j);
    var g := Members(assignments, CaregiverOf, cid);
    var p, q :| 0 <= p < q < |g| && g[p] == assignments[i] && g[q] == assignments[j];
    assert Clash(g, lookup, p, q);
    PairsComplete(g, lookup, |g|, p, q);
    ReportMembers(cid, g, Pairs(g, lookup, |g|));
    assert e in GroupReport(cid, g, lookup);
    GroupsReportContains(assignments, lookup, keys, cid, e);
  }

  /** Some positions i < j of the assignment list have e as their entry. */
  ghost predicate Conflicting(assignments: seq<Assignment>, visits: seq<Visit>, e: OverlapViolation)
    requires VisitsKnown(assignments, visits)
  {
    exists i, j :: ConflictAt(assignments, IndexBy(visits, VisitId), i, j, e)
  }

  /** The report holds exactly the entries of the pairs i < j of the
      assignment list with the same caregiver and clashing visits. */
  lemma OverlapReportExactly(assignments: seq<Assignment>, visits: seq<Visit>)
    requires VisitsKnown(assignments, visits)
    ensures forall e :: e in OverlapReport(assignments, visits) <==> Conflicting(assignments, visits, e)
  {
    forall e | e in OverlapReport(assignments, visits)
      ensures Conflicting(assignments, visits, e)
    {
      OverlapReportSound(assignments, visits, e);
    }
    forall e | Conflicting(assignments, visits, e)
      ensures e in OverlapReport(assignments, visits)
    {
      var i, j :| ConflictAt(assignments, IndexBy(visits, VisitId), i, j, e);
      OverlapReportComplete(assignments, visits, i, j, e);
    }
  }

  /** An assignment listed twice clashes with itself: a visit of positive
      length overlaps itself, so the pair of its two positions is reported. */
  lemma DuplicateAssignmentConflictsWithItself(assignments: seq<Assignment>, visits: seq<Visit>, i: int, j: int)
    requires VisitsKnown(assignments, visits)
    requires 0 <= i < j < |assignments| && assignments[i] == assignments[j]
    requires assignments[i].visitId in IndexBy(visits, VisitId)
    requires IndexBy(visits, VisitId)[assignments[i].visitId].start < IndexBy(visits, VisitId)[assignments[i].visitId].end
    ensures OverlapViolation(assignments[i].caregiverId, (assignments[i].visitId, assignments[i].visitId))
            in OverlapReport(assignments, visits)
  {
    var e := OverlapViolation(assignments[i].caregiverId, (assignments[i].visitId, assignments[i].visitId));
    assert ConflictAt(assignments, IndexBy(visits, VisitId), i, j, e);
    OverlapReportComplete(assignments, visits, i, j, e);
  }

  /** The inner loop: pair position i with each later position of the group. */
  method RowOverlapViolations(caregiverId: string, g: seq<Assignment>, lookup: map<string, Visit>, i: nat)
    returns (found: seq<OverlapViolation>)
    requires Resolvable(g, lookup) && i < |g|
    ensures found == Report(caregiverId, g, RowPairs(g, lookup, i, |g|))
  {
    found := [];
    var visit1 := lookup[g[i].visitId];
    for j: nat := i + 1 to |g|
      invariant found == Report(caregiverId, g, RowPairs(g, lookup, i, j))
    {
      var visit2 := lookup[g[j].visitId];
      if visit1.day == visit2.day && TimesOverlap(visit1.start, visit1.end, visit2.start, visit2.end) {
        ghost var ps := RowPairs(g, lookup, i, j) + [(i, j)];
        assert ps[..|ps| - 1] == RowPairs(g, lookup, i, j);
        found := found + [OverlapViolation(caregiverId, (g[i].visitId, g[j].visitId))];
        assert found == Report(caregiverId, g, ps);
      } else {
        assert RowPairs(g, lookup, i, j) + [] == RowPairs(g, lookup, i, j);
      }
      assert RowPairs(g, lookup, i, j + 1) ==
        RowPairs(g, lookup, i, j) + if Clash(g, lookup, i, j) then [(i, j)] else [];
    }
  }

  lemma GroupReportStep(caregiverId: string, g: seq<Assignment>, lookup: map<string, Visit>, i: nat)
    requires i < |g|
    ensures Report(caregiverId, g, Pairs(g, lookup, i + 1)) ==
            Report(caregiverId, g, Pairs(g, lookup, i)) + Report(caregiverId, g, RowPairs(g, lookup, i, |g|))
  {
    ReportAppend(caregiverId, g, Pairs(g, lookup, i), RowPairs(g, lookup, i, |g|));
  }

  /** The outer loop over one caregiver's group. */
  method GroupOverlapViolations(caregiverId: string, g: seq<Assignment>, lookup: map<string, Visit>)
    returns (found: seq<OverlapViolation>)
    requires Resolvable(g, lookup)
    ensures found == GroupReport(caregiverId, g, lookup)
  {
    found := [];
    for i := 0 to |g|
      invariant found == Report(caregiverId, g, Pairs(g, lookup, i))
    {
      var row := RowOverlapViolations(caregiverId, g, lookup, i);
      GroupReportStep(caregiverId, g, lookup, i);
      found := found + row;
    }
  }

  lemma GroupsReportStep(assignments: seq<Assignment>, lookup: map<string, Visit>, caregiverIds: seq<string>, n: int)
    requires 0 <= n < |caregiverIds|
    ensures GroupsReport(assignments, lookup, caregiverIds[..n + 1]) ==
      GroupsReport(assignments, lookup, caregiverIds[..n]) +
      GroupReport(caregiverIds[n], Members(assignments, CaregiverOf, caregiverIds[n]), lookup)
  {
    assert caregiverIds[..n + 1][..n] == caregiverIds[..n];
  }

  /** `_get_overlap_violations`. */
  method OverlapViolations(assignments: seq<Assignment>, visits: seq<Visit>) returns (violations: seq<OverlapViolation>)
    requires VisitsKnown(assignments, visits)
    ensures violations == OverlapReport(assignments, visits)
  {
    var visitLookup := IndexBy(visits, VisitId);
    var keys, groups := GroupBy(assignments, CaregiverOf);
    violations := [];
    for n := 0 to |keys|
      invariant violations == GroupsReport(assignments, visitLookup, keys[..n])
    {
      var caregiverId := keys[n];
      assert caregiverId in groups;
      var caregiverAssigns := groups[caregiverId];
      assert caregiverAssigns == Members(assignments, CaregiverOf, caregiverId);
      var found := GroupOverlapViolations(caregiverId, caregiverAssigns, visitLookup);
      GroupsReportStep(assignments, visitLookup, keys, n);
      violations := violations + found;
    }
    assert keys[..|keys|] == keys;
  }
}
