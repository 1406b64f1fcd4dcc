/** `_calculate_continuity_score` of scheduler/evaluator.py. Scores are exact
    reals. */
module Continuity {
  import opened Models
  import opened Lookups
  import opened Grouping

  function Customer(p: (Visit, Assignment)): string { p.0.customer }

  /** The set `{assign.caregiver_id for assign in customer_assigns}`. */
  function DistinctCaregivers(g: seq<(Visit, Assignment)>): set<string>
  {
    set p | p in g :: p.1.caregiverId
  }

  /** A non-empty group has at least one and at most |g| distinct caregivers. */
  lemma {:induction false} DistinctCaregiversBounds(g: seq<(Visit, Assignment)>)
    ensures |DistinctCaregivers(g)| <= |g|
    ensures g != [] ==> 1 <= |DistinctCaregivers(g)|
    decreases |g|
  {
    if g != [] {
      var init := g[..|g| - 1];
      var last := g[|g| - 1];
      assert g == init + [last];
      assert DistinctCaregivers(g) == DistinctCaregivers(init) + {last.1.caregiverId};
      DistinctCaregiversBounds(init);
    }
  }

  /** Pairwise different caregivers are all distinct. */
  lemma {:induction false} AllDifferentCaregivers(g: seq<(Visit, Assignment)>)
    requires forall a, b :: 0 <= a < b < |g| ==> g[a].1.caregiverId != g[b].1.caregiverId
    ensures |DistinctCaregivers(g)| == |g|
    decreases |g|
  {
    if g != [] {
      var init := g[..|g| - 1];
      var last := g[|g| - 1];
      assert g == init + [last];
      assert DistinctCaregivers(g) == DistinctCaregivers(init) + {last.1.caregiverId};
      assert last.1.caregiverId !in DistinctCaregivers(init);
      AllDifferentCaregivers(init);
    }
  }

  /** One customer's score: 1 for a single visit, else 1 - distinct / total. */
  function CustomerScore(g: seq<(Visit, Assignment)>): (score: real)
    requires g != []
    ensures |g| == 1 ==> score == 1.0
    ensures |g| > 1 ==> 0.0 <= score <= 1.0 - 1.0 / |g| as real
    ensures 0.0 <= score <= 1.0
  {
    DistinctCaregiversBounds(g);
    var totalVisits := |g|;
    var uniqueCaregivers := |DistinctCaregivers(g)|;
    if totalVisits == 1 then 1.0
    else
      DivisionBounds(uniqueCaregivers, totalVisits);
      1.0 - uniqueCaregivers as real / totalVisits as real
  }

  lemma DivisionBounds(d: int, n: int)
    requires 1 <= d <= n
    ensures 1.0 / n as real <= d as real / n as real <= 1.0
  {
    var r := n as real;
    assert d as real / r == d as real * (1.0 / r);
    assert 1.0 / r > 0.0;
  }

  /** A customer whose n > 1 visits all go to one caregiver scores 1 - 1/n,
      not 1. */
  lemma OneCaregiverScore(g: seq<(Visit, Assignment)>)
    requires |g| > 1
    requires forall k :: 0 <= k < |g| ==> g[k].1.caregiverId == g[0].1.caregiverId
    ensures CustomerScore(g) == 1.0 - 1.0 / |g| as real
  {
    assert DistinctCaregivers(g) == {g[0].1.caregiverId};
  }

  /** A customer whose visits all go to different caregivers scores 0. */
  lemma AllDifferentScore(g: seq<(Visit, Assignment)>)
    requires |g| > 1
    requires forall a, b :: 0 <= a < b < |g| ==> g[a].1.caregiverId != g[b].1.caregiverId
    ensures CustomerScore(g) == 0.0
  {
    AllDifferentCaregivers(g);
  }

  /** `sum(xs)`, left to right. */
  function Sum(xs: seq<real>): real
    decreases |xs|
  {
    if xs == [] then 0.0 else Sum(xs[..|xs| - 1]) + xs[|xs| - 1]
  }

  /** A sum of n scores in [0, 1] lies in [0, n]. */
  lemma {:induction false} SumBounds(xs: seq<real>)
    requires forall k :: 0 <= k < |xs| ==> 0.0 <= xs[k] <= 1.0
    ensures 0.0 <= Sum(xs) <= |xs| as real
    decreases |xs|
  {
    if xs != [] {
      SumBounds(xs[..|xs| - 1]);
    }
  }

  /** The scores of the groups of the given customers, in that order. */
  function Scores(ps: seq<(Visit, Assignment)>, customers: seq<string>): (scores: seq<real>)
    requires forall k :: 0 <= k < |customers| ==> Members(ps, Customer, customers[k]) != []
    ensures |scores| == |customers|
    ensures forall k :: 0 <= k < |scores| ==> 0.0 <= scores[k] <= 1.0
    decreases |customers|
  {
    if customers == [] then []
    else
      var init := customers[..|customers| - 1];
      Scores(ps, init) + [CustomerScore(Members(ps, Customer, customers[|customers| - 1]))]
  }

  /** One score per customer of the pairs, in order of first appearance. */
  function CustomerScoresOf(ps: seq<(Visit, Assignment)>): seq<real>
  {
    KeysHaveMembers(ps, Customer);
    Scores(ps, Keys(ps, Customer))
  }

  /** The mean customer score of resolved pairs, 0 when there are none. */
  function MeanScore(ps: seq<(Visit, Assignment)>): real
  {
    var scores := CustomerScoresOf(ps);
    if scores != [] then Sum(scores) / |scores| as real else 0.0
  }

  /** The continuity score: 0 without assignments, else the mean customer score. */
  function ContinuityOf(assignments: seq<Assignment>, visits: seq<Visit>): real
    requires VisitsKnown(assignments, visits)
  {
    if assignments == [] then 0.0
    else MeanScore(Resolve(assignments, visits))
  }

  /** A mean of scores in [0, 1] lies in [0, 1]. */
  lemma MeanBounds(total: real, n: nat)
    requires n > 0 && 0.0 <= total <= n as real
    ensures 0.0 <= total / n as real <= 1.0
  {
    var r := n as real;
    assert total / r == total * (1.0 / r);
    assert 1.0 / r > 0.0;
    assert total * (1.0 / r) <= r * (1.0 / r);
  }

  /** The mean score lies in [0, 1], and a non-empty list of pairs has at
      least one customer. */
  lemma MeanScoreBounds(ps: seq<(Visit, Assignment)>)
    ensures 0.0 <= MeanScore(ps) <= 1.0
    ensures ps != [] ==> |Keys(ps, Customer)| >= 1
  {
    var customers := Keys(ps, Customer);
    var scores := CustomerScoresOf(ps);
    SumBounds(scores);
    if scores != [] {
      MeanBounds(Sum(scores), |scores|);
    }
    if ps != [] {
      assert Customer(ps[0]) in customers;
    }
  }

  /** The score lies in [0, 1], and a non-empty schedule has at least one
      customer. */
  lemma ContinuityBounds(assignments: seq<Assignment>, visits: seq<Visit>)
    requires VisitsKnown(assignments, visits)
    ensures 0.0 <= ContinuityOf(assignments, visits) <= 1.0
    ensures assignments != [] ==> |Keys(Resolve(assignments, visits), Customer)| >= 1
  {
    if assignments != [] {
      MeanScoreBounds(Resolve(assignments, visits));
    }
  }

  /** The body of the per-customer loop. */
  method GroupScore(customerAssigns: seq<(Visit, Assignment)>) returns (score: real)
    requires customerAssigns != []
    ensures score == CustomerScore(customerAssigns)
  {
    var totalVisits := |customerAssigns|;
    var uniqueCaregiversSet := set p | p in customerAssigns :: p.1.caregiverId;
    var uniqueCaregivers := |uniqueCaregiversSet|;
    assert uniqueCaregiversSet == DistinctCaregivers(customerAssigns);
    if totalVisits == 1 {
      score := 1.0;
    } else {
      score := 1.0 - uniqueCaregivers as real / totalVisits as real;
    }
  }

  lemma ScoresStep(ps: seq<(Visit, Assignment)>, customers: seq<string>, n: int)
    requires 0 <= n < |customers|
    requires forall k :: 0 <= k < |customers| ==> Members(ps, Customer, customers[k]) != []
    ensures Scores(ps, customers[..n + 1]) == Scores(ps, customers[..n]) + [CustomerScore(Members(ps, Customer, customers[n]))]
  {
    assert customers[..n + 1][..n] == customers[..n];
  }

  /** The per-customer loop of `_calculate_continuity_score`: one score per
      customer, in order of first appearance. */
  method CustomerScores(ps: seq<(Visit, Assignment)>) returns (customerScores: seq<real>)
    ensures customerScores == CustomerScoresOf(ps)
  {
    var keys, customerAssignments := GroupBy(ps, Customer);
    KeysHaveMembers(ps, Customer);
    customerScores := [];
    for n := 0 to |keys|
      invariant customerScores == Scores(ps, keys[..n])
    {
      var customerAssigns: seq<(Visit, Assignment)> := customerAssignments[keys[n]];
      assert customerAssigns == Members(ps, Customer, keys[n]) != [];
      var score := GroupScore(customerAssigns);
      ScoresStep(ps, keys, n);
      customerScores := customerScores + [score];
    }
    assert keys[..|keys|] == keys;
  }

  /** `_calculate_continuity_score`. */
  method ContinuityScore(assignments: seq<Assignment>, visits: seq<Visit>) returns (score: real)
    requires VisitsKnown(assignments, visits)
    ensures score == ContinuityOf(assignments, visits)
    ensures 0.0 <= score <= 1.0
    ensures assignments == [] ==> score == 0.0
  {
    if assignments == [] {
      return 0.0;
    }
    var ps := Resolve(assignments, visits);
    var customerScores := CustomerScores(ps);
    score := if customerScores != [] then Sum(customerScores) / |customerScores| as real else 0.0;
    ContinuityBounds(assignments, visits);
  }
}
