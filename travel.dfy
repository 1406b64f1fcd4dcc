/** `_calculate_travel_efficiency_score` of scheduler/evaluator.py: neighbourhood
    switches per caregiver and day, visits taken in order of start time. */
module Travel {
  import opened Models
  import opened Lookups
  import opened Grouping

  /** The grouping key `(assignment.caregiver_id, visit.day)`. */
  function CaregiverDay(p: (Visit, Assignment)): (string, string) { (p.1.caregiverId, p.0.day) }

  function StartOf(p: (Visit, Assignment)): Time { p.0.start }

  predicate SortedByStart(s: seq<(Visit, Assignment)>)
  {
    forall i, j :: 0 <= i < j < |s| ==> StartOf(s[i]) <= StartOf(s[j])
  }

  /** Places x after every element that starts no later than it. */
  function Insert(s: seq<(Visit, Assignment)>, x: (Visit, Assignment)): (r: seq<(Visit, Assignment)>)
    ensures multiset(r) == multiset(s) + multiset{x}
    ensures |r| == |s| + 1
    decreases |s|
  {
    if s == [] || StartOf(s[|s| - 1]) <= StartOf(x) then s + [x]
    else
      var init := s[..|s| - 1];
      var last := s[|s| - 1];
      assert s == init + [last];
      Insert(init, x) + [last]
  }

  /** `list.sort(key=lambda x: x[0].start)`: a stable sort on the start time,
      here by insertion (StableSortIsUnique: every stable sort yields this list). */
  function SortByStart(s: seq<(Visit, Assignment)>): (r: seq<(Visit, Assignment)>)
    ensures multiset(r) == multiset(s)
    ensures |r| == |s|
    decreases |s|
  {
    if s == [] then []
    else
      var init := s[..|s| - 1];
      assert s == init + [s[|s| - 1]];
      Insert(SortByStart(init), s[|s| - 1])
  }

  /** Inserting below a bound keeps every start below it. */
  lemma {:induction false} InsertBounded(s: seq<(Visit, Assignment)>, x: (Visit, Assignment), bound: Time)
    requires forall i :: 0 <= i < |s| ==> StartOf(s[i]) <= bound
    requires StartOf(x) <= bound
    ensures forall i :: 0 <= i < |Insert(s, x)| ==> StartOf(Insert(s, x)[i]) <= bound
    decreases |s|
  {
    if s != [] && StartOf(s[|s| - 1]) > StartOf(x) {
      InsertBounded(s[..|s| - 1], x, bound);
    }
  }

  /** Inserting into a sorted list keeps it sorted. */
  lemma {:induction false} InsertSorted(s: seq<(Visit, Assignment)>, x: (Visit, Assignment))
    requires SortedByStart(s)
    ensures SortedByStart(Insert(s, x))
    decreases |s|
  {
    if s != [] && StartOf(s[|s| - 1]) > StartOf(x) {
      var init := s[..|s| - 1];
      var last := s[|s| - 1];
      InsertSorted(init, x);
      InsertBounded(init, x, StartOf(last));
      var r := Insert(init, x);
      var full := r + [last];
      assert Insert(s, x) == full;
      forall i, j | 0 <= i < j < |full|
        ensures StartOf(full[i]) <= StartOf(full[j])
      {
        if j < |r| {
          assert full[i] == r[i] && full[j] == r[j];
        } else {
          assert full[i] == r[i];
        }
      }
    }
  }

  /** The sorted list is ordered by start time. */
  lemma {:induction false} SortByStartSorted(s: seq<(Visit, Assignment)>)
    ensures SortedByStart(SortByStart(s))
    decreases |s|
  {
    if s != [] {
      SortByStartSorted(s[..|s| - 1]);
      InsertSorted(SortByStart(s[..|s| - 1]), s[|s| - 1]);
    }
  }

  /** The elements of s that start at t, in their order in s. */
  function WithStart(s: seq<(Visit, Assignment)>, t: Time): (r: seq<(Visit, Assignment)>)
    ensures |r| <= |s|
    decreases |s|
  {
    if s == [] then []
    else WithStart(s[..|s| - 1], t) + if StartOf(s[|s| - 1]) == t then [s[|s| - 1]] else []
  }

  lemma {:induction false} InsertStable(s: seq<(Visit, Assignment)>, x: (Visit, Assignment), t: Time)
    ensures WithStart(Insert(s, x), t) == WithStart(s, t) + if StartOf(x) == t then [x] else []
    decreases |s|
  {
    if s == [] || StartOf(s[|s| - 1]) <= StartOf(x) {
      WithStartAppend(s, x, t);
    } else {
      InsertStable(s[..|s| - 1], x, t);
      InsertPastLast(s, x, t);
    }
  }

  /** Inserting x before the last element of s, which starts later, keeps the
      elements at t in order when inserting into the rest of s does. */
  lemma InsertPastLast(s: seq<(Visit, Assignment)>, x: (Visit, Assignment), t: Time)
    requires s != [] && StartOf(s[|s| - 1]) > StartOf(x)
    requires WithStart(Insert(s[..|s| - 1], x), t) == WithStart(s[..|s| - 1], t) + if StartOf(x) == t then [x] else []
    ensures WithStart(Insert(s, x), t) == WithStart(s, t) + if StartOf(x) == t then [x] else []
  {
    var init := s[..|s| - 1];
    var last := s[|s| - 1];
    var inserted := Insert(init, x);
    assert Insert(s, x) == inserted + [last];
    assert s == init + [last];
    WithStartAppend(inserted, last, t);
    WithStartAppend(init, last, t);
    SwapEnds(WithStart(init, t),
             if StartOf(x) == t then [x] else [],
             if StartOf(last) == t then [last] else []);
  }

  /** The elements of s + [y] at t are those of s, then y if it starts at t. */
  lemma WithStartAppend(s: seq<(Visit, Assignment)>, y: (Visit, Assignment), t: Time)
    ensures WithStart(s + [y], t) == WithStart(s, t) + if StartOf(y) == t then [y] else []
  {
    var r := s + [y];
    assert r[..|r| - 1] == s;
  }

  /** Two tails of which one is empty may change places. */
  lemma SwapEnds<T>(a: seq<T>, b: seq<T>, c: seq<T>)
    requires b == [] || c == []
    ensures (a + b) + c == (a + c) + b
  {
    if b == [] {
      assert a + b == a;
      assert (a + c) + b == a + c;
    } else {
      assert (a + b) + c == a + b;
      assert a + c == a;
    }
  }

  /** Stability: visits that start at the same time keep their relative order. */
  lemma {:induction false} SortByStartStable(s: seq<(Visit, Assignment)>, t: Time)
    ensures WithStart(SortByStart(s), t) == WithStart(s, t)
    decreases |s|
  {
    if s != [] {
      var init := s[..|s| - 1];
      SortByStartStable(init, t);
      InsertStable(SortByStart(init), s[|s| - 1], t);
    }
  }

  /** r is s sorted by start, with equal starts in their order in s. */
  ghost predicate StablySorted(r: seq<(Visit, Assignment)>, s: seq<(Visit, Assignment)>)
  {
    SortedByStart(r) && forall t: Time :: WithStart(r, t) == WithStart(s, t)
  }

  /** Nothing in s starts at t when everything in s starts before t. */
  lemma {:induction false} WithStartAbove(s: seq<(Visit, Assignment)>, t: Time)
    requires forall i :: 0 <= i < |s| ==> StartOf(s[i]) < t
    ensures WithStart(s, t) == []
    decreases |s|
  {
    if s != [] {
      WithStartAbove(s[..|s| - 1], t);
    }
  }

  /** The last element of s is among the elements at its own start. */
  lemma LastHasItsStart(s: seq<(Visit, Assignment)>)
    requires s != []
    ensures WithStart(s, StartOf(s[|s| - 1])) != []
  {
  }

  /** In a sorted list the last element starts last. */
  lemma LastStartsLast(s: seq<(Visit, Assignment)>, i: int)
    requires SortedByStart(s) && 0 <= i < |s|
    ensures StartOf(s[i]) <= StartOf(s[|s| - 1])
  {
    if i < |s| - 1 {
      assert StartOf(s[i]) <= StartOf(s[|s| - 1]);
    }
  }

  /** Nothing in a sorted list starts after its last element. */
  lemma NoneAfterLast(s: seq<(Visit, Assignment)>, t: Time)
    requires SortedByStart(s) && s != [] && StartOf(s[|s| - 1]) < t
    ensures WithStart(s, t) == []
  {
    forall i | 0 <= i < |s| ensures StartOf(s[i]) < t { LastStartsLast(s, i); }
    WithStartAbove(s, t);
  }

  /** A sorted list whose last element starts before that of a non-empty list
      b differs from b at b's last start; so does the empty list. */
  lemma DiffersAtLastStart(a: seq<(Visit, Assignment)>, b: seq<(Visit, Assignment)>)
    requires SortedByStart(a) && b != []
    requires a == [] || StartOf(a[|a| - 1]) < StartOf(b[|b| - 1])
    ensures WithStart(a, StartOf(b[|b| - 1])) != WithStart(b, StartOf(b[|b| - 1]))
    ensures !forall t: Time :: WithStart(a, t) == WithStart(b, t)
  {
    LastHasItsStart(b);
    if a != [] {
      NoneAfterLast(a, StartOf(b[|b| - 1]));
    }
  }

  /** Two sorted lists with the same elements at every start are both empty,
      or both end with elements of the same start. */
  lemma LastStartsAgree(a: seq<(Visit, Assignment)>, b: seq<(Visit, Assignment)>)
    requires SortedByStart(a) && SortedByStart(b) && (a != [] || b != [])
    requires forall t: Time :: WithStart(a, t) == WithStart(b, t)
    ensures a != [] && b != [] && StartOf(a[|a| - 1]) == StartOf(b[|b| - 1])
  {
    if a == [] || (b != [] && StartOf(a[|a| - 1]) < StartOf(b[|b| - 1])) {
      DiffersAtLastStart(a, b);
      assert false;
    } else if b == [] || StartOf(b[|b| - 1]) < StartOf(a[|a| - 1]) {
      DiffersAtLastStart(b, a);
      assert false;
    }
  }

  /** Equal lists at the start of the last elements have equal last elements,
      and dropping those keeps the lists equal at every start. */
  lemma DropSameLast(a: seq<(Visit, Assignment)>, b: seq<(Visit, Assignment)>, t: Time)
    requires a != [] && b != [] && StartOf(a[|a| - 1]) == StartOf(b[|b| - 1])
    requires WithStart(a, t) == WithStart(b, t)
    requires WithStart(a, StartOf(a[|a| - 1])) == WithStart(b, StartOf(a[|a| - 1]))
    ensures a[|a| - 1] == b[|b| - 1]
    ensures WithStart(a[..|a| - 1], t) == WithStart(b[..|b| - 1], t)
  {
    var a', x := a[..|a| - 1], a[|a| - 1];
    var b', y := b[..|b| - 1], b[|b| - 1];
    var tx := StartOf(x);
    var wa, wb := WithStart(a', tx), WithStart(b', tx);
    assert WithStart(a, tx) == wa + [x] && WithStart(b, tx) == wb + [y];
    assert |wa| == |wb|;
    assert x == (wa + [x])[|wa|] == (wb + [y])[|wb|] == y;
    assert wa == (wa + [x])[..|wa|] == (wb + [y])[..|wb|] == wb;
    if t != tx {
      assert WithStart(a, t) == WithStart(a', t);
      assert WithStart(b, t) == WithStart(b', t);
    }
  }

  lemma SortedDropLast(s: seq<(Visit, Assignment)>)
    requires SortedByStart(s) && s != []
    ensures SortedByStart(s[..|s| - 1])
  {
  }

  /** Two sorted lists with the same elements at every start, in the same
      order, are equal. */
  lemma {:induction false} SortedByStartUnique(a: seq<(Visit, Assignment)>, b: seq<(Visit, Assignment)>)
    requires SortedByStart(a) && SortedByStart(b)
    requires forall t: Time :: WithStart(a, t) == WithStart(b, t)
    ensures a == b
    decreases |a| + |b|
  {
    if a != [] || b != [] {
      LastStartsAgree(a, b);
      var a', b' := a[..|a| - 1], b[..|b| - 1];
      var tx := StartOf(a[|a| - 1]);
      forall t: Time
        ensures WithStart(a', t) == WithStart(b', t)
      {
        DropSameLast(a, b, t);
      }
      DropSameLast(a, b, tx);
      SortedDropLast(a);
      SortedDropLast(b);
      SortedByStartUnique(a', b');
      assert a == a' + [a[|a| - 1]] && b == b' + [b[|b| - 1]];
    }
  }

  /** SortByStart is a stable sort, and any stable sort of s gives the same
      list. */
  lemma StableSortIsUnique(s: seq<(Visit, Assignment)>, r: seq<(Visit, Assignment)>)
    ensures StablySorted(SortByStart(s), s)
    ensures StablySorted(r, s) ==> r == SortByStart(s)
  {
    SortByStartSorted(s);
    forall t: Time
      ensures WithStart(SortByStart(s), t) == WithStart(s, t)
    {
      SortByStartStable(s, t);
    }
    if StablySorted(r, s) {
      SortedByStartUnique(r, SortByStart(s));
    }
  }

  /** The number of neighbours in s whose neighbourhoods differ. */
  function Switches(s: seq<(Visit, Assignment)>): (r: nat)
    ensures s != [] ==> r <= |s| - 1
    decreases |s|
  {
    if |s| <= 1 then 0
    else Switches(s[..|s| - 1]) + if s[|s| - 1].0.neighborhood != s[|s| - 2].0.neighborhood then 1 else 0
  }

  /** No switch exactly when every visit is in the neighbourhood of the one before. */
  lemma {:induction false} NoSwitchesIffSameNeighborhood(s: seq<(Visit, Assignment)>)
    ensures Switches(s) == 0 <==> forall i :: 0 < i < |s| ==> s[i].0.neighborhood == s[i - 1].0.neighborhood
    decreases |s|
  {
    if |s| > 1 {
      var init := s[..|s| - 1];
      NoSwitchesIffSameNeighborhood(init);
      assert forall i :: 0 <= i < |init| ==> init[i] == s[i];
    }
  }

  /** A visit list of one neighbourhood has no switch. */
  lemma OneNeighborhoodNoSwitches(s: seq<(Visit, Assignment)>, nb: string)
    requires forall i :: 0 <= i < |s| ==> s[i].0.neighborhood == nb
    ensures Switches(s) == 0
  {
    NoSwitchesIffSameNeighborhood(s);
  }

  /** The inner loop: walk the sorted visits, counting each change of
      neighbourhood. */
  method CountSwitches(dayAssigns: seq<(Visit, Assignment)>) returns (switches: nat)
    requires dayAssigns != []
    ensures switches == Switches(dayAssigns)
  {
    switches := 0;
    var currentNeighborhood := dayAssigns[0].0.neighborhood;
    for k := 1 to |dayAssigns|
      invariant switches == Switches(dayAssigns[..k])
      invariant currentNeighborhood == dayAssigns[k - 1].0.neighborhood
    {
      var visit := dayAssigns[k].0;
      assert dayAssigns[..k + 1][..k] == dayAssigns[..k];
      if visit.neighborhood != currentNeighborhood {
        switches := switches + 1;
        currentNeighborhood := visit.neighborhood;
      }
    }
    assert dayAssigns[..|dayAssigns|] == dayAssigns;
  }

  /** One caregiver-day adds no switch for a single visit, else the switches of
      its visits in start order. */
  function GroupSwitches(g: seq<(Visit, Assignment)>): (r: nat)
    ensures g != [] ==> r <= |g| - 1
  {
    if |g| == 1 then 0 else Switches(SortByStart(g))
  }

  /** The switch total over the given caregiver-days. */
  function TotalSwitches(ps: seq<(Visit, Assignment)>, keys: seq<(string, string)>): nat
    decreases |keys|
  {
    if keys == [] then 0
    else TotalSwitches(ps, keys[..|keys| - 1]) + GroupSwitches(Members(ps, CaregiverDay, keys[|keys| - 1]))
  }

  function Max(a: real, b: real): real { if a >= b then a else b }

  /** `max(0, 1 - avg / 2)` for `total` switches over `days` caregiver-days,
      0 when there are no caregiver-days. */
  function ScoreOf(total: nat, days: nat): (score: real)
    ensures 0.0 <= score <= 1.0
  {
    if days == 0 then 0.0
    else
      var avg := total as real / days as real;
      Max(0.0, 1.0 - avg / 2.0)
  }

  /** The travel efficiency of resolved pairs. */
  function TravelOfPairs(ps: seq<(Visit, Assignment)>): real
  {
    var keys := Keys(ps, CaregiverDay);
    ScoreOf(TotalSwitches(ps, keys), |keys|)
  }

  /** The travel efficiency score: 0 without assignments. */
  function TravelOf(assignments: seq<Assignment>, visits: seq<Visit>): real
    requires VisitsKnown(assignments, visits)
  {
    if assignments == [] then 0.0
    else TravelOfPairs(Resolve(assignments, visits))
  }

  /** The score lies in [0, 1]; it is 1 exactly when no caregiver-day switches
      (there is at least one), and 0 once the average reaches 2. */
  lemma ScoreOfMeaning(total: nat, days: nat)
    requires days > 0
    ensures ScoreOf(total, days) == 1.0 <==> total == 0
    ensures total >= 2 * days ==> ScoreOf(total, days) == 0.0
    ensures total < 2 * days ==> ScoreOf(total, days) == 1.0 - total as real / (2 * days) as real
  {
    var d := days as real;
    var t := total as real;
    assert t / d / 2.0 == t / (2.0 * d);
    if total > 0 {
      assert t / (2.0 * d) > 0.0;
    }
    if total >= 2 * days {
      assert t >= 2.0 * d;
      assert t / (2.0 * d) >= (2.0 * d) / (2.0 * d);
    } else {
      assert t < 2.0 * d;
      assert t / (2.0 * d) < (2.0 * d) / (2.0 * d);
    }
  }

  /** The score lies in [0, 1]; an empty schedule scores 0. */
  lemma TravelBounds(assignments: seq<Assignment>, visits: seq<Visit>)
    requires VisitsKnown(assignments, visits)
    ensures 0.0 <= TravelOf(assignments, visits) <= 1.0
    ensures assignments == [] ==> TravelOf(assignments, visits) == 0.0
  {
  }

  /** A non-empty schedule scores 1 exactly when no caregiver-day switches
      neighbourhood. */
  lemma PerfectTravelIffNoSwitches(assignments: seq<Assignment>, visits: seq<Visit>)
    requires VisitsKnown(assignments, visits) && assignments != []
    ensures var ps := Resolve(assignments, visits);
            TravelOf(assignments, visits) == 1.0 <==> TotalSwitches(ps, Keys(ps, CaregiverDay)) == 0
  {
    var ps := Resolve(assignments, visits);
    assert CaregiverDay(ps[0]) in Keys(ps, CaregiverDay);
    ScoreOfMeaning(TotalSwitches(ps, Keys(ps, CaregiverDay)), |Keys(ps, CaregiverDay)|);
  }

  lemma TotalSwitchesStep(ps: seq<(Visit, Assignment)>, keys: seq<(string, string)>, n: int)
    requires 0 <= n < |keys|
    ensures TotalSwitches(ps, keys[..n + 1]) == TotalSwitches(ps, keys[..n]) + GroupSwitches(Members(ps, CaregiverDay, keys[n]))
  {
    assert keys[..n + 1][..n] == keys[..n];
  }

  /** The single-visit shortcut changes nothing: a caregiver-day's switches
      are those of its visits in start order. */
  lemma GroupSwitchesInStartOrder(g: seq<(Visit, Assignment)>)
    ensures GroupSwitches(g) == Switches(SortByStart(g))
  {
  }

  /** One caregiver with two Monday visits in a row: in one neighbourhood the
      score is 1, in two it is 0.5 (one switch over one caregiver-day). */
  lemma TravelExamples()
    ensures var assignments := [Assignment("v1", "g1"), Assignment("v2", "g1")];
            var visits := [Visit("v1", "Mon", 600, 660, "c1", "s", "North"), Visit("v2", "Mon", 540, 600, "c2", "s", "North")];
            var visits' := [Visit("v1", "Mon", 600, 660, "c1", "s", "North"), Visit("v2", "Mon", 540, 600, "c2", "s", "South")];
            && VisitsKnown(assignments, visits) && VisitsKnown(assignments, visits')
            && TravelOf(assignments, visits) == 1.0
            && TravelOf(assignments, visits') == 0.5
  {
    var assignments := [Assignment("v1", "g1"), Assignment("v2", "g1")];
    var v1 := Visit("v1", "Mon", 600, 660, "c1", "s", "North");
    var v2 := Visit("v2", "Mon", 540, 600, "c2", "s", "North");
    var w2 := v2.(neighborhood := "South");
    PairScores(assignments, v1, v2);
    PairScores(assignments, v1, w2);
  }

  lemma PairScores(assignments: seq<Assignment>, v1: Visit, v2: Visit)
    requires assignments == [Assignment("v1", "g1"), Assignment("v2", "g1")]
    requires v1.id == "v1" && v2.id == "v2" && v1.day == v2.day && v2.start < v1.start
    ensures VisitsKnown(assignments, [v1, v2])
    ensures TravelOf(assignments, [v1, v2]) == if v1.neighborhood == v2.neighborhood then 1.0 else 0.5
  {
    var ps := PairResolved(assignments, v1, v2);
    var total := if v1.neighborhood == v2.neighborhood then 0 else 1;
    PairSwitches(ps, v1, v2);
    assert TravelOf(assignments, [v1, v2]) == ScoreOf(total, 1);
  }

  lemma PairResolved(assignments: seq<Assignment>, v1: Visit, v2: Visit) returns (ps: seq<(Visit, Assignment)>)
    requires assignments == [Assignment("v1", "g1"), Assignment("v2", "g1")]
    requires v1.id == "v1" && v2.id == "v2"
    ensures VisitsKnown(assignments, [v1, v2])
    ensures ps == Resolve(assignments, [v1, v2])
    ensures ps == [(v1, assignments[0]), (v2, assignments[1])]
  {
    var visits := [v1, v2];
    var lookup := IndexBy(visits, VisitId);
    assert VisitId(v1) in Ids(visits, VisitId) && VisitId(v2) in Ids(visits, VisitId);
    IndexByKeepsLast(visits, VisitId, 0);
    IndexByKeepsLast(visits, VisitId, 1);
    ps := Resolve(assignments, visits);
  }

  lemma PairSwitches(ps: seq<(Visit, Assignment)>, v1: Visit, v2: Visit)
    requires ps == [(v1, Assignment("v1", "g1")), (v2, Assignment("v2", "g1"))]
    requires v1.day == v2.day && v2.start < v1.start
    ensures Keys(ps, CaregiverDay) == [("g1", v1.day)]
    ensures TotalSwitches(ps, Keys(ps, CaregiverDay)) == if v1.neighborhood == v2.neighborhood then 0 else 1
  {
    var key := ("g1", v1.day);
    PairGroup(ps, key);
    PairSorted(ps);
    var sorted := [ps[1], ps[0]];
    assert |sorted[..1]| == 1;
    assert GroupSwitches(ps) == Switches(sorted);
    assert [key][..0] == [];
  }

  lemma PairGroup(ps: seq<(Visit, Assignment)>, key: (string, string))
    requires |ps| == 2 && CaregiverDay(ps[0]) == CaregiverDay(ps[1]) == key
    ensures Keys(ps, CaregiverDay) == [key]
    ensures Members(ps, CaregiverDay, key) == ps
  {
    assert ps[..1] == [ps[0]];
    assert Keys(ps[..1], CaregiverDay) == [key];
    assert Members(ps[..1], CaregiverDay, key) == [ps[0]];
  }

  lemma PairSorted(ps: seq<(Visit, Assignment)>)
    requires |ps| == 2 && StartOf(ps[1]) < StartOf(ps[0])
    ensures SortByStart(ps) == [ps[1], ps[0]]
  {
    assert ps[..1] == [ps[0]];
    assert SortByStart(ps[..1]) == [ps[0]];
    assert SortByStart(ps) == Insert([ps[0]], ps[1]);
    assert [ps[0]][..0] == [];
    assert Insert([ps[0]], ps[1]) == Insert([], ps[1]) + [ps[0]];
  }

  /** The loop over the caregiver-days: switch total and number of days. */
  method SwitchTotals(ps: seq<(Visit, Assignment)>) returns (totalSwitches: nat, totalCaregiverDays: nat)
    ensures totalSwitches == TotalSwitches(ps, Keys(ps, CaregiverDay))
    ensures totalCaregiverDays == |Keys(ps, CaregiverDay)|
  {
    var keys, caregiverDayAssignments := GroupBy(ps, CaregiverDay);
    KeysHaveMembers(ps, CaregiverDay);
    totalSwitches, totalCaregiverDays := 0, 0;
    for n := 0 to |keys|
      invariant totalSwitches == TotalSwitches(ps, keys[..n])
      invariant totalCaregiverDays == n
    {
      var dayAssigns := caregiverDayAssignments[keys[n]];
      ghost var group := dayAssigns;
      assert group == Members(ps, CaregiverDay, keys[n]) != [];
      TotalSwitchesStep(ps, keys, n);
      totalCaregiverDays := totalCaregiverDays + 1;
      if |dayAssigns| != 1 {
        dayAssigns := SortByStart(dayAssigns);
        var switches := CountSwitches(dayAssigns);
        totalSwitches := totalSwitches + switches;
      }
      assert totalSwitches == TotalSwitches(ps, keys[..n]) + GroupSwitches(group);
    }
    assert keys[..|keys|] == keys;
  }

  /** `_calculate_travel_efficiency_score`. */
  method TravelEfficiencyScore(assignments: seq<Assignment>, visits: seq<Visit>) returns (score: real)
    requires VisitsKnown(assignments, visits)
    ensures score == TravelOf(assignments, visits)
  {
    if assignments == [] {
      return 0.0;
    }
    var ps := Resolve(assignments, visits);
    var totalSwitches, totalCaregiverDays := SwitchTotals(ps);
    if totalCaregiverDays == 0 {
      return 0.0;
    }
    var avgSwitches := totalSwitches as real / totalCaregiverDays as real;
    score := Max(0.0, 1.0 - avgSwitches / 2.0);
    assert score == ScoreOf(totalSwitches, totalCaregiverDays);
    assert TravelOf(assignments, visits) == TravelOfPairs(ps);
  }
}
