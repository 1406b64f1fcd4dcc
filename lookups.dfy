/** The two ways scheduler/evaluator.py finds a record by its identifier: a
    dictionary built by comprehension, where a later duplicate replaces an
    earlier one, and a `next(...)` search, which stops at the first match. */
module Lookups {
  import opened Models

  /** The identifiers present in xs. */
  function Ids<T(==)>(xs: seq<T>, id: T -> string): set<string>
  {
    set x | x in xs :: id(x)
  }

  /** The dictionary `{id(x): x for x in xs}`, built left to right. */
  function IndexBy<T(==)>(xs: seq<T>, id: T -> string): (m: map<string, T>)
    ensures m.Keys == Ids(xs, id)
    ensures forall k :: k in m ==> id(m[k]) == k && m[k] in xs
    decreases |xs|
  {
    if xs == [] then map[]
    else
      var init := xs[..|xs| - 1];
      var last := xs[|xs| - 1];
      assert xs == init + [last];
      assert Ids(xs, id) == Ids(init, id) + {id(last)};
      IndexBy(init, id)[id(last) := last]
  }

  /** A dictionary entry is the last element of xs that carries its key. */
  lemma {:induction false} IndexByKeepsLast<T>(xs: seq<T>, id: T -> string, i: int)
    requires 0 <= i < |xs|
    requires forall j :: i < j < |xs| ==> id(xs[j]) != id(xs[i])
    ensures id(xs[i]) in IndexBy(xs, id) && IndexBy(xs, id)[id(xs[i])] == xs[i]
  {
    if i < |xs| - 1 {
      var init := xs[..|xs| - 1];
      assert init[i] == xs[i];
      forall j | i < j < |init|
        ensures id(init[j]) != id(init[i])
      {
        assert init[j] == xs[j];
      }
      IndexByKeepsLast(init, id, i);
    }
  }

  /** `next(x for x in xs if id(x) == k)`: the first element with key k. */
  function FirstBy<T(==)>(xs: seq<T>, id: T -> string, k: string): (x: T)
    requires k in Ids(xs, id)
    ensures id(x) == k && x in xs
    decreases |xs|
  {
    if id(xs[0]) == k then xs[0]
    else
      assert xs == [xs[0]] + xs[1..];
      FirstBy(xs[1..], id, k)
  }

  /** The search result is the first element of xs that carries the key. */
  lemma {:induction false} FirstByKeepsFirst<T>(xs: seq<T>, id: T -> string, i: int)
    requires 0 <= i < |xs|
    requires forall j :: 0 <= j < i ==> id(xs[j]) != id(xs[i])
    ensures FirstBy(xs, id, id(xs[i])) == xs[i]
  {
    if i > 0 {
      var tail := xs[1..];
      assert tail[i - 1] == xs[i];
      forall j | 0 <= j < i - 1
        ensures id(tail[j]) != id(tail[i - 1])
      {
        assert tail[j] == xs[j + 1];
      }
      FirstByKeepsFirst(tail, id, i - 1);
    }
  }

  /** No two elements of xs share a key. */
  predicate UniqueIds<T>(xs: seq<T>, id: T -> string)
  {
    forall i, j :: 0 <= i < |xs| && 0 <= j < |xs| && id(xs[i]) == id(xs[j]) ==> i == j
  }

  /** With unique identifiers the dictionary and the search find the same record. */
  lemma LookupsAgreeOnUniqueIds<T>(xs: seq<T>, id: T -> string, k: string)
    requires UniqueIds(xs, id)
    requires k in Ids(xs, id)
    ensures k in IndexBy(xs, id) && IndexBy(xs, id)[k] == FirstBy(xs, id, k)
  {
    var x :| x in xs && id(x) == k;
    var i :| 0 <= i < |xs| && xs[i] == x;
    IndexByKeepsLast(xs, id, i);
    FirstByKeepsFirst(xs, id, i);
  }

  /** With a duplicated identifier the two lookups part ways. */
  lemma DuplicateIdsDisagree()
    ensures var early := Visit("v1", "MONDAY", 540, 600, "c1", "s", "n1");
            var late := Visit("v1", "MONDAY", 600, 660, "c1", "s", "n1");
            IndexBy([early, late], VisitId)["v1"] == late &&
            FirstBy([early, late], VisitId, "v1") == early
  {
    var early := Visit("v1", "MONDAY", 540, 600, "c1", "s", "n1");
    var late := Visit("v1", "MONDAY", 600, 660, "c1", "s", "n1");
    IndexByKeepsLast([early, late], VisitId, 1);
  }

  /** Every assignment names a visit that exists; the lookups raise otherwise. */
  predicate VisitsKnown(assignments: seq<Assignment>, visits: seq<Visit>)
  {
    forall a :: a in assignments ==> a.visitId in Ids(visits, VisitId)
  }

  /** Every assignment names a caregiver that exists. */
  predicate CaregiversKnown(assignments: seq<Assignment>, caregivers: seq<Caregiver>)
  {
    forall a :: a in assignments ==> a.caregiverId in Ids(caregivers, CaregiverId)
  }

  /** Each assignment paired with its visit `visit_lookup[assignment.visit_id]`,
      where `visit_lookup` is the dictionary of the visits by identifier. */
  function Resolve(assignments: seq<Assignment>, visits: seq<Visit>): (ps: seq<(Visit, Assignment)>)
    requires VisitsKnown(assignments, visits)
    ensures |ps| == |assignments|
    ensures forall i :: 0 <= i < |ps| ==>
              ps[i].1 == assignments[i] && ps[i].0 in visits && ps[i].0.id == assignments[i].visitId
  {
    var lookup := IndexBy(visits, VisitId);
    seq(|assignments|, i requires 0 <= i < |assignments| => (lookup[assignments[i].visitId], assignments[i]))
  }

  /** The visit paired with an assignment is the last visit of the list that
      carries its identifier. */
  lemma ResolveKeepsLast(assignments: seq<Assignment>, visits: seq<Visit>, i: int, k: int)
    requires VisitsKnown(assignments, visits)
    requires 0 <= i < |assignments| && 0 <= k < |visits|
    requires visits[k].id == assignments[i].visitId
    requires forall j :: k < j < |visits| ==> visits[j].id != visits[k].id
    ensures Resolve(assignments, visits)[i].0 == visits[k]
  {
    IndexByKeepsLast(visits, VisitId, k);
  }
}
