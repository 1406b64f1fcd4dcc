/** `defaultdict(list)` filled by `groups[key(x)].append(x)` over a list, as
    scheduler/evaluator.py does three times. A Python dict iterates in the
    order its keys were first inserted. */
module Grouping {

  /** The keys of xs in order of first appearance, each once. */
  function Keys<T, K(==)>(xs: seq<T>, key: T -> K): (ks: seq<K>)
    ensures forall i :: 0 <= i < |xs| ==> key(xs[i]) in ks
    ensures forall a, b :: 0 <= a < b < |ks| ==> ks[a] != ks[b]
    ensures |ks| <= |xs|
    decreases |xs|
  {
    if xs == [] then []
    else
      var init := xs[..|xs| - 1];
      var k := key(xs[|xs| - 1]);
      var ks := Keys(init, key);
      assert forall i :: 0 <= i < |init| ==> init[i] == xs[i];
      if k in ks then ks else ks + [k]
  }

  /** Every key is the key of some element of xs. */
  lemma {:induction false} KeysFromElements<T, K>(xs: seq<T>, key: T -> K, k: K)
    requires k in Keys(xs, key)
    ensures exists i :: 0 <= i < |xs| && key(xs[i]) == k
    decreases |xs|
  {
    var init := xs[..|xs| - 1];
    if k in Keys(init, key) {
      KeysFromElements(init, key, k);
      var i :| 0 <= i < |init| && key(init[i]) == k;
      assert xs[i] == init[i];
    }
  }

  /** The elements of xs whose key is k, in their order in xs. */
  function Members<T, K(==)>(xs: seq<T>, key: T -> K, k: K): (g: seq<T>)
    ensures forall x :: x in g ==> x in xs && key(x) == k
    ensures |g| <= |xs|
    decreases |xs|
  {
    if xs == [] then []
    else
      var x := xs[|xs| - 1];
      assert forall y :: y in xs[..|xs| - 1] ==> y in xs;
      Members(xs[..|xs| - 1], key, k) + if key(x) == k then [x] else []
  }

  /** Every element of xs with key k is in the group of k. */
  lemma {:induction false} MembersComplete<T, K>(xs: seq<T>, key: T -> K, k: K)
    ensures forall x :: x in xs && key(x) == k ==> x in Members(xs, key, k)
    decreases |xs|
  {
    if xs != [] {
      var init := xs[..|xs| - 1];
      MembersComplete(init, key, k);
      assert xs == init + [xs[|xs| - 1]];
    }
  }

  /** The group of k has one entry per position of xs whose key is k. */
  lemma MembersCount<T, K>(xs: seq<T>, key: T -> K, k: K)
    ensures |Members(xs, key, k)| == |set i | 0 <= i < |xs| && key(xs[i]) == k|
  {
    MembersCountPrefix(xs, key, k, |xs|);
    assert xs[..|xs|] == xs;
  }

  /** The positions below n of xs whose key is k. */
  ghost function Positions<T, K>(xs: seq<T>, key: T -> K, k: K, n: nat): set<int>
    requires n <= |xs|
  {
    set i | 0 <= i < n && key(xs[i]) == k
  }

  lemma {:induction false} MembersCountPrefix<T, K>(xs: seq<T>, key: T -> K, k: K, n: nat)
    requires n <= |xs|
    ensures |Members(xs[..n], key, k)| == |Positions(xs, key, k, n)|
  {
    if n > 0 {
      MembersCountPrefix(xs, key, k, n - 1);
      MembersSizeStep(xs, key, k, n);
      PositionsStep(xs, key, k, n);
    }
  }

  lemma MembersSizeStep<T, K>(xs: seq<T>, key: T -> K, k: K, n: nat)
    requires 0 < n <= |xs|
    ensures |Members(xs[..n], key, k)| == |Members(xs[..n - 1], key, k)| + if key(xs[n - 1]) == k then 1 else 0
  {
    MembersStep(xs, key, n - 1, k);
  }

  lemma PositionsStep<T, K>(xs: seq<T>, key: T -> K, k: K, n: nat)
    requires 0 < n <= |xs|
    ensures |Positions(xs, key, k, n)| == |Positions(xs, key, k, n - 1)| + if key(xs[n - 1]) == k then 1 else 0
  {
    var before := Positions(xs, key, k, n - 1);
    var now := Positions(xs, key, k, n);
    if key(xs[n - 1]) == k {
      assert n - 1 !in before;
      assert now == before + {n - 1};
      assert |before + {n - 1}| == |before| + 1;
    } else {
      assert now == before;
    }
  }

  /** A key has a non-empty group exactly when it is one of the keys. */
  lemma MembersNonEmpty<T, K>(xs: seq<T>, key: T -> K, k: K)
    ensures k in Keys(xs, key) <==> Members(xs, key, k) != []
  {
    MembersComplete(xs, key, k);
    if k in Keys(xs, key) {
      KeysFromElements(xs, key, k);
      var i :| 0 <= i < |xs| && key(xs[i]) == k;
      assert xs[i] in Members(xs, key, k);
    }
  }

  /** Every key of a grouping has a non-empty group. */
  lemma KeysHaveMembers<T, K>(xs: seq<T>, key: T -> K)
    ensures forall k :: 0 <= k < |Keys(xs, key)| ==> Members(xs, key, Keys(xs, key)[k]) != []
  {
    forall k | 0 <= k < |Keys(xs, key)|
      ensures Members(xs, key, Keys(xs, key)[k]) != []
    {
      MembersNonEmpty(xs, key, Keys(xs, key)[k]);
    }
  }

  /** Keys are only ever appended: the keys met in a prefix of xs come first,
      in the same order. */
  lemma {:induction false} KeysOfPrefix<T, K>(xs: seq<T>, key: T -> K, n: nat)
    requires n <= |xs|
    ensures Keys(xs[..n], key) <= Keys(xs, key)
    decreases |xs|
  {
    if n < |xs| {
      var init := xs[..|xs| - 1];
      assert xs[..n] == init[..n];
      KeysOfPrefix(init, key, n);
    } else {
      assert xs[..n] == xs;
    }
  }

  /** Two group positions p < q come from two positions i < j of xs. */
  lemma {:induction false} MembersOrder<T, K>(xs: seq<T>, key: T -> K, k: K, p: int, q: int)
    requires 0 <= p < q < |Members(xs, key, k)|
    ensures exists i, j :: 0 <= i < j < |xs| && xs[i] == Members(xs, key, k)[p] && xs[j] == Members(xs, key, k)[q]
    decreases |xs|
  {
    var n := |xs| - 1;
    var init := xs[..n];
    var g := Members(init, key, k);
    assert Members(xs, key, k) == g + if key(xs[n]) == k then [xs[n]] else [];
    if q < |g| {
      MembersOrder(init, key, k, p, q);
      var i, j :| 0 <= i < j < |init| && init[i] == g[p] && init[j] == g[q];
      assert xs[i] == init[i] && xs[j] == init[j];
    } else {
      MembersComplete(init, key, k);
      assert p < |g|;
      var x := g[p];
      assert x in Members(init, key, k);
      assert x in init;
      var i :| 0 <= i < |init| && init[i] == x;
      assert xs[i] == init[i];
    }
  }

  /** Two positions i < j of xs with key k appear in the group of k at two
      positions p < q. */
  lemma {:induction false} MembersPositions<T, K>(xs: seq<T>, key: T -> K, i: int, j: int)
    requires 0 <= i < j < |xs| && key(xs[i]) == key(xs[j])
    ensures exists p, q ::
              && 0 <= p < q < |Members(xs, key, key(xs[i]))|
              && Members(xs, key, key(xs[i]))[p] == xs[i]
              && Members(xs, key, key(xs[i]))[q] == xs[j]
    decreases |xs|
  {
    var k := key(xs[i]);
    var n := |xs| - 1;
    var init := xs[..n];
    var g := Members(init, key, k);
    assert Members(xs, key, k) == g + if key(xs[n]) == k then [xs[n]] else [];
    if j < n {
      assert init[i] == xs[i] && init[j] == xs[j];
      MembersPositions(init, key, i, j);
      var p, q :| 0 <= p < q < |g| && g[p] == xs[i] && g[q] == xs[j];
      assert Members(xs, key, k)[p] == g[p] && Members(xs, key, k)[q] == g[q];
    } else {
      MembersComplete(init, key, k);
      assert init[i] == xs[i];
      assert xs[i] in g;
      var p :| 0 <= p < |g| && g[p] == xs[i];
      assert Members(xs, key, k)[p] == xs[i] && Members(xs, key, k)[|g|] == xs[j];
    }
  }

  lemma MembersStep<T, K>(xs: seq<T>, key: T -> K, i: int, k: K)
    requires 0 <= i < |xs|
    ensures Members(xs[..i + 1], key, k) == Members(xs[..i], key, k) + if key(xs[i]) == k then [xs[i]] else []
  {
    assert xs[..i + 1][..i] == xs[..i];
  }

  /** keys and groups are what grouping xs gives. */
  ghost predicate Grouped<T, K>(xs: seq<T>, key: T -> K, keys: seq<K>, groups: map<K, seq<T>>)
  {
    && keys == Keys(xs, key)
    && groups.Keys == set k | k in keys
    && forall k :: k in groups ==> groups[k] == Members(xs, key, k)
  }

  /** Appending xs[i] to the existing group of its key extends the grouping
      of xs[..i] to that of xs[..i + 1]. */
  lemma GroupedAppend<T, K>(xs: seq<T>, key: T -> K, i: int, keys: seq<K>, groups: map<K, seq<T>>)
    requires 0 <= i < |xs| && Grouped(xs[..i], key, keys, groups) && key(xs[i]) in groups
    ensures Grouped(xs[..i + 1], key, keys, groups[key(xs[i]) := groups[key(xs[i])] + [xs[i]]])
  {
    var groups' := groups[key(xs[i]) := groups[key(xs[i])] + [xs[i]]];
    KeysStep(xs, key, i);
    forall c | c in groups'
      ensures groups'[c] == Members(xs[..i + 1], key, c)
    {
      MembersStep(xs, key, i, c);
    }
  }

  /** Starting a new group for the key of xs[i] extends the grouping of
      xs[..i] to that of xs[..i + 1]. */
  lemma GroupedStart<T, K>(xs: seq<T>, key: T -> K, i: int, keys: seq<K>, groups: map<K, seq<T>>)
    requires 0 <= i < |xs| && Grouped(xs[..i], key, keys, groups) && key(xs[i]) !in groups
    ensures Grouped(xs[..i + 1], key, keys + [key(xs[i])], groups[key(xs[i]) := [xs[i]]])
  {
    var k := key(xs[i]);
    var groups' := groups[k := [xs[i]]];
    assert k !in Keys(xs[..i], key);
    MembersNonEmpty(xs[..i], key, k);
    KeysStep(xs, key, i);
    assert keys + [k] == Keys(xs[..i + 1], key);
    SetOfAppend(keys, k);
    assert groups'.Keys == set c | c in keys + [k];
    forall c | c in groups'
      ensures groups'[c] == Members(xs[..i + 1], key, c)
    {
      MembersStep(xs, key, i, c);
    }
  }

  lemma SetOfAppend<K>(ks: seq<K>, k: K)
    ensures (set c | c in ks + [k]) == (set c | c in ks) + {k}
  {
  }

  lemma KeysStep<T, K>(xs: seq<T>, key: T -> K, i: int)
    requires 0 <= i < |xs|
    ensures Keys(xs[..i + 1], key) ==
            if key(xs[i]) in Keys(xs[..i], key) then Keys(xs[..i], key) else Keys(xs[..i], key) + [key(xs[i])]
  {
    assert xs[..i + 1][..i] == xs[..i];
  }

  /** `for x in xs: groups[key(x)].append(x)`, returning the keys in insertion
      order beside the dictionary. */
  method GroupBy<T, K(==)>(xs: seq<T>, key: T -> K) returns (keys: seq<K>, groups: map<K, seq<T>>)
    ensures keys == Keys(xs, key)
    ensures groups.Keys == set k | k in keys
    ensures forall k :: k in groups ==> groups[k] == Members(xs, key, k)
  {
    keys, groups := [], map[];
    for i := 0 to |xs|
      invariant Grouped(xs[..i], key, keys, groups)
    {
      var k := key(xs[i]);
      if k in groups {
        GroupedAppend(xs, key, i, keys, groups);
        groups := groups[k := groups[k] + [xs[i]]];
      } else {
        GroupedStart(xs, key, i, keys, groups);
        keys := keys + [k];
        groups := groups[k := [xs[i]]];
      }
    }
    assert xs[..|xs|] == xs;
  }
}
