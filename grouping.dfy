/**
 * pandas' split-apply-combine: `groupby(key)` splits a table into groups,
 * one per distinct key, listed in ascending key order; each group keeps its
 * rows in their original order.  `.size()` and `.sum()` then reduce each
 * group to one number.
 */
module Grouping {
  import opened Ordering

  datatype Group<K, T> = Group(key: K, members: seq<T>)

  /** One row of a `.size()` or `value_counts()` result. */
  datatype KeyCount<K> = KeyCount(key: K, count: nat)

  /** One row of a `.sum()` result. */
  datatype KeyTotal<K> = KeyTotal(key: K, total: real)

  /** The rows whose key is k, in their original order. */
  function WithKey<K(==), T>(xs: seq<T>, key: T -> K, k: K): seq<T>
  {
    if xs == [] then []
    else WithKey(xs[..|xs| - 1], key, k) + (if key(xs[|xs| - 1]) == k then [xs[|xs| - 1]] else [])
  }

  /** The number of rows whose key satisfies p. */
  function CountWhere<K, T>(xs: seq<T>, key: T -> K, p: K -> bool): nat
  {
    if xs == [] then 0
    else CountWhere(xs[..|xs| - 1], key, p) + (if p(key(xs[|xs| - 1])) then 1 else 0)
  }

  /** The sum of w over the rows. */
  function SumBy<T>(xs: seq<T>, w: T -> real): real
  {
    if xs == [] then 0.0 else SumBy(xs[..|xs| - 1], w) + w(xs[|xs| - 1])
  }

  function Keys<K, T>(gs: seq<Group<K, T>>): (ks: seq<K>)
    ensures |ks| == |gs| && forall i :: 0 <= i < |gs| ==> ks[i] == gs[i].key
  {
    if gs == [] then [] else [gs[0].key] + Keys(gs[1..])
  }

  predicate KeysIncreasing<K, T>(gs: seq<Group<K, T>>, lt: (K, K) -> bool)
  {
    forall i, j :: 0 <= i < j < |gs| ==> lt(gs[i].key, gs[j].key)
  }

  predicate NoEmptyGroup<K, T>(gs: seq<Group<K, T>>)
  {
    forall i :: 0 <= i < |gs| ==> gs[i].members != []
  }

  /** The members of the group whose key is k, or none. */
  function Lookup<K(==), T>(gs: seq<Group<K, T>>, k: K): seq<T>
  {
    if gs == [] then [] else if gs[0].key == k then gs[0].members else Lookup(gs[1..], k)
  }

  /** Puts row x at the end of the group of its key, opening that group in key order if absent. */
  function AddToGroups<K(==), T>(gs: seq<Group<K, T>>, key: T -> K, lt: (K, K) -> bool, x: T): seq<Group<K, T>>
  {
    if gs == [] then [Group(key(x), [x])]
    else if key(x) == gs[0].key then [Group(gs[0].key, gs[0].members + [x])] + gs[1..]
    else if lt(key(x), gs[0].key) then [Group(key(x), [x])] + gs
    else [gs[0]] + AddToGroups(gs[1..], key, lt, x)
  }

  /** `xs.groupby(key)` with keys sorted by lt. */
  function GroupBy<K(==), T>(xs: seq<T>, key: T -> K, lt: (K, K) -> bool): seq<Group<K, T>>
  {
    if xs == [] then [] else AddToGroups(GroupBy(xs[..|xs| - 1], key, lt), key, lt, xs[|xs| - 1])
  }

  /** `.size()`: each key with the number of rows in its group. */
  function Sizes<K, T>(gs: seq<Group<K, T>>): (ps: seq<KeyCount<K>>)
    ensures |ps| == |gs| && forall i :: 0 <= i < |gs| ==> ps[i] == KeyCount(gs[i].key, |gs[i].members|)
  {
    if gs == [] then [] else [KeyCount(gs[0].key, |gs[0].members|)] + Sizes(gs[1..])
  }

  /** `[column].sum()`: each key with the sum of w over its group. */
  function Sums<K, T>(gs: seq<Group<K, T>>, w: T -> real): (ps: seq<KeyTotal<K>>)
    ensures |ps| == |gs| && forall i :: 0 <= i < |gs| ==> ps[i] == KeyTotal(gs[i].key, SumBy(gs[i].members, w))
  {
    if gs == [] then [] else [KeyTotal(gs[0].key, SumBy(gs[0].members, w))] + Sums(gs[1..], w)
  }

  function TotalCount<K>(ps: seq<KeyCount<K>>): nat
  {
    if ps == [] then 0 else ps[0].count + TotalCount(ps[1..])
  }

  function TotalCountWhere<K>(ps: seq<KeyCount<K>>, p: K -> bool): nat
  {
    if ps == [] then 0 else (if p(ps[0].key) then ps[0].count else 0) + TotalCountWhere(ps[1..], p)
  }

  function TotalValue<K>(ps: seq<KeyTotal<K>>): real
  {
    if ps == [] then 0.0 else ps[0].total + TotalValue(ps[1..])
  }

  // ---------------------------------------------------------------------
  // Facts about the row-level reductions

  lemma {:induction false} WithKeyContains<K, T>(xs: seq<T>, key: T -> K, j: nat)
    requires j < |xs|
    ensures xs[j] in WithKey(xs, key, key(xs[j]))
    decreases |xs|
  {
    if j < |xs| - 1 {
      WithKeyContains(xs[..|xs| - 1], key, j);
    }
  }

  lemma {:induction false} WithKeyMembers<K, T>(xs: seq<T>, key: T -> K, k: K)
    ensures forall y :: y in WithKey(xs, key, k) ==> y in xs && key(y) == k
    decreases |xs|
  {
    if xs != [] {
      WithKeyMembers(xs[..|xs| - 1], key, k);
    }
  }

  lemma {:induction false} WithKeyAppend<K, T>(xs: seq<T>, key: T -> K, k: K, x: T)
    ensures WithKey(xs + [x], key, k) == WithKey(xs, key, k) + (if key(x) == k then [x] else [])
  {
    assert (xs + [x])[..|xs|] == xs;
  }

  // ---------------------------------------------------------------------
  // Inserting one row into the groups

  lemma {:induction false} LookupAbsent<K(!new), T>(gs: seq<Group<K, T>>, lt: (K, K) -> bool, k: K)
    requires StrictTotalOrder(lt) && KeysIncreasing(gs, lt)
    requires gs != [] && lt(k, gs[0].key)
    ensures Lookup(gs, k) == []
    decreases |gs|
  {
    if |gs| > 1 {
      assert lt(gs[0].key, gs[1].key);
      LookupAbsent(gs[1..], lt, k);
    }
  }

  lemma AddToGroupsKeys<K(!new), T>(gs: seq<Group<K, T>>, key: T -> K, lt: (K, K) -> bool, x: T)
    requires StrictTotalOrder(lt) && KeysIncreasing(gs, lt)
    ensures var r := AddToGroups(gs, key, lt, x);
      && KeysIncreasing(r, lt)
      && (forall i :: 0 <= i < |r| ==> r[i].key == key(x) || r[i].key in Keys(gs))
      && (NoEmptyGroup(gs) ==> NoEmptyGroup(r))
  {
    AddToGroupsKeySource(gs, key, lt, x);
    AddToGroupsSorted(gs, key, lt, x);
    if NoEmptyGroup(gs) {
      AddToGroupsNoEmpty(gs, key, lt, x);
    }
  }

  /** Every key after the insertion is the new row's or an old one. */
  lemma {:induction false} AddToGroupsKeySource<K, T>(gs: seq<Group<K, T>>, key: T -> K, lt: (K, K) -> bool, x: T)
    ensures forall i :: 0 <= i < |AddToGroups(gs, key, lt, x)| ==>
      AddToGroups(gs, key, lt, x)[i].key == key(x) || AddToGroups(gs, key, lt, x)[i].key in Keys(gs)
    decreases |gs|
  {
    if gs != [] && key(x) != gs[0].key && !lt(key(x), gs[0].key) {
      var tail := AddToGroups(gs[1..], key, lt, x);
      var r := [gs[0]] + tail;
      AddToGroupsKeySource(gs[1..], key, lt, x);
      forall i | 0 < i < |r| && r[i].key != key(x) ensures r[i].key in Keys(gs) {
        assert r[i] == tail[i - 1];
        assert r[i].key in Keys(gs[1..]);
        var j :| 0 <= j < |gs[1..]| && Keys(gs[1..])[j] == r[i].key;
        assert Keys(gs)[1 + j] == r[i].key;
      }
    }
  }

  lemma {:induction false} AddToGroupsNoEmpty<K, T>(gs: seq<Group<K, T>>, key: T -> K, lt: (K, K) -> bool, x: T)
    requires NoEmptyGroup(gs)
    ensures NoEmptyGroup(AddToGroups(gs, key, lt, x))
    decreases |gs|
  {
    if gs != [] && key(x) != gs[0].key && !lt(key(x), gs[0].key) {
      AddToGroupsNoEmpty(gs[1..], key, lt, x);
    }
  }

  /** The insertion keeps the keys in ascending order. */
  lemma {:induction false} AddToGroupsSorted<K(!new), T>(gs: seq<Group<K, T>>, key: T -> K, lt: (K, K) -> bool, x: T)
    requires StrictTotalOrder(lt) && KeysIncreasing(gs, lt)
    ensures KeysIncreasing(AddToGroups(gs, key, lt, x), lt)
    decreases |gs|
  {
    if gs != [] && key(x) != gs[0].key && !lt(key(x), gs[0].key) {
      var tail := AddToGroups(gs[1..], key, lt, x);
      AddToGroupsSorted(gs[1..], key, lt, x);
      AddToGroupsKeySource(gs[1..], key, lt, x);
      forall i | 0 <= i < |tail| ensures lt(gs[0].key, tail[i].key) {
        if tail[i].key != key(x) {
          assert tail[i].key in Keys(gs[1..]);
          var j :| 0 <= j < |gs[1..]| && Keys(gs[1..])[j] == tail[i].key;
          assert gs[1 + j].key == tail[i].key;
        }
      }
    }
  }

  lemma {:induction false} AddToGroupsLookup<K(!new), T>(gs: seq<Group<K, T>>, key: T -> K, lt: (K, K) -> bool, x: T, k: K)
    requires StrictTotalOrder(lt) && KeysIncreasing(gs, lt)
    ensures Lookup(AddToGroups(gs, key, lt, x), k) == Lookup(gs, k) + (if key(x) == k then [x] else [])
    decreases |gs|
  {
    if gs == [] {
    } else if key(x) == gs[0].key {
    } else if lt(key(x), gs[0].key) {
      if k == key(x) {
        LookupAbsent(gs, lt, k);
      }
    } else {
      AddToGroupsLookup(gs[1..], key, lt, x, k);
    }
  }

  lemma {:induction false} AddToGroupsCount<K, T>(gs: seq<Group<K, T>>, key: T -> K, lt: (K, K) -> bool, x: T, p: K -> bool)
    ensures TotalCount(Sizes(AddToGroups(gs, key, lt, x))) == TotalCount(Sizes(gs)) + 1
    ensures TotalCountWhere(Sizes(AddToGroups(gs, key, lt, x)), p)
         == TotalCountWhere(Sizes(gs), p) + (if p(key(x)) then 1 else 0)
    decreases |gs|
  {
    if gs != [] && key(x) != gs[0].key && !lt(key(x), gs[0].key) {
      AddToGroupsCount(gs[1..], key, lt, x, p);
      assert Sizes(AddToGroups(gs, key, lt, x))[1..] == Sizes(AddToGroups(gs[1..], key, lt, x));
    } else if gs != [] && key(x) == gs[0].key {
      assert Sizes(AddToGroups(gs, key, lt, x))[1..] == Sizes(gs[1..]);
    } else if gs != [] {
      assert Sizes(AddToGroups(gs, key, lt, x))[1..] == Sizes(gs);
    }
  }

  lemma {:induction false} AddToGroupsSum<K, T>(gs: seq<Group<K, T>>, key: T -> K, lt: (K, K) -> bool, x: T, w: T -> real)
    ensures TotalValue(Sums(AddToGroups(gs, key, lt, x), w)) == TotalValue(Sums(gs, w)) + w(x)
    decreases |gs|
  {
    if gs != [] && key(x) != gs[0].key && !lt(key(x), gs[0].key) {
      AddToGroupsSum(gs[1..], key, lt, x, w);
      assert Sums(AddToGroups(gs, key, lt, x), w)[1..] == Sums(AddToGroups(gs[1..], key, lt, x), w);
    } else if gs != [] && key(x) == gs[0].key {
      var m := gs[0].members;
      assert (m + [x])[..|m|] == m;
      assert Sums(AddToGroups(gs, key, lt, x), w)[1..] == Sums(gs[1..], w);
    } else {
      assert [x][..0] == [];
      assert SumBy([x], w) == w(x);
      var r := AddToGroups(gs, key, lt, x);
      assert r == [Group(key(x), [x])] + gs;
      assert Sums(r, w) == [KeyTotal(key(x), w(x))] + Sums(gs, w);
    }
  }

  // ---------------------------------------------------------------------
  // What groupby promises

  lemma {:induction false} LookupPresent<K, T>(gs: seq<Group<K, T>>, k: K)
    requires Lookup(gs, k) != []
    ensures k in Keys(gs)
    decreases |gs|
  {
    if gs[0].key != k {
      LookupPresent(gs[1..], k);
    }
  }

  lemma {:induction false} LookupAt<K(!new), T>(gs: seq<Group<K, T>>, lt: (K, K) -> bool, i: nat)
    requires StrictTotalOrder(lt) && KeysIncreasing(gs, lt) && i < |gs|
    ensures Lookup(gs, gs[i].key) == gs[i].members
    decreases i
  {
    if i > 0 {
      assert lt(gs[0].key, gs[i].key);
      LookupAt(gs[1..], lt, i - 1);
    }
  }

  /**
   * The groups of xs are in strictly ascending key order (so every key has at
   * most one group), none is empty, and the group of each key k holds exactly
   * the rows whose key is k, in their original order.
   */
  lemma {:induction false} GroupByLookup<K(!new), T>(xs: seq<T>, key: T -> K, lt: (K, K) -> bool)
    requires StrictTotalOrder(lt)
    ensures var gs := GroupBy(xs, key, lt);
      && KeysIncreasing(gs, lt)
      && NoEmptyGroup(gs)
      && forall k :: Lookup(gs, k) == WithKey(xs, key, k)
    decreases |xs|
  {
    if xs != [] {
      var init, x := xs[..|xs| - 1], xs[|xs| - 1];
      assert xs == init + [x];
      GroupByLookup(init, key, lt);
      AddToGroupsKeys(GroupBy(init, key, lt), key, lt, x);
      forall k ensures Lookup(GroupBy(xs, key, lt), k) == WithKey(xs, key, k) {
        AddToGroupsLookup(GroupBy(init, key, lt), key, lt, x, k);
        WithKeyAppend(init, key, k, x);
      }
    }
  }

  /**
   * Every group is the subsequence of rows with its key, and every row's key
   * has a group.
   */
  lemma GroupByPartition<K(!new), T>(xs: seq<T>, key: T -> K, lt: (K, K) -> bool)
    requires StrictTotalOrder(lt)
    ensures var gs := GroupBy(xs, key, lt);
      && KeysIncreasing(gs, lt)
      && (forall i :: 0 <= i < |gs| ==> gs[i].members == WithKey(xs, key, gs[i].key) != [])
      && (forall j :: 0 <= j < |xs| ==> key(xs[j]) in Keys(gs))
  {
    var gs := GroupBy(xs, key, lt);
    GroupByLookup(xs, key, lt);
    forall i | 0 <= i < |gs| ensures gs[i].members == WithKey(xs, key, gs[i].key) {
      LookupAt(gs, lt, i);
    }
    forall j | 0 <= j < |xs| ensures key(xs[j]) in Keys(gs) {
      WithKeyContains(xs, key, j);
      LookupPresent(gs, key(xs[j]));
    }
  }

  /** The group sizes add up to the number of rows, also when only keys satisfying p are kept. */
  lemma {:induction false} GroupBySizesTotal<K, T>(xs: seq<T>, key: T -> K, lt: (K, K) -> bool, p: K -> bool)
    ensures TotalCount(Sizes(GroupBy(xs, key, lt))) == |xs|
    ensures TotalCountWhere(Sizes(GroupBy(xs, key, lt)), p) == CountWhere(xs, key, p)
    decreases |xs|
  {
    if xs != [] {
      GroupBySizesTotal(xs[..|xs| - 1], key, lt, p);
      AddToGroupsCount(GroupBy(xs[..|xs| - 1], key, lt), key, lt, xs[|xs| - 1], p);
    }
  }

  /** The per-group sums add up to the sum over all rows. */
  lemma {:induction false} GroupBySumsTotal<K, T>(xs: seq<T>, key: T -> K, lt: (K, K) -> bool, w: T -> real)
    ensures TotalValue(Sums(GroupBy(xs, key, lt), w)) == SumBy(xs, w)
    decreases |xs|
  {
    if xs != [] {
      GroupBySumsTotal(xs[..|xs| - 1], key, lt, w);
      AddToGroupsSum(GroupBy(xs[..|xs| - 1], key, lt), key, lt, xs[|xs| - 1], w);
    }
  }

  // ---------------------------------------------------------------------
  // `value_counts()`: group sizes listed from the most to the least frequent

  predicate CountsNonIncreasing<K>(ps: seq<KeyCount<K>>)
  {
    forall i, j :: 0 <= i < j < |ps| ==> ps[i].count >= ps[j].count
  }

  ghost predicate KeysDistinct<K>(ps: seq<KeyCount<K>>)
  {
    forall i, j :: 0 <= i < j < |ps| ==> ps[i].key != ps[j].key
  }

  /** Inserts p before the first entry with a smaller count. */
  function InsertByCount<K>(p: KeyCount<K>, ps: seq<KeyCount<K>>): seq<KeyCount<K>>
  {
    if ps == [] then [p]
    else if p.count >= ps[0].count then [p] + ps
    else [ps[0]] + InsertByCount(p, ps[1..])
  }

  /** A stable sort on descending count. */
  function SortByCountDesc<K>(ps: seq<KeyCount<K>>): seq<KeyCount<K>>
  {
    if ps == [] then [] else InsertByCount(ps[0], SortByCountDesc(ps[1..]))
  }

  function ValueCounts<K(==), T>(xs: seq<T>, key: T -> K, lt: (K, K) -> bool): seq<KeyCount<K>>
  {
    SortByCountDesc(Sizes(GroupBy(xs, key, lt)))
  }

  lemma {:induction false} InsertByCountMember<K>(p: KeyCount<K>, ps: seq<KeyCount<K>>, q: KeyCount<K>)
    ensures |InsertByCount(p, ps)| == |ps| + 1
    ensures q in InsertByCount(p, ps) <==> q == p || q in ps
    decreases |ps|
  {
    if ps != [] && p.count < ps[0].count {
      InsertByCountMember(p, ps[1..], q);
      assert ps == [ps[0]] + ps[1..];
    }
  }

  lemma {:induction false} InsertByCountOrdered<K>(p: KeyCount<K>, ps: seq<KeyCount<K>>)
    requires CountsNonIncreasing(ps)
    ensures CountsNonIncreasing(InsertByCount(p, ps))
    decreases |ps|
  {
    if ps != [] && p.count < ps[0].count {
      var r, tail := InsertByCount(p, ps), InsertByCount(p, ps[1..]);
      InsertByCountOrdered(p, ps[1..]);
      assert r == [ps[0]] + tail;
      forall j | 1 <= j < |r| ensures r[0].count >= r[j].count {
        InsertByCountMember(p, ps[1..], r[j]);
        assert r[j] in tail;
        if r[j] != p {
          var k :| 0 <= k < |ps[1..]| && ps[1..][k] == r[j];
          assert ps[1 + k] == r[j];
        }
      }
    }
  }

  lemma {:induction false} InsertByCountDistinct<K>(p: KeyCount<K>, ps: seq<KeyCount<K>>)
    requires KeysDistinct(ps)
    requires forall i :: 0 <= i < |ps| ==> ps[i].key != p.key
    ensures KeysDistinct(InsertByCount(p, ps))
    decreases |ps|
  {
    if ps != [] && p.count < ps[0].count {
      var r, tail := InsertByCount(p, ps), InsertByCount(p, ps[1..]);
      InsertByCountDistinct(p, ps[1..]);
      assert r == [ps[0]] + tail;
      forall j | 1 <= j < |r| ensures r[0].key != r[j].key {
        InsertByCountMember(p, ps[1..], r[j]);
        assert r[j] in tail;
        if r[j] != p {
          var k :| 0 <= k < |ps[1..]| && ps[1..][k] == r[j];
          assert ps[1 + k] == r[j];
        }
      }
    }
  }

  lemma {:induction false} SortByCountDescMember<K>(ps: seq<KeyCount<K>>, q: KeyCount<K>)
    ensures |SortByCountDesc(ps)| == |ps|
    ensures q in SortByCountDesc(ps) <==> q in ps
    decreases |ps|
  {
    if ps != [] {
      SortByCountDescMember(ps[1..], q);
      InsertByCountMember(ps[0], SortByCountDesc(ps[1..]), q);
      assert ps == [ps[0]] + ps[1..];
    }
  }

  /**
   * Sorting by descending count yields counts in non-increasing order and
   * keeps keys distinct.
   */
  lemma {:induction false} SortByCountDescOrdered<K>(ps: seq<KeyCount<K>>)
    ensures CountsNonIncreasing(SortByCountDesc(ps))
    ensures KeysDistinct(ps) ==> KeysDistinct(SortByCountDesc(ps))
    decreases |ps|
  {
    if ps != [] {
      var rest := ps[1..];
      var sorted := SortByCountDesc(rest);
      SortByCountDescOrdered(rest);
      InsertByCountOrdered(ps[0], sorted);
      if KeysDistinct(ps) {
        forall i | 0 <= i < |sorted| ensures sorted[i].key != ps[0].key {
          SortByCountDescMember(rest, sorted[i]);
          assert sorted[i] in rest;
          var k :| 0 <= k < |rest| && rest[k] == sorted[i];
          assert ps[1 + k] == sorted[i];
        }
        InsertByCountDistinct(ps[0], sorted);
      }
    }
  }

  /**
   * `value_counts()`: counts in non-increasing order, each key listed once,
   * each listed count the number of rows with that key, and every row's key
   * listed.
   */
  lemma ValueCountsSpec<K(!new), T>(xs: seq<T>, key: T -> K, lt: (K, K) -> bool)
    requires StrictTotalOrder(lt)
    ensures var vc := ValueCounts(xs, key, lt);
      && CountsNonIncreasing(vc)
      && KeysDistinct(vc)
      && (forall i :: 0 <= i < |vc| ==> vc[i].count == |WithKey(xs, key, vc[i].key)| > 0)
      && (forall j :: 0 <= j < |xs| ==> KeyCount(key(xs[j]), |WithKey(xs, key, key(xs[j]))|) in vc)
  {
    var gs := GroupBy(xs, key, lt);
    var sz := Sizes(gs);
    GroupByPartition(xs, key, lt);
    SortByCountDescOrdered(sz);
    assert KeysDistinct(sz) by {
      forall i, j | 0 <= i < j < |sz| ensures sz[i].key != sz[j].key {
        assert lt(gs[i].key, gs[j].key);
      }
    }
    var vc := SortByCountDesc(sz);
    forall j | 0 <= j < |xs| ensures KeyCount(key(xs[j]), |WithKey(xs, key, key(xs[j]))|) in vc {
      var i :| 0 <= i < |gs| && Keys(gs)[i] == key(xs[j]);
      assert sz[i] == KeyCount(key(xs[j]), |WithKey(xs, key, key(xs[j]))|);
      SortByCountDescMember(sz, sz[i]);
    }
    forall i | 0 <= i < |vc| ensures vc[i].count == |WithKey(xs, key, vc[i].key)| > 0 {
      SortByCountDescMember(sz, vc[i]);
      assert vc[i] in sz;
      var k :| 0 <= k < |sz| && sz[k] == vc[i];
    }
  }

  // ---------------------------------------------------------------------
  // Counting rows per key over a given list of keys (a zero-filled table line)

  /** For each key of ks, the number of rows with that key (0 when none). */
  function CountsFor<K(==), T>(xs: seq<T>, key: T -> K, ks: seq<K>): (cs: seq<nat>)
    ensures |cs| == |ks| && forall i :: 0 <= i < |ks| ==> cs[i] == |WithKey(xs, key, ks[i])|
  {
    if ks == [] then [] else [|WithKey(xs, key, ks[0])|] + CountsFor(xs, key, ks[1..])
  }

  function SumNat(ns: seq<nat>): nat
  {
    if ns == [] then 0 else ns[0] + SumNat(ns[1..])
  }

  ghost predicate Distinct<K>(ks: seq<K>)
  {
    forall i, j :: 0 <= i < j < |ks| ==> ks[i] != ks[j]
  }

  function Occurrences<K(==)>(ks: seq<K>, k: K): nat
  {
    if ks == [] then 0 else (if ks[0] == k then 1 else 0) + Occurrences(ks[1..], k)
  }

  lemma {:induction false} OccurrencesOnce<K>(ks: seq<K>, k: K)
    requires Distinct(ks) && k in ks
    ensures Occurrences(ks, k) == 1
    decreases |ks|
  {
    if ks[0] == k {
      OccurrencesNone(ks[1..], k);
    } else {
      OccurrencesOnce(ks[1..], k);
    }
  }

  lemma {:induction false} OccurrencesNone<K>(ks: seq<K>, k: K)
    requires k !in ks
    ensures Occurrences(ks, k) == 0
    decreases |ks|
  {
    if ks != [] {
      OccurrencesNone(ks[1..], k);
    }
  }

  lemma {:induction false} CountsForAppend<K, T>(xs: seq<T>, key: T -> K, ks: seq<K>, x: T)
    ensures SumNat(CountsFor(xs + [x], key, ks)) == SumNat(CountsFor(xs, key, ks)) + Occurrences(ks, key(x))
    decreases |ks|
  {
    if ks != [] {
      CountsForAppend(xs, key, ks[1..], x);
      WithKeyAppend(xs, key, ks[0], x);
    }
  }

  /**
   * Over a list of distinct keys that includes every row's key, the per-key
   * counts add up to the number of rows.
   */
  lemma {:induction false} CountsForTotal<K, T>(xs: seq<T>, key: T -> K, ks: seq<K>)
    requires Distinct(ks)
    requires forall x :: x in xs ==> key(x) in ks
    ensures SumNat(CountsFor(xs, key, ks)) == |xs|
    decreases |xs|
  {
    if xs == [] {
      CountsForEmpty(key, ks);
    } else {
      var init, x := xs[..|xs| - 1], xs[|xs| - 1];
      assert xs == init + [x];
      CountsForTotal(init, key, ks);
      CountsForAppend(init, key, ks, x);
      OccurrencesOnce(ks, key(x));
    }
  }

  lemma {:induction false} CountsForEmpty<K, T>(key: T -> K, ks: seq<K>)
    ensures SumNat(CountsFor([], key, ks)) == 0
    decreases |ks|
  {
    if ks != [] {
      CountsForEmpty(key, ks[1..]);
    }
  }
}
