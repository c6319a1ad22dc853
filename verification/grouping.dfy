/** `Collectors.groupingBy` into lists, flattening, and the drop-first selection of the eliminator. */
module Grouping {

  /** One bucket of a grouping: a key and the items mapped to it, in encounter order. */
  datatype Group<K, T> = Group(key: K, members: seq<T>)

  ghost predicate Distinct<T>(s: seq<T>) {
    forall i, j :: 0 <= i < j < |s| ==> s[i] != s[j]
  }

  ghost predicate DistinctKeys<K, T>(gs: seq<Group<K, T>>) {
    forall i, j :: 0 <= i < j < |gs| ==> gs[i].key != gs[j].key
  }

  /** Every bucket holds at least one item, as every `groupingBy` bucket does. */
  ghost predicate NonEmpty<K, T>(gs: seq<Group<K, T>>) {
    forall i :: 0 <= i < |gs| ==> |gs[i].members| > 0
  }

  /** The items of keyed pairs, in order. */
  function Items<K(==), T>(xs: seq<(T, K)>): (r: seq<T>)
    ensures |r| == |xs|
    ensures forall i :: 0 <= i < |xs| ==> r[i] == xs[i].0
  {
    if xs == [] then [] else Items(xs[..|xs| - 1]) + [xs[|xs| - 1].0]
  }

  /** Reference definition of one bucket: the items whose key is `k`, in encounter order. */
  function Select<K(==), T>(xs: seq<(T, K)>, k: K): seq<T>
  {
    if xs == [] then []
    else Select(xs[..|xs| - 1], k) + (if xs[|xs| - 1].1 == k then [xs[|xs| - 1].0] else [])
  }

  /** The members of the bucket keyed `k`, or none when there is no such bucket. */
  function Find<K(==), T>(gs: seq<Group<K, T>>, k: K): seq<T>
  {
    if gs == [] then []
    else if gs[0].key == k then gs[0].members
    else Find(gs[1..], k)
  }

  /** All members of all buckets, bucket after bucket. */
  function Flatten<K(==), T>(gs: seq<Group<K, T>>): seq<T>
  {
    if gs == [] then [] else gs[0].members + Flatten(gs[1..])
  }

  /** One step of the collector: append `x` to the bucket for `k`, opening it at the end if new. */
  function Insert<K(==), T>(gs: seq<Group<K, T>>, x: T, k: K): (r: seq<Group<K, T>>)
    ensures |r| == |gs| || |r| == |gs| + 1
    ensures forall i :: 0 <= i < |gs| ==> r[i].key == gs[i].key
    ensures |r| == |gs| + 1 ==> r[|gs|] == Group(k, [x]) && forall i :: 0 <= i < |gs| ==> gs[i].key != k
    ensures |r| == |gs| ==> exists i :: 0 <= i < |gs| && gs[i].key == k
    ensures NonEmpty(gs) ==> NonEmpty(r)
  {
    if gs == [] then [Group(k, [x])]
    else if gs[0].key == k then [Group(k, gs[0].members + [x])] + gs[1..]
    else
      var rest := Insert(gs[1..], x, k);
      InsertCons(gs, x, k, rest);
      [gs[0]] + rest
  }

  /** Insert's promises, for `r` the result of inserting `x` under `k` into `gs`. */
  ghost predicate Inserted<K, T>(gs: seq<Group<K, T>>, x: T, k: K, r: seq<Group<K, T>>) {
    && (|r| == |gs| || |r| == |gs| + 1)
    && (forall i :: 0 <= i < |gs| ==> r[i].key == gs[i].key)
    && (|r| == |gs| + 1 ==> r[|gs|] == Group(k, [x]) && forall i :: 0 <= i < |gs| ==> gs[i].key != k)
    && (|r| == |gs| ==> exists i :: 0 <= i < |gs| && gs[i].key == k)
    && (NonEmpty(gs) ==> NonEmpty(r))
  }

  /** Passing over a first group with another key keeps Insert's promises. */
  lemma InsertCons<K, T>(gs: seq<Group<K, T>>, x: T, k: K, rest: seq<Group<K, T>>)
    requires gs != [] && gs[0].key != k
    requires Inserted(gs[1..], x, k, rest)
    ensures Inserted(gs, x, k, [gs[0]] + rest)
  {
    var r := [gs[0]] + rest;
    assert forall i :: 1 <= i < |gs| ==> gs[i] == gs[1..][i - 1];
    assert forall i :: 1 <= i < |r| ==> r[i] == rest[i - 1];
    if |r| == |gs| {
      var j :| 0 <= j < |gs[1..]| && gs[1..][j].key == k;
      assert gs[j + 1].key == k;
    }
  }

  lemma {:induction false} FindInsert<K, T>(gs: seq<Group<K, T>>, x: T, k: K, k': K)
    ensures Find(Insert(gs, x, k), k') == Find(gs, k') + (if k' == k then [x] else [])
  {
    if gs != [] && gs[0].key != k {
      FindInsert(gs[1..], x, k, k');
    }
  }

  lemma {:induction false} FlattenInsert<K, T>(gs: seq<Group<K, T>>, x: T, k: K)
    ensures multiset(Flatten(Insert(gs, x, k))) == multiset(Flatten(gs)) + multiset{x}
  {
    if gs != [] && gs[0].key != k {
      FlattenInsert(gs[1..], x, k);
    }
  }

  lemma DistinctConcat<T>(a: seq<T>, b: seq<T>)
    ensures Distinct(a + b) <==> Distinct(a) && Distinct(b) && forall x :: x in a ==> x !in b
  {
    if Distinct(a) && Distinct(b) && forall x :: x in a ==> x !in b {
      forall i, j | 0 <= i < j < |a + b|
        ensures (a + b)[i] != (a + b)[j]
      {
        if i < |a| && j >= |a| {
          assert (a + b)[i] in a && (a + b)[j] == b[j - |a|];
        } else if i >= |a| {
          assert (a + b)[i] == b[i - |a|] && (a + b)[j] == b[j - |a|];
        }
      }
    }
    if Distinct(a + b) {
      forall i, j | 0 <= i < j < |a| ensures a[i] != a[j] {
        assert a[i] == (a + b)[i] && a[j] == (a + b)[j];
      }
      forall i, j | 0 <= i < j < |b| ensures b[i] != b[j] {
        assert b[i] == (a + b)[|a| + i] && b[j] == (a + b)[|a| + j];
      }
      forall i, j | 0 <= i < |a| && 0 <= j < |b| ensures a[i] != b[j] {
        assert a[i] == (a + b)[i] && b[j] == (a + b)[|a| + j];
      }
    }
  }

  lemma {:induction false} FlattenInsertDistinct<K, T>(gs: seq<Group<K, T>>, x: T, k: K)
    requires Distinct(Flatten(gs)) && x !in Flatten(gs)
    ensures Distinct(Flatten(Insert(gs, x, k)))
  {
    if gs == [] {
    } else {
      var m := gs[0].members;
      DistinctConcat(m, Flatten(gs[1..]));
      if gs[0].key == k {
        DistinctConcat(m, [x]);
        assert Flatten(Insert(gs, x, k)) == (m + [x]) + Flatten(gs[1..]);
        DistinctConcat(m + [x], Flatten(gs[1..]));
      } else {
        FlattenInsertDistinct(gs[1..], x, k);
        FlattenInsert(gs[1..], x, k);
        var f' := Flatten(Insert(gs[1..], x, k));
        assert forall y :: y in f' ==> y in multiset(Flatten(gs[1..])) + multiset{x};
        DistinctConcat(m, f');
      }
    }
  }

  /** The collector over the whole stream of keyed items. */
  function GroupBy<K(==,!new), T>(xs: seq<(T, K)>): (gs: seq<Group<K, T>>)
    ensures DistinctKeys(gs) && NonEmpty(gs)
    ensures forall k :: Find(gs, k) == Select(xs, k)
    ensures multiset(Flatten(gs)) == multiset(Items(xs))
    ensures Distinct(Items(xs)) ==> Distinct(Flatten(gs))
  {
    if xs == [] then []
    else
      var prev := GroupBy(xs[..|xs| - 1]);
      InsertStep(prev, xs);
      Insert(prev, xs[|xs| - 1].0, xs[|xs| - 1].1)
  }

  /** Appending one keyed item to a correct grouping of the items before it. */
  lemma InsertStep<K(!new), T>(prev: seq<Group<K, T>>, xs: seq<(T, K)>)
    requires xs != []
    requires DistinctKeys(prev) && NonEmpty(prev)
    requires forall k :: Find(prev, k) == Select(xs[..|xs| - 1], k)
    requires multiset(Flatten(prev)) == multiset(Items(xs[..|xs| - 1]))
    requires Distinct(Items(xs[..|xs| - 1])) ==> Distinct(Flatten(prev))
    ensures var gs := Insert(prev, xs[|xs| - 1].0, xs[|xs| - 1].1);
      && DistinctKeys(gs) && NonEmpty(gs)
      && (forall k :: Find(gs, k) == Select(xs, k))
      && multiset(Flatten(gs)) == multiset(Items(xs))
      && (Distinct(Items(xs)) ==> Distinct(Flatten(gs)))
  {
    var init := xs[..|xs| - 1];
    var (x, k) := xs[|xs| - 1];
    var gs := Insert(prev, x, k);
    InsertKeepsKeysDistinct(prev, x, k);
    InsertSelects(prev, xs);
    FlattenInsert(prev, x, k);
    assert Items(xs) == Items(init) + [x];
    if Distinct(Items(xs)) {
      DistinctConcat(Items(init), [x]);
      assert x !in multiset(Flatten(prev));
      FlattenInsertDistinct(prev, x, k);
    }
  }

  lemma InsertSelects<K(!new), T>(prev: seq<Group<K, T>>, xs: seq<(T, K)>)
    requires xs != []
    requires forall k :: Find(prev, k) == Select(xs[..|xs| - 1], k)
    ensures forall k :: Find(Insert(prev, xs[|xs| - 1].0, xs[|xs| - 1].1), k) == Select(xs, k)
  {
    var (x, k) := xs[|xs| - 1];
    forall k' ensures Find(Insert(prev, x, k), k') == Select(xs, k') {
      FindInsert(prev, x, k, k');
    }
  }

  lemma InsertKeepsKeysDistinct<K, T>(gs: seq<Group<K, T>>, x: T, k: K)
    requires DistinctKeys(gs)
    ensures DistinctKeys(Insert(gs, x, k))
  {
    var r := Insert(gs, x, k);
    forall i, j | 0 <= i < j < |r| ensures r[i].key != r[j].key {
      if j == |gs| {
        assert r[i].key == gs[i].key;
      } else {
        assert r[i].key == gs[i].key && r[j].key == gs[j].key;
      }
    }
  }

  lemma {:induction false} FindAt<K, T>(gs: seq<Group<K, T>>, i: nat)
    requires DistinctKeys(gs) && i < |gs|
    ensures Find(gs, gs[i].key) == gs[i].members
  {
    if i > 0 {
      assert gs[1..][i - 1] == gs[i];
      FindAt(gs[1..], i - 1);
    }
  }

  /** A bucket found by key is one of the groups. */
  lemma {:induction false} FindExists<K, T>(gs: seq<Group<K, T>>, k: K)
    requires |Find(gs, k)| > 0
    ensures exists i :: 0 <= i < |gs| && gs[i].key == k && gs[i].members == Find(gs, k)
  {
    if gs[0].key != k {
      FindExists(gs[1..], k);
      var i :| 0 <= i < |gs[1..]| && gs[1..][i].key == k && gs[1..][i].members == Find(gs[1..], k);
      assert gs[i + 1] == gs[1..][i];
    }
  }

  lemma {:induction false} SelectMember<K, T>(xs: seq<(T, K)>, k: K, x: T)
    ensures x in Select(xs, k) <==> exists i :: 0 <= i < |xs| && xs[i] == (x, k)
  {
    if xs != [] {
      var init := xs[..|xs| - 1];
      SelectMember(init, k, x);
      if exists i :: 0 <= i < |xs| && xs[i] == (x, k) {
        var i :| 0 <= i < |xs| && xs[i] == (x, k);
        if i < |xs| - 1 {
          assert init[i] == xs[i];
        }
      }
      if exists i :: 0 <= i < |init| && init[i] == (x, k) {
        var i :| 0 <= i < |init| && init[i] == (x, k);
        assert xs[i] == init[i];
      }
    }
  }

  /** Each bucket of `GroupBy` is exactly the items with its key, so its members share that key. */
  lemma GroupMembers<K(!new), T>(xs: seq<(T, K)>, i: nat, x: T)
    requires i < |GroupBy(xs)|
    ensures GroupBy(xs)[i].members == Select(xs, GroupBy(xs)[i].key)
    ensures x in GroupBy(xs)[i].members <==> exists j :: 0 <= j < |xs| && xs[j] == (x, GroupBy(xs)[i].key)
  {
    var gs := GroupBy(xs);
    FindAt(gs, i);
    SelectMember(xs, gs[i].key, x);
  }

  /** The buckets with more than one member (the newer eliminator's `size() > 1` filter). */
  function Duplicated<K(==,!new), T(==,!new)>(gs: seq<Group<K, T>>): (r: seq<Group<K, T>>)
    ensures forall i :: 0 <= i < |r| ==> |r[i].members| > 1
    ensures forall g :: g in r <==> g in gs && |g.members| > 1
  {
    if gs == [] then []
    else
      assert forall g :: g in gs <==> g == gs[0] || g in gs[1..];
      (if |gs[0].members| > 1 then [gs[0]] else []) + Duplicated(gs[1..])
  }

  /** Every bucket without its first member (`subList(1, size)`), flattened: the deletion attempts. */
  function Attempts<K(==), T>(gs: seq<Group<K, T>>): seq<T>
    requires NonEmpty(gs)
  {
    if gs == [] then [] else gs[0].members[1..] + Attempts(gs[1..])
  }

  /** The first member of every bucket: the copies the eliminator keeps. */
  function Survivors<K, T>(gs: seq<Group<K, T>>): (r: seq<T>)
    requires NonEmpty(gs)
    ensures |r| == |gs|
    ensures forall i :: 0 <= i < |gs| ==> r[i] == gs[i].members[0]
  {
    if gs == [] then [] else [gs[0].members[0]] + Survivors(gs[1..])
  }

  /** Keeping the first of each bucket and attempting the rest splits the flattened buckets
      exactly, so a bucket of N members yields N - 1 attempts. */
  lemma {:induction false} SurvivorsAndAttempts<K, T>(gs: seq<Group<K, T>>)
    requires NonEmpty(gs)
    ensures multiset(Survivors(gs)) + multiset(Attempts(gs)) == multiset(Flatten(gs))
    ensures |Attempts(gs)| == |Flatten(gs)| - |gs|
  {
    if gs != [] {
      SurvivorsAndAttempts(gs[1..]);
      var m := gs[0].members;
      assert m == [m[0]] + m[1..];
    }
  }

  /** An item is attempted exactly when it sits at a position other than the first of some bucket. */
  lemma {:induction false} AttemptsMember<K, T>(gs: seq<Group<K, T>>, a: T)
    requires NonEmpty(gs)
    ensures a in Attempts(gs) <==>
      exists i, j :: 0 <= i < |gs| && 1 <= j < |gs[i].members| && gs[i].members[j] == a
  {
    if gs != [] {
      AttemptsMember(gs[1..], a);
      var m := gs[0].members;
      if a in m[1..] {
        var j :| 0 <= j < |m[1..]| && m[1..][j] == a;
        assert gs[0].members[j + 1] == a;
      } else if a in Attempts(gs[1..]) {
        var i, j :| 0 <= i < |gs[1..]| && 1 <= j < |gs[1..][i].members| && gs[1..][i].members[j] == a;
        assert gs[i + 1].members[j] == a;
      }
      if exists i, j :: 0 <= i < |gs| && 1 <= j < |gs[i].members| && gs[i].members[j] == a {
        var i, j :| 0 <= i < |gs| && 1 <= j < |gs[i].members| && gs[i].members[j] == a;
        if i == 0 {
          assert m[1..][j - 1] == a;
        } else {
          assert gs[1..][i - 1] == gs[i];
        }
      }
    }
  }

  lemma {:induction false} AttemptsInFlatten<K, T>(gs: seq<Group<K, T>>)
    requires NonEmpty(gs)
    ensures forall a :: a in Attempts(gs) ==> a in Flatten(gs)
  {
    if gs != [] {
      AttemptsInFlatten(gs[1..]);
      var m := gs[0].members;
      assert forall a :: a in m[1..] ==> a in m;
    }
  }

  /** When no item occurs twice, no item is attempted twice and no survivor is ever attempted. */
  lemma {:induction false} AttemptsSafe<K, T>(gs: seq<Group<K, T>>)
    requires NonEmpty(gs) && Distinct(Flatten(gs))
    ensures Distinct(Attempts(gs))
    ensures forall i :: 0 <= i < |gs| ==> gs[i].members[0] !in Attempts(gs)
  {
    if gs != [] {
      var m := gs[0].members;
      var rest := Flatten(gs[1..]);
      DistinctConcat(m, rest);
      AttemptsSafe(gs[1..]);
      AttemptsInFlatten(gs[1..]);
      DistinctConcat([m[0]], m[1..]);
      assert m == [m[0]] + m[1..];
      DistinctConcat(m[1..], Attempts(gs[1..]));
      forall i | 0 <= i < |gs| ensures gs[i].members[0] !in Attempts(gs) {
        if i > 0 {
          assert gs[i] == gs[1..][i - 1];
          assert gs[i].members[0] in rest by {
            InFlatten(gs[1..], gs[i].members[0]);
          }
          assert forall y :: y in m[1..] ==> y in m;
        }
      }
    }
  }

  /** An item is in the flattened buckets exactly when it is in one of them. */
  lemma {:induction false} InFlatten<K, T>(gs: seq<Group<K, T>>, x: T)
    ensures x in Flatten(gs) <==> exists i :: 0 <= i < |gs| && x in gs[i].members
  {
    if gs != [] {
      InFlatten(gs[1..], x);
      if exists i :: 0 <= i < |gs[1..]| && x in gs[1..][i].members {
        var i :| 0 <= i < |gs[1..]| && x in gs[1..][i].members;
        assert gs[i + 1] == gs[1..][i];
      }
      if exists i :: 0 <= i < |gs| && x in gs[i].members {
        var i :| 0 <= i < |gs| && x in gs[i].members;
        if i > 0 {
          assert gs[1..][i - 1] == gs[i];
        }
      }
    }
  }

  /** Dropping the single-member buckets first (the newer eliminator) attempts exactly the same items. */
  lemma {:induction false} DuplicatedAttempts<K(!new), T(!new)>(gs: seq<Group<K, T>>)
    requires NonEmpty(gs)
    ensures NonEmpty(Duplicated(gs))
    ensures Attempts(Duplicated(gs)) == Attempts(gs)
  {
    if gs != [] {
      DuplicatedAttempts(gs[1..]);
      var d := Duplicated(gs[1..]);
      if |gs[0].members| > 1 {
        assert Duplicated(gs) == [gs[0]] + d;
        assert ([gs[0]] + d)[1..] == d;
      } else {
        assert Duplicated(gs) == [] + d == d;
        assert gs[0].members[1..] == [];
        assert Attempts(gs) == [] + Attempts(gs[1..]);
      }
    }
  }
}
