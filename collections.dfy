/** Collection idioms that recur across the tracker: filling a Go map from a
    list (a later element with the same key overwrites an earlier one),
    ranging over the keys of a map, and an ordered read. */
module Collections {

  /** Regrouping a concatenation. */
  lemma AppendAssoc<T>(a: seq<T>, b: seq<T>, c: seq<T>)
    ensures a + b + c == a + (b + c)
  {
  }

  /** A prefix of a prefix. */
  lemma PrefixOfPrefix<T>(r: seq<T>, a: nat, b: nat)
    requires a <= b <= |r|
    ensures r[..b][..a] == r[..a]
  {
  }

  /** One more element of a prefix. */
  lemma TakeOneMore<T>(xs: seq<T>, i: nat)
    requires i < |xs|
    ensures xs[..i + 1] == xs[..i] + [xs[i]]
  {
  }

  /** The head and tail of a concatenation with a non-empty front. */
  lemma TailOfAppend<T>(xs: seq<T>, ys: seq<T>)
    requires xs != []
    ensures (xs + ys)[0] == xs[0] && (xs + ys)[1..] == xs[1..] + ys
  {
  }

  /** The map a Go loop `for _, x := range xs { m[key(x)] = x }` leaves behind. */
  function KeyedLast<T, K>(xs: seq<T>, key: T -> K): (m: map<K, T>)
    ensures forall i :: 0 <= i < |xs| ==> key(xs[i]) in m
    ensures forall k :: k in m ==> m[k] in xs && key(m[k]) == k
    ensures |xs| > 0 ==> m[key(xs[|xs| - 1])] == xs[|xs| - 1]
  {
    if xs == [] then map[]
    else
      var m := KeyedLast(xs[..|xs| - 1], key);
      assert forall i :: 0 <= i < |xs| - 1 ==> xs[..|xs| - 1][i] == xs[i];
      m[key(xs[|xs| - 1]) := xs[|xs| - 1]]
  }

  /** Every key of the map comes from some element of the list. */
  lemma KeyedLastKeys<T, K>(xs: seq<T>, key: T -> K, k: K)
    ensures k in KeyedLast(xs, key) <==> exists i :: 0 <= i < |xs| && key(xs[i]) == k
  {
    if k in KeyedLast(xs, key) {
      var x := KeyedLast(xs, key)[k];
      var i :| 0 <= i < |xs| && xs[i] == x;
      assert key(xs[i]) == k;
    }
  }

  /** The value under a key is the LAST element with that key. */
  lemma {:induction false} KeyedLastWins<T, K>(xs: seq<T>, key: T -> K, i: nat)
    requires i < |xs|
    requires forall j :: i < j < |xs| ==> key(xs[j]) != key(xs[i])
    ensures KeyedLast(xs, key)[key(xs[i])] == xs[i]
  {
    if i < |xs| - 1 {
      var init := xs[..|xs| - 1];
      assert forall j :: i < j < |init| ==> init[j] == xs[j];
      KeyedLastWins(init, key, i);
    }
  }

  /** Appending an element changes the map only at that element's key. */
  lemma KeyedLastAppend<T, K>(xs: seq<T>, x: T, key: T -> K)
    ensures KeyedLast(xs + [x], key) == KeyedLast(xs, key)[key(x) := x]
  {
    assert (xs + [x])[..|xs|] == xs;
  }

  predicate StrictlyIncreasing(s: seq<nat>) {
    forall i, j :: 0 <= i < j < |s| ==> s[i] < s[j]
  }

  /** A set of naturals has a least element: descend from any element to a
      smaller one until there is none. */
  lemma {:induction false} MinBelow(s: set<nat>, x: nat)
    requires x in s
    ensures exists m :: m in s && forall y :: y in s ==> m <= y
    decreases x
  {
    if exists y :: y in s && y < x {
      var y :| y in s && y < x;
      MinBelow(s, y);
    } else {
      assert forall y :: y in s ==> x <= y;
    }
  }

  lemma MinExists(s: set<nat>)
    requires s != {}
    ensures exists m :: m in s && forall y :: y in s ==> m <= y
  {
    var x :| x in s;
    MinBelow(s, x);
  }

  function Min(s: set<nat>): (m: nat)
    requires s != {}
    ensures m in s && forall y :: y in s ==> m <= y
  {
    MinExists(s);
    var m :| m in s && forall y :: y in s ==> m <= y;
    m
  }

  /** The keys of a set in ascending order: one fixed order for ranging over
      a Go map, whose own iteration order is unspecified. */
  function SortedKeys(s: set<nat>): (r: seq<nat>)
    ensures forall x :: x in r <==> x in s
    ensures |r| == |s|
    ensures StrictlyIncreasing(r)
    decreases |s|
  {
    if s == {} then []
    else
      var m := Min(s);
      var rest := SortedKeys(s - {m});
      ConsIncreasing(m, rest);
      [m] + rest
  }

  lemma ConsIncreasing(m: nat, rest: seq<nat>)
    requires StrictlyIncreasing(rest)
    requires forall i :: 0 <= i < |rest| ==> m < rest[i]
    ensures StrictlyIncreasing([m] + rest)
  {
  }

  predicate SortedBy<T>(xs: seq<T>, key: T -> int) {
    forall i, j :: 0 <= i < j < |xs| ==> key(xs[i]) <= key(xs[j])
  }

  lemma SortedAppend<T>(xs: seq<T>, y: T, key: T -> int)
    requires SortedBy(xs, key)
    requires forall i :: 0 <= i < |xs| ==> key(xs[i]) <= key(y)
    ensures SortedBy(xs + [y], key)
  {
  }

  /** `xs`, sorted, with `x` placed after every element whose key is not larger. */
  function Insert<T>(x: T, xs: seq<T>, key: T -> int): (r: seq<T>)
    requires SortedBy(xs, key)
    ensures SortedBy(r, key)
    ensures multiset(r) == multiset(xs) + multiset{x}
    decreases |xs|
  {
    if xs == [] then [x]
    else if key(xs[|xs| - 1]) <= key(x) then
      SortedAppend(xs, x, key);
      xs + [x]
    else
      var init := xs[..|xs| - 1];
      var last := xs[|xs| - 1];
      assert xs == init + [last];
      var front := Insert(x, init, key);
      assert forall i :: 0 <= i < |front| ==> key(front[i]) <= key(last) by {
        forall i | 0 <= i < |front| ensures key(front[i]) <= key(last) {
          var y := front[i];
          assert y in multiset(front);
          if y != x {
            assert y in multiset(init);
            var j :| 0 <= j < |init| && init[j] == y;
            assert xs[j] == y;
          }
        }
      }
      SortedAppend(front, last, key);
      front + [last]
  }

  /** An ordered read: the rows of `xs` ascending by `key`. SQL leaves the
      order of rows with equal keys open; this model fixes one. */
  function SortBy<T>(xs: seq<T>, key: T -> int): (r: seq<T>)
    ensures SortedBy(r, key)
    ensures multiset(r) == multiset(xs)
  {
    if xs == [] then []
    else
      var init := xs[..|xs| - 1];
      assert xs == init + [xs[|xs| - 1]];
      Insert(xs[|xs| - 1], SortBy(init, key), key)
  }

  /** The rows of `xs` that satisfy `p`, in their stored order: what a
      `WHERE` clause selects and what a `DELETE` with the negated clause keeps. */
  function Filter<T(!new)>(xs: seq<T>, p: T -> bool): (r: seq<T>)
    ensures |r| <= |xs|
    ensures forall x :: x in r <==> x in xs && p(x)
  {
    if xs == [] then []
    else
      var last := xs[|xs| - 1];
      assert forall x :: x in xs ==> x in xs[..|xs| - 1] || x == last;
      Filter(xs[..|xs| - 1], p) + if p(last) then [last] else []
  }

  lemma {:induction false} FilterAppend<T(!new)>(xs: seq<T>, ys: seq<T>, p: T -> bool)
    ensures Filter(xs + ys, p) == Filter(xs, p) + Filter(ys, p)
    decreases |ys|
  {
    if ys != [] {
      var init := ys[..|ys| - 1];
      assert (xs + ys)[..|xs + ys| - 1] == xs + init;
      FilterAppend(xs, init, p);
    } else {
      assert xs + ys == xs;
    }
  }

  /** Each row is kept as often as it occurs when it satisfies `p`, and not at all otherwise. */
  lemma {:induction false} FilterCount<T(!new)>(xs: seq<T>, p: T -> bool, x: T)
    ensures multiset(Filter(xs, p))[x] == if p(x) then multiset(xs)[x] else 0
  {
    if xs != [] {
      var init := xs[..|xs| - 1];
      assert xs == init + [xs[|xs| - 1]];
      FilterCount(init, p, x);
    }
  }

  /** Filtering again by a weaker condition changes nothing. */
  lemma {:induction false} FilterFilter<T(!new)>(xs: seq<T>, p: T -> bool, q: T -> bool)
    requires forall x :: p(x) ==> q(x)
    ensures Filter(Filter(xs, p), q) == Filter(xs, p)
  {
    if xs != [] {
      var init := xs[..|xs| - 1];
      var last := xs[|xs| - 1];
      FilterFilter(init, p, q);
      FilterAppend(Filter(init, p), if p(last) then [last] else [], q);
      if p(last) {
        assert Filter([last], q) == Filter([], q) + [last];
      } else {
        assert Filter([], q) == [];
      }
    }
  }

  /** Two filters commute, so selecting by one condition sees through a
      deletion made by another. */
  lemma {:induction false} FilterCommute<T(!new)>(xs: seq<T>, p: T -> bool, q: T -> bool)
    ensures Filter(Filter(xs, p), q) == Filter(Filter(xs, q), p)
  {
    if xs != [] {
      var init := xs[..|xs| - 1];
      var last := xs[|xs| - 1];
      FilterCommute(init, p, q);
      FilterAppend(Filter(init, p), if p(last) then [last] else [], q);
      FilterAppend(Filter(init, q), if q(last) then [last] else [], p);
      assert Filter([last], q) == Filter([], q) + if q(last) then [last] else [];
      assert Filter([last], p) == Filter([], p) + if p(last) then [last] else [];
    }
  }

  /** A filter that every row satisfies is the identity; one no row satisfies is empty. */
  lemma {:induction false} FilterTrivial<T(!new)>(xs: seq<T>, p: T -> bool)
    ensures (forall i :: 0 <= i < |xs| ==> p(xs[i])) ==> Filter(xs, p) == xs
    ensures (forall i :: 0 <= i < |xs| ==> !p(xs[i])) ==> Filter(xs, p) == []
  {
    if xs != [] {
      var init := xs[..|xs| - 1];
      assert forall i :: 0 <= i < |init| ==> init[i] == xs[i];
      FilterTrivial(init, p);
      assert xs == init + [xs[|xs| - 1]];
    }
  }

  /** Filtering by `p` and then by `q` is filtering by their conjunction. */
  lemma {:induction false} FilterBoth<T(!new)>(xs: seq<T>, p: T -> bool, q: T -> bool, r: T -> bool)
    requires forall x :: r(x) == (p(x) && q(x))
    ensures Filter(Filter(xs, p), q) == Filter(xs, r)
  {
    if xs != [] {
      var init := xs[..|xs| - 1];
      var last := xs[|xs| - 1];
      FilterBoth(init, p, q, r);
      FilterAppend(Filter(init, p), if p(last) then [last] else [], q);
      assert Filter([last], q) == Filter([], q) + if q(last) then [last] else [];
    }
  }

  /** No two elements share a key. */
  predicate NoDupBy<T, K(==)>(xs: seq<T>, key: T -> K) {
    forall i, j :: 0 <= i < j < |xs| ==> key(xs[i]) != key(xs[j])
  }

  /** Filtering keeps keys distinct. */
  lemma {:induction false} FilterNoDup<T(!new), K>(xs: seq<T>, p: T -> bool, key: T -> K)
    requires NoDupBy(xs, key)
    ensures NoDupBy(Filter(xs, p), key)
  {
    if xs != [] {
      var init := xs[..|xs| - 1];
      var last := xs[|xs| - 1];
      assert NoDupBy(init, key);
      FilterNoDup(init, p, key);
      var r := Filter(init, p);
      assert forall i :: 0 <= i < |r| ==> r[i] in init;
      assert forall x :: x in init ==> key(x) != key(last);
    }
  }
}
