/** The type-list helpers of Algorithm.h and of the self-contained consteval
    draft. A `std::tuple<Ts...>` of distinct types is modelled as the sequence
    of its element keys (for the Time drafts: duration units), and a tuple
    value as a parallel sequence of values. Invoking a callable over the
    elements is modelled as threading the callable's state through the calls.
 */
module TypeLists {

  /** tuple_prepend (tuple_cons in the consteval draft): the new element first. */
  function Prepend<T>(x: T, s: seq<T>): (r: seq<T>)
    ensures |r| == |s| + 1 && r[0] == x && r[1..] == s
  {
    [x] + s
  }

  /** filter_args / filtered_tuple (filter_tuple in the consteval draft):
      the elements that satisfy p, in their original order. */
  function Filter<T>(p: T -> bool, s: seq<T>): (r: seq<T>)
    ensures |r| <= |s|
    ensures forall i :: 0 <= i < |r| ==> r[i] in s && p(r[i])
    ensures forall i :: 0 <= i < |s| && p(s[i]) ==> s[i] in r
  {
    if |s| == 0 then []
    else if p(s[0]) then Prepend(s[0], Filter(p, s[1..]))
    else Filter(p, s[1..])
  }

  /** Filtering distributes over concatenation: together with the one-element
      case (kept iff p holds) this pins Filter down as the order-preserving
      selection of the p-elements. */
  lemma {:induction false} FilterConcat<T>(p: T -> bool, a: seq<T>, b: seq<T>)
    ensures Filter(p, a + b) == Filter(p, a) + Filter(p, b)
    decreases |a|
  {
    if |a| == 0 {
      assert a + b == b;
    } else {
      assert (a + b)[0] == a[0];
      assert (a + b)[1..] == a[1..] + b;
      FilterConcat(p, a[1..], b);
    }
  }

  lemma FilterSingleton<T>(p: T -> bool, x: T)
    ensures Filter(p, [x]) == if p(x) then [x] else []
  {
    assert [x][1..] == [];
  }

  /** has_type: false for the empty tuple, true iff the type occurs. */
  function Has<T(==)>(x: T, s: seq<T>): (b: bool)
    ensures b <==> x in s
  {
    if |s| == 0 then false
    else if s[0] == x then true
    else Has(x, s[1..])
  }

  /** No type occurs twice (what std::get by type needs). */
  predicate Distinct<T(==)>(s: seq<T>) {
    forall i, j :: 0 <= i < j < |s| ==> s[i] != s[j]
  }

  /** index_of: the position of the first occurrence. Asking for a type that
      is absent does not compile, hence the precondition. */
  function IndexOf<T(==)>(x: T, s: seq<T>): (i: nat)
    requires x in s
    ensures i < |s| && s[i] == x
    ensures forall j :: 0 <= j < i ==> s[j] != x
  {
    if s[0] == x then 0 else 1 + IndexOf(x, s[1..])
  }

  /** In a list without duplicates the index of an element is its only position. */
  lemma IndexOfDistinct<T>(s: seq<T>, k: nat)
    requires Distinct(s) && k < |s|
    ensures IndexOf(s[k], s) == k
  {
  }

  /** copy_tuple_by_types: every element of `from` is written into the slot of
      `to` that has the same type, in the order of `from`; the other slots of
      `to` keep their values. Both tuples must have distinct types, and every
      type of `from` must occur in `to` (std::get by type fails otherwise). */
  function CopyByKeys<K(==), V>(fromKeys: seq<K>, fromVals: seq<V>, toKeys: seq<K>, toVals: seq<V>): (r: seq<V>)
    requires |fromKeys| == |fromVals| && |toKeys| == |toVals|
    requires Distinct(fromKeys) && Distinct(toKeys)
    requires forall k :: k in fromKeys ==> k in toKeys
    ensures |r| == |toVals|
    ensures forall i, j :: 0 <= i < |fromKeys| && 0 <= j < |toKeys| && toKeys[j] == fromKeys[i] ==>
              r[j] == fromVals[i]
    ensures forall j :: 0 <= j < |toKeys| && toKeys[j] !in fromKeys ==> r[j] == toVals[j]
    decreases |fromKeys|
  {
    if |fromKeys| == 0 then toVals
    else
      var slot := IndexOf(fromKeys[0], toKeys);
      assert fromKeys[0] !in fromKeys[1..];
      CopyByKeys(fromKeys[1..], fromVals[1..], toKeys, toVals[slot := fromVals[0]])
  }

  /** for_each / for_each_arg: the callable (here: its state) is invoked on
      each element in turn, and its final state is returned. */
  function ForEach<S, T>(f: (S, T) -> S, acc: S, s: seq<T>): S
    decreases |s|
  {
    if |s| == 0 then acc else ForEach(f, f(acc, s[0]), s[1..])
  }

  /** Iterating over a concatenation is iterating over the first part and
      then over the second. */
  lemma {:induction false} ForEachConcat<S, T>(f: (S, T) -> S, acc: S, a: seq<T>, b: seq<T>)
    ensures ForEach(f, acc, a + b) == ForEach(f, ForEach(f, acc, a), b)
    decreases |a|
  {
    if |a| == 0 {
      assert a + b == b;
    } else {
      assert (a + b)[0] == a[0];
      assert (a + b)[1..] == a[1..] + b;
      ForEachConcat(f, f(acc, a[0]), a[1..], b);
    }
  }

  /** A callable that records what it is given sees every element exactly
      once, in order. */
  lemma {:induction false} ForEachVisitsInOrder<T>(acc: seq<T>, s: seq<T>)
    ensures ForEach((trace: seq<T>, x: T) => trace + [x], acc, s) == acc + s
    decreases |s|
  {
    if |s| != 0 {
      ForEachVisitsInOrder(acc + [s[0]], s[1..]);
      assert acc + [s[0]] + s[1..] == acc + s;
    }
  }

  /** for_each_idx / for_each_arg_idx, from index i on: element k is passed
      together with its index k. The element passed is s[k] of the sequence
      as it was before the iteration; in the source the callable gets a
      reference into the tuple, which earlier calls may already have written
      (the carry of apply_and_normalize writes element idx + 1). A callable
      that needs the updated element reads it from its state `acc`, and
      Normalization.Pass and Normalization.Step model that in-place carry
      directly. */
  function ForEachIdxFrom<S, T>(f: (S, T, nat) -> S, acc: S, s: seq<T>, i: nat): S
    requires i <= |s|
    decreases |s| - i
  {
    if i == |s| then acc else ForEachIdxFrom(f, f(acc, s[i], i), s, i + 1)
  }

  function ForEachIdx<S, T>(f: (S, T, nat) -> S, acc: S, s: seq<T>): S {
    ForEachIdxFrom(f, acc, s, 0)
  }

  function Enumerate<T>(s: seq<T>, i: nat, n: nat): seq<(T, nat)>
    requires i <= n <= |s|
  {
    seq(n - i, k requires 0 <= k < n - i => (s[i + k], i + k))
  }

  lemma {:induction false} ForEachIdxFromVisits<T>(acc: seq<(T, nat)>, s: seq<T>, i: nat)
    requires i <= |s|
    ensures ForEachIdxFrom((trace: seq<(T, nat)>, x: T, k: nat) => trace + [(x, k)], acc, s, i)
            == acc + Enumerate(s, i, |s|)
    decreases |s| - i
  {
    if i < |s| {
      ForEachIdxFromVisits(acc + [(s[i], i)], s, i + 1);
      assert acc + [(s[i], i)] + Enumerate(s, i + 1, |s|) == acc + Enumerate(s, i, |s|);
    } else {
      assert Enumerate(s, i, |s|) == [];
    }
  }

  /** A recording callable receives element k with index k, for k = 0, 1, ...
      in ascending order, each exactly once. */
  lemma ForEachIdxVisitsInOrder<T>(s: seq<T>)
    ensures ForEachIdx((trace: seq<(T, nat)>, x: T, k: nat) => trace + [(x, k)], [], s)
            == seq(|s|, k requires 0 <= k < |s| => (s[k], k))
  {
    ForEachIdxFromVisits([], s, 0);
    assert [] + Enumerate(s, 0, |s|) == seq(|s|, k requires 0 <= k < |s| => (s[k], k));
  }
}
