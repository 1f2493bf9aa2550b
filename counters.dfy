/**
 * Python's `collections.Counter` as the scripts use it: counting the elements
 * of a list, `counter[k] += 1`, `counter.get(k, 0)`, and `most_common()`,
 * which lists every key with its count, highest counts first.
 */
module Counters {
  import opened Wrappers

  predicate Distinct<T(==)>(s: seq<T>) {
    forall i, j :: 0 <= i < j < |s| ==> s[i] != s[j]
  }

  /** `list(s)`: the elements of a set, each once, in some order. */
  method ListOf<T(==)>(s: set<T>) returns (xs: seq<T>)
    ensures Distinct(xs)
    ensures forall x :: x in xs <==> x in s
  {
    xs := [];
    var rest := s;
    while rest != {}
      invariant rest <= s
      invariant Distinct(xs)
      invariant forall x :: x in xs <==> x in s && x !in rest
      decreases rest
    {
      var x :| x in rest;
      xs := xs + [x];
      rest := rest - {x};
    }
  }

  /** How many times `x` occurs in `xs`. */
  function Count<T(==)>(xs: seq<T>, x: T): (n: nat)
    ensures n <= |xs|
    ensures n > 0 <==> x in xs
  {
    if xs == [] then 0
    else
      var init := xs[..|xs| - 1];
      assert xs == init + [xs[|xs| - 1]];
      Count(init, x) + (if xs[|xs| - 1] == x then 1 else 0)
  }

  lemma {:induction false} CountAppend<T>(xs: seq<T>, ys: seq<T>, x: T)
    ensures Count(xs + ys, x) == Count(xs, x) + Count(ys, x)
    decreases |ys|
  {
    if ys != [] {
      var init := ys[..|ys| - 1];
      assert (xs + ys)[..|xs + ys| - 1] == xs + init;
      assert (xs + ys)[|xs + ys| - 1] == ys[|ys| - 1];
      CountAppend(xs, init, x);
    } else {
      assert xs + ys == xs;
    }
  }

  /** The keys produced, in order, by the elements of `xs` for which `f` yields one. */
  function KeysBy<T, K>(xs: seq<T>, f: T -> Option<K>): (ks: seq<K>)
    ensures |ks| <= |xs|
  {
    if xs == [] then []
    else
      var init := xs[..|xs| - 1];
      match f(xs[|xs| - 1])
      case Some(k) => KeysBy(init, f) + [k]
      case None => KeysBy(init, f)
  }

  lemma {:induction false} KeysByAppend<T, K>(xs: seq<T>, ys: seq<T>, f: T -> Option<K>)
    ensures KeysBy(xs + ys, f) == KeysBy(xs, f) + KeysBy(ys, f)
    decreases |ys|
  {
    if ys == [] {
      assert xs + ys == xs;
    } else {
      var init := ys[..|ys| - 1];
      assert (xs + ys)[..|xs + ys| - 1] == xs + init;
      assert (xs + ys)[|xs + ys| - 1] == ys[|ys| - 1];
      KeysByAppend(xs, init, f);
    }
  }

  /** A key is produced exactly when some element yields it. */
  lemma {:induction false} KeysByMembership<T, K>(xs: seq<T>, f: T -> Option<K>, k: K)
    ensures k in KeysBy(xs, f) <==> exists x :: x in xs && f(x) == Some(k)
  {
    if xs != [] {
      var init := xs[..|xs| - 1];
      var last := xs[|xs| - 1];
      KeysByMembership(init, f, k);
      assert xs == init + [last];
      if exists x :: x in xs && f(x) == Some(k) {
        var x :| x in xs && f(x) == Some(k);
        if x != last {
          assert x in init;
        }
      }
    }
  }

  /** Counting over a concatenation adds the counts of the two parts. */
  lemma TallyAppend<T, K(!new)>(xs: seq<T>, ys: seq<T>, f: T -> Option<K>, k: K)
    ensures Get(Tally(KeysBy(xs + ys, f)), k) == Get(Tally(KeysBy(xs, f)), k) + Get(Tally(KeysBy(ys, f)), k)
  {
    KeysByAppend(xs, ys, f);
    CountAppend(KeysBy(xs, f), KeysBy(ys, f), k);
  }

  /** One more element bumps its key, if it yields one, and nothing else. */
  lemma TallyStep<T, K(!new)>(xs: seq<T>, i: nat, f: T -> Option<K>)
    requires i < |xs|
    ensures Tally(KeysBy(xs[..i + 1], f)) ==
      match f(xs[i])
      case Some(k) => Bump(Tally(KeysBy(xs[..i], f)), k)
      case None => Tally(KeysBy(xs[..i], f))
  {
    var ys := xs[..i + 1];
    assert ys[..i] == xs[..i];
    var ks := KeysBy(xs[..i], f);
    match f(xs[i])
    case Some(k) =>
      assert KeysBy(ys, f) == ks + [k];
      assert (ks + [k])[..|ks|] == ks;
    case None =>
  }

  /** The elements of `xs` for which `f` yields `k`. */
  function KeyedBy<T(!new), K(==)>(xs: set<T>, f: T -> Option<K>, k: K): set<T> {
    set x | x in xs && f(x) == Some(k)
  }

  /** Over duplicate-free elements, a key's count is the number of elements yielding it. */
  lemma {:induction false} CountIsCardinality<T(!new), K>(xs: seq<T>, f: T -> Option<K>, k: K)
    requires Distinct(xs)
    ensures Count(KeysBy(xs, f), k) == |KeyedBy((set x | x in xs), f, k)|
  {
    var s := set x | x in xs;
    if xs == [] {
      assert KeyedBy(s, f, k) == {};
    } else {
      var init := xs[..|xs| - 1];
      var last := xs[|xs| - 1];
      var s0 := set x | x in init;
      assert Distinct(init);
      CountIsCardinality(init, f, k);
      assert xs == init + [last];
      assert last !in s0;
      assert s == s0 + {last};
      CountLastKey(xs, f, k);
      KeyedByAdd(s0, last, f, k);
    }
  }

  /** The last element adds one to the count of the key it yields, if any. */
  lemma CountLastKey<T, K>(xs: seq<T>, f: T -> Option<K>, k: K)
    requires xs != []
    ensures Count(KeysBy(xs, f), k) == Count(KeysBy(xs[..|xs| - 1], f), k) + (if f(xs[|xs| - 1]) == Some(k) then 1 else 0)
  {
    var ks := KeysBy(xs[..|xs| - 1], f);
    match f(xs[|xs| - 1])
    case Some(c) =>
      CountAppend(ks, [c], k);
    case None =>
  }

  /** Adding a new element adds it to the elements of its key and to no other. */
  lemma KeyedByAdd<T(!new), K>(s0: set<T>, x: T, f: T -> Option<K>, k: K)
    requires x !in s0
    ensures |KeyedBy(s0 + {x}, f, k)| == |KeyedBy(s0, f, k)| + (if f(x) == Some(k) then 1 else 0)
  {
    if f(x) == Some(k) {
      assert KeyedBy(s0 + {x}, f, k) == KeyedBy(s0, f, k) + {x};
    } else {
      assert KeyedBy(s0 + {x}, f, k) == KeyedBy(s0, f, k);
    }
  }


  /** Counting duplicate-free elements does not depend on the order they come in. */
  lemma TallyIgnoresOrder<T(!new), K(!new)>(xs: seq<T>, ys: seq<T>, f: T -> Option<K>)
    requires Distinct(xs) && Distinct(ys)
    requires forall x :: x in xs <==> x in ys
    ensures Tally(KeysBy(xs, f)) == Tally(KeysBy(ys, f))
  {
    var a := Tally(KeysBy(xs, f));
    var b := Tally(KeysBy(ys, f));
    assert (set x | x in xs) == (set x | x in ys);
    forall k
      ensures (k in a <==> k in b) && (k in a ==> a[k] == b[k])
    {
      CountIsCardinality(xs, f, k);
      CountIsCardinality(ys, f, k);
      assert Get(a, k) == Get(b, k);
    }
  }

  /** `counter.get(k, 0)`. */
  function Get<T(==)>(counter: map<T, nat>, k: T): nat {
    if k in counter then counter[k] else 0
  }

  /** `counter[k] += 1`. */
  function Bump<T(==)>(counter: map<T, nat>, k: T): map<T, nat> {
    counter[k := Get(counter, k) + 1]
  }

  /** The Counter obtained by incrementing once per element of `xs`, in order. */
  function Tally<T(==,!new)>(xs: seq<T>): (counter: map<T, nat>)
    ensures forall k :: Get(counter, k) == Count(xs, k)
    ensures forall k :: k in counter <==> k in xs
  {
    if xs == [] then map[]
    else
      var init := xs[..|xs| - 1];
      assert xs == init + [xs[|xs| - 1]];
      Bump(Tally(init), xs[|xs| - 1])
  }

  /** The sum of the counts of `keys` over `xs`. */
  function SumCounts<T(==)>(xs: seq<T>, keys: seq<T>): nat {
    if keys == [] then 0 else Count(xs, keys[0]) + SumCounts(xs, keys[1..])
  }

  lemma {:induction false} SumCountsSnoc<T>(xs: seq<T>, x: T, keys: seq<T>)
    ensures SumCounts(xs + [x], keys) == SumCounts(xs, keys) + Count(keys, x)
  {
    if keys != [] {
      SumCountsSnoc(xs, x, keys[1..]);
      assert (xs + [x])[..|xs + [x]| - 1] == xs;
      CountAppend([keys[0]], keys[1..], x);
      assert [keys[0]] + keys[1..] == keys;
      assert Count([keys[0]], x) == (if keys[0] == x then 1 else 0) by {
        assert [keys[0]][..0] == [];
      }
    }
  }

  lemma {:induction false} CountDistinct<T>(keys: seq<T>, x: T)
    requires Distinct(keys) && x in keys
    ensures Count(keys, x) == 1
  {
    var init := keys[..|keys| - 1];
    if keys[|keys| - 1] == x {
      assert x !in init;
    } else {
      assert x in init;
      CountDistinct(init, x);
    }
  }

  /**
   * Every element lands on exactly one key: over any duplicate-free listing of
   * the keys, the counts add up to the number of elements counted.
   */
  lemma {:induction false} CountsSumToLength<T>(xs: seq<T>, keys: seq<T>)
    requires Distinct(keys)
    requires forall x :: x in xs ==> x in keys
    ensures SumCounts(xs, keys) == |xs|
  {
    if xs == [] {
      ZeroSum(keys);
    } else {
      var init := xs[..|xs| - 1];
      assert xs == init + [xs[|xs| - 1]];
      CountsSumToLength(init, keys);
      SumCountsSnoc(init, xs[|xs| - 1], keys);
      CountDistinct(keys, xs[|xs| - 1]);
    }
  }

  lemma {:induction false} ZeroSum<T>(keys: seq<T>)
    ensures SumCounts([], keys) == 0
  {
    if keys != [] {
      ZeroSum(keys[1..]);
    }
  }

  /** The counts of a listing never increase from one entry to the next. */
  predicate NonIncreasing<T>(entries: seq<(T, nat)>) {
    forall i, j :: 0 <= i < j < |entries| ==> entries[i].1 >= entries[j].1
  }

  /** No key is listed twice. */
  predicate DistinctKeys<T(==)>(entries: seq<(T, nat)>) {
    forall i, j :: 0 <= i < j < |entries| ==> entries[i].0 != entries[j].0
  }

  /** `counter.most_common()`: every key exactly once, with its count, highest counts first. */
  predicate IsMostCommon<T(==,!new)>(entries: seq<(T, nat)>, counter: map<T, nat>) {
    && (forall e :: e in entries ==> e.0 in counter && e.1 == counter[e.0])
    && (forall k :: k in counter ==> (k, counter[k]) in entries)
    && DistinctKeys(entries)
    && NonIncreasing(entries)
  }

  /** Where an entry with count `c` goes: after every entry with a count of at least `c`. */
  function InsertPos<T>(entries: seq<(T, nat)>, c: nat): (p: nat)
    ensures p <= |entries|
    ensures forall i :: 0 <= i < p ==> entries[i].1 >= c
    ensures p < |entries| ==> entries[p].1 < c
  {
    if entries == [] || entries[0].1 < c then 0 else 1 + InsertPos(entries[1..], c)
  }

  /** `entries` with `e` inserted after every entry whose count is at least `e`'s. */
  function InsertByCount<T(==,!new)>(entries: seq<(T, nat)>, e: (T, nat)): (r: seq<(T, nat)>)
    ensures forall x :: x in r <==> x in entries || x == e
    ensures NonIncreasing(entries) ==> NonIncreasing(r)
    ensures DistinctKeys(entries) && (forall x :: x in entries ==> x.0 != e.0) ==> DistinctKeys(r)
  {
    var p := InsertPos(entries, e.1);
    InsertedMembers(entries, e, p);
    InsertedOrder(entries, e, p);
    InsertedKeys(entries, e, p);
    entries[..p] + [e] + entries[p..]
  }

  /** Inserting at any position adds the entry and keeps every other one. */
  lemma InsertedMembers<T>(entries: seq<(T, nat)>, e: (T, nat), p: nat)
    requires p <= |entries|
    ensures forall x :: x in entries[..p] + [e] + entries[p..] <==> x in entries || x == e
  {
    assert entries == entries[..p] + entries[p..];
  }

  /** Inserting after the entries of at least its count, and before the others, keeps the listing ordered. */
  lemma InsertedOrder<T>(entries: seq<(T, nat)>, e: (T, nat), p: nat)
    requires p <= |entries|
    requires forall i :: 0 <= i < p ==> entries[i].1 >= e.1
    requires p < |entries| ==> entries[p].1 < e.1
    ensures NonIncreasing(entries) ==> NonIncreasing(entries[..p] + [e] + entries[p..])
  {
    var r := entries[..p] + [e] + entries[p..];
    if NonIncreasing(entries) {
      assert forall i :: 0 <= i < |r| ==> r[i] == if i < p then entries[i] else if i == p then e else entries[i - 1];
    }
  }

  /** Inserting an entry whose key is new keeps the keys distinct. */
  lemma InsertedKeys<T>(entries: seq<(T, nat)>, e: (T, nat), p: nat)
    requires p <= |entries|
    ensures DistinctKeys(entries) && (forall x :: x in entries ==> x.0 != e.0) ==> DistinctKeys(entries[..p] + [e] + entries[p..])
  {
    var r := entries[..p] + [e] + entries[p..];
    if DistinctKeys(entries) && (forall x :: x in entries ==> x.0 != e.0) {
      assert forall i :: 0 <= i < |r| ==> r[i] == if i < p then entries[i] else if i == p then e else entries[i - 1];
      assert forall i :: 0 <= i < |entries| ==> entries[i].0 != e.0;
    }
  }

  /** Lists a counter as `most_common()` does (the order among equal counts is not modelled). */
  method MostCommon<T(==,!new)>(counter: map<T, nat>) returns (entries: seq<(T, nat)>)
    ensures IsMostCommon(entries, counter)
  {
    entries := [];
    var rest := counter.Keys;
    while rest != {}
      invariant rest <= counter.Keys
      invariant forall e :: e in entries ==> e.0 in counter && e.0 !in rest && e.1 == counter[e.0]
      invariant forall k :: k in counter && k !in rest ==> (k, counter[k]) in entries
      invariant DistinctKeys(entries)
      invariant NonIncreasing(entries)
      decreases rest
    {
      var k :| k in rest;
      entries := InsertByCount(entries, (k, counter[k]));
      rest := rest - {k};
    }
  }

  /** The entries whose count reaches `min`, in listing order. */
  function Frequent<T(==,!new)>(entries: seq<(T, nat)>, min: nat): (r: seq<(T, nat)>)
    ensures |r| <= |entries|
  {
    if entries == [] then []
    else
      var init := entries[..|entries| - 1];
      var last := entries[|entries| - 1];
      assert entries == init + [last];
      if last.1 >= min then Frequent(init, min) + [last] else Frequent(init, min)
  }

  /** The filter keeps exactly the entries whose count reaches `min`. */
  lemma {:induction false} FrequentMembers<T(!new)>(entries: seq<(T, nat)>, min: nat)
    ensures forall e :: e in Frequent(entries, min) <==> e in entries && e.1 >= min
  {
    if entries != [] {
      var init := entries[..|entries| - 1];
      FrequentMembers(init, min);
      assert entries == init + [entries[|entries| - 1]];
    }
  }

  /** Filtering keeps the order of the listing, so a most-common listing stays sorted by count. */
  lemma {:induction false} FrequentKeepsOrder<T(!new)>(entries: seq<(T, nat)>, min: nat)
    requires NonIncreasing(entries)
    ensures NonIncreasing(Frequent(entries, min))
  {
    if entries != [] {
      var init := entries[..|entries| - 1];
      var last := entries[|entries| - 1];
      FrequentKeepsOrder(init, min);
      FrequentMembers(init, min);
      var r0 := Frequent(init, min);
      forall e | e in r0 ensures e.1 >= last.1 {
        var i :| 0 <= i < |init| && init[i] == e;
        assert entries[i] == e;
      }
    }
  }

  /** Lowering the threshold never drops an entry. */
  lemma FrequentMonotone<T(!new)>(entries: seq<(T, nat)>, lower: nat, higher: nat)
    requires lower <= higher
    ensures forall e :: e in Frequent(entries, higher) ==> e in Frequent(entries, lower)
  {
    FrequentMembers(entries, lower);
    FrequentMembers(entries, higher);
  }
}
