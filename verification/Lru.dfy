/** Recency order with a bounded number of distinct keys, as the cache keeps it (src/redact/cache.rs). */
module Lru {
  import opened Bytes

  /** `retain(|entry| entry != key)`. */
  function Without<K(==)>(order: seq<K>, key: K): (r: seq<K>)
    ensures |r| <= |order|
    ensures key !in r
  {
    if order == [] then []
    else if order[0] == key then Without(order[1..], key)
    else [order[0]] + Without(order[1..], key)
  }

  function LastN<K>(xs: seq<K>, n: nat): (r: seq<K>)
    ensures |r| <= n
  {
    if |xs| <= n then xs else xs[|xs| - n..]
  }

  /** The distinct keys of a run of uses, the most recent last. */
  function Recency<K(==)>(uses: seq<K>): seq<K> {
    if uses == [] then []
    else Without(Recency(uses[..|uses| - 1]), uses[|uses| - 1]) + [uses[|uses| - 1]]
  }

  /** One use of a key under a capacity. */
  function Touched<K(==)>(order: seq<K>, capacity: nat, key: K): seq<K> {
    LastN(Without(order, key) + [key], capacity)
  }

  ghost predicate NoDup<K>(xs: seq<K>) {
    forall i, j :: 0 <= i < j < |xs| ==> xs[i] != xs[j]
  }

  lemma {:induction false} WithoutMembers<K>(order: seq<K>, key: K)
    ensures forall x :: x in Without(order, key) <==> x in order && x != key
  {
    if order != [] {
      WithoutMembers(order[1..], key);
      assert forall x :: x in order <==> x == order[0] || x in order[1..];
    }
  }

  lemma {:induction false} WithoutNoDup<K>(order: seq<K>, key: K)
    requires NoDup(order)
    ensures NoDup(Without(order, key))
    ensures |Without(order, key)| == if key in order then |order| - 1 else |order|
    ensures key !in order ==> Without(order, key) == order
  {
    if order != [] {
      var rest := Without(order[1..], key);
      WithoutNoDup(order[1..], key);
      WithoutMembers(order[1..], key);
      assert forall i :: 0 <= i < |rest| ==> rest[i] in rest;
      assert order[0] !in order[1..];
    }
  }

  lemma {:induction false} WithoutAppend<K>(a: seq<K>, b: seq<K>, key: K)
    ensures Without(a + b, key) == Without(a, key) + Without(b, key)
  {
    if a == [] {
      assert a + b == b;
    } else {
      WithoutAppend(a[1..], b, key);
      assert (a + b)[1..] == a[1..] + b && (a + b)[0] == a[0];
    }
  }

  lemma {:induction false} RecencyNoDup<K>(uses: seq<K>)
    ensures NoDup(Recency(uses))
    ensures forall x :: x in Recency(uses) <==> x in uses
  {
    if uses != [] {
      var front, last := uses[..|uses| - 1], uses[|uses| - 1];
      RecencyNoDup(front);
      WithoutNoDup(Recency(front), last);
      WithoutMembers(Recency(front), last);
      assert uses == front + [last];
    }
  }

  lemma LastNAppend<K>(a: seq<K>, b: seq<K>, n: nat)
    requires |b| >= n
    ensures LastN(a + b, n) == LastN(b, n)
  {
  }

  /** Cutting to the capacity before a use or after it makes no difference. */
  lemma TouchedLastN<K>(all: seq<K>, capacity: nat, key: K)
    requires NoDup(all)
    ensures Touched(LastN(all, capacity), capacity, key) == LastN(Without(all, key) + [key], capacity)
  {
    if |all| > capacity {
      hide Recency, Without;
      var a, b := all[..|all| - capacity], all[|all| - capacity..];
      assert all == a + b;
      WithoutAppend(a, b, key);
      WithoutNoDup(a, key);
      WithoutNoDup(b, key);
      var rest := Without(b, key) + [key];
      Assoc(Without(a, key), Without(b, key), [key]);
      LastNAppend(Without(a, key), rest, capacity);
    }
  }

  /** A run of uses under the capacity. */
  function TouchedAll<K(==)>(order: seq<K>, capacity: nat, uses: seq<K>): seq<K> {
    if uses == [] then order
    else Touched(TouchedAll(order, capacity, uses[..|uses| - 1]), capacity, uses[|uses| - 1])
  }

  lemma {:induction false} TouchedAllAppend<K>(order: seq<K>, capacity: nat, a: seq<K>, b: seq<K>)
    ensures TouchedAll(order, capacity, a + b) == TouchedAll(TouchedAll(order, capacity, a), capacity, b)
    decreases |b|
  {
    if b == [] {
      assert a + b == a;
    } else {
      TouchedAllAppend(order, capacity, a, b[..|b| - 1]);
      assert (a + b)[..|a + b| - 1] == a + b[..|b| - 1];
    }
  }

  lemma TouchedAllCons<K>(order: seq<K>, capacity: nat, key: K, uses: seq<K>)
    ensures TouchedAll(order, capacity, [key] + uses) == TouchedAll(Touched(order, capacity, key), capacity, uses)
  {
    TouchedAllAppend(order, capacity, [key], uses);
    assert TouchedAll(order, capacity, [key]) == Touched(TouchedAll(order, capacity, [key][..0]), capacity, key);
  }

  /** The queue lists exactly the most recently used distinct keys, once each, in recency order. */
  lemma {:induction false} TouchedAllIsRecency<K>(capacity: nat, uses: seq<K>)
    ensures TouchedAll([], capacity, uses) == LastN(Recency(uses), capacity)
    ensures NoDup(LastN(Recency(uses), capacity))
  {
    RecencyNoDup(uses);
    if uses != [] {
      var front, last := uses[..|uses| - 1], uses[|uses| - 1];
      TouchedAllIsRecency(capacity, front);
      RecencyNoDup(front);
      TouchedLastN(Recency(front), capacity, last);
    }
  }

  // ----- what recency means

  ghost function Distinct<K>(uses: seq<K>): set<K> {
    set x | x in uses
  }

  /** `i` is the place of the last use of `key`. */
  ghost predicate LastUse<K>(uses: seq<K>, key: K, i: nat) {
    i < |uses| && uses[i] == key && key !in uses[i + 1..]
  }

  /** In the list of distinct keys exactly those used after the last use of `key` stand behind it. */
  lemma {:induction false} RecencySplit<K>(uses: seq<K>, key: K, i: nat) returns (older: seq<K>, newer: seq<K>)
    requires LastUse(uses, key, i)
    ensures Recency(uses) == older + [key] + newer
    ensures Distinct(newer) == Distinct(uses[i + 1..]) && |newer| == |Distinct(uses[i + 1..])|
  {
    var front, last := uses[..|uses| - 1], uses[|uses| - 1];
    RecencyNoDup(uses);
    if i == |uses| - 1 {
      older, newer := Without(Recency(front), key), [];
      assert Distinct(newer) == Distinct(uses[i + 1..]) == {};
    } else {
      assert uses[i + 1..] == front[i + 1..] + [last];
      var older1, newer1 := RecencySplit(front, key, i);
      WithoutAppend(older1 + [key], newer1, last);
      WithoutAppend(older1, [key], last);
      assert last != key;
      assert Without([key], last) == [key];
      older, newer := Without(older1, last), Without(newer1, last) + [last];
      Assoc(Without(older1, last) + [key], Without(newer1, last), [last]);
      WithoutMembers(newer1, last);
      hide Recency, Without;
      forall x
        ensures x in newer <==> x in uses[i + 1..]
      {
        assert x in newer1 <==> x in Distinct(newer1);
      }
      PartNoDup(older + [key], newer);
      DistinctSize(newer);
      assert Distinct(newer) == Distinct(uses[i + 1..]);
    }
  }

  lemma PartNoDup<K>(a: seq<K>, b: seq<K>)
    requires NoDup(a + b)
    ensures NoDup(b)
  {
    forall i, j | 0 <= i < j < |b|
      ensures b[i] != b[j]
    {
      assert (a + b)[|a| + i] == b[i] && (a + b)[|a| + j] == b[j];
    }
  }

  lemma {:induction false} DistinctSize<K>(xs: seq<K>)
    requires NoDup(xs)
    ensures |Distinct(xs)| == |xs|
  {
    if xs != [] {
      PartNoDup([xs[0]], xs[1..]);
      assert [xs[0]] + xs[1..] == xs;
      DistinctSize(xs[1..]);
      assert Distinct(xs) == {xs[0]} + Distinct(xs[1..]);
    }
  }

  /**
   * A key is in the queue exactly when it was used and fewer distinct keys than the capacity were used
   * after its last use.
   */
  lemma InQueue<K>(capacity: nat, uses: seq<K>, key: K)
    ensures key in TouchedAll([], capacity, uses)
            <==> exists i: nat :: LastUse(uses, key, i) && |Distinct(uses[i + 1..])| < capacity
  {
    TouchedAllIsRecency(capacity, uses);
    RecencyNoDup(uses);
    hide TouchedAll, Recency;
    if key in uses {
      var i := LastPlace(uses, key);
      var older, newer := RecencySplit(uses, key, i);
      EndOf(older, newer, key, capacity);
      forall j: nat | LastUse(uses, key, j)
        ensures j == i
      {
        NotUsedBehind(uses, key, i, j);
        NotUsedBehind(uses, key, j, i);
      }
    }
  }

  lemma NotUsedBehind<K>(uses: seq<K>, key: K, i: nat, j: nat)
    requires LastUse(uses, key, i) && j < |uses|
    ensures j <= i || uses[j] != key
  {
    if i < j {
      assert uses[i + 1..][j - i - 1] == uses[j];
    }
  }

  lemma {:induction false} LastPlace<K>(uses: seq<K>, key: K) returns (i: nat)
    requires key in uses
    ensures LastUse(uses, key, i)
  {
    var front := uses[..|uses| - 1];
    if uses[|uses| - 1] == key {
      i := |uses| - 1;
    } else {
      i := LastPlace(front, key);
      assert uses[i + 1..] == front[i + 1..] + [uses[|uses| - 1]];
    }
  }

  lemma EndOf<K>(older: seq<K>, newer: seq<K>, key: K, n: nat)
    requires NoDup(older + [key] + newer)
    ensures key in LastN(older + [key] + newer, n) <==> |newer| < n
  {
    var all := older + [key] + newer;
    assert all[|older|] == key;
    var r := LastN(all, n);
    if |newer| < n && |all| > n {
      assert r[|older| - (|all| - n)] == key;
    }
  }
}
