/**
 * Bounded "most recent" structures. The specification keeps the whole history and asks for the first
 * n entries of its reversal without repeated keys; the implementations only keep n entries and touch
 * them one at a time. One lemma says that touching is enough.
 */
module MostRecent {
  import opened Foundations

  function Take<T>(n: nat, xs: seq<T>): seq<T> {
    if |xs| <= n then xs else xs[..n]
  }

  function Without<T, K(==)>(key: T -> K, xs: seq<T>, k: K): seq<T> {
    if xs == [] then []
    else if key(xs[0]) == k then Without(key, xs[1..], k)
    else [xs[0]] + Without(key, xs[1..], k)
  }

  /** Keeps the first entry of every key. */
  function Dedup<T, K(==)>(key: T -> K, xs: seq<T>): seq<T> {
    if xs == [] then [] else [xs[0]] + Without(key, Dedup(key, xs[1..]), key(xs[0]))
  }

  /** The n most recent entries of a history, newest first, one for each key. */
  function Trail<T, K(==)>(n: nat, key: T -> K, history: seq<T>): seq<T> {
    Take(n, Dedup(key, Reverse(history)))
  }

  /** What an implementation does with one new entry. */
  function Touch<T, K(==)>(n: nat, key: T -> K, trail: seq<T>, x: T): seq<T> {
    Take(n, [x] + Without(key, trail, key(x)))
  }

  predicate DistinctKeys<T, K(==)>(key: T -> K, xs: seq<T>) {
    forall i, j :: 0 <= i < j < |xs| ==> key(xs[i]) != key(xs[j])
  }

  lemma {:induction false} WithoutMember<T, K>(key: T -> K, xs: seq<T>, k: K, x: T)
    ensures x in Without(key, xs, k) <==> x in xs && key(x) != k
  {
    if xs != [] {
      WithoutMember(key, xs[1..], k, x);
      assert xs == [xs[0]] + xs[1..];
    }
  }

  lemma {:induction false} WithoutAbsent<T, K>(key: T -> K, xs: seq<T>, k: K)
    requires forall i :: 0 <= i < |xs| ==> key(xs[i]) != k
    ensures Without(key, xs, k) == xs
  {
    if xs != [] { WithoutAbsent(key, xs[1..], k); }
  }

  /** Removing a key keeps keys distinct, and then takes out at most one entry. */
  lemma {:induction false} WithoutFacts<T, K>(key: T -> K, xs: seq<T>, k: K)
    requires DistinctKeys(key, xs)
    ensures DistinctKeys(key, Without(key, xs, k))
    ensures |xs| - 1 <= |Without(key, xs, k)| <= |xs|
    ensures forall i :: 0 <= i < |Without(key, xs, k)| ==> key(Without(key, xs, k)[i]) != k
  {
    if xs != [] {
      var rest := Without(key, xs[1..], k);
      WithoutFacts(key, xs[1..], k);
      forall j | 0 <= j < |rest| ensures key(rest[j]) != key(xs[0]) {
        WithoutMember(key, xs[1..], k, rest[j]);
        var i :| 0 <= i < |xs[1..]| && xs[1..][i] == rest[j];
        assert xs[i + 1] == rest[j];
      }
      if key(xs[0]) == k {
        WithoutAbsent(key, xs[1..], k);
      }
    }
  }

  lemma {:induction false} DedupFacts<T, K>(key: T -> K, xs: seq<T>)
    ensures DistinctKeys(key, Dedup(key, xs))
  {
    if xs != [] {
      DedupFacts(key, xs[1..]);
      WithoutFacts(key, Dedup(key, xs[1..]), key(xs[0]));
    }
  }

  /** Cutting to one more than m before removing a key loses nothing of the first m. */
  lemma {:induction false} CutThenRemove<T, K>(key: T -> K, m: nat, xs: seq<T>, k: K)
    requires DistinctKeys(key, xs)
    ensures Take(m, Without(key, Take(m + 1, xs), k)) == Take(m, Without(key, xs, k))
  {
    if |xs| > m + 1 {
      var rest := xs[1..];
      assert xs[..m + 1][1..] == rest[..m];
      if key(xs[0]) == k {
        WithoutAbsent(key, rest, k);
        WithoutAbsent(key, rest[..m], k);
      } else if m > 0 {
        CutThenRemove(key, m - 1, rest, k);
        assert Take(m, rest) == rest[..m];
        TakeCons(m, xs[0], Without(key, rest, k));
        TakeCons(m, xs[0], Without(key, rest[..m], k));
      }
    }
  }

  lemma TakeCons<T>(m: nat, x: T, xs: seq<T>)
    requires m > 0
    ensures Take(m, [x] + xs) == [x] + Take(m - 1, xs)
  {
  }

  /** Touching the bounded trail with each new entry is the trail of the whole history. */
  lemma TouchRefinesHistory<T, K>(n: nat, key: T -> K, history: seq<T>, x: T)
    requires n > 0
    ensures Trail(n, key, history + [x]) == Touch(n, key, Trail(n, key, history), x)
  {
    var distinct := Dedup(key, Reverse(history));
    ReverseSnoc(history, x);
    assert ([x] + Reverse(history))[1..] == Reverse(history);
    DedupFacts(key, Reverse(history));
    CutThenRemove(key, n - 1, distinct, key(x));
    TakeCons(n, x, Without(key, distinct, key(x)));
    TakeCons(n, x, Without(key, Take(n, distinct), key(x)));
  }
}
