/**
 * Two places in the seed scripts that rely on a multiplier being invertible modulo a capacity:
 * uniqueStudentName of apps/api/prisma/seed.ts and the generator state of makeRng in
 * apps/api/prisma/seed-performance-tenant.ts.
 */
module Scatter {
  import opened Foundations

  // ---- Congruence ----

  /** a and c differ by a multiple of n. */
  ghost predicate Congruent(a: int, c: int, n: nat) {
    exists q: int :: a - c == Times(n, q)
  }

  function Times(n: int, q: int): int { n * q }

  lemma DivisionOf(a: int, n: nat)
    requires n > 0
    ensures a == n * (a / n) + a % n
  {
  }

  lemma SmallMultiple(n: nat, q: int, d: int)
    requires d == n * q && d < n && 0 < d + n
    ensures d == 0
  {
    assert q >= 1 ==> n * q >= n;
    assert q <= -1 ==> n * q + n <= 0;
  }

  /** Remainders are equal exactly for congruent numbers. */
  lemma RemaindersAgree(a: int, c: int, n: nat)
    requires n > 0
    ensures a % n == c % n <==> Congruent(a, c, n)
  {
    DivisionOf(a, n);
    DivisionOf(c, n);
    if a % n == c % n {
      assert Times(n, a / n - c / n) == n * (a / n) - n * (c / n);
    }
    if Congruent(a, c, n) {
      var q :| a - c == Times(n, q);
      var k := q - a / n + c / n;
      assert n * k == n * q - n * (a / n) + n * (c / n);
      SmallMultiple(n, k, a % n - c % n);
    }
  }

  lemma CongruentTimes(a: int, c: int, k: int, n: nat)
    requires Congruent(a, c, n)
    ensures Congruent(a * k, c * k, n)
  {
    var q :| a - c == Times(n, q);
    assert a * k - c * k == (a - c) * k == n * q * k == Times(n, q * k);
  }

  lemma CongruentTransitive(a: int, c: int, d: int, n: nat)
    requires Congruent(a, c, n) && Congruent(c, d, n)
    ensures Congruent(a, d, n)
  {
    var p :| a - c == Times(n, p);
    var q :| c - d == Times(n, q);
    assert a - d == Times(n, p + q);
  }

  lemma CongruentSymmetric(a: int, c: int, n: nat)
    requires Congruent(a, c, n)
    ensures Congruent(c, a, n)
  {
    var p :| a - c == Times(n, p);
    assert c - a == Times(n, -p);
  }

  /** Multiplying by a number and then by its inverse comes back. */
  lemma InverseCancels(i: int, k: int, inverse: int, turns: int, n: nat)
    requires k * inverse == n * turns + 1
    ensures Congruent(i * k * inverse, i, n)
  {
    assert i * k * inverse == i * (k * inverse) == i * (n * turns + 1) == i * (n * turns) + i;
    assert i * (n * turns) == n * (i * turns) == Times(n, i * turns);
  }

  /** A multiplier with an inverse is injective on residues: products agree exactly for congruent factors. */
  lemma ScatterIsInjective(i: int, j: int, k: int, inverse: int, turns: int, n: nat)
    requires n > 0 && k * inverse == n * turns + 1
    ensures (i * k) % n == (j * k) % n <==> i % n == j % n
  {
    RemaindersAgree(i * k, j * k, n);
    RemaindersAgree(i, j, n);
    if Congruent(i, j, n) { CongruentTimes(i, j, k, n); }
    if Congruent(i * k, j * k, n) {
      CongruentTimes(i * k, j * k, inverse, n);
      InverseCancels(i, k, inverse, turns, n);
      InverseCancels(j, k, inverse, turns, n);
      CongruentSymmetric(i * k * inverse, i, n);
      CongruentTransitive(i, i * k * inverse, j * k * inverse, n);
      CongruentTransitive(i, j * k * inverse, j, n);
    }
  }

  // ---- Unique student names ----

  const FIRST_NAMES := 50
  const LAST_NAMES := 34
  const MULTIPLIER := 131
  const MULTIPLIER_INVERSE := 571

  const CAPACITY := FIRST_NAMES * LAST_NAMES

  function Permuted(globalIndex: nat): nat {
    (globalIndex * MULTIPLIER) % CAPACITY
  }

  function NameAt(permuted: nat): (nat, nat) {
    (permuted % FIRST_NAMES, (permuted / FIRST_NAMES) % LAST_NAMES)
  }

  /** The positions of a student's first and last name, unless the name pool is exhausted. */
  function UniqueStudentName(globalIndex: nat): Option<(nat, nat)> {
    if globalIndex >= CAPACITY then None else Some(NameAt(Permuted(globalIndex)))
  }

  /** Below the capacity, a name determines the permuted index it was split from, and every name occurs. */
  lemma NamesAreSplitIndices(p: nat, first: nat, last: nat)
    requires p < CAPACITY && first < FIRST_NAMES && last < LAST_NAMES
    ensures NameAt(p) == (first, last) <==> p == last * FIRST_NAMES + first
  {
  }

  lemma PermutedIsInjective(i: nat, j: nat)
    requires i < CAPACITY && j < CAPACITY
    ensures Permuted(i) < CAPACITY && (Permuted(i) == Permuted(j) <==> i == j)
  {
    ScatterIsInjective(i, j, MULTIPLIER, MULTIPLIER_INVERSE, 44, CAPACITY);
  }

  lemma PermutedIsSurjective(p: nat) returns (index: nat)
    requires p < CAPACITY
    ensures index < CAPACITY && Permuted(index) == p
  {
    index := (p * MULTIPLIER_INVERSE) % CAPACITY;
    var product := p * MULTIPLIER_INVERSE;
    RemaindersAgree(index, product, CAPACITY);
    CongruentTimes(index, product, MULTIPLIER, CAPACITY);
    InverseCancels(p, MULTIPLIER_INVERSE, MULTIPLIER, 44, CAPACITY);
    CongruentTransitive(index * MULTIPLIER, product * MULTIPLIER, p, CAPACITY);
    RemaindersAgree(index * MULTIPLIER, p, CAPACITY);
  }

  /** Every index below the capacity has a name of its own. */
  lemma StudentNamesAreUnique(i: nat, j: nat)
    requires i < CAPACITY && j < CAPACITY
    ensures UniqueStudentName(i).Some? && UniqueStudentName(i).value.0 < FIRST_NAMES &&
      UniqueStudentName(i).value.1 < LAST_NAMES
    ensures UniqueStudentName(i) == UniqueStudentName(j) <==> i == j
  {
    PermutedIsInjective(i, j);
    PermutedIsInjective(j, i);
    hide Permuted;
    var name := NameAt(Permuted(i));
    NamesAreSplitIndices(Permuted(i), name.0, name.1);
    NamesAreSplitIndices(Permuted(j), name.0, name.1);
  }

  /** The pool holds 1700 names, and an index beyond it gets none rather than somebody else's. */
  lemma NamesRunOut(index: nat)
    ensures UniqueStudentName(index).Some? <==> index < 1700
  {
  }

  /** Every combination of a first and a last name is given to some index. */
  lemma EveryNameIsUsed(first: nat, last: nat) returns (index: nat)
    requires first < FIRST_NAMES && last < LAST_NAMES
    ensures index < CAPACITY && UniqueStudentName(index) == Some((first, last))
  {
    hide Permuted, NameAt;
    var p := last * FIRST_NAMES + first;
    NamesAreSplitIndices(p, first, last);
    index := PermutedIsSurjective(p);
  }

  // ---- The generator state ----

  const WORD := 0x1_0000_0000
  const WEYL_STEP := 0x6d2b79f5
  const WEYL_INVERSE := 3696798301

  /** The state of the generator: a 32-bit word advanced by an odd constant on every draw. */
  class Rng {
    var a: nat
    ghost var seed: int
    ghost var draws: nat

    ghost predicate Valid()
      reads this
    {
      a == StateAfter(seed, draws)
    }

    constructor (seed: int)
      ensures Valid() && this.seed == seed && draws == 0
    {
      a := seed % WORD;
      this.seed, draws := seed, 0;
    }

    method Next()
      requires Valid()
      modifies this
      ensures Valid() && seed == old(seed) && draws == old(draws) + 1
    {
      a := (a + WEYL_STEP) % WORD;
      StateStep(seed, draws);
      draws := draws + 1;
    }
  }

  /** The state after a number of draws. */
  function StateAfter(seed: int, draws: nat): nat {
    (seed + draws * WEYL_STEP) % WORD
  }

  lemma StateStep(seed: int, draws: nat)
    ensures StateAfter(seed, draws + 1) == (StateAfter(seed, draws) + WEYL_STEP) % WORD
  {
  }

  /** Two states of a run agree exactly when the draws between them are a multiple of 2^32. */
  lemma GeneratorPeriod(seed: int, i: nat, j: nat)
    ensures StateAfter(seed, i) == StateAfter(seed, j) <==> i % WORD == j % WORD
  {
    ScatterIsInjective(i, j, WEYL_STEP, WEYL_INVERSE, 1576479847, WORD);
    RemaindersAgree(seed + i * WEYL_STEP, seed + j * WEYL_STEP, WORD);
    RemaindersAgree(i * WEYL_STEP, j * WEYL_STEP, WORD);
    var d := i * WEYL_STEP - j * WEYL_STEP;
    assert (seed + i * WEYL_STEP) - (seed + j * WEYL_STEP) == d;
  }

  /** The state first repeats after exactly 2^32 draws. */
  lemma GeneratorFirstRepeat(seed: int, start: nat, draws: nat)
    ensures 0 < draws < WORD ==> StateAfter(seed, start + draws) != StateAfter(seed, start)
    ensures StateAfter(seed, start + WORD) == StateAfter(seed, start)
  {
    GeneratorPeriod(seed, start + draws, start);
    GeneratorPeriod(seed, start + WORD, start);
    RemaindersAgree(start + draws, start, WORD);
    RemaindersAgree(start + WORD, start, WORD);
    assert Times(WORD, 1) == WORD;
    if 0 < draws < WORD && Congruent(start + draws, start, WORD) {
      var q :| start + draws - start == Times(WORD, q);
      SmallMultiple(WORD, q, draws);
    }
  }
}
