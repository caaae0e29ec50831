/** The linear congruential generator of Google Test, and how long it takes to repeat itself. */
module Generator {
  import opened Division

  const kMaxRange: nat := 0x8000_0000
  const kMultiplier: nat := 1103515245
  const kIncrement: nat := 12345

  /** One step of the generator modulo 2^31. */
  function NextState(state: nat): (next: nat)
    ensures next < kMaxRange
  {
    (kMultiplier * state + kIncrement) % kMaxRange
  }

  /** The first states from 1, in numbers. */
  lemma FirstStatesFromOne()
    ensures NextState(1) == 1103527590
    ensures NextState(1103527590) == 377401575
    ensures NextState(377401575) == 662824084
  {
  }

  /** That the product wraps around at 2^32 makes no difference. */
  lemma WrapAroundIsHarmless(x: nat)
    ensures x % 0x1_0000_0000 % kMaxRange == x % kMaxRange
  {
    SameModulo(x % 0x1_0000_0000, kMaxRange, 2 * (x / 0x1_0000_0000));
    assert x == x % 0x1_0000_0000 + 2 * (x / 0x1_0000_0000) * kMaxRange;
  }

  ghost function StateAfterSteps(state: nat, n: nat): nat {
    if n == 0 then state else NextState(StateAfterSteps(state, n - 1))
  }

  /** From any state below 2^31 the generator comes back to it after 2^31 steps and not before: it
      goes through all of them. */
  lemma StatesRecurExactly(state: nat, n: nat)
    requires state < kMaxRange
    ensures StateAfterSteps(state, n) == state <==> n % kMaxRange == 0
  {
    hide *;
    StepsWithoutModulus(state, n);
    UnreducedDistance(state, n);
    SameStateExactly(state, Distance(state, n));
    DistanceDivisibleExactly(state, n);
    DivisibleIsModulo(31, Distance(state, n));
    DivisibleIsModulo(31, n);
    PowersOfTwo();
  }

  lemma SameStateExactly(state: nat, distance: nat)
    requires state < kMaxRange
    ensures (state + distance) % kMaxRange == state <==> distance % kMaxRange == 0
  {
    if distance % kMaxRange == 0 {
      SameModulo(state, kMaxRange, distance / kMaxRange);
    }
    if (state + distance) % kMaxRange == state {
      MultipleModulo(kMaxRange, (state + distance) / kMaxRange);
    }
  }

  // Without the modulus.

  ghost function Unreduced(state: nat, n: nat): nat {
    if n == 0 then state else kMultiplier * Unreduced(state, n - 1) + kIncrement
  }

  lemma {:induction false} StepsWithoutModulus(state: nat, n: nat)
    requires state < kMaxRange
    ensures StateAfterSteps(state, n) == Unreduced(state, n) % kMaxRange
    decreases n
  {
    if n > 0 {
      StepsWithoutModulus(state, n - 1);
      ReducedStep(Unreduced(state, n - 1));
    }
  }

  lemma ReducedStep(x: nat)
    ensures NextState(x % kMaxRange) == (kMultiplier * x + kIncrement) % kMaxRange
  {
    var q, r := x / kMaxRange, x % kMaxRange;
    var y := kMultiplier * r + kIncrement;
    assert kMultiplier * x + kIncrement == y + kMultiplier * q * kMaxRange;
    SameModulo(y, kMaxRange, kMultiplier * q);
  }

  /** 1 + a + a^2 + .. + a^(n-1) */
  ghost function GeometricSum(n: nat): nat {
    if n == 0 then 0 else kMultiplier * GeometricSum(n - 1) + 1
  }

  /** How far the unreduced states get in `n` steps. */
  ghost function Distance(state: nat, n: nat): nat {
    ((kMultiplier - 1) * state + kIncrement) * GeometricSum(n)
  }

  lemma {:induction false} UnreducedDistance(state: nat, n: nat)
    ensures Unreduced(state, n) == state + Distance(state, n)
    decreases n
  {
    if n > 0 {
      UnreducedDistance(state, n - 1);
    }
  }

  lemma DistanceDivisibleExactly(state: nat, n: nat)
    ensures Divisible(31, Distance(state, n)) <==> Divisible(31, n)
  {
    hide Divisible, GeometricSum;
    OddFactor(31, GeometricSum(n), (kMultiplier - 1) * state + kIncrement);
    SumDivisibleExactly(31, n);
  }

  /** a^n, when the sum of n terms is given. */
  ghost function PowerOfSum(sum: nat): nat { (kMultiplier - 1) * sum + 1 }

  lemma {:induction false} SumOfConcat(m: nat, k: nat)
    ensures GeometricSum(m + k) == GeometricSum(m) + PowerOfSum(GeometricSum(m)) * GeometricSum(k)
    decreases k
  {
    if k > 0 {
      SumOfConcat(m, k - 1);
    }
  }

  lemma {:induction false} SumParity(n: nat)
    ensures GeometricSum(n) % 2 == n % 2
    decreases n
  {
    if n > 0 {
      SumParity(n - 1);
      SumParityStep(n);
      hide GeometricSum;
      ParityAlternates(n - 1);
    }
  }

  lemma SumParityStep(n: nat)
    requires n > 0
    ensures GeometricSum(n) % 2 == 1 - GeometricSum(n - 1) % 2
  {
    var sum := GeometricSum(n - 1);
    var h := kMultiplier / 2 * sum;
    assert GeometricSum(n) == sum + 1 + h * 2;
    hide GeometricSum;
    SameModulo(sum + 1, 2, h);
    ParityAlternates(sum);
  }

  lemma ParityAlternates(x: nat)
    ensures (x + 1) % 2 == 1 - x % 2
  {
  }

  // Divisibility by powers of two.

  ghost predicate Divisible(k: nat, x: nat) {
    k > 0 ==> x % 2 == 0 && Divisible(k - 1, x / 2)
  }

  ghost function Pow2(k: nat): (p: nat)
    ensures p > 0
  {
    if k == 0 then 1 else 2 * Pow2(k - 1)
  }

  lemma PowersOfTwo()
    ensures Pow2(31) == kMaxRange
  {
    assert Pow2(8) == 0x100;
    assert Pow2(16) == 0x1_0000;
    assert Pow2(24) == 0x100_0000;
  }

  lemma {:induction false} DivisibleIsModulo(k: nat, x: nat)
    ensures Divisible(k, x) <==> x % Pow2(k) == 0
    decreases k
  {
    if k > 0 {
      DivisibleIsModulo(k - 1, x / 2);
      HalfModulo(x, Pow2(k - 1));
    }
  }

  lemma HalfModulo(x: nat, p: nat)
    requires p > 0
    ensures x % (2 * p) == 0 <==> x % 2 == 0 && x / 2 % p == 0
  {
    if x % (2 * p) == 0 {
      var q := x / (2 * p);
      assert x == 2 * (q * p);
      MultipleModulo(p, q);
    }
    if x % 2 == 0 && x / 2 % p == 0 {
      var q := x / 2 / p;
      assert x == q * (2 * p);
      MultipleModulo(2 * p, q);
    }
  }

  /** An odd factor does not matter. */
  lemma {:induction false} OddFactor(k: nat, x: nat, odd: nat)
    requires odd % 2 == 1
    ensures Divisible(k, odd * x) <==> Divisible(k, x)
    decreases k
  {
    if k > 0 {
      ProductParity(odd, x);
      if x % 2 == 0 {
        OddFactor(k - 1, x / 2, odd);
        HalfProduct(odd, x);
      }
    }
  }

  lemma HalfProduct(a: nat, x: nat)
    requires x % 2 == 0
    ensures a * x / 2 == a * (x / 2)
  {
    var h := x / 2;
    assert a * x == 2 * (a * h);
  }

  lemma ProductParity(odd: nat, x: nat)
    requires odd % 2 == 1
    ensures odd * x % 2 == x % 2
  {
    var h := odd / 2;
    assert odd * x == 2 * (h * x) + x;
  }

  /** The sum is divisible by the powers of two that divide the number of its terms. */
  lemma {:induction false} SumDivisibleExactly(k: nat, n: nat)
    ensures Divisible(k, GeometricSum(n)) <==> Divisible(k, n)
    decreases k
  {
    if k > 0 {
      hide GeometricSum, Cofactor;
      SumParity(n);
      if n % 2 == 0 {
        HalfOfSum(n / 2);
        SumDivisibleExactly(k - 1, n / 2);
        OddFactor(k - 1, GeometricSum(n / 2), Cofactor(GeometricSum(n / 2)));
      }
    }
  }

  /** Half of 1 + a^n. */
  ghost function Cofactor(sum: nat): nat { (kMultiplier - 1) / 2 * sum + 1 }

  lemma HalfOfSum(m: nat)
    ensures GeometricSum(2 * m) == 2 * (Cofactor(GeometricSum(m)) * GeometricSum(m))
    ensures Cofactor(GeometricSum(m)) % 2 == 1
  {
    hide *;
    SumOfConcat(m, m);
    Doubling(GeometricSum(m));
    CofactorIsOdd(GeometricSum(m));
  }

  lemma Doubling(sum: nat)
    ensures sum + PowerOfSum(sum) * sum == 2 * (Cofactor(sum) * sum)
  {
    assert PowerOfSum(sum) + 1 == 2 * Cofactor(sum);
    hide *;
    assert sum + PowerOfSum(sum) * sum == (PowerOfSum(sum) + 1) * sum;
  }

  lemma CofactorIsOdd(sum: nat)
    ensures Cofactor(sum) % 2 == 1
  {
    EvenMultipleIsEven((kMultiplier - 1) / 2, sum);
  }

  lemma EvenMultipleIsEven(even: nat, x: nat)
    requires even % 2 == 0
    ensures even * x % 2 == 0
  {
    var h := even / 2;
    assert even * x == 2 * (h * x);
  }
}

/** Google Test's generator and in-place shuffle. */
module Shuffling {
  import opened Generator

  class Random {
    var state: nat

    ghost predicate Valid()
      reads this
    {
      state < 0x1_0000_0000
    }

    constructor (seed: nat)
      requires seed < 0x1_0000_0000
      ensures Valid() && state == seed
    {
      state := seed;
    }

    method Generate(range: nat) returns (r: nat)
      requires Valid() && 0 < range <= kMaxRange
      modifies this
      ensures Valid() && state < kMaxRange && state == NextState(old(state))
      ensures r < range && r == state % range
    {
      WrapAroundIsHarmless(kMultiplier * state + kIncrement);
      state := (kMultiplier * state + kIncrement) % 0x1_0000_0000 % kMaxRange;
      r := state % range;
    }
  }

  ghost predicate IsPermutation<E>(v: seq<E>, w: seq<E>) {
    multiset(v) == multiset(w)
  }

  /** `w` is `v` with the elements in [begin, end) permuted. */
  ghost predicate IsShuffleOf<E>(w: seq<E>, v: seq<E>, begin: nat, end: nat) {
    && |w| == |v| && begin <= end <= |v|
    && w[..begin] == v[..begin] && w[end..] == v[end..]
    && IsPermutation(w[begin..end], v[begin..end])
  }

  function Swapped<E>(v: seq<E>, i: nat, j: nat): (swapped: seq<E>)
    requires i < |v| && j < |v|
    ensures |swapped| == |v|
  {
    v[i := v[j]][j := v[i]]
  }

  lemma SwapPermutes<E>(v: seq<E>, i: nat, j: nat)
    requires i < |v| && j < |v|
    ensures IsPermutation(Swapped(v, i, j), v)
  {
  }

  lemma SwapInside<E>(w: seq<E>, begin: nat, end: nat, i: nat, j: nat)
    requires begin <= i < end <= |w| && begin <= j < end
    ensures Swapped(w, i, j)[..begin] == w[..begin] && Swapped(w, i, j)[end..] == w[end..]
    ensures Swapped(w, i, j)[begin..end] == Swapped(w[begin..end], i - begin, j - begin)
  {
  }

  /** Swapping inside the range keeps a shuffle of the range one. */
  lemma SwapKeepsShuffle<E>(w: seq<E>, v: seq<E>, begin: nat, end: nat, i: nat, j: nat)
    requires IsShuffleOf(w, v, begin, end) && begin <= i < end && begin <= j < end
    ensures IsShuffleOf(Swapped(w, i, j), v, begin, end)
  {
    hide Swapped;
    SwapInside(w, begin, end, i, j);
    SwapPermutes(w[begin..end], i - begin, j - begin);
  }

  /** What a shuffle draws: a number below each width down to 2. */
  ghost predicate AreDraws(draws: seq<nat>, width: nat) {
    && |draws| == (if width < 2 then 0 else width - 1)
    && forall k :: 0 <= k < |draws| ==> draws[k] < width - k
  }

  /** The draws that the generator makes from a state. */
  ghost function DrawsFrom(state: nat, width: nat): (draws: seq<nat>)
    ensures AreDraws(draws, width)
    decreases width
  {
    if width < 2 then [] else [NextState(state) % width] + DrawsFrom(NextState(state), width - 1)
  }

  /** The state after these draws. */
  ghost function StateAfter(state: nat, width: nat): (after: nat)
    ensures state < 0x1_0000_0000 ==> after < 0x1_0000_0000
    decreases width
  {
    if width < 2 then state else StateAfter(NextState(state), width - 1)
  }

  /** The shuffle as a function of what is drawn. */
  ghost function FisherYates<E>(v: seq<E>, begin: nat, width: nat, draws: seq<nat>): (w: seq<E>)
    requires begin + width <= |v| && AreDraws(draws, width)
    ensures |w| == |v|
    decreases width
  {
    if width < 2 then v
    else FisherYates(Swapped(v, begin + draws[0], begin + width - 1), begin, width - 1, draws[1..])
  }

  /** A shuffle of all but the last place, after one of the whole range, is one of the whole. */
  lemma WidenShuffle<E>(w: seq<E>, u: seq<E>, v: seq<E>, begin: nat, end: nat)
    requires begin < end && IsShuffleOf(w, u, begin, end - 1) && IsShuffleOf(u, v, begin, end)
    ensures IsShuffleOf(w, v, begin, end)
    ensures w[end - 1] == u[end - 1]
  {
    assert w[end - 1..][0] == u[end - 1..][0];
    assert w[begin..end] == w[begin..end - 1] + [w[end - 1]];
    assert u[begin..end] == u[begin..end - 1] + [u[end - 1]];
    assert w[end..] == w[end - 1..][1..] && u[end..] == u[end - 1..][1..];
  }

  /** Bringing an element of the range to its end shuffles the range. */
  lemma SwapShuffles<E>(v: seq<E>, begin: nat, end: nat, i: nat)
    requires begin <= i < end <= |v|
    ensures IsShuffleOf(Swapped(v, i, end - 1), v, begin, end)
  {
    SwapKeepsShuffle(v, v, begin, end, i, end - 1);
  }

  lemma NothingShuffles<E>(v: seq<E>, begin: nat, end: nat)
    requires begin <= end <= |v|
    ensures IsShuffleOf(v, v, begin, end)
  {
  }

  /** Whatever is drawn, the range is permuted and the rest left alone. */
  lemma {:induction false} FisherYatesShuffles<E>(v: seq<E>, begin: nat, width: nat, draws: seq<nat>)
    requires begin + width <= |v| && AreDraws(draws, width)
    ensures IsShuffleOf(FisherYates(v, begin, width, draws), v, begin, begin + width)
    decreases width
  {
    hide IsShuffleOf, Swapped;
    if width < 2 {
      NothingShuffles(v, begin, begin + width);
    } else {
      var swapped := Swapped(v, begin + draws[0], begin + width - 1);
      SwapShuffles(v, begin, begin + width, begin + draws[0]);
      FisherYatesShuffles(swapped, begin, width - 1, draws[1..]);
      WidenShuffle(FisherYates(v, begin, width, draws), swapped, v, begin, begin + width);
    }
  }

  /** The other way round, when the last place is right already. */
  lemma NarrowShuffle<E>(w: seq<E>, u: seq<E>, begin: nat, end: nat)
    requires begin < end && IsShuffleOf(w, u, begin, end) && w[end - 1] == u[end - 1]
    ensures IsShuffleOf(w, u, begin, end - 1)
  {
    var e := multiset{w[end - 1]};
    assert w[begin..end] == w[begin..end - 1] + [w[end - 1]];
    assert u[begin..end] == u[begin..end - 1] + [u[end - 1]];
    assert multiset(w[begin..end - 1]) == multiset(w[begin..end]) - e;
    assert multiset(u[begin..end - 1]) == multiset(u[begin..end]) - e;
    assert w[end - 1..] == [w[end - 1]] + w[end..] && u[end - 1..] == [u[end - 1]] + u[end..];
  }

  /** `w` shuffles `v`, and so `v` with what comes last in `w` brought there. */
  lemma SwapBack<E>(w: seq<E>, v: seq<E>, begin: nat, end: nat, i: nat)
    requires IsShuffleOf(w, v, begin, end) && begin <= i < end && v[i] == w[end - 1]
    ensures IsShuffleOf(w, Swapped(v, i, end - 1), begin, end - 1)
  {
    SwapShuffles(v, begin, end, i);
    LastAfterSwap(v, i, end - 1);
    NarrowShuffle(w, Swapped(v, i, end - 1), begin, end);
  }

  lemma FisherYatesUnfolds<E>(v: seq<E>, begin: nat, width: nat, draws: seq<nat>)
    requires begin + width <= |v| && AreDraws(draws, width) && width >= 2
    ensures FisherYates(v, begin, width, draws)
         == FisherYates(Swapped(v, begin + draws[0], begin + width - 1), begin, width - 1, draws[1..])
  {
  }

  lemma FisherYatesEnds<E>(v: seq<E>, begin: nat, width: nat, state: nat)
    requires begin + width <= |v| && width < 2
    ensures FisherYates(v, begin, width, DrawsFrom(state, width)) == v && StateAfter(state, width) == state
  {
  }

  lemma DrawsUnfold(state: nat, width: nat)
    requires width >= 2
    ensures DrawsFrom(state, width) != [] && DrawsFrom(state, width)[0] == NextState(state) % width
    ensures StateAfter(state, width) == StateAfter(NextState(state), width - 1)
    ensures DrawsFrom(state, width)[1..] == DrawsFrom(NextState(state), width - 1)
  {
  }

  lemma NothingToShuffle<E>(w: seq<E>, v: seq<E>, begin: nat, end: nat)
    requires IsShuffleOf(w, v, begin, end) && end - begin < 2
    ensures w == v
  {
    if end == begin + 1 {
      assert w[begin..end] == [w[begin]] && v[begin..end] == [v[begin]];
      assert w[begin] in multiset(v[begin..end]);
    }
    assert w == w[..begin] + w[begin..end] + w[end..] && v == v[..begin] + v[begin..end] + v[end..];
  }

  lemma LastComesFromRange<E>(w: seq<E>, v: seq<E>, begin: nat, end: nat) returns (first: nat)
    requires IsShuffleOf(w, v, begin, end) && begin < end
    ensures begin + first < end && v[begin + first] == w[end - 1]
  {
    assert w[begin..end][end - 1 - begin] in multiset(w[begin..end]);
    first :| first < |v[begin..end]| && v[begin..end][first] == w[end - 1];
  }

  lemma LastAfterSwap<E>(v: seq<E>, i: nat, j: nat)
    requires i < |v| && j < |v|
    ensures Swapped(v, i, j)[j] == v[i]
  {
  }

  /** Every permutation of the range can come out. */
  lemma {:induction false} EveryShuffleCanBeDrawn<E>(w: seq<E>, v: seq<E>, begin: nat, width: nat)
    returns (draws: seq<nat>)
    requires IsShuffleOf(w, v, begin, begin + width)
    ensures AreDraws(draws, width) && FisherYates(v, begin, width, draws) == w
    decreases width
  {
    if width < 2 {
      NothingToShuffle(w, v, begin, begin + width);
      draws := [];
    } else {
      var first := LastComesFromRange(w, v, begin, begin + width);
      draws := DrawFirst(w, v, begin, width, first);
    }
  }

  lemma {:induction false} DrawFirst<E>(w: seq<E>, v: seq<E>, begin: nat, width: nat, first: nat)
    returns (draws: seq<nat>)
    requires IsShuffleOf(w, v, begin, begin + width)
    requires width >= 2 && first < width && v[begin + first] == w[begin + width - 1]
    ensures AreDraws(draws, width) && FisherYates(v, begin, width, draws) == w
    decreases width, 0
  {
    hide FisherYates, Swapped, IsPermutation;
    var swapped := Swapped(v, begin + first, begin + width - 1);
    SwapBack(w, v, begin, begin + width, begin + first);
    var rest := EveryShuffleCanBeDrawn(w, swapped, begin, width - 1);
    draws := [first] + rest;
    assert draws[1..] == rest;
    FisherYatesUnfolds(v, begin, width, draws);
  }

  /** And from different elements, in one way only: a fair generator makes a fair shuffle. */
  lemma {:induction false} EveryShuffleIsDrawnOnce<E>(v: seq<E>, begin: nat, width: nat, a: seq<nat>, b: seq<nat>)
    requires begin + width <= |v| && AreDraws(a, width) && AreDraws(b, width)
    requires forall i, j :: 0 <= i < j < |v| ==> v[i] != v[j]
    requires FisherYates(v, begin, width, a) == FisherYates(v, begin, width, b)
    ensures a == b
    decreases width
  {
    if width >= 2 {
      hide FisherYates, Swapped;
      SwapKeepsDistinct(v, begin + a[0], begin + width - 1);
      SameFirstDraw(v, begin, width, a, b);
      FisherYatesUnfolds(v, begin, width, a);
      FisherYatesUnfolds(v, begin, width, b);
      EveryShuffleIsDrawnOnce(Swapped(v, begin + a[0], begin + width - 1), begin, width - 1, a[1..], b[1..]);
      assert a == [a[0]] + a[1..] && b == [b[0]] + b[1..];
    }
  }

  lemma SameFirstDraw<E>(v: seq<E>, begin: nat, width: nat, a: seq<nat>, b: seq<nat>)
    requires begin + width <= |v| && AreDraws(a, width) && AreDraws(b, width) && width >= 2
    requires forall i, j :: 0 <= i < j < |v| ==> v[i] != v[j]
    requires FisherYates(v, begin, width, a) == FisherYates(v, begin, width, b)
    ensures a[0] == b[0]
  {
    hide FisherYates;
    FirstDrawShows(v, begin, width, a);
    FirstDrawShows(v, begin, width, b);
  }

  lemma SwapKeepsDistinct<E>(v: seq<E>, i: nat, j: nat)
    requires i < |v| && j < |v| && forall k, m :: 0 <= k < m < |v| ==> v[k] != v[m]
    ensures forall k, m :: 0 <= k < m < |v| ==> Swapped(v, i, j)[k] != Swapped(v, i, j)[m]
  {
  }

  /** The first draw decides what comes last. */
  lemma FirstDrawShows<E>(v: seq<E>, begin: nat, width: nat, draws: seq<nat>)
    requires begin + width <= |v| && AreDraws(draws, width) && width >= 2
    ensures |FisherYates(v, begin, width, draws)| == |v|
    ensures FisherYates(v, begin, width, draws)[begin + width - 1] == v[begin + draws[0]]
  {
    hide FisherYates;
    var swapped := Swapped(v, begin + draws[0], begin + width - 1);
    FisherYatesUnfolds(v, begin, width, draws);
    FisherYatesShuffles(swapped, begin, width - 1, draws[1..]);
    LastStays(FisherYates(v, begin, width, draws), swapped, begin, begin + width - 1);
  }

  /** One shuffle, draw by draw: each time the element drawn changes places with the last. */
  lemma ShuffleOfFour()
    ensures FisherYates([10, 11, 12, 13], 0, 4, [0, 0, 0]) == [11, 12, 13, 10]
    ensures FisherYates([10, 11, 12, 13], 1, 3, [1, 0]) == [10, 13, 11, 12]
  {
    var v := [10, 11, 12, 13];
    assert Swapped(v, 0, 3) == [13, 11, 12, 10];
    assert FisherYates([12, 11, 13, 10], 0, 2, [0]) == FisherYates([11, 12, 13, 10], 0, 1, []);
    FisherYatesUnfolds(v, 0, 4, [0, 0, 0]);
    FisherYatesUnfolds([13, 11, 12, 10], 0, 3, [0, 0]);
    FisherYatesUnfolds(v, 1, 3, [1, 0]);
    FisherYatesUnfolds([10, 11, 13, 12], 1, 2, [0]);
  }

  lemma LastStays<E>(w: seq<E>, u: seq<E>, begin: nat, end: nat)
    requires IsShuffleOf(w, u, begin, end) && end < |u|
    ensures w[end] == u[end]
  {
    assert w[end..][0] == u[end..][0];
  }

  method ShuffleRange<E>(random: Random, begin: nat, end: nat, v: seq<E>) returns (w: seq<E>)
    requires random.Valid() && begin <= end <= |v| && end - begin <= kMaxRange
    modifies random
    ensures random.Valid()
    ensures w == FisherYates(v, begin, end - begin, DrawsFrom(old(random.state), end - begin))
    ensures random.state == StateAfter(old(random.state), end - begin)
    ensures IsShuffleOf(w, v, begin, end)
  {
    hide *;
    w := v;
    ghost var draws := DrawsFrom(random.state, end - begin);
    FisherYatesShuffles(v, begin, end - begin, draws);
    var rangeWidth := end - begin;
    while rangeWidth >= 2
      invariant 0 <= rangeWidth <= end - begin && |w| == |v| && random.Valid()
      invariant FisherYates(w, begin, rangeWidth, DrawsFrom(random.state, rangeWidth))
             == FisherYates(v, begin, end - begin, draws)
      invariant StateAfter(random.state, rangeWidth) == StateAfter(old(random.state), end - begin)
    {
      var lastInRange := begin + rangeWidth - 1;
      FisherYatesUnfolds(w, begin, rangeWidth, DrawsFrom(random.state, rangeWidth));
      DrawsUnfold(random.state, rangeWidth);
      var generated := random.Generate(rangeWidth);
      var selected := begin + generated;
      w := Swapped(w, selected, lastInRange);
      rangeWidth := rangeWidth - 1;
    }
    FisherYatesEnds(w, begin, rangeWidth, random.state);
  }
}
