/** Matchings of a bipartite graph between elements (left) and matchers (right), stated
    without reference to any algorithm. */
module MatchingTheory {

  /** The Boolean matrix of which element satisfies which matcher. */
  datatype MatchMatrix = MatchMatrix(lhsSize: nat, rhsSize: nat, matched: seq<seq<bool>>) {
    ghost predicate Valid() {
      && |matched| == lhsSize
      && forall l :: 0 <= l < lhsSize ==> |matched[l]| == rhsSize
    }

    predicate HasEdge(l: nat, r: nat)
      requires Valid() && l < lhsSize && r < rhsSize
    {
      matched[l][r]
    }

    /** Every neighbour of the element `l` lies in `rs`. */
    ghost predicate NeighboursIn(l: nat, rs: set<nat>)
      requires Valid() && l < lhsSize
    {
      forall r: nat :: r < rhsSize && HasEdge(l, r) ==> r in rs
    }
  }

  type ElementMatcherPair = (nat, nat)

  ghost predicate IsMatching(g: MatchMatrix, m: seq<ElementMatcherPair>)
    requires g.Valid()
  {
    && (forall i :: 0 <= i < |m| ==> m[i].0 < g.lhsSize && m[i].1 < g.rhsSize && g.HasEdge(m[i].0, m[i].1))
    && (forall i, j :: 0 <= i < j < |m| ==> m[i].0 != m[j].0 && m[i].1 != m[j].1)
  }

  ghost predicate IsMaximumMatching(g: MatchMatrix, m: seq<ElementMatcherPair>)
    requires g.Valid()
  {
    && IsMatching(g, m)
    && forall other :: IsMatching(g, other) ==> |other| <= |m|
  }

  /** The `i`-th matcher is paired with element `a[i]`, no element being used twice. */
  ghost predicate IsPairing(g: MatchMatrix, a: seq<nat>)
    requires g.Valid()
  {
    && |a| == g.rhsSize
    && (forall r :: 0 <= r < |a| ==> a[r] < g.lhsSize && g.HasEdge(a[r], r))
    && (forall r, s :: 0 <= r < s < |a| ==> a[r] != a[s])
  }

  ghost predicate Pairable(g: MatchMatrix)
    requires g.Valid()
  {
    exists a :: IsPairing(g, a)
  }

  ghost predicate ElementIsMatched(g: MatchMatrix, l: nat)
    requires g.Valid() && l < g.lhsSize
  {
    exists r: nat :: r < g.rhsSize && g.HasEdge(l, r)
  }

  ghost predicate MatcherIsMatched(g: MatchMatrix, r: nat)
    requires g.Valid() && r < g.rhsSize
  {
    exists l: nat :: l < g.lhsSize && g.HasEdge(l, r)
  }

  ghost predicate ElementsAndMatchersMatched(g: MatchMatrix)
    requires g.Valid()
  {
    && (forall r: nat :: r < g.rhsSize ==> MatcherIsMatched(g, r))
    && (forall l: nat :: l < g.lhsSize ==> ElementIsMatched(g, l))
  }

  ghost predicate Covers(elements: set<nat>, matchers: set<nat>, m: seq<ElementMatcherPair>) {
    forall i :: 0 <= i < |m| ==> m[i].0 in elements || m[i].1 in matchers
  }

  /** Weak duality (the easy half of Koenig's theorem): a vertex cover bounds every matching. */
  lemma {:induction false} CoverBoundsMatching(
    g: MatchMatrix, m: seq<ElementMatcherPair>, elements: set<nat>, matchers: set<nat>)
    requires g.Valid() && IsMatching(g, m)
    requires Covers(elements, matchers, m)
    ensures |m| <= |elements| + |matchers|
    decreases |m|
  {
    if m != [] {
      var n := |m| - 1;
      if m[n].0 in elements {
        CoverBoundsMatching(g, m[..n], elements - {m[n].0}, matchers);
      } else {
        CoverBoundsMatching(g, m[..n], elements, matchers - {m[n].1});
      }
    }
  }

  /** Sets of equal size: a distinct sequence of `n` numbers below `n` contains them all. */
  lemma {:induction false} DistinctBelowIsOnto(s: seq<nat>, n: nat)
    requires forall i :: 0 <= i < |s| ==> s[i] < n
    requires forall i, j :: 0 <= i < j < |s| ==> s[i] != s[j]
    ensures |s| <= n
    ensures |s| == n ==> forall x: nat :: x < n ==> x in s
    decreases n
  {
    if s != [] {
      assert s[0] < n;
      if i :| 0 <= i < |s| && s[i] == n - 1 {
        var t := s[..i] + s[i + 1..];
        DistinctBelowIsOnto(t, n - 1);
        assert forall x :: x in t ==> x in s;
      } else {
        DistinctBelowIsOnto(s, n - 1);
      }
    }
  }

  ghost function Matchers(m: seq<ElementMatcherPair>): seq<nat> {
    seq(|m|, i requires 0 <= i < |m| => m[i].1)
  }

  lemma FullMatchingIsPairing(g: MatchMatrix, m: seq<ElementMatcherPair>)
    requires g.Valid() && IsMatching(g, m) && |m| == g.rhsSize
    ensures Pairable(g)
  {
    DistinctBelowIsOnto(Matchers(m), g.rhsSize);
    var index := seq(g.rhsSize, (r: nat) requires r < g.rhsSize =>
      assert r in Matchers(m);
      var i :| 0 <= i < |m| && Matchers(m)[i] == r; i);
    var a := seq(g.rhsSize, r requires 0 <= r < g.rhsSize => m[index[r]].0);
    assert IsPairing(g, a);
  }

  lemma PairingIsFullMatching(g: MatchMatrix, a: seq<nat>)
    requires g.Valid() && IsPairing(g, a)
    ensures IsMatching(g, seq(|a|, r requires 0 <= r < |a| => (a[r], r)))
  {
  }

  /** A matching that uses as many pairs as there are matchers is a pairing, and conversely. */
  lemma PairableIffFullMatching(g: MatchMatrix, m: seq<ElementMatcherPair>)
    requires g.Valid() && IsMaximumMatching(g, m)
    ensures |m| == g.rhsSize <==> Pairable(g)
  {
    if |m| == g.rhsSize {
      FullMatchingIsPairing(g, m);
    }
    if a :| IsPairing(g, a) {
      PairingIsFullMatching(g, a);
      DistinctBelowIsOnto(Matchers(m), g.rhsSize);
    }
  }

  /** With no more elements than matchers, a pairing uses every element. */
  lemma PairingMatchesEverything(g: MatchMatrix)
    requires g.Valid() && g.lhsSize <= g.rhsSize && Pairable(g)
    ensures g.lhsSize == g.rhsSize && ElementsAndMatchersMatched(g)
  {
    var a :| IsPairing(g, a);
    DistinctBelowIsOnto(a, g.lhsSize);
    forall r: nat | r < g.rhsSize ensures MatcherIsMatched(g, r) {
      assert g.HasEdge(a[r], r);
    }
    forall l: nat | l < g.lhsSize ensures ElementIsMatched(g, l) {
      assert l in a;
      var r :| 0 <= r < |a| && a[r] == l;
      assert g.HasEdge(l, r);
    }
  }

  /** The shapes of matrix for which the pre-check never rejects a pairable input are exactly
      those with at most as many elements as matchers. */
  lemma PrecheckIsSafeExactlyForShapes(lhsSize: nat, rhsSize: nat)
    ensures (forall g: MatchMatrix :: g.Valid() && g.lhsSize == lhsSize && g.rhsSize == rhsSize && Pairable(g)
                                      ==> ElementsAndMatchersMatched(g))
            <==> lhsSize <= rhsSize
  {
    if lhsSize <= rhsSize {
      forall g: MatchMatrix | g.Valid() && g.lhsSize == lhsSize && g.rhsSize == rhsSize && Pairable(g)
        ensures ElementsAndMatchersMatched(g)
      {
        PairingMatchesEverything(g);
      }
    } else {
      var g := MatchMatrix(lhsSize, rhsSize, seq(lhsSize, (l: nat) => seq(rhsSize, (r: nat) => l == r)));
      assert IsPairing(g, seq(rhsSize, (r: nat) => r));
      assert !ElementIsMatched(g, rhsSize);
    }
  }
}

/** The augmenting-path search of Google Mock over two mutually referent vectors. */
module BipartiteMatching {
  import opened MatchingTheory

  /** Stands for static_cast<size_t>(-1), which is no index of a vector. */
  const kUnused: int := -1

  /** `left` and `right` refer to each other along edges of `g`, except that `right[hole]` may
      be left over from an element that has since moved to another matcher. */
  ghost predicate MutuallyReferentExcept(g: MatchMatrix, left: seq<int>, right: seq<int>, hole: int) {
    && g.Valid() && |left| == g.lhsSize && |right| == g.rhsSize
    && (forall l :: 0 <= l < |left| && left[l] != kUnused ==>
          0 <= left[l] < |right| && g.HasEdge(l, left[l]) && right[left[l]] == l)
    && (forall r :: 0 <= r < |right| && right[r] != kUnused ==>
          0 <= right[r] < |left| && (r != hole ==> left[right[r]] == r))
  }

  ghost predicate MutuallyReferent(g: MatchMatrix, left: seq<int>, right: seq<int>) {
    MutuallyReferentExcept(g, left, right, kUnused)
  }

  /** A region of matched matchers whose partners have no neighbour outside the region. No
      augmenting path can leave it. */
  ghost predicate IsClosedRegion(g: MatchMatrix, right: seq<int>, region: set<nat>) {
    && g.Valid() && |right| == g.rhsSize
    && forall r :: r in region ==>
         r < g.rhsSize && 0 <= right[r] < g.lhsSize && g.NeighboursIn(right[r], region)
  }

  ghost function SeenSet(seen: seq<bool>): set<nat> {
    set r: nat | r < |seen| && seen[r]
  }

  ghost function UnseenSet(seen: seq<bool>): set<nat> {
    set r: nat | r < |seen| && r !in SeenSet(seen)
  }

  ghost function MatchedElements(left: seq<int>, n: nat): set<nat>
    requires n <= |left|
  {
    set l: nat | l < n && left[l] != kUnused
  }

  /** The partners of a closed region are as many as the region has matchers. */
  lemma {:induction false} RegionIsNoLargerThanItsPartners(
    g: MatchMatrix, left: seq<int>, right: seq<int>, region: set<nat>)
    requires MutuallyReferent(g, left, right)
    requires forall r :: r in region ==> r < g.rhsSize && right[r] != kUnused
    ensures |region| <= |set l: nat | l < |left| && left[l] in region|
    decreases |region|
  {
    var partners := set l: nat | l < |left| && left[l] in region;
    if r :| r in region {
      RegionIsNoLargerThanItsPartners(g, left, right, region - {r});
      var smaller := set l: nat | l < |left| && left[l] in region - {r};
      assert smaller == partners - {right[r]};
    }
  }

  /** Strong duality: once every unmatched element only reaches a closed region, the present
      matching is as large as any. */
  lemma ClosedRegionCertifiesMaximum(
    g: MatchMatrix, left: seq<int>, right: seq<int>, region: set<nat>, other: seq<ElementMatcherPair>)
    requires MutuallyReferent(g, left, right)
    requires IsClosedRegion(g, right, region)
    requires forall l: nat :: l < |left| && left[l] == kUnused ==> g.NeighboursIn(l, region)
    requires IsMatching(g, other)
    ensures |other| <= |MatchedElements(left, |left|)|
  {
    var matched := MatchedElements(left, |left|);
    var partners := set l: nat | l < |left| && left[l] in region;
    forall i | 0 <= i < |other| ensures other[i].0 in matched - partners || other[i].1 in region {
      var l, r := other[i].0, other[i].1;
      if left[l] != kUnused && left[l] in region {
        assert right[left[l]] == l;
      }
    }
    CoverBoundsMatching(g, other, matched - partners, region);
    RegionIsNoLargerThanItsPartners(g, left, right, region);
    assert partners <= matched;
  }

  /** The matched elements below `n`, in increasing order, each with its matcher. */
  ghost function PairsBelow(left: seq<int>, n: nat): seq<ElementMatcherPair>
    requires n <= |left|
    requires forall l :: 0 <= l < |left| ==> left[l] == kUnused || 0 <= left[l]
  {
    if n == 0 then []
    else PairsBelow(left, n - 1) + if left[n - 1] == kUnused then [] else [(n - 1, left[n - 1])]
  }

  lemma {:induction false} PairsBelowAreTheMatchedElements(left: seq<int>, n: nat)
    requires n <= |left|
    requires forall l :: 0 <= l < |left| ==> left[l] == kUnused || 0 <= left[l]
    ensures forall p :: p in PairsBelow(left, n) <==> p.0 < n && left[p.0] == p.1
    ensures |PairsBelow(left, n)| == |MatchedElements(left, n)|
    decreases n
  {
    if n > 0 {
      var m := n - 1;
      PairsBelowAreTheMatchedElements(left, m);
      var shorter := PairsBelow(left, m);
      if left[m] == kUnused {
        assert PairsBelow(left, n) == shorter;
        assert MatchedElements(left, n) == MatchedElements(left, m);
      } else {
        assert PairsBelow(left, n) == shorter + [(m, left[m])];
        assert MatchedElements(left, n) == MatchedElements(left, m) + {m};
      }
    }
  }

  ghost predicate ElementsIncrease(pairs: seq<ElementMatcherPair>) {
    forall i, j :: 0 <= i < j < |pairs| ==> pairs[i].0 < pairs[j].0
  }

  lemma {:induction false} PairsBelowIncrease(left: seq<int>, n: nat)
    requires n <= |left|
    requires forall l :: 0 <= l < |left| ==> left[l] == kUnused || 0 <= left[l]
    ensures ElementsIncrease(PairsBelow(left, n))
    decreases n
  {
    if n > 0 {
      PairsBelowIncrease(left, n - 1);
      PairsBelowAreTheMatchedElements(left, n - 1);
      var shorter := PairsBelow(left, n - 1);
      assert forall i :: 0 <= i < |shorter| ==> shorter[i] in shorter;
    }
  }

  lemma PairsAreMatching(g: MatchMatrix, left: seq<int>, right: seq<int>)
    requires MutuallyReferent(g, left, right)
    ensures IsMatching(g, PairsBelow(left, |left|))
  {
    hide PairsBelow, MatchedElements;
    var pairs := PairsBelow(left, |left|);
    PairsBelowIncrease(left, |left|);
    PairsBelowAreTheMatchedElements(left, |left|);
    forall i | 0 <= i < |pairs|
      ensures pairs[i].0 < g.lhsSize && pairs[i].1 < g.rhsSize && g.HasEdge(pairs[i].0, pairs[i].1)
      ensures left[pairs[i].0] == pairs[i].1 && right[pairs[i].1] == pairs[i].0
    {
      assert pairs[i] in pairs;
    }
  }

  /** The pairs listed at the end form a maximum matching. */
  lemma PairsAreMaximumMatching(g: MatchMatrix, left: seq<int>, right: seq<int>, region: set<nat>)
    requires MutuallyReferent(g, left, right)
    requires IsClosedRegion(g, right, region)
    requires forall l: nat :: l < |left| && left[l] == kUnused ==> g.NeighboursIn(l, region)
    ensures IsMaximumMatching(g, PairsBelow(left, |left|))
    ensures forall p :: p in PairsBelow(left, |left|) <==> p.0 < |left| && left[p.0] == p.1
  {
    hide PairsBelow, MatchedElements, IsClosedRegion;
    PairsAreMatching(g, left, right);
    PairsBelowAreTheMatchedElements(left, |left|);
    hide IsMatching, MutuallyReferentExcept;
    forall other | IsMatching(g, other) ensures |other| <= |PairsBelow(left, |left|)| {
      ClosedRegionCertifiesMaximum(g, left, right, region, other);
    }
  }

  /** What a search from `ilhs` leaves alone: matchers that were seen before keep their
      partners, elements matched to them stay where they are, and no element other than `ilhs`
      changes between matched and unmatched. */
  ghost predicate KeepsSeen(
    ilhs: nat, seen: seq<bool>, left0: seq<int>, right0: seq<int>, left: seq<int>, right: seq<int>)
  {
    && |left| == |left0| && |right| == |right0| == |seen|
    && (forall r :: 0 <= r < |right| && seen[r] ==> right[r] == right0[r])
    && (forall l :: 0 <= l < |left| && l != ilhs ==> (left[l] == kUnused <==> left0[l] == kUnused))
    && (forall l :: 0 <= l < |left| && l != ilhs && 0 <= left0[l] < |seen| && seen[left0[l]] ==> left[l] == left0[l])
  }

  /** Every matcher in `marked` is taken, by an element with no neighbour outside `within`. */
  ghost predicate DeadEnds(g: MatchMatrix, right: seq<int>, marked: set<nat>, within: set<nat>)
    requires g.Valid() && |right| == g.rhsSize
  {
    forall r :: r in marked ==> r < |right| && 0 <= right[r] < g.lhsSize && g.NeighboursIn(right[r], within)
  }

  /** A failed search adds what it marked, and the matcher it set out from, to the dead ends. */
  lemma DeadEndsGrow(
    g: MatchMatrix, right: seq<int>, seen0: set<nat>, before: set<nat>, irhs: nat, after: set<nat>)
    requires g.Valid() && |right| == g.rhsSize && irhs < |right| && 0 <= right[irhs] < g.lhsSize
    requires before + {irhs} <= after && g.NeighboursIn(right[irhs], after)
    requires DeadEnds(g, right, before - seen0, before)
    requires DeadEnds(g, right, after - (before + {irhs}), after)
    ensures DeadEnds(g, right, after - seen0, after)
  {
    forall r | r in after - seen0
      ensures r < |right| && 0 <= right[r] < g.lhsSize && g.NeighboursIn(right[r], after)
    {
      if r in before {
        assert r in before - seen0;
      } else if r != irhs {
        assert r in after - (before + {irhs});
      }
    }
  }

  /** The assignment after a successful search closes the gap that the search left at `irhs`
      and moves it to the matcher that `ilhs` came from. */
  lemma LinkRestoresMutualReference(
    g: MatchMatrix, ilhs: nat, irhs: nat, seen0: seq<bool>, marked: seq<bool>,
    left0: seq<int>, right0: seq<int>, left1: seq<int>, right1: seq<int>)
    requires MutuallyReferent(g, left0, right0) && ilhs < |left0| && irhs < |right0| && |seen0| == |right0|
    requires g.HasEdge(ilhs, irhs) && !seen0[irhs]
    requires left0[ilhs] != kUnused ==> seen0[left0[ilhs]]
    requires |marked| == |seen0| && marked[irhs]
    requires SeenSet(seen0) <= SeenSet(marked)
    requires if right0[irhs] == kUnused then left1 == left0 && right1 == right0 else
               && MutuallyReferentExcept(g, left1, right1, irhs)
               && KeepsSeen(right0[irhs], marked, left0, right0, left1, right1)
               && left1[right0[irhs]] != kUnused && !marked[left1[right0[irhs]]]
    ensures left1[ilhs] == left0[ilhs]
    ensures MutuallyReferentExcept(g, left1[ilhs := irhs], right1[irhs := ilhs], left0[ilhs])
    ensures KeepsSeen(ilhs, seen0, left0, right0, left1[ilhs := irhs], right1[irhs := ilhs])
  {
    assert forall r: nat :: r < |seen0| && seen0[r] ==> r in SeenSet(marked);
  }

  class MaxBipartiteMatchState {
    const graph: MatchMatrix
    const left: array<int>
    const right: array<int>

    ghost predicate Shaped()
      reads left, right
    {
      && graph.Valid() && left != right
      && left.Length == graph.lhsSize && right.Length == graph.rhsSize
    }

    constructor (g: MatchMatrix)
      requires g.Valid()
      ensures graph == g && fresh(left) && fresh(right) && Shaped()
      ensures MutuallyReferent(g, left[..], right[..])
      ensures forall l :: 0 <= l < left.Length ==> left[l] == kUnused
    {
      graph := g;
      left := new int[g.lhsSize](_ => kUnused);
      right := new int[g.rhsSize](_ => kUnused);
    }

    /** Depth-first search for an augmenting path from the element `ilhs`.

        On failure nothing moves, and the matchers marked by the search form a closed region
        around `ilhs`. On success `ilhs` is the only element whose matched status changes; the
        mutual reference is broken only at the matcher `ilhs` came from, which the caller is
        about to take over. Whatever happens, a region that was closed before keeps its
        partners, and cannot be entered by a successful path. */
    method TryAugment(ilhs: nat, seen: array<bool>, ghost region: set<nat>) returns (found: bool)
      requires Shaped() && ilhs < left.Length && seen.Length == right.Length
      requires MutuallyReferent(graph, left[..], right[..])
      requires left[ilhs] != kUnused ==> seen[left[ilhs]]
      requires IsClosedRegion(graph, right[..], region)
      modifies left, right, seen
      ensures SeenSet(old(seen[..])) <= SeenSet(seen[..])
      ensures KeepsSeen(ilhs, old(seen[..]), old(left[..]), old(right[..]), left[..], right[..])
      ensures forall r :: r in region ==> right[r] == old(right[r])
      ensures found ==>
                && MutuallyReferentExcept(graph, left[..], right[..], old(left[ilhs]))
                && left[ilhs] != kUnused && !old(seen[..])[left[ilhs]]
                && !graph.NeighboursIn(ilhs, region)
      ensures !found ==>
                && left[..] == old(left[..]) && right[..] == old(right[..])
                && graph.NeighboursIn(ilhs, SeenSet(seen[..]))
                && DeadEnds(graph, right[..], SeenSet(seen[..]) - SeenSet(old(seen[..])), SeenSet(seen[..]))
      decreases UnseenSet(seen[..])
    {
      ghost var seen0, left0, right0 := seen[..], left[..], right[..];
      assert DeadEnds(graph, right0, SeenSet(seen0) - SeenSet(seen0), SeenSet(seen0));
      hide DeadEnds;
      var irhs := 0;
      while irhs < graph.rhsSize
        invariant 0 <= irhs <= graph.rhsSize
        invariant left[..] == left0 && right[..] == right0
        invariant SeenSet(seen0) <= SeenSet(seen[..])
        invariant forall r: nat :: r < irhs && graph.HasEdge(ilhs, r) ==> r in SeenSet(seen[..])
        invariant DeadEnds(graph, right0, SeenSet(seen[..]) - SeenSet(seen0), SeenSet(seen[..]))
      {
        if !seen[irhs] && graph.HasEdge(ilhs, irhs) {
          ghost var before := seen[..];
          seen[irhs] := true;
          ghost var marked := seen[..];
          assert SeenSet(marked) == SeenSet(before) + {irhs};
          assert irhs in UnseenSet(seen0) - UnseenSet(marked);
          found := right[irhs] == kUnused;
          if !found {
            found := TryAugment(right[irhs], seen, region);
          }
          if found {
            ghost var left1, right1 := left[..], right[..];
            left[ilhs] := irhs;
            right[irhs] := ilhs;
            LinkRestoresMutualReference(graph, ilhs, irhs, seen0, marked, left0, right0, left1, right1);
            assert left[..] == left1[ilhs := irhs] && right[..] == right1[irhs := ilhs];
            return true;
          }
          DeadEndsGrow(graph, right0, SeenSet(seen0), SeenSet(before), irhs, SeenSet(seen[..]));
        }
        irhs := irhs + 1;
      }
      return false;
    }

    /** One pass over the elements, a fresh search from each. The region collects the marks of
        the failed searches; it stays closed, and at the end certifies that the matching cannot
        be improved. The assertion is the run-time check that each element is still unmatched
        when its turn comes. */
    method Compute() returns (result: seq<ElementMatcherPair>)
      requires Shaped() && MutuallyReferent(graph, left[..], right[..])
      requires forall l :: 0 <= l < left.Length ==> left[l] == kUnused
      modifies left, right
      ensures IsMaximumMatching(graph, result)
      ensures MutuallyReferent(graph, left[..], right[..])
      ensures forall p :: p in result <==> p.0 < left.Length && left[p.0] == p.1
    {
      ghost var region: set<nat> := {};
      var ilhs := 0;
      while ilhs < graph.lhsSize
        invariant 0 <= ilhs <= graph.lhsSize
        invariant MutuallyReferent(graph, left[..], right[..])
        invariant IsClosedRegion(graph, right[..], region)
        invariant forall l: nat :: l < ilhs && left[l] == kUnused ==> graph.NeighboursIn(l, region)
        invariant forall l :: ilhs <= l < left.Length ==> left[l] == kUnused
      {
        assert left[ilhs] == kUnused;
        var seen := new bool[graph.rhsSize](_ => false);
        assert SeenSet(seen[..]) == {};
        var found := TryAugment(ilhs, seen, region);
        if !found {
          region := region + SeenSet(seen[..]);
        }
        ilhs := ilhs + 1;
      }
      result := CollectPairs();
      PairsAreMaximumMatching(graph, left[..], right[..], region);
    }

    /** The closing loop of Compute. */
    method CollectPairs() returns (result: seq<ElementMatcherPair>)
      requires Shaped() && MutuallyReferent(graph, left[..], right[..])
      ensures result == PairsBelow(left[..], left.Length)
    {
      result := [];
      var ilhs := 0;
      while ilhs < left.Length
        invariant 0 <= ilhs <= left.Length
        invariant result == PairsBelow(left[..], ilhs)
      {
        var irhs := left[ilhs];
        if irhs != kUnused {
          result := result + [(ilhs, irhs)];
        }
        ilhs := ilhs + 1;
      }
    }
  }

  method FindMaxBipartiteMatching(g: MatchMatrix) returns (result: seq<ElementMatcherPair>)
    requires g.Valid()
    ensures IsMaximumMatching(g, result)
  {
    var state := new MaxBipartiteMatchState(g);
    result := state.Compute();
  }

  /** True iff every matcher can be given an element of its own that satisfies it. */
  method FindPairing(g: MatchMatrix) returns (result: bool)
    requires g.Valid()
    ensures result <==> Pairable(g)
  {
    var matches := FindMaxBipartiteMatching(g);
    PairableIffFullMatching(g, matches);
    return |matches| == g.rhsSize;
  }

  /** The pre-check: flags every row and every column that holds an edge. */
  method VerifyAllElementsAndMatchersAreMatched(g: MatchMatrix) returns (result: bool)
    requires g.Valid()
    ensures result <==> ElementsAndMatchersMatched(g)
  {
    var elementMatched := new bool[g.lhsSize](_ => false);
    var matcherMatched := new bool[g.rhsSize](_ => false);
    var ilhs := 0;
    while ilhs < g.lhsSize
      invariant 0 <= ilhs <= g.lhsSize
      invariant forall l: nat :: l < g.lhsSize ==>
                  (elementMatched[l] <==> l < ilhs && ElementIsMatched(g, l))
      invariant forall r: nat :: r < g.rhsSize ==>
                  (matcherMatched[r] <==> exists l: nat :: l < ilhs && g.HasEdge(l, r))
    {
      var irhs := 0;
      while irhs < g.rhsSize
        invariant 0 <= irhs <= g.rhsSize
        invariant forall l: nat :: l < g.lhsSize && l != ilhs ==>
                    (elementMatched[l] <==> l < ilhs && ElementIsMatched(g, l))
        invariant elementMatched[ilhs] <==> exists r: nat :: r < irhs && g.HasEdge(ilhs, r)
        invariant forall r: nat :: r < g.rhsSize ==>
                    (matcherMatched[r] <==> (exists l: nat :: l < ilhs && g.HasEdge(l, r))
                                            || (r < irhs && g.HasEdge(ilhs, r)))
      {
        var matched := g.HasEdge(ilhs, irhs);
        elementMatched[ilhs] := elementMatched[ilhs] || matched;
        matcherMatched[irhs] := matcherMatched[irhs] || matched;
        irhs := irhs + 1;
      }
      ilhs := ilhs + 1;
    }
    result := true;
    assert forall r: nat :: r < g.rhsSize ==> (matcherMatched[r] <==> MatcherIsMatched(g, r));
    for mi := 0 to matcherMatched.Length
      invariant result <==> forall r: nat :: r < mi ==> MatcherIsMatched(g, r)
    {
      result := result && matcherMatched[mi];
    }
    for ei := 0 to elementMatched.Length
      invariant result <==> (forall r: nat :: r < g.rhsSize ==> MatcherIsMatched(g, r))
                            && forall l: nat :: l < ei ==> ElementIsMatched(g, l)
    {
      result := result && elementMatched[ei];
    }
  }

  /** UnorderedElementsAre: with the pre-check in front, the answer is still exactly whether
      some permutation of the elements satisfies the matchers one for one. */
  method MatchAndExplain(g: MatchMatrix) returns (result: bool)
    requires g.Valid()
    ensures result <==> g.lhsSize == g.rhsSize && Pairable(g)
  {
    if g.lhsSize == 0 && g.rhsSize == 0 {
      assert IsPairing(g, []);
      return true;
    }
    if g.lhsSize != g.rhsSize {
      return false;
    }
    if Pairable(g) {
      PairingMatchesEverything(g);
    }
    result := VerifyAllElementsAndMatchersAreMatched(g);
    if result {
      result := FindPairing(g);
    }
  }
}
