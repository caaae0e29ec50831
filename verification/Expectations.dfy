/** Acyclic graphs of prerequisites: `g[x]` holds the immediate prerequisites of `x`, and every
    edge leads to a lower rank. */
module PrerequisiteGraphs {

  ghost predicate Acyclic<T>(g: map<T, set<T>>, rank: map<T, nat>) {
    && g.Keys == rank.Keys
    && forall x :: x in g ==> forall p :: p in g[x] ==> p in g && rank[p] < rank[x]
  }

  /** All direct and indirect prerequisites of `x`. */
  ghost function Prerequisites<T>(g: map<T, set<T>>, rank: map<T, nat>, x: T): set<T>
    requires Acyclic(g, rank) && x in g
    decreases rank[x]
  {
    PrerequisitesOf(g, rank, g[x], rank[x])
  }

  /** A set of elements of rank below `n`, with all their prerequisites. */
  ghost function PrerequisitesOf<T>(g: map<T, set<T>>, rank: map<T, nat>, s: set<T>, n: nat): set<T>
    requires Acyclic(g, rank) && forall p :: p in s ==> p in g && rank[p] < n
    decreases n, 0
  {
    s + set p, q | p in s && q in Prerequisites(g, rank, p) :: q
  }

  /** `s` contains the prerequisites of its elements. */
  ghost predicate ClosedUnderPrerequisites<T>(g: map<T, set<T>>, s: set<T>) {
    forall x :: x in s && x in g ==> g[x] <= s
  }

  /** Prerequisites have lower rank, and their prerequisites are prerequisites again. */
  lemma {:induction false} PrerequisitesAreClosed<T>(g: map<T, set<T>>, rank: map<T, nat>, x: T)
    requires Acyclic(g, rank) && x in g
    ensures g[x] <= Prerequisites(g, rank, x)
    ensures forall q :: q in Prerequisites(g, rank, x) ==> q in g && rank[q] < rank[x]
    ensures ClosedUnderPrerequisites(g, Prerequisites(g, rank, x))
    decreases rank[x]
  {
    forall p | p in g[x] { PrerequisitesAreClosed(g, rank, p); }
  }

  lemma PrerequisitesUnfold<T>(g: map<T, set<T>>, rank: map<T, nat>, x: T)
    requires Acyclic(g, rank) && x in g
    ensures Prerequisites(g, rank, x) == PrerequisitesOf(g, rank, g[x], rank[x])
    ensures PrerequisitesOf(g, rank, {}, rank[x]) == {}
  {
  }

  lemma PrerequisiteOfPrerequisite<T>(g: map<T, set<T>>, rank: map<T, nat>, x: T, p: T)
    requires Acyclic(g, rank) && x in g && p in g[x]
    ensures {p} + Prerequisites(g, rank, p) <= Prerequisites(g, rank, x)
  {
    PrerequisitesUnfold(g, rank, x);
  }

  lemma AddToPrerequisitesOf<T>(g: map<T, set<T>>, rank: map<T, nat>, s: set<T>, x: T, n: nat)
    requires Acyclic(g, rank) && forall p :: p in s + {x} ==> p in g && rank[p] < n
    ensures PrerequisitesOf(g, rank, s + {x}, n) == PrerequisitesOf(g, rank, s, n) + {x} + Prerequisites(g, rank, x)
  {
    hide Prerequisites;
  }

  /** They are the least set that contains the immediate ones and is closed. */
  lemma {:induction false} PrerequisitesAreLeast<T>(g: map<T, set<T>>, rank: map<T, nat>, x: T, s: set<T>)
    requires Acyclic(g, rank) && x in g
    requires g[x] <= s && ClosedUnderPrerequisites(g, s)
    ensures Prerequisites(g, rank, x) <= s
    decreases rank[x]
  {
    forall p | p in g[x] { PrerequisitesAreLeast(g, rank, p, s); }
  }
}

/** Finding what keeps an expectation from being callable. */
module UnsatisfiedPrerequisites {
  import opened PrerequisiteGraphs

  /** The unsatisfied prerequisites that are worth reporting: below a satisfied prerequisite the
      search goes on only if it has never been called, and below an unsatisfied one never. */
  ghost function Reported<T>(
    g: map<T, set<T>>, rank: map<T, nat>, satisfied: set<T>, called: set<T>, x: T): set<T>
    requires Acyclic(g, rank) && x in g
    decreases rank[x]
  {
    ReportedOf(g, rank, satisfied, called, g[x], rank[x])
  }

  ghost function ReportedOf<T>(
    g: map<T, set<T>>, rank: map<T, nat>, satisfied: set<T>, called: set<T>, s: set<T>, n: nat): set<T>
    requires Acyclic(g, rank) && forall p :: p in s ==> p in g && rank[p] < n
    decreases n, 0
  {
    (s - satisfied)
    + set p, q | p in s && p in satisfied && p !in called && q in Reported(g, rank, satisfied, called, p) :: q
  }

  lemma ReportedUnfold<T>(g: map<T, set<T>>, rank: map<T, nat>, satisfied: set<T>, called: set<T>, x: T)
    requires Acyclic(g, rank) && x in g
    ensures Reported(g, rank, satisfied, called, x) == ReportedOf(g, rank, satisfied, called, g[x], rank[x])
    ensures ReportedOf(g, rank, satisfied, called, {}, rank[x]) == {}
  {
  }

  /** Everything reported is an unsatisfied transitive prerequisite. */
  lemma {:induction false} ReportedAreUnsatisfied<T>(
    g: map<T, set<T>>, rank: map<T, nat>, satisfied: set<T>, called: set<T>, x: T)
    requires Acyclic(g, rank) && x in g
    ensures Reported(g, rank, satisfied, called, x) <= Prerequisites(g, rank, x) - satisfied
    decreases rank[x]
  {
    forall p | p in g[x] { ReportedAreUnsatisfied(g, rank, satisfied, called, p); }
  }

  lemma ReportedThrough<T>(
    g: map<T, set<T>>, rank: map<T, nat>, satisfied: set<T>, called: set<T>, x: T, p: T)
    requires Acyclic(g, rank) && x in g && p in g[x] && p in satisfied && p !in called
    ensures Reported(g, rank, satisfied, called, p) <= Reported(g, rank, satisfied, called, x)
  {
    assert Reported(g, rank, satisfied, called, x) == ReportedOf(g, rank, satisfied, called, g[x], rank[x]);
  }

  /** A path from `x` along prerequisites to `p`, all satisfied and never called before it. */
  ghost predicate IsOpenPath<T>(
    g: map<T, set<T>>, satisfied: set<T>, called: set<T>, x: T, path: seq<T>, p: T)
  {
    && path != [] && x in g && path[0] in g[x] && path[|path| - 1] == p
    && forall i :: 0 <= i < |path| - 1 ==>
                     path[i] in satisfied - called && path[i] in g && path[i + 1] in g[path[i]]
  }

  lemma {:induction false} ReportedHasPath<T>(
    g: map<T, set<T>>, rank: map<T, nat>, satisfied: set<T>, called: set<T>, x: T, p: T) returns (path: seq<T>)
    requires Acyclic(g, rank) && x in g && p in Reported(g, rank, satisfied, called, x)
    ensures IsOpenPath(g, satisfied, called, x, path, p)
    decreases rank[x]
  {
    if p in g[x] - satisfied {
      path := [p];
    } else {
      assert p in ReportedOf(g, rank, satisfied, called, g[x], rank[x]);
      var q :| q in g[x] && q in satisfied && q !in called && p in Reported(g, rank, satisfied, called, q);
      var rest := ReportedHasPath(g, rank, satisfied, called, q, p);
      path := [q] + rest;
    }
  }

  lemma {:induction false} OpenPathIsReported<T>(
    g: map<T, set<T>>, rank: map<T, nat>, satisfied: set<T>, called: set<T>, x: T, path: seq<T>, p: T)
    requires Acyclic(g, rank) && IsOpenPath(g, satisfied, called, x, path, p) && p !in satisfied
    ensures p in Reported(g, rank, satisfied, called, x)
    decreases |path|
  {
    ReportedUnfold(g, rank, satisfied, called, x);
    if |path| > 1 {
      var q := path[0];
      assert path[1..][0] == path[1];
      OpenPathIsReported(g, rank, satisfied, called, q, path[1..], p);
      ReportedThrough(g, rank, satisfied, called, x, q);
    }
  }

  /** What is reported: the unsatisfied prerequisites that a path through satisfied ones leads to
      which have never been called. */
  lemma ReportedExactly<T>(
    g: map<T, set<T>>, rank: map<T, nat>, satisfied: set<T>, called: set<T>, x: T, p: T)
    requires Acyclic(g, rank) && x in g
    ensures p in Reported(g, rank, satisfied, called, x)
            <==> p !in satisfied && exists path :: IsOpenPath(g, satisfied, called, x, path, p)
  {
    hide Reported, IsOpenPath;
    ReportedAreUnsatisfied(g, rank, satisfied, called, x);
    if p in Reported(g, rank, satisfied, called, x) {
      var path := ReportedHasPath(g, rank, satisfied, called, x, p);
    }
    if path :| p !in satisfied && IsOpenPath(g, satisfied, called, x, path, p) {
      OpenPathIsReported(g, rank, satisfied, called, x, path, p);
    }
  }

  lemma AllReportedExactly<T>(g: map<T, set<T>>, rank: map<T, nat>, satisfied: set<T>, called: set<T>, x: T)
    requires Acyclic(g, rank) && x in g
    ensures g[x] - satisfied <= Reported(g, rank, satisfied, called, x)
    ensures forall p ::
              p in Reported(g, rank, satisfied, called, x)
              <==> p !in satisfied && exists path :: IsOpenPath(g, satisfied, called, x, path, p)
  {
    ReportedUnfold(g, rank, satisfied, called, x);
    hide Reported, IsOpenPath;
    forall p
      ensures p in Reported(g, rank, satisfied, called, x)
              <==> p !in satisfied && exists path :: IsOpenPath(g, satisfied, called, x, path, p)
    {
      ReportedExactly(g, rank, satisfied, called, x, p);
    }
  }

  lemma AddToReportedOf<T>(
    g: map<T, set<T>>, rank: map<T, nat>, satisfied: set<T>, called: set<T>, s: set<T>, x: T, n: nat)
    requires Acyclic(g, rank) && forall p :: p in s + {x} ==> p in g && rank[p] < n
    ensures ReportedOf(g, rank, satisfied, called, s + {x}, n)
         == ReportedOf(g, rank, satisfied, called, s, n)
            + if x !in satisfied then {x}
              else if x in called then {} else Reported(g, rank, satisfied, called, x)
  {
    hide Reported;
  }

  /** What a call presupposes: a satisfied expectation that has been called has satisfied
      prerequisites. */
  ghost predicate CalledInOrder<T>(g: map<T, set<T>>, rank: map<T, nat>, satisfied: set<T>, called: set<T>)
    requires Acyclic(g, rank)
  {
    forall x :: x in g && x in satisfied && x in called ==> Prerequisites(g, rank, x) <= satisfied
  }

  /** Under that condition the search misses nothing: it comes back empty exactly if all
      transitive prerequisites are satisfied. */
  lemma {:induction false} NothingReportedIffAllSatisfied<T>(
    g: map<T, set<T>>, rank: map<T, nat>, satisfied: set<T>, called: set<T>, x: T)
    requires Acyclic(g, rank) && x in g
    requires CalledInOrder(g, rank, satisfied, called)
    ensures Reported(g, rank, satisfied, called, x) == {} <==> Prerequisites(g, rank, x) <= satisfied
    decreases rank[x]
  {
    ReportedAreUnsatisfied(g, rank, satisfied, called, x);
    if Reported(g, rank, satisfied, called, x) == {} {
      forall p | p in g[x] ensures p in satisfied && Prerequisites(g, rank, p) <= satisfied {
        assert Reported(g, rank, satisfied, called, x) == ReportedOf(g, rank, satisfied, called, g[x], rank[x]);
        assert p !in g[x] - satisfied;
        if p !in called {
          ReportedThrough(g, rank, satisfied, called, x, p);
          NothingReportedIffAllSatisfied(g, rank, satisfied, called, p);
        }
      }
    }
  }
}

/** Google Mock's expectations, and the order that After and InSequence put on them. */
module Expectations {
  import opened PrerequisiteGraphs
  import opened UnsatisfiedPrerequisites

  type Graph = map<ExpectationBase, set<ExpectationBase>>

  /** What a call performs: the default action of the function, the index-th of the actions that
      were given once each, or the repeated one. */
  datatype Action = DefaultAction | OnceAction(index: nat) | RepeatedAction

  /** Why an expectation does not take a call. */
  datatype Explanation =
    | Retired
    | ArgumentsDiffer
    | Unsatisfied(preRequisites: set<ExpectationBase>)
    | CallMatches

  class ExpectationBase {
    const minCalls: nat
    const maxCalls: nat
    const retiresOnSaturation: bool
    const actionCount: nat
    var callCount: nat
    var retired: bool
    var immediatePrerequisites: set<ExpectationBase>

    constructor (minCalls: nat, maxCalls: nat, retiresOnSaturation: bool, actionCount: nat)
      requires minCalls <= maxCalls
      ensures this.minCalls == minCalls && this.maxCalls == maxCalls
      ensures this.retiresOnSaturation == retiresOnSaturation && this.actionCount == actionCount
      ensures callCount == 0 && !retired && immediatePrerequisites == {}
    {
      this.minCalls, this.maxCalls, this.retiresOnSaturation := minCalls, maxCalls, retiresOnSaturation;
      this.actionCount := actionCount;
      callCount, retired, immediatePrerequisites := 0, false, {};
    }

    predicate IsSatisfied()
      reads this`callCount
    {
      minCalls <= callCount <= maxCalls
    }

    predicate IsSaturated()
      reads this`callCount
    {
      callCount >= maxCalls
    }

    /** Retires exactly the transitive prerequisites, each after its own; the expectation itself
        stays as it is. `order` lists the newly retired ones as they were retired. */
    method RetireAllPreRequisites(
      ghost all: set<ExpectationBase>, ghost g: Graph, ghost rank: map<ExpectationBase, nat>)
      returns (ghost order: seq<ExpectationBase>)
      requires this in all && g == GraphOf(all) && Acyclic(g, rank)
      requires ClosedUnderPrerequisites(g, RetiredIn(all))
      modifies all`retired
      ensures ClosedUnderPrerequisites(g, RetiredIn(all))
      ensures RetiredIn(all) == old(RetiredIn(all)) + if old(retired) then {} else Prerequisites(g, rank, this)
      ensures retired == old(retired)
      ensures RetiredInOrder(g, old(RetiredIn(all)), order, RetiredIn(all))
      decreases rank[this], 0
    {
      hide Prerequisites, PrerequisitesOf, ClosedUnderPrerequisites;
      ghost var before := RetiredIn(all);
      order := [];
      assert RetiredInOrder(g, before, [], before);
      if retired {
        return;
      }
      PrerequisitesUnfold(g, rank, this);
      PrerequisitesAreClosed(g, rank, this);
      hide RetiredInOrder;
      var todo := immediatePrerequisites;
      ghost var done: set<ExpectationBase> := {};
      while todo != {}
        invariant done + todo == g[this] && done !! todo
        invariant !retired
        invariant RetiredIn(all) == before + PrerequisitesOf(g, rank, done, rank[this])
        invariant ClosedUnderPrerequisites(g, RetiredIn(all))
        invariant RetiredInOrder(g, before, order, RetiredIn(all))
        decreases todo
      {
        var prerequisite :| prerequisite in todo;
        ghost var r0 := RetiredIn(all);
        AddToPrerequisitesOf(g, rank, done, prerequisite, rank[this]);
        PrerequisitesAreClosed(g, rank, prerequisite);
        ghost var more := prerequisite.RetireWithPreRequisites(all, g, rank);
        assert this !in r0 && this !in RetiredIn(all);
        OrdersCompose(g, before, order, r0, more, RetiredIn(all));
        order := order + more;
        todo := todo - {prerequisite};
        done := done + {prerequisite};
      }
      assert done == g[this];
    }

    /** The body of that loop: unless it is retired, retires a prerequisite after its own. */
    method RetireWithPreRequisites(
      ghost all: set<ExpectationBase>, ghost g: Graph, ghost rank: map<ExpectationBase, nat>)
      returns (ghost order: seq<ExpectationBase>)
      requires this in all && g == GraphOf(all) && Acyclic(g, rank)
      requires ClosedUnderPrerequisites(g, RetiredIn(all))
      modifies all`retired
      ensures ClosedUnderPrerequisites(g, RetiredIn(all))
      ensures RetiredIn(all) == old(RetiredIn(all)) + Prerequisites(g, rank, this) + {this}
      ensures RetiredInOrder(g, old(RetiredIn(all)), order, RetiredIn(all))
      decreases rank[this], 1
    {
      order := [];
      assert RetiredInOrder(g, RetiredIn(all), [], RetiredIn(all));
      hide Prerequisites, PrerequisitesOf, RetiredInOrder;
      if retired {
        PrerequisitesAreLeast(g, rank, this, RetiredIn(all));
      } else {
        ghost var before := RetiredIn(all);
        order := RetireAllPreRequisites(all, g, rank);
        ghost var between := RetiredIn(all);
        retired := true;
        assert RetiredIn(all) == between + {this};
        RetireOne(g, rank, before, order, this);
        order := order + [this];
      }
    }

    method AllPrerequisitesAreSatisfied(
      ghost all: set<ExpectationBase>, ghost g: Graph, ghost rank: map<ExpectationBase, nat>)
      returns (result: bool)
      requires this in all && g == GraphOf(all) && Acyclic(g, rank)
      ensures result <==> Prerequisites(g, rank, this) <= SatisfiedIn(all)
      decreases rank[this]
    {
      hide Prerequisites, PrerequisitesOf;
      PrerequisitesUnfold(g, rank, this);
      var todo := immediatePrerequisites;
      ghost var done: set<ExpectationBase> := {};
      while todo != {}
        invariant done + todo == g[this] && done !! todo
        invariant PrerequisitesOf(g, rank, done, rank[this]) <= SatisfiedIn(all)
        decreases todo
      {
        var it :| it in todo;
        AddToPrerequisitesOf(g, rank, done, it, rank[this]);
        PrerequisiteOfPrerequisite(g, rank, this, it);
        var satisfied := it.IsSatisfied();
        if satisfied {
          satisfied := it.AllPrerequisitesAreSatisfied(all, g, rank);
        }
        if !satisfied {
          return false;
        }
        todo := todo - {it};
        done := done + {it};
      }
      assert done == g[this];
      return true;
    }

    /** Adds the unsatisfied prerequisites that the search meets to `result`. */
    method FindUnsatisfiedPrerequisites(
      result: set<ExpectationBase>,
      ghost all: set<ExpectationBase>, ghost g: Graph, ghost rank: map<ExpectationBase, nat>)
      returns (extended: set<ExpectationBase>)
      requires this in all && g == GraphOf(all) && Acyclic(g, rank)
      ensures extended == result + Reported(g, rank, SatisfiedIn(all), CalledIn(all), this)
      decreases rank[this]
    {
      hide Reported, ReportedOf;
      ghost var satisfied, called := SatisfiedIn(all), CalledIn(all);
      ReportedUnfold(g, rank, satisfied, called, this);
      extended := result;
      var todo := immediatePrerequisites;
      ghost var done: set<ExpectationBase> := {};
      while todo != {}
        invariant done + todo == g[this] && done !! todo
        invariant extended == result + ReportedOf(g, rank, satisfied, called, done, rank[this])
        decreases todo
      {
        var it :| it in todo;
        AddToReportedOf(g, rank, satisfied, called, done, it, rank[this]);
        if it.IsSatisfied() {
          if it.callCount == 0 {
            extended := it.FindUnsatisfiedPrerequisites(extended, all, g, rank);
          }
        } else {
          extended := extended + {it};
        }
        todo := todo - {it};
        done := done + {it};
      }
      assert done == g[this];
    }

    /** Whether the expectation takes a call whose arguments match, or do not. */
    method ShouldHandleArguments(
      matches: bool, ghost all: set<ExpectationBase>, ghost g: Graph, ghost rank: map<ExpectationBase, nat>)
      returns (result: bool)
      requires this in all && g == GraphOf(all) && Acyclic(g, rank)
      ensures result <==> !retired && Prerequisites(g, rank, this) <= SatisfiedIn(all) && matches
    {
      if retired {
        return false;
      }
      result := AllPrerequisitesAreSatisfied(all, g, rank);
      result := result && matches;
    }

    /** The explanation names the first reason, in another order than the question above, and says
        that the call matches exactly if it would be taken. The prerequisites listed are those
        that are unsatisfied and can be reached through satisfied ones that were never called,
        all of them; the list never comes out empty. */
    method ExplainMatchResultTo(
      matches: bool, ghost all: set<ExpectationBase>, ghost g: Graph, ghost rank: map<ExpectationBase, nat>)
      returns (why: Explanation)
      requires this in all && g == GraphOf(all) && Acyclic(g, rank)
      requires CallsInOrder(all, g)
      ensures why == Retired <==> retired
      ensures why == ArgumentsDiffer <==> !retired && !matches
      ensures why == CallMatches <==> !retired && matches && Prerequisites(g, rank, this) <= SatisfiedIn(all)
      ensures why.Unsatisfied? ==>
                why.preRequisites != {} && why.preRequisites <= Prerequisites(g, rank, this) - SatisfiedIn(all)
      ensures why.Unsatisfied? ==>
                && immediatePrerequisites - SatisfiedIn(all) <= why.preRequisites
                && forall p ::
                     p in why.preRequisites
                     <==> && p !in SatisfiedIn(all)
                          && exists path :: IsOpenPath(g, SatisfiedIn(all), CalledIn(all), this, path, p)
    {
      hide Prerequisites, Reported, IsOpenPath;
      if retired {
        return Retired;
      }
      if !matches {
        return ArgumentsDiffer;
      }
      var ok := AllPrerequisitesAreSatisfied(all, g, rank);
      if !ok {
        CallsInOrderIsCalledInOrder(all, g, rank);
        NothingReportedIffAllSatisfied(g, rank, SatisfiedIn(all), CalledIn(all), this);
        ReportedAreUnsatisfied(g, rank, SatisfiedIn(all), CalledIn(all), this);
        var unsatisfied := FindUnsatisfiedPrerequisites({}, all, g, rank);
        AllReportedExactly(g, rank, SatisfiedIn(all), CalledIn(all), this);
        return Unsatisfied(unsatisfied);
      }
      return CallMatches;
    }

    /** The action for the present call, which has been counted. */
    method GetCurrentAction() returns (action: Action)
      requires callCount >= 1
      ensures action == if callCount <= actionCount then OnceAction(callCount - 1) else RepeatedAction
    {
      var count := callCount;
      action := if count <= actionCount then OnceAction(count - 1) else RepeatedAction;
    }

    /** Performing a mock function call: count it, retire what had to come first, retire this one if
        it is saturated and asked to. The n-th call gets the n-th of the actions given once each,
        later ones the repeated action, and those that are one too many the default. */
    method GetActionForArguments(
      ghost all: set<ExpectationBase>, ghost g: Graph, ghost rank: map<ExpectationBase, nat>)
      returns (action: Action)
      requires this in all && g == GraphOf(all) && Acyclic(g, rank)
      requires CallsInOrder(all, g)
      requires !retired && Prerequisites(g, rank, this) <= SatisfiedIn(all)
      modifies this`callCount, all`retired
      ensures CallsInOrder(all, g)
      ensures callCount == old(callCount) + 1
      ensures SatisfiedIn(all) - {this} == old(SatisfiedIn(all)) - {this}
      ensures this in SatisfiedIn(all) <==> minCalls <= callCount <= maxCalls
      ensures action == if old(callCount) >= maxCalls then DefaultAction
                        else if old(callCount) < actionCount then OnceAction(old(callCount))
                        else RepeatedAction
      ensures RetiredIn(all) == old(RetiredIn(all))
                                + (if old(callCount) >= maxCalls then {} else Prerequisites(g, rank, this))
                                + (if retiresOnSaturation && callCount == maxCalls then {this} else {})
    {
      hide Prerequisites, PrerequisitesOf, InOrder, ClosedUnderPrerequisites, RetiredInOrder;
      InOrderIsClosed(g, RetiredIn(all), SatisfiedIn(all), CalledIn(all));
      ghost var before, satisfied, called := RetiredIn(all), SatisfiedIn(all), CalledIn(all);
      if IsSaturated() {
        callCount := callCount + 1;
        action := DefaultAction;
      } else {
        callCount := callCount + 1;
        ghost var order := RetireAllPreRequisites(all, g, rank);
        assert RetiredIn(all) == before + Prerequisites(g, rank, this);
        if retiresOnSaturation && IsSaturated() {
          retired := true;
          assert RetiredIn(all) == before + Prerequisites(g, rank, this) + {this};
        }
        action := GetCurrentAction();
      }
      assert CalledIn(all) == called + {this} && SatisfiedIn(all) - {this} == satisfied - {this};
      CallKeepsOrder(g, rank, this, before, satisfied, called, RetiredIn(all), SatisfiedIn(all));
    }
  }

  ghost function SatisfiedIn(all: set<ExpectationBase>): set<ExpectationBase>
    reads all`callCount
  {
    set e | e in all && e.IsSatisfied()
  }

  ghost function CalledIn(all: set<ExpectationBase>): set<ExpectationBase>
    reads all`callCount
  {
    set e | e in all && e.callCount > 0
  }

  /** What mock function calls keep: an expectation is retired only when it is satisfied and all
      its prerequisites are retired; and one that has been called, and not too often, has had its
      prerequisites retired. */
  ghost predicate InOrder(
    g: Graph, retired: set<ExpectationBase>, satisfied: set<ExpectationBase>, called: set<ExpectationBase>)
  {
    && ClosedUnderPrerequisites(g, retired)
    && retired <= satisfied
    && forall e :: e in satisfied && e in called && e in g ==> g[e] <= retired
  }

  lemma InOrderIsClosed(
    g: Graph, retired: set<ExpectationBase>, satisfied: set<ExpectationBase>, called: set<ExpectationBase>)
    requires InOrder(g, retired, satisfied, called)
    ensures ClosedUnderPrerequisites(g, retired)
  {
  }

  ghost predicate CallsInOrder(all: set<ExpectationBase>, g: Graph)
    reads all
  {
    && (forall e :: e in all ==> e.minCalls <= e.maxCalls)
    && InOrder(g, RetiredIn(all), SatisfiedIn(all), CalledIn(all))
  }

  /** Expectations that nobody has called are in order. */
  lemma InitiallyInOrder(all: set<ExpectationBase>, g: Graph)
    requires forall e :: e in all ==> e.minCalls <= e.maxCalls && e.callCount == 0 && !e.retired
    ensures CallsInOrder(all, g)
  {
    assert RetiredIn(all) == {} && CalledIn(all) == {};
  }

  /** The invariant gives the search for unsatisfied prerequisites what it relies on. */
  lemma CallsInOrderIsCalledInOrder(all: set<ExpectationBase>, g: Graph, rank: map<ExpectationBase, nat>)
    requires Acyclic(g, rank) && g.Keys == all && CallsInOrder(all, g)
    ensures CalledInOrder(g, rank, SatisfiedIn(all), CalledIn(all))
  {
    forall x | x in g && x in SatisfiedIn(all) && x in CalledIn(all)
      ensures Prerequisites(g, rank, x) <= SatisfiedIn(all)
    {
      PrerequisitesAreLeast(g, rank, x, RetiredIn(all));
    }
  }

  /** A call to `e` either is one too many, or retires what had to come first. */
  lemma CallKeepsOrder(
    g: Graph, rank: map<ExpectationBase, nat>, e: ExpectationBase,
    retired: set<ExpectationBase>, satisfied: set<ExpectationBase>, called: set<ExpectationBase>,
    retired': set<ExpectationBase>, satisfied': set<ExpectationBase>)
    requires Acyclic(g, rank) && e in g && InOrder(g, retired, satisfied, called)
    requires e !in retired && Prerequisites(g, rank, e) <= satisfied
    requires satisfied' - {e} == satisfied - {e}
    requires || (retired' == retired && e !in satisfied')
             || retired' == retired + Prerequisites(g, rank, e)
             || (retired' == retired + Prerequisites(g, rank, e) + {e} && e in satisfied')
    ensures InOrder(g, retired', satisfied', called + {e})
  {
    PrerequisitesAreClosed(g, rank, e);
    hide Prerequisites;
    assert forall x :: x != e ==> (x in satisfied <==> x in satisfied - {e});
    assert forall x :: x != e ==> (x in satisfied' <==> x in satisfied' - {e});
  }

  ghost function GraphOf(all: set<ExpectationBase>): Graph
    reads all`immediatePrerequisites
  {
    map e | e in all :: e.immediatePrerequisites
  }

  ghost function RetiredIn(all: set<ExpectationBase>): set<ExpectationBase>
    reads all`retired
  {
    set e | e in all && e.retired
  }

  /** `order` takes the retired set from `before` to `after`, one expectation at a time, each
      when all its immediate prerequisites are retired. */
  ghost predicate RetiredInOrder(
    g: Graph, before: set<ExpectationBase>, order: seq<ExpectationBase>, after: set<ExpectationBase>)
  {
    if order == [] then after == before
    else
      var x := order[|order| - 1];
      && x in after && x in g && g[x] <= after - {x}
      && RetiredInOrder(g, before, order[..|order| - 1], after - {x})
  }

  lemma {:induction false} OrdersCompose(
    g: Graph, r0: set<ExpectationBase>, a: seq<ExpectationBase>, r1: set<ExpectationBase>,
    b: seq<ExpectationBase>, r2: set<ExpectationBase>)
    requires RetiredInOrder(g, r0, a, r1) && RetiredInOrder(g, r1, b, r2)
    ensures RetiredInOrder(g, r0, a + b, r2)
    decreases |b|
  {
    if b == [] {
      assert a + b == a;
    } else {
      var x := b[|b| - 1];
      OrdersCompose(g, r0, a, r1, b[..|b| - 1], r2 - {x});
      assert (a + b)[..|a + b| - 1] == a + b[..|b| - 1];
    }
  }

  /** Retiring a prerequisite after its own prerequisites. */
  lemma RetireOne(
    g: Graph, rank: map<ExpectationBase, nat>, before: set<ExpectationBase>, order: seq<ExpectationBase>,
    x: ExpectationBase)
    requires Acyclic(g, rank) && x in g && x !in before
    requires ClosedUnderPrerequisites(g, before)
    requires RetiredInOrder(g, before, order, before + Prerequisites(g, rank, x))
    ensures RetiredInOrder(g, before, order + [x], before + Prerequisites(g, rank, x) + {x})
    ensures ClosedUnderPrerequisites(g, before + Prerequisites(g, rank, x) + {x})
  {
    PrerequisitesAreClosed(g, rank, x);
    hide Prerequisites;
    var between := before + Prerequisites(g, rank, x);
    assert (order + [x])[..|order|] == order && between + {x} - {x} == between;
  }

  // Sequences.

  class Sequence {
    var lastExpectation: ExpectationBase?

    constructor ()
      ensures lastExpectation == null
    {
      lastExpectation := null;
    }

    method AddExpectation(expectation: ExpectationBase)
      modifies this, expectation`immediatePrerequisites
      ensures lastExpectation == expectation
      ensures expectation.immediatePrerequisites
           == old(expectation.immediatePrerequisites)
              + if old(lastExpectation) == null || old(lastExpectation) == expectation then {}
                else {old(lastExpectation)}
    {
      if lastExpectation != expectation {
        if lastExpectation != null {
          expectation.immediatePrerequisites := expectation.immediatePrerequisites + {lastExpectation};
        }
        lastExpectation := expectation;
      }
    }
  }

  /** Giving a prerequisite to an expectation that is nobody's prerequisite, has not been called
      and is not retired keeps the graph acyclic and the calls in order. */
  lemma AddingPrerequisiteIsSafe(
    g: Graph, rank: map<ExpectationBase, nat>, e: ExpectationBase, last: ExpectationBase,
    retired: set<ExpectationBase>, satisfied: set<ExpectationBase>, called: set<ExpectationBase>)
    returns (rank': map<ExpectationBase, nat>)
    requires Acyclic(g, rank) && e in g && last in g && last != e
    requires forall x :: x in g ==> e !in g[x]
    requires InOrder(g, retired, satisfied, called) && e !in retired && e !in called
    ensures Acyclic(g[e := g[e] + {last}], rank')
    ensures InOrder(g[e := g[e] + {last}], retired, satisfied, called)
  {
    rank' := rank[e := rank[e] + rank[last] + 1];
  }

  ghost function SetOf<T>(s: seq<T>): set<T> {
    set e | e in s
  }

  /** The elements were added one after the other, each as a fresh expectation. */
  ghost predicate IsChain<T>(g: map<T, set<T>>, elements: seq<T>) {
    elements != [] ==>
      var init, e := elements[..|elements| - 1], elements[|elements| - 1];
      && IsChain(g, init)
      && e in g && g[e] == if init == [] then {} else {init[|init| - 1]}
  }

  /** In a sequence every earlier element is a prerequisite of a later one, and nothing else is. */
  lemma {:induction false} SequencePrerequisites<T>(
    g: map<T, set<T>>, rank: map<T, nat>, elements: seq<T>, k: nat)
    requires Acyclic(g, rank) && IsChain(g, elements) && k < |elements|
    ensures elements[k] in g
    ensures Prerequisites(g, rank, elements[k]) == SetOf(elements[..k])
    decreases |elements|
  {
    var n := |elements| - 1;
    var init, x := elements[..n], elements[n];
    if k < n {
      SequencePrerequisites(g, rank, init, k);
      assert init[..k] == elements[..k];
    } else {
      PrerequisitesUnfold(g, rank, x);
      if n > 0 {
        var p := init[n - 1];
        SequencePrerequisites(g, rank, init, n - 1);
        AddToPrerequisitesOf(g, rank, {}, p, rank[x]);
        assert {} + {p} == g[x];
        assert elements[..n] == init[..n - 1] + [p];
      }
    }
  }

  /** Adding a fresh expectation to a sequence makes the chain one longer. */
  lemma ChainGrows<T>(g: map<T, set<T>>, elements: seq<T>, e: T)
    requires IsChain(g, elements) && e in g && g[e] == {} && e !in elements
    ensures IsChain(if elements == [] then g else g[e := {elements[|elements| - 1]}], elements + [e])
  {
    var g' := if elements == [] then g else g[e := {elements[|elements| - 1]}];
    ChainIgnoresOthers(g, g', elements);
    assert (elements + [e])[..|elements|] == elements;
  }

  lemma {:induction false} ChainIgnoresOthers<T>(g: map<T, set<T>>, g': map<T, set<T>>, elements: seq<T>)
    requires IsChain(g, elements)
    requires forall x :: x in elements && x in g ==> x in g' && g'[x] == g[x]
    ensures IsChain(g', elements)
    decreases |elements|
  {
    if elements != [] {
      ChainIgnoresOthers(g, g', elements[..|elements| - 1]);
    }
  }
}
