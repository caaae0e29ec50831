/** Edit scripts between two sequences, and the least number of edits that any of them makes. */
module EditScripts {

  datatype EditType = Match | Add | Remove | Replace

  /** How many elements of the left sequence the first `k` edits consume. */
  ghost function LeftPos(edits: seq<EditType>, k: nat): nat
    requires k <= |edits|
  {
    if k == 0 then 0 else LeftPos(edits, k - 1) + if edits[k - 1].Add? then 0 else 1
  }

  /** How many elements of the right sequence the first `k` edits produce. */
  ghost function RightPos(edits: seq<EditType>, k: nat): nat
    requires k <= |edits|
  {
    if k == 0 then 0 else RightPos(edits, k - 1) + if edits[k - 1].Remove? then 0 else 1
  }

  /** The `k`-th edit stays inside both sequences, matches only equal elements and replaces
      only different ones. */
  ghost predicate EditFits<T>(edits: seq<EditType>, left: seq<T>, right: seq<T>, k: nat)
    requires k < |edits|
  {
    var l, r := LeftPos(edits, k), RightPos(edits, k);
    && (edits[k].Add? || l < |left|)
    && (edits[k].Remove? || r < |right|)
    && (edits[k].Match? ==> left[l] == right[r])
    && (edits[k].Replace? ==> left[l] != right[r])
  }

  /** `edits` consumes exactly the first `i` elements of `left` and produces exactly the first
      `j` elements of `right`. */
  ghost predicate IsScript<T>(edits: seq<EditType>, left: seq<T>, right: seq<T>, i: nat, j: nat) {
    && LeftPos(edits, |edits|) == i <= |left|
    && RightPos(edits, |edits|) == j <= |right|
    && forall k :: 0 <= k < |edits| ==> EditFits(edits, left, right, k)
  }

  ghost function NumEdits(edits: seq<EditType>): nat {
    if edits == [] then 0
    else NumEdits(edits[..|edits| - 1]) + if edits[|edits| - 1].Match? then 0 else 1
  }

  ghost function NumReplaces(edits: seq<EditType>): nat {
    if edits == [] then 0
    else NumReplaces(edits[..|edits| - 1]) + if edits[|edits| - 1].Replace? then 1 else 0
  }

  /** No other script between the same prefixes makes fewer edits. */
  ghost predicate IsMinimal<T>(edits: seq<EditType>, left: seq<T>, right: seq<T>, i: nat, j: nat) {
    && IsScript(edits, left, right, i, j)
    && forall other :: IsScript(other, left, right, i, j) ==> NumEdits(edits) <= NumEdits(other)
  }

  function Min(a: nat, b: nat): (m: nat)
    ensures m <= a && m <= b && (m == a || m == b)
  {
    if a <= b then a else b
  }

  ghost function Least(a: nat, b: nat, c: nat): (m: nat)
    ensures m <= a && m <= b && m <= c && (m == a || m == b || m == c)
  {
    Min(Min(a, b), c)
  }

  /** The Levenshtein distance of `left[..i]` and `right[..j]`. */
  ghost function Levenshtein<T>(left: seq<T>, right: seq<T>, i: nat, j: nat): nat
    requires i <= |left| && j <= |right|
    decreases i + j
  {
    if i == 0 then j
    else if j == 0 then i
    else
      Least(Levenshtein(left, right, i, j - 1) + 1, Levenshtein(left, right, i - 1, j) + 1,
            Levenshtein(left, right, i - 1, j - 1) + if left[i - 1] == right[j - 1] then 0 else 1)
  }

  lemma {:induction false} PosOfPrefix(edits: seq<EditType>, n: nat, k: nat)
    requires k <= n <= |edits|
    ensures LeftPos(edits[..n], k) == LeftPos(edits, k) && RightPos(edits[..n], k) == RightPos(edits, k)
    decreases k
  {
    if k > 0 {
      PosOfPrefix(edits, n, k - 1);
    }
  }

  /** Taking off, or putting on, the last edit of a script. */
  lemma SplitLastEdit<T>(edits: seq<EditType>, left: seq<T>, right: seq<T>, i: nat, j: nat)
    requires edits != []
    ensures var init, last := edits[..|edits| - 1], edits[|edits| - 1];
            var i', j' := i - if last.Add? then 0 else 1, j - if last.Remove? then 0 else 1;
            IsScript(edits, left, right, i, j)
            <==> i' >= 0 && j' >= 0 && i <= |left| && j <= |right|
                 && IsScript(init, left, right, i', j')
                 && (last.Match? ==> left[i'] == right[j'])
                 && (last.Replace? ==> left[i'] != right[j'])
  {
    var n := |edits| - 1;
    forall k: nat | k <= n
      ensures LeftPos(edits[..n], k) == LeftPos(edits, k) && RightPos(edits[..n], k) == RightPos(edits, k)
    {
      PosOfPrefix(edits, n, k);
    }
    forall k: nat | k < n
      ensures EditFits(edits[..n], left, right, k) == EditFits(edits, left, right, k)
    {
    }
    assert IsScript(edits, left, right, i, j) ==> EditFits(edits, left, right, n);
  }

  /** One more element on either side raises the distance by at most one. */
  lemma LevenshteinStep<T>(left: seq<T>, right: seq<T>, i: nat, j: nat)
    requires i <= |left| && j <= |right|
    ensures i > 0 ==> Levenshtein(left, right, i, j) <= Levenshtein(left, right, i - 1, j) + 1
    ensures j > 0 ==> Levenshtein(left, right, i, j) <= Levenshtein(left, right, i, j - 1) + 1
  {
  }

  lemma LevenshteinUnfolds<T>(left: seq<T>, right: seq<T>, i: nat, j: nat)
    requires i <= |left| && j <= |right|
    ensures Levenshtein(left, right, i, j)
         == if i == 0 then j
            else if j == 0 then i
            else Least(Levenshtein(left, right, i, j - 1) + 1, Levenshtein(left, right, i - 1, j) + 1,
                       Levenshtein(left, right, i - 1, j - 1) + if left[i - 1] == right[j - 1] then 0 else 1)
  {
  }

  /** Dropping the last element of one side changes the distance by at most one. */
  lemma {:induction false} LevenshteinIsLipschitz<T>(left: seq<T>, right: seq<T>, i: nat, j: nat)
    requires i <= |left| && j <= |right|
    ensures i > 0 ==> Levenshtein(left, right, i - 1, j) <= Levenshtein(left, right, i, j) + 1
    ensures j > 0 ==> Levenshtein(left, right, i, j - 1) <= Levenshtein(left, right, i, j) + 1
    decreases i + j
  {
    hide Levenshtein;
    LevenshteinUnfolds(left, right, i, j);
    if i > 0 && j > 0 {
      LevenshteinIsLipschitz(left, right, i - 1, j);
      LevenshteinIsLipschitz(left, right, i, j - 1);
      LevenshteinStep(left, right, i - 1, j);
      LevenshteinStep(left, right, i, j - 1);
    } else if i > 0 {
      LevenshteinUnfolds(left, right, i - 1, j);
    } else if j > 0 {
      LevenshteinUnfolds(left, right, i, j - 1);
    }
  }

  /** Consuming an equal pair is always optimal. */
  lemma MatchingIsOptimal<T>(left: seq<T>, right: seq<T>, i: nat, j: nat)
    requires 0 < i <= |left| && 0 < j <= |right| && left[i - 1] == right[j - 1]
    ensures Levenshtein(left, right, i, j) == Levenshtein(left, right, i - 1, j - 1)
  {
    hide Levenshtein;
    LevenshteinUnfolds(left, right, i, j);
    LevenshteinIsLipschitz(left, right, i, j - 1);
    LevenshteinIsLipschitz(left, right, i - 1, j);
  }

  lemma {:induction false} LevenshteinIsLowerBound<T>(
    edits: seq<EditType>, left: seq<T>, right: seq<T>, i: nat, j: nat)
    requires IsScript(edits, left, right, i, j)
    ensures Levenshtein(left, right, i, j) <= NumEdits(edits)
    decreases |edits|
  {
    hide Levenshtein;
    LevenshteinUnfolds(left, right, i, j);
    LevenshteinStep(left, right, i, j);
    if edits != [] {
      var init, last := edits[..|edits| - 1], edits[|edits| - 1];
      SplitLastEdit(edits, left, right, i, j);
      LevenshteinIsLowerBound(init, left, right, i - if last.Add? then 0 else 1, j - if last.Remove? then 0 else 1);
    }
  }

  lemma AppendEdit<T>(edits: seq<EditType>, last: EditType, left: seq<T>, right: seq<T>, i: nat, j: nat)
    requires IsScript(edits, left, right, i, j)
    requires last.Add? || i < |left|
    requires last.Remove? || j < |right|
    requires last.Match? ==> left[i] == right[j]
    requires last.Replace? ==> left[i] != right[j]
    ensures IsScript(edits + [last], left, right,
                     i + if last.Add? then 0 else 1, j + if last.Remove? then 0 else 1)
    ensures NumEdits(edits + [last]) == NumEdits(edits) + if last.Match? then 0 else 1
  {
    assert (edits + [last])[..|edits|] == edits;
    SplitLastEdit(edits + [last], left, right,
                  i + if last.Add? then 0 else 1, j + if last.Remove? then 0 else 1);
  }

  lemma EmptyScript<T>(left: seq<T>, right: seq<T>)
    ensures IsScript([], left, right, 0, 0) && NumEdits([]) == 0
  {
  }

  lemma {:induction false} LevenshteinIsAttained<T>(left: seq<T>, right: seq<T>, i: nat, j: nat)
    returns (edits: seq<EditType>)
    requires i <= |left| && j <= |right|
    ensures IsScript(edits, left, right, i, j) && NumEdits(edits) == Levenshtein(left, right, i, j)
    decreases i + j
  {
    hide Levenshtein, IsScript, NumEdits;
    LevenshteinUnfolds(left, right, i, j);
    if j == 0 && i > 0 {
      LevenshteinUnfolds(left, right, i - 1, 0);
    } else if i == 0 && j > 0 {
      LevenshteinUnfolds(left, right, 0, j - 1);
    }
    var d := Levenshtein(left, right, i, j);
    if i == 0 && j == 0 {
      edits := [];
      EmptyScript(left, right);
    } else if j > 0 && d == Levenshtein(left, right, i, j - 1) + 1 {
      edits := LevenshteinIsAttained(left, right, i, j - 1);
      AppendEdit(edits, Add, left, right, i, j - 1);
      edits := edits + [Add];
    } else if i > 0 && d == Levenshtein(left, right, i - 1, j) + 1 {
      edits := LevenshteinIsAttained(left, right, i - 1, j);
      AppendEdit(edits, Remove, left, right, i - 1, j);
      edits := edits + [Remove];
    } else {
      edits := LevenshteinIsAttained(left, right, i - 1, j - 1);
      var last := if left[i - 1] == right[j - 1] then Match else Replace;
      AppendEdit(edits, last, left, right, i - 1, j - 1);
      edits := edits + [last];
    }
  }

  /** The scripts with fewest edits are those with as many edits as the Levenshtein distance. */
  lemma MinimalIffLevenshtein<T>(edits: seq<EditType>, left: seq<T>, right: seq<T>, i: nat, j: nat)
    requires IsScript(edits, left, right, i, j)
    ensures IsMinimal(edits, left, right, i, j) <==> NumEdits(edits) == Levenshtein(left, right, i, j)
  {
    forall other | IsScript(other, left, right, i, j) ensures Levenshtein(left, right, i, j) <= NumEdits(other) {
      LevenshteinIsLowerBound(other, left, right, i, j);
    }
    var best := LevenshteinIsAttained(left, right, i, j);
  }
}

/** Google Test's table-driven search for an edit script. Costs are exact, in units of 0.00001:
    an addition or removal costs 1, a replacement 1.00001. */
module EditDistance {
  import opened EditScripts

  const kEditCost: nat := 100000
  const kReplaceCost: nat := 100001

  /** The move the table prefers where the two elements differ. */
  function PreferredMove(add: nat, remove: nat, replace: nat): EditType {
    if add < remove && add < replace then Add
    else if remove < add && remove < replace then Remove
    else Replace
  }

  ghost function PreferredCost(add: nat, remove: nat, replace: nat): nat {
    match PreferredMove(add, remove, replace)
    case Add => add + kEditCost
    case Remove => remove + kEditCost
    case _ => replace + kReplaceCost
  }

  /** The table cell of `left[..i]` against `right[..j]`. */
  ghost function Cost<T>(left: seq<T>, right: seq<T>, i: nat, j: nat): nat
    requires i <= |left| && j <= |right|
    decreases i + j
  {
    if j == 0 then i * kEditCost
    else if i == 0 then j * kEditCost
    else if left[i - 1] == right[j - 1] then Cost(left, right, i - 1, j - 1)
    else
      PreferredCost(Cost(left, right, i, j - 1), Cost(left, right, i - 1, j), Cost(left, right, i - 1, j - 1))
  }

  ghost function BestMove<T>(left: seq<T>, right: seq<T>, i: nat, j: nat): EditType
    requires i <= |left| && j <= |right|
  {
    if j == 0 then Remove
    else if i == 0 then Add
    else if left[i - 1] == right[j - 1] then Match
    else PreferredMove(Cost(left, right, i, j - 1), Cost(left, right, i - 1, j), Cost(left, right, i - 1, j - 1))
  }

  /** The script that the table holds for `left[..i]` against `right[..j]`. */
  ghost function Script<T>(left: seq<T>, right: seq<T>, i: nat, j: nat): seq<EditType>
    requires i <= |left| && j <= |right|
    decreases i + j
  {
    if i == 0 && j == 0 then []
    else
      var move := BestMove(left, right, i, j);
      Script(left, right, i - if move.Add? then 0 else 1, j - if move.Remove? then 0 else 1) + [move]
  }

  function Reversed<T>(s: seq<T>): seq<T> {
    if s == [] then [] else [s[|s| - 1]] + Reversed(s[..|s| - 1])
  }

  /** The tables with the cells of an empty left and of an empty right filled in. */
  method PopulateBorders(left: seq<nat>, right: seq<nat>) returns (costs: array2<nat>, bestMove: array2<EditType>)
    ensures fresh(costs) && costs.Length0 == |left| + 1 && costs.Length1 == |right| + 1
    ensures fresh(bestMove) && bestMove.Length0 == |left| + 1 && bestMove.Length1 == |right| + 1
    ensures forall l: nat, r: nat {:trigger costs[l, r]} :: l <= |left| && r <= |right| && (l == 0 || r == 0) ==>
              costs[l, r] == Cost(left, right, l, r)
    ensures forall l: nat, r: nat {:trigger bestMove[l, r]} :: l <= |left| && r <= |right| && (l == 0 || r == 0) ==>
              bestMove[l, r] == BestMove(left, right, l, r)
  {
    costs := new nat[|left| + 1, |right| + 1];
    bestMove := new EditType[|left| + 1, |right| + 1];
    for i := 0 to |left| + 1
      invariant forall l: nat {:trigger costs[l, 0]} :: l < i ==> costs[l, 0] == Cost(left, right, l, 0)
      invariant forall l: nat {:trigger bestMove[l, 0]} :: l < i ==> bestMove[l, 0] == Remove
    {
      costs[i, 0] := i * kEditCost;
      bestMove[i, 0] := Remove;
    }
    for j := 1 to |right| + 1
      invariant forall l: nat {:trigger costs[l, 0]} :: l <= |left| ==> costs[l, 0] == Cost(left, right, l, 0)
      invariant forall l: nat {:trigger bestMove[l, 0]} :: l <= |left| ==> bestMove[l, 0] == Remove
      invariant forall r: nat {:trigger costs[0, r]} :: r < j ==> costs[0, r] == Cost(left, right, 0, r)
      invariant forall r: nat {:trigger bestMove[0, r]} :: 0 < r < j ==> bestMove[0, r] == Add
    {
      costs[0, j] := j * kEditCost;
      bestMove[0, j] := Add;
    }
  }

  /** The loops that fill the rest of the two tables. */
  method FillTables(left: seq<nat>, right: seq<nat>) returns (costs: array2<nat>, bestMove: array2<EditType>)
    ensures fresh(costs) && costs.Length0 == |left| + 1 && costs.Length1 == |right| + 1
    ensures fresh(bestMove) && bestMove.Length0 == |left| + 1 && bestMove.Length1 == |right| + 1
    ensures forall l: nat, r: nat {:trigger costs[l, r]} :: l <= |left| && r <= |right| ==>
              costs[l, r] == Cost(left, right, l, r)
    ensures forall l: nat, r: nat {:trigger bestMove[l, r]} :: l <= |left| && r <= |right| ==>
              bestMove[l, r] == BestMove(left, right, l, r)
  {
    costs, bestMove := PopulateBorders(left, right);
    for i := 0 to |left|
      invariant forall l: nat, r: nat {:trigger costs[l, r]} :: l <= |left| && r <= |right| && (l <= i || r == 0) ==>
                  costs[l, r] == Cost(left, right, l, r)
      invariant forall l: nat, r: nat {:trigger bestMove[l, r]} :: l <= |left| && r <= |right| && (l <= i || r == 0) ==>
                  bestMove[l, r] == BestMove(left, right, l, r)
    {
      for j := 0 to |right|
        invariant forall l: nat, r: nat {:trigger costs[l, r]} ::
                    l <= |left| && r <= |right| && (l <= i || r == 0 || (l == i + 1 && r <= j)) ==>
                      costs[l, r] == Cost(left, right, l, r)
        invariant forall l: nat, r: nat {:trigger bestMove[l, r]} ::
                    l <= |left| && r <= |right| && (l <= i || r == 0 || (l == i + 1 && r <= j)) ==>
                      bestMove[l, r] == BestMove(left, right, l, r)
      {
        if left[i] == right[j] {
          costs[i + 1, j + 1] := costs[i, j];
          bestMove[i + 1, j + 1] := Match;
        } else {
          var add := costs[i + 1, j];
          var remove := costs[i, j + 1];
          var replace := costs[i, j];
          if add < remove && add < replace {
            costs[i + 1, j + 1] := add + kEditCost;
            bestMove[i + 1, j + 1] := Add;
          } else if remove < add && remove < replace {
            costs[i + 1, j + 1] := remove + kEditCost;
            bestMove[i + 1, j + 1] := Remove;
          } else {
            costs[i + 1, j + 1] := replace + kReplaceCost;
            bestMove[i + 1, j + 1] := Replace;
          }
        }
        assert costs[i + 1, j + 1] == Cost(left, right, i + 1, j + 1);
        assert bestMove[i + 1, j + 1] == BestMove(left, right, i + 1, j + 1);
      }
    }
  }

  /** Follows the best moves back from the last cell, then reverses the path. */
  method CalculateOptimalEditsOfIds(left: seq<nat>, right: seq<nat>) returns (bestPath: seq<EditType>)
    ensures bestPath == Script(left, right, |left|, |right|)
  {
    var costs, bestMove := FillTables(left, right);
    bestPath := [];
    var i: nat, j: nat := |left|, |right|;
    while i > 0 || j > 0
      invariant i <= |left| && j <= |right|
      invariant Script(left, right, |left|, |right|) == Script(left, right, i, j) + Reversed(bestPath)
      decreases i + j
    {
      var move := bestMove[i, j];
      assert Reversed(bestPath + [move]) == [move] + Reversed(bestPath);
      bestPath := bestPath + [move];
      i := i - if move != Add then 1 else 0;
      j := j - if move != Remove then 1 else 0;
    }
    bestPath := Reversed(bestPath);
  }

  // What the script is worth, for every input.

  /** The script replays: it consumes all of left and produces all of right, aligning only
      equal elements at Match. */
  lemma {:induction false} ScriptReplays<T>(left: seq<T>, right: seq<T>, i: nat, j: nat)
    requires i <= |left| && j <= |right|
    ensures IsScript(Script(left, right, i, j), left, right, i, j)
    decreases i + j
  {
    if i > 0 || j > 0 {
      var script := Script(left, right, i, j);
      var move := BestMove(left, right, i, j);
      var i', j' := i - if move.Add? then 0 else 1, j - if move.Remove? then 0 else 1;
      ScriptReplays(left, right, i', j');
      assert script[..|script| - 1] == Script(left, right, i', j');
      SplitLastEdit(script, left, right, i, j);
    }
  }

  ghost function MoveCost(move: EditType): nat {
    match move
    case Match => 0
    case Replace => kReplaceCost
    case _ => kEditCost
  }

  lemma CostUnfolds<T>(left: seq<T>, right: seq<T>, i: nat, j: nat)
    requires i <= |left| && j <= |right|
    ensures Cost(left, right, i, j)
         == if j == 0 then i * kEditCost
            else if i == 0 then j * kEditCost
            else if left[i - 1] == right[j - 1] then Cost(left, right, i - 1, j - 1)
            else PreferredCost(
                   Cost(left, right, i, j - 1), Cost(left, right, i - 1, j), Cost(left, right, i - 1, j - 1))
  {
  }

  /** A cell costs its best move on top of the cell that the move came from. */
  lemma CostFollowsBestMove<T>(left: seq<T>, right: seq<T>, i: nat, j: nat)
    requires i <= |left| && j <= |right| && (i > 0 || j > 0)
    ensures var move := BestMove(left, right, i, j);
            Cost(left, right, i, j)
            == Cost(left, right, i - if move.Add? then 0 else 1, j - if move.Remove? then 0 else 1) + MoveCost(move)
  {
  }

  lemma ScriptUnfolds<T>(left: seq<T>, right: seq<T>, i: nat, j: nat)
    requires i <= |left| && j <= |right| && (i > 0 || j > 0)
    ensures var move := BestMove(left, right, i, j);
            var init := Script(left, right, i - if move.Add? then 0 else 1, j - if move.Remove? then 0 else 1);
            && NumEdits(Script(left, right, i, j)) == NumEdits(init) + (if move.Match? then 0 else 1)
            && NumReplaces(Script(left, right, i, j)) == NumReplaces(init) + (if move.Replace? then 1 else 0)
  {
    var move := BestMove(left, right, i, j);
    var script := Script(left, right, i, j);
    assert script[..|script| - 1]
        == Script(left, right, i - if move.Add? then 0 else 1, j - if move.Remove? then 0 else 1);
  }

  /** Its weight is the last table cell. */
  lemma {:induction false} ScriptWeighsItsCost<T>(left: seq<T>, right: seq<T>, i: nat, j: nat)
    requires i <= |left| && j <= |right|
    ensures var script := Script(left, right, i, j);
            && Cost(left, right, i, j) == 100000 * NumEdits(script) + NumReplaces(script)
            && NumReplaces(script) <= Min(i, j)
    decreases i + j
  {
    hide Cost, NumEdits, NumReplaces, Script;
    if i == 0 && j == 0 {
      EmptyScriptIsFree(left, right);
    } else {
      var move := BestMove(left, right, i, j);
      ScriptUnfolds(left, right, i, j);
      CostFollowsBestMove(left, right, i, j);
      ScriptWeighsItsCost(left, right, i - if move.Add? then 0 else 1, j - if move.Remove? then 0 else 1);
    }
  }

  lemma EmptyScriptIsFree<T>(left: seq<T>, right: seq<T>)
    ensures Cost(left, right, 0, 0) == 0
    ensures NumEdits(Script(left, right, 0, 0)) == NumReplaces(Script(left, right, 0, 0)) == 0
  {
  }

  /** It never exceeds that of replacing as much as possible. */
  lemma {:induction false} CostIsBounded<T>(left: seq<T>, right: seq<T>, i: nat, j: nat)
    requires i <= |left| && j <= |right|
    ensures Cost(left, right, i, j) <= 100001 * (if i <= j then j else i)
    decreases i + j
  {
    hide Cost;
    CostUnfolds(left, right, i, j);
    if i > 0 && j > 0 {
      CostIsBounded(left, right, i - 1, j - 1);
    }
  }

  /** It is nothing exactly between equal sequences. */
  lemma {:induction false} CostIsZeroIffEqual<T>(left: seq<T>, right: seq<T>, i: nat, j: nat)
    requires i <= |left| && j <= |right|
    ensures Cost(left, right, i, j) == 0 <==> left[..i] == right[..j]
    decreases i + j
  {
    hide Cost;
    CostUnfolds(left, right, i, j);
    if i > 0 && j > 0 {
      CostIsZeroIffEqual(left, right, i - 1, j - 1);
      assert left[..i] == left[..i - 1] + [left[i - 1]];
      assert right[..j] == right[..j - 1] + [right[j - 1]];
      if left[..i] == right[..j] {
        assert left[..i][i - 1] == right[..j][i - 1];
      }
    }
  }
}

/** The header promises the optimal edits, all edits costing the same. How far the table keeps
    that promise. */
module EditOptimality {
  import opened EditScripts
  import opened EditDistance

  /** The cell (i, j) reaches the replacement by default: addition and removal tie below it. */
  ghost predicate TieBelowReplace<T>(left: seq<T>, right: seq<T>, i: nat, j: nat)
    requires 0 < i <= |left| && 0 < j <= |right|
  {
    && left[i - 1] != right[j - 1]
    && Cost(left, right, i, j - 1) == Cost(left, right, i - 1, j) < Cost(left, right, i - 1, j - 1)
  }

  /** The tie loses an edit: it is below the replacement by at least one whole edit, not just by
      the small extra price of replacements. */
  ghost predicate LosingTie<T>(left: seq<T>, right: seq<T>, i: nat, j: nat)
    requires 0 < i <= |left| && 0 < j <= |right|
  {
    && TieBelowReplace(left, right, i, j)
    && Cost(left, right, i, j - 1) / kEditCost < Cost(left, right, i - 1, j - 1) / kEditCost
  }

  /** One cell: where the elements differ, the preferred move makes the fewest edits unless
      addition and removal tie below the replacement. */
  lemma PreferredCostTracksMinimum(
    add: nat, remove: nat, replace: nat, dAdd: nat, dRemove: nat, dReplace: nat)
    requires add <= kReplaceCost * dAdd && remove <= kReplaceCost * dRemove && replace <= kReplaceCost * dReplace
    requires !(add == remove < replace)
    ensures PreferredCost(add, remove, replace) <= kReplaceCost * (Least(dAdd, dRemove, dReplace) + 1)
  {
  }

  ghost predicate HasLosingTie<T>(left: seq<T>, right: seq<T>) {
    exists i, j :: 0 < i <= |left| && 0 < j <= |right| && LosingTie(left, right, i, j)
  }

  ghost predicate AllPrefixScriptsMinimal<T>(left: seq<T>, right: seq<T>) {
    forall i: nat, j: nat :: i <= |left| && j <= |right| ==>
      IsMinimal(Script(left, right, i, j), left, right, i, j)
  }

  /** Without such ties the cost is at least the Levenshtein distance and at most 1.00001 times it. */
  lemma CostTracksLevenshtein<T>(left: seq<T>, right: seq<T>, i: nat, j: nat)
    requires i <= |left| && j <= |right|
    requires forall i', j' :: 0 < i' <= i && 0 < j' <= j ==> !TieBelowReplace(left, right, i', j')
    ensures kEditCost * Levenshtein(left, right, i, j) <= Cost(left, right, i, j)
                                                       <= kReplaceCost * Levenshtein(left, right, i, j)
  {
    ScriptReplays(left, right, i, j);
    ScriptWeighsItsCost(left, right, i, j);
    LevenshteinIsLowerBound(Script(left, right, i, j), left, right, i, j);
    CostIsAtMostLevenshtein(left, right, i, j);
  }

  lemma {:induction false} CostIsAtMostLevenshtein<T>(left: seq<T>, right: seq<T>, i: nat, j: nat)
    requires i <= |left| && j <= |right|
    requires forall i', j' :: 0 < i' <= i && 0 < j' <= j ==> !TieBelowReplace(left, right, i', j')
    ensures Cost(left, right, i, j) <= kReplaceCost * Levenshtein(left, right, i, j)
    decreases i + j
  {
    hide Cost, Levenshtein;
    LevenshteinUnfolds(left, right, i, j);
    CostUnfolds(left, right, i, j);
    if i > 0 && j > 0 {
      CostIsAtMostLevenshtein(left, right, i - 1, j - 1);
      if left[i - 1] == right[j - 1] {
        MatchingIsOptimal(left, right, i, j);
      } else {
        CostIsAtMostLevenshtein(left, right, i - 1, j);
        CostIsAtMostLevenshtein(left, right, i, j - 1);
        assert !TieBelowReplace(left, right, i, j);
        PreferredCostTracksMinimum(
          Cost(left, right, i, j - 1), Cost(left, right, i - 1, j), Cost(left, right, i - 1, j - 1),
          Levenshtein(left, right, i, j - 1), Levenshtein(left, right, i - 1, j),
          Levenshtein(left, right, i - 1, j - 1));
      }
    }
  }

  /** How many edits the table's script makes. */
  ghost function Edits<T>(left: seq<T>, right: seq<T>, i: nat, j: nat): nat
    requires i <= |left| && j <= |right|
  {
    NumEdits(Script(left, right, i, j))
  }

  /** The cheapest neighbour of the cell (i, j) is one with more edits than another. */
  ghost predicate Misled<T>(left: seq<T>, right: seq<T>, i: nat, j: nat)
    requires 0 < i <= |left| && 0 < j <= |right|
  {
    var move := BestMove(left, right, i, j);
    && left[i - 1] != right[j - 1]
    && Edits(left, right, i - if move.Add? then 0 else 1, j - if move.Remove? then 0 else 1)
       != Least(Edits(left, right, i, j - 1), Edits(left, right, i - 1, j), Edits(left, right, i - 1, j - 1))
  }

  ghost predicate HasMisledCell<T>(left: seq<T>, right: seq<T>) {
    exists i, j :: 0 < i <= |left| && 0 < j <= |right| && Misled(left, right, i, j)
  }

  /** What a cell adds to its neighbours. */
  lemma EditsUnfold<T>(left: seq<T>, right: seq<T>, i: nat, j: nat)
    requires 0 < i <= |left| && 0 < j <= |right|
    ensures var a, m, p := Edits(left, right, i, j - 1), Edits(left, right, i - 1, j), Edits(left, right, i - 1, j - 1);
            if left[i - 1] == right[j - 1] then Edits(left, right, i, j) == p
            else && Edits(left, right, i, j) >= Least(a, m, p) + 1
                 && (Edits(left, right, i, j) == Least(a, m, p) + 1 <==> !Misled(left, right, i, j))
  {
    hide Script, Cost, NumEdits;
    ScriptUnfolds(left, right, i, j);
  }

  lemma EditsAtBorder<T>(left: seq<T>, right: seq<T>, i: nat, j: nat)
    requires i <= |left| && j <= |right| && (i == 0 || j == 0)
    ensures Edits(left, right, i, j) == Levenshtein(left, right, i, j) == i + j
  {
    hide Script;
    ScriptWeighsItsCost(left, right, i, j);
  }

  lemma {:induction false} NeverMisledGivesLevenshtein<T>(left: seq<T>, right: seq<T>, i: nat, j: nat)
    requires i <= |left| && j <= |right| && !HasMisledCell(left, right)
    ensures Edits(left, right, i, j) == Levenshtein(left, right, i, j)
    decreases i + j
  {
    hide Edits, Levenshtein, Misled;
    if i == 0 || j == 0 {
      EditsAtBorder(left, right, i, j);
    } else {
      EditsUnfold(left, right, i, j);
      LevenshteinUnfolds(left, right, i, j);
      NeverMisledGivesLevenshtein(left, right, i - 1, j - 1);
      if left[i - 1] == right[j - 1] {
        MatchingIsOptimal(left, right, i, j);
      } else {
        NeverMisledGivesLevenshtein(left, right, i - 1, j);
        NeverMisledGivesLevenshtein(left, right, i, j - 1);
      }
    }
  }

  /** A misled cell, or one of the neighbours it compares, has too many edits. */
  lemma MisledMissesLevenshtein<T>(left: seq<T>, right: seq<T>, i: nat, j: nat)
    requires 0 < i <= |left| && 0 < j <= |right| && Misled(left, right, i, j)
    ensures exists i': nat, j': nat :: i' <= i && j' <= j
              && Edits(left, right, i', j') != Levenshtein(left, right, i', j')
  {
    hide Edits, Levenshtein;
    EditsUnfold(left, right, i, j);
    LevenshteinUnfolds(left, right, i, j);
    assert Edits(left, right, i, j) != Levenshtein(left, right, i, j)
        || Edits(left, right, i, j - 1) != Levenshtein(left, right, i, j - 1)
        || Edits(left, right, i - 1, j) != Levenshtein(left, right, i - 1, j)
        || Edits(left, right, i - 1, j - 1) != Levenshtein(left, right, i - 1, j - 1);
  }

  lemma MinimalIffEditsAreLevenshtein<T>(left: seq<T>, right: seq<T>, i: nat, j: nat)
    requires i <= |left| && j <= |right|
    ensures IsMinimal(Script(left, right, i, j), left, right, i, j)
            <==> Edits(left, right, i, j) == Levenshtein(left, right, i, j)
  {
    ScriptReplays(left, right, i, j);
    MinimalIffLevenshtein(Script(left, right, i, j), left, right, i, j);
  }

  /** Exactly when the promise is kept, for sequences of any length: the scripts of all prefixes
      are minimal if and only if no cell of the table is misled. */
  lemma OptimalExactlyUnlessMisled<T>(left: seq<T>, right: seq<T>)
    ensures AllPrefixScriptsMinimal(left, right) <==> !HasMisledCell(left, right)
  {
    hide Edits, Levenshtein, Misled, IsMinimal, Script;
    if HasMisledCell(left, right) {
      var i, j :| 0 < i <= |left| && 0 < j <= |right| && Misled(left, right, i, j);
      MisledMissesLevenshtein(left, right, i, j);
      var i': nat, j': nat :| i' <= i && j' <= j && Edits(left, right, i', j') != Levenshtein(left, right, i', j');
      MinimalIffEditsAreLevenshtein(left, right, i', j');
    } else {
      forall i: nat, j: nat | i <= |left| && j <= |right|
        ensures IsMinimal(Script(left, right, i, j), left, right, i, j)
      {
        NeverMisledGivesLevenshtein(left, right, i, j);
        MinimalIffEditsAreLevenshtein(left, right, i, j);
      }
    }
  }

  /** With fewer than 100000 replacements a cell's whole part counts its edits. */
  lemma WholePartCountsEdits<T>(left: seq<T>, right: seq<T>, i: nat, j: nat)
    requires i <= |left| && j <= |right| && Min(i, j) < 100000
    ensures Edits(left, right, i, j) == Cost(left, right, i, j) / kEditCost
  {
    hide Script, Cost;
    ScriptWeighsItsCost(left, right, i, j);
  }

  /** One cell, in whole edits. */
  lemma PreferredMoveIsLeast(add: nat, remove: nat, replace: nat)
    ensures var a, m, p := add / kEditCost, remove / kEditCost, replace / kEditCost;
            var chosen := match PreferredMove(add, remove, replace) case Add => a case Remove => m case _ => p;
            chosen == Least(a, m, p) <==> !(add == remove < replace && a < p)
  {
  }

  /** Unless one side is as long as that, only a losing tie misleads. */
  lemma MisledExactlyByLosingTie<T>(left: seq<T>, right: seq<T>, i: nat, j: nat)
    requires 0 < i <= |left| && 0 < j <= |right| && Min(i, j) < 100000
    ensures Misled(left, right, i, j) <==> LosingTie(left, right, i, j)
  {
    hide Edits, Cost;
    if left[i - 1] != right[j - 1] {
      WholePartCountsEdits(left, right, i, j - 1);
      WholePartCountsEdits(left, right, i - 1, j);
      WholePartCountsEdits(left, right, i - 1, j - 1);
      PreferredMoveIsLeast(
        Cost(left, right, i, j - 1), Cost(left, right, i - 1, j), Cost(left, right, i - 1, j - 1));
    }
  }

  /** For fewer than 100000 lines on one side, then: the scripts of all prefixes are minimal if
      and only if no cell of the table falls through to a replacement on a losing tie. */
  lemma OptimalExactlyWithoutLosingTies<T>(left: seq<T>, right: seq<T>)
    requires Min(|left|, |right|) < 100000
    ensures AllPrefixScriptsMinimal(left, right) <==> !HasLosingTie(left, right)
  {
    hide Misled, LosingTie, AllPrefixScriptsMinimal;
    OptimalExactlyUnlessMisled(left, right);
    forall i, j | 0 < i <= |left| && 0 < j <= |right|
      ensures Misled(left, right, i, j) <==> LosingTie(left, right, i, j)
    {
      MisledExactlyByLosingTie(left, right, i, j);
    }
  }

  // The one script that is returned.

  ghost function MisledCells<T>(left: seq<T>, right: seq<T>): set<(nat, nat)> {
    set i: nat, j: nat | 0 < i <= |left| && 0 < j <= |right| && Misled(left, right, i, j) :: (i, j)
  }

  ghost function LosingTies<T>(left: seq<T>, right: seq<T>): set<(nat, nat)> {
    set i: nat, j: nat | 0 < i <= |left| && 0 < j <= |right| && LosingTie(left, right, i, j) :: (i, j)
  }

  /** On its way to the cell (i, j) the script consumes equal pairs where it meets them, and
      otherwise passes through none of the given cells. */
  ghost predicate Avoids<T>(
    cells: set<(nat, nat)>, edits: seq<EditType>, left: seq<T>, right: seq<T>, i: nat, j: nat)
    requires IsScript(edits, left, right, i, j)
    decreases |edits|
  {
    edits != [] ==>
      var init, last := edits[..|edits| - 1], edits[|edits| - 1];
      SplitLastEdit(edits, left, right, i, j);
      && (i > 0 && j > 0 ==> if left[i - 1] == right[j - 1] then last.Match? else (i, j) !in cells)
      && Avoids(cells, init, left, right, i - if last.Add? then 0 else 1, j - if last.Remove? then 0 else 1)
  }

  ghost predicate SomeMinimalScriptAvoids<T>(cells: set<(nat, nat)>, left: seq<T>, right: seq<T>, i: nat, j: nat) {
    exists edits :: IsMinimal(edits, left, right, i, j) && Avoids(cells, edits, left, right, i, j)
  }

  /** Taking the last edit off a minimal script leaves one. */
  lemma MinimalWithoutLast<T>(edits: seq<EditType>, left: seq<T>, right: seq<T>, i: nat, j: nat)
    requires edits != [] && IsScript(edits, left, right, i, j) && NumEdits(edits) == Levenshtein(left, right, i, j)
    ensures var init, last := edits[..|edits| - 1], edits[|edits| - 1];
            var i', j' := i - if last.Add? then 0 else 1, j - if last.Remove? then 0 else 1;
            && i' >= 0 && j' >= 0 && IsScript(init, left, right, i', j')
            && NumEdits(init) == Levenshtein(left, right, i', j')
            && Levenshtein(left, right, i, j) == Levenshtein(left, right, i', j') + if last.Match? then 0 else 1
  {
    hide Levenshtein, IsScript;
    var init, last := edits[..|edits| - 1], edits[|edits| - 1];
    SplitLastEdit(edits, left, right, i, j);
    var i', j' := i - if last.Add? then 0 else 1, j - if last.Remove? then 0 else 1;
    LevenshteinIsLowerBound(init, left, right, i', j');
    LevenshteinUnfolds(left, right, i, j);
    LevenshteinStep(left, right, i, j);
  }

  lemma SomethingToConsume<T>(edits: seq<EditType>, left: seq<T>, right: seq<T>, i: nat, j: nat)
    requires IsScript(edits, left, right, i, j) && i > 0
    ensures edits != []
  {
  }

  /** A minimal script that avoids the misled cells shows the way to the table. */
  lemma {:induction false} AvoidingGivesLevenshtein<T>(
    edits: seq<EditType>, left: seq<T>, right: seq<T>, i: nat, j: nat)
    requires IsScript(edits, left, right, i, j) && NumEdits(edits) == Levenshtein(left, right, i, j)
    requires Avoids(MisledCells(left, right), edits, left, right, i, j)
    ensures Edits(left, right, i, j) == Levenshtein(left, right, i, j)
    decreases |edits|
  {
    hide Edits, Levenshtein, Misled;
    if i == 0 || j == 0 {
      EditsAtBorder(left, right, i, j);
    } else {
      SomethingToConsume(edits, left, right, i, j);
      var init, last := edits[..|edits| - 1], edits[|edits| - 1];
      MinimalWithoutLast(edits, left, right, i, j);
      AvoidingGivesLevenshtein(
        init, left, right, i - if last.Add? then 0 else 1, j - if last.Remove? then 0 else 1);
      EditsUnfold(left, right, i, j);
      EditsAreAtLeastLevenshtein(left, right, i, j);
      if left[i - 1] != right[j - 1] {
        SplitLastEdit(edits, left, right, i, j);
        assert (i, j) !in MisledCells(left, right);
        assert !Misled(left, right, i, j);
      }
    }
  }

  lemma EditsAreAtLeastLevenshtein<T>(left: seq<T>, right: seq<T>, i: nat, j: nat)
    requires i <= |left| && j <= |right|
    ensures Edits(left, right, i, j) >= Levenshtein(left, right, i, j)
  {
    ScriptReplays(left, right, i, j);
    LevenshteinIsLowerBound(Script(left, right, i, j), left, right, i, j);
  }

  /** The table's script, if minimal, avoids them. */
  lemma {:induction false} MinimalTableScriptAvoids<T>(left: seq<T>, right: seq<T>, i: nat, j: nat)
    requires i <= |left| && j <= |right| && Edits(left, right, i, j) == Levenshtein(left, right, i, j)
    ensures IsScript(Script(left, right, i, j), left, right, i, j)
    ensures Avoids(MisledCells(left, right), Script(left, right, i, j), left, right, i, j)
    decreases i + j
  {
    hide IsScript, Levenshtein, Cost, Misled;
    ScriptReplays(left, right, i, j);
    if i > 0 || j > 0 {
      var script, move := Script(left, right, i, j), BestMove(left, right, i, j);
      var i', j' := i - if move.Add? then 0 else 1, j - if move.Remove? then 0 else 1;
      assert script[..|script| - 1] == Script(left, right, i', j');
      MinimalWithoutLast(script, left, right, i, j);
      MinimalTableScriptAvoids(left, right, i', j');
      if i > 0 && j > 0 && left[i - 1] != right[j - 1] {
        MinimalIsNotMisled(left, right, i, j);
      }
    }
  }

  lemma MinimalIsNotMisled<T>(left: seq<T>, right: seq<T>, i: nat, j: nat)
    requires 0 < i <= |left| && 0 < j <= |right| && left[i - 1] != right[j - 1]
    requires Edits(left, right, i, j) == Levenshtein(left, right, i, j)
    ensures !Misled(left, right, i, j)
  {
    hide Edits, Levenshtein, Misled;
    EditsUnfold(left, right, i, j);
    LevenshteinUnfolds(left, right, i, j);
    EditsAreAtLeastLevenshtein(left, right, i, j - 1);
    EditsAreAtLeastLevenshtein(left, right, i - 1, j);
    EditsAreAtLeastLevenshtein(left, right, i - 1, j - 1);
  }

  /** Exactly when the promise is kept by the script that is returned, for sequences of any
      length: some minimal script that consumes equal pairs where it meets them passes through
      no misled cell. */
  lemma ReturnedScriptMinimalExactly<T>(left: seq<T>, right: seq<T>, i: nat, j: nat)
    requires i <= |left| && j <= |right|
    ensures IsMinimal(Script(left, right, i, j), left, right, i, j)
            <==> SomeMinimalScriptAvoids(MisledCells(left, right), left, right, i, j)
  {
    MinimalIffEditsAreLevenshtein(left, right, i, j);
    if IsMinimal(Script(left, right, i, j), left, right, i, j) {
      MinimalTableScriptAvoids(left, right, i, j);
    }
    if edits :| IsMinimal(edits, left, right, i, j) && Avoids(MisledCells(left, right), edits, left, right, i, j) {
      MinimalIffLevenshtein(edits, left, right, i, j);
      AvoidingGivesLevenshtein(edits, left, right, i, j);
    }
  }

  /** For fewer than 100000 lines on one side the cells to be avoided are the losing ties. */
  lemma ReturnedScriptMinimalExactlyByTies<T>(left: seq<T>, right: seq<T>)
    requires Min(|left|, |right|) < 100000
    ensures IsMinimal(Script(left, right, |left|, |right|), left, right, |left|, |right|)
            <==> SomeMinimalScriptAvoids(LosingTies(left, right), left, right, |left|, |right|)
  {
    ReturnedScriptMinimalExactly(left, right, |left|, |right|);
    forall i: nat, j: nat | 0 < i <= |left| && 0 < j <= |right|
      ensures Misled(left, right, i, j) <==> LosingTie(left, right, i, j)
    {
      MisledExactlyByLosingTie(left, right, i, j);
    }
    assert MisledCells(left, right) == LosingTies(left, right);
  }

  /** The tie of aba against bab does no harm when another b follows on the left: it is then a
      cell off the way, and the one edit that is needed is found. */
  lemma TieOffTheWayDoesNoHarm()
    ensures var left, right := [0, 1, 0, 1], [1, 0, 1];
            && LosingTie(left, right, 3, 3) && !AllPrefixScriptsMinimal(left, right)
            && IsMinimal(Script(left, right, 4, 3), left, right, 4, 3)
  {
    var left, right := [0, 1, 0, 1], [1, 0, 1];
    TableOfAbabAgainstBab();
    hide Cost, LosingTie, Levenshtein, IsMinimal;
    OptimalExactlyWithoutLosingTies(left, right);
    ScriptWeighsItsCost(left, right, 4, 3);
    DifferentLengthsNeedEdits(left, right, 4, 3);
    MinimalIffEditsAreLevenshtein(left, right, 4, 3);
    EditsAreAtLeastLevenshtein(left, right, 4, 3);
  }

  lemma TableOfAbabAgainstBab()
    ensures var left, right := [0, 1, 0, 1], [1, 0, 1];
            LosingTie(left, right, 3, 3) && Cost(left, right, 4, 3) == kEditCost
  {
    var left, right := [0, 1, 0, 1], [1, 0, 1];
    assert Cost(left, right, 1, 1) == 100001;
    assert Cost(left, right, 1, 2) == Cost(left, right, 2, 1) == 100000;
    assert Cost(left, right, 2, 2) == 200002;
    assert Cost(left, right, 2, 3) == Cost(left, right, 3, 2) == 100000;
    assert Cost(left, right, 4, 3) == Cost(left, right, 3, 2);
  }

  lemma DifferentLengthsNeedEdits<T>(left: seq<T>, right: seq<T>, i: nat, j: nat)
    requires j < i <= |left| && j <= |right|
    ensures Levenshtein(left, right, i, j) >= 1
    decreases i + j
  {
    hide Levenshtein;
    LevenshteinUnfolds(left, right, i, j);
    if j > 0 {
      DifferentLengthsNeedEdits(left, right, i - 1, j - 1);
    }
  }

  lemma TableOfAbaAgainstBab()
    ensures var left, right := [0, 1, 0], [1, 0, 1];
            && Script(left, right, 3, 3) == [Replace, Replace, Replace]
            && LosingTie(left, right, 3, 3)
  {
    var left, right := [0, 1, 0], [1, 0, 1];
    assert Cost(left, right, 1, 1) == 100001;
    assert Cost(left, right, 1, 2) == Cost(left, right, 2, 1) == 100000;
    assert Cost(left, right, 2, 2) == 200002;
    assert Cost(left, right, 2, 3) == Cost(left, right, 3, 2) == 100000;
    assert BestMove(left, right, 1, 1) == BestMove(left, right, 2, 2) == BestMove(left, right, 3, 3) == Replace;
    hide Cost, BestMove;
    assert Script(left, right, 1, 1) == [Replace];
    assert Script(left, right, 2, 2) == [Replace, Replace];
  }

  /** The smallest kind of input on which the promise fails: turning aba into bab takes one
      removal and one addition, and the table answers with three replacements. */
  lemma ThreeReplacesWhereTwoEditsDo()
    ensures var left, right, better := [0, 1, 0], [1, 0, 1], [Remove, Match, Match, Add];
            && Script(left, right, 3, 3) == [Replace, Replace, Replace]
            && LosingTie(left, right, 3, 3)
            && IsScript(better, left, right, 3, 3) && NumEdits(better) == 2
  {
    TableOfAbaAgainstBab();
    hide LosingTie, Script, Cost;
    var left, right := [0, 1, 0], [1, 0, 1];
    assert IsScript([], left, right, 0, 0);
    assert [] + [Remove] == [Remove] && [Remove] + [Match] == [Remove, Match];
    assert [Remove, Match] + [Match] == [Remove, Match, Match];
    assert [Remove, Match, Match] + [Add] == [Remove, Match, Match, Add];
    AppendEdit([], Remove, left, right, 0, 0);
    AppendEdit([Remove], Match, left, right, 1, 0);
    AppendEdit([Remove, Match], Match, left, right, 2, 1);
    AppendEdit([Remove, Match, Match], Add, left, right, 3, 2);
  }
}

/** The overload for strings, which numbers them first. */
module StringEdits {
  import opened EditScripts
  import opened EditDistance

  /** Two pairs of sequences with the same equalities between left and right. */
  ghost predicate SameEqualities<S, T>(left: seq<S>, right: seq<S>, left': seq<T>, right': seq<T>) {
    && |left| == |left'| && |right| == |right'|
    && forall k, m :: 0 <= k < |left| && 0 <= m < |right| ==> (left[k] == right[m] <==> left'[k] == right'[m])
  }

  lemma {:induction false} SameEqualitiesSameCost<S, T>(
    left: seq<S>, right: seq<S>, left': seq<T>, right': seq<T>, i: nat, j: nat)
    requires SameEqualities(left, right, left', right') && i <= |left| && j <= |right|
    ensures Cost(left, right, i, j) == Cost(left', right', i, j)
    decreases i + j
  {
    if i > 0 && j > 0 {
      SameEqualitiesSameCost(left, right, left', right', i - 1, j - 1);
      if left[i - 1] != right[j - 1] {
        SameEqualitiesSameCost(left, right, left', right', i - 1, j);
        SameEqualitiesSameCost(left, right, left', right', i, j - 1);
      }
    }
  }

  lemma SameEqualitiesSameMove<S, T>(left: seq<S>, right: seq<S>, left': seq<T>, right': seq<T>, i: nat, j: nat)
    requires SameEqualities(left, right, left', right') && i <= |left| && j <= |right|
    ensures BestMove(left, right, i, j) == BestMove(left', right', i, j)
  {
    if i > 0 && j > 0 {
      SameEqualitiesSameCost(left, right, left', right', i - 1, j);
      SameEqualitiesSameCost(left, right, left', right', i, j - 1);
      SameEqualitiesSameCost(left, right, left', right', i - 1, j - 1);
    }
  }

  /** The script depends only on which elements are equal to which. */
  lemma {:induction false} SameEqualitiesSameScript<S, T>(
    left: seq<S>, right: seq<S>, left': seq<T>, right': seq<T>, i: nat, j: nat)
    requires SameEqualities(left, right, left', right') && i <= |left| && j <= |right|
    ensures Script(left, right, i, j) == Script(left', right', i, j)
    decreases i + j
  {
    if i > 0 || j > 0 {
      SameEqualitiesSameMove(left, right, left', right', i, j);
      var move := BestMove(left, right, i, j);
      SameEqualitiesSameScript(
        left, right, left', right', i - if move.Add? then 0 else 1, j - if move.Remove? then 0 else 1);
    }
  }

  ghost predicate Extends(table: map<string, nat>, before: map<string, nat>) {
    forall s :: s in before ==> s in table && table[s] == before[s]
  }

  ghost predicate IsInjective(table: map<string, nat>) {
    forall s, t :: s in table && t in table && table[s] == table[t] ==> s == t
  }

  /** Numbers strings in the order in which they are first seen. */
  class InternalStrings {
    var ids: map<string, nat>

    ghost predicate Valid()
      reads this
    {
      && (forall s :: s in ids ==> ids[s] < |ids|)
      && IsInjective(ids)
    }

    constructor ()
      ensures Valid() && ids == map[]
    {
      ids := map[];
    }

    method GetId(str: string) returns (id: nat)
      requires Valid()
      modifies this
      ensures Valid()
      ensures ids == if str in old(ids) then old(ids) else old(ids)[str := |old(ids)|]
      ensures id == ids[str]
      ensures Extends(ids, old(ids)) && IsInjective(ids)
    {
      if str in ids {
        return ids[str];
      }
      id := |ids|;
      ids := ids[str := id];
    }
  }

  ghost predicate AreIdsOf(ids: seq<nat>, lines: seq<string>, table: map<string, nat>) {
    && |ids| == |lines|
    && forall k :: 0 <= k < |lines| ==> lines[k] in table && ids[k] == table[lines[k]]
  }

  lemma IdsStay(ids: seq<nat>, lines: seq<string>, before: map<string, nat>, table: map<string, nat>)
    requires AreIdsOf(ids, lines, before) && Extends(table, before)
    ensures AreIdsOf(ids, lines, table)
  {
  }

  lemma OneMoreId(ids: seq<nat>, lines: seq<string>, i: nat, table: map<string, nat>)
    requires i < |lines| && AreIdsOf(ids, lines[..i], table) && lines[i] in table
    ensures AreIdsOf(ids + [table[lines[i]]], lines[..i + 1], table)
  {
  }

  lemma IdsHaveSameEqualities(
    left: seq<string>, right: seq<string>, leftIds: seq<nat>, rightIds: seq<nat>, table: map<string, nat>)
    requires AreIdsOf(leftIds, left, table) && AreIdsOf(rightIds, right, table) && IsInjective(table)
    ensures SameEqualities(left, right, leftIds, rightIds)
  {
  }

  method CalculateOptimalEdits(left: seq<string>, right: seq<string>) returns (edits: seq<EditType>)
    ensures edits == Script(left, right, |left|, |right|)
  {
    var leftIds: seq<nat>, rightIds: seq<nat> := [], [];
    var internTable := new InternalStrings();
    assert AreIdsOf([], left[..0], map[]) && AreIdsOf([], right[..0], map[]);
    hide *;
    for i := 0 to |left|
      invariant internTable.Valid() && AreIdsOf(leftIds, left[..i], internTable.ids)
      invariant AreIdsOf([], right[..0], internTable.ids)
    {
      ghost var before := internTable.ids;
      var id := internTable.GetId(left[i]);
      IdsStay(leftIds, left[..i], before, internTable.ids);
      IdsStay([], right[..0], before, internTable.ids);
      OneMoreId(leftIds, left, i, internTable.ids);
      leftIds := leftIds + [id];
    }
    for i := 0 to |right|
      invariant internTable.Valid() && AreIdsOf(leftIds, left[..|left|], internTable.ids)
      invariant AreIdsOf(rightIds, right[..i], internTable.ids)
    {
      ghost var before := internTable.ids;
      var id := internTable.GetId(right[i]);
      IdsStay(leftIds, left[..|left|], before, internTable.ids);
      IdsStay(rightIds, right[..i], before, internTable.ids);
      OneMoreId(rightIds, right, i, internTable.ids);
      rightIds := rightIds + [id];
    }
    assert left[..|left|] == left && right[..|right|] == right;
    IdsHaveSameEqualities(left, right, leftIds, rightIds, internTable.ids);
    edits := CalculateOptimalEditsOfIds(leftIds, rightIds);
    SameEqualitiesSameScript(left, right, leftIds, rightIds, |left|, |right|);
  }
}
