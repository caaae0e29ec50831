/** Registration, shuffling and filtering of tests. */
module TestRunner {
  import opened Sharding
  import opened Generator
  import opened Shuffling
  import opened TestFilters

  class TestInfo {
    const testCaseName: string
    const name: string
    var isDisabled: bool
    var matchesFilter: bool
    var shouldRun: bool

    constructor (testCaseName: string, name: string)
      ensures this.testCaseName == testCaseName && this.name == name
      ensures !isDisabled && !matchesFilter && !shouldRun
    {
      this.testCaseName, this.name := testCaseName, name;
      isDisabled, matchesFilter, shouldRun := false, false, false;
    }
  }

  /** [0, 1, .., n-1] */
  function Identity(n: nat): (s: seq<int>)
    ensures |s| == n && forall i :: 0 <= i < n ==> s[i] == i
  {
    seq(n, i => i)
  }

  /** The tests are different objects and belong to the test case of the given name. */
  ghost predicate ListsTestsOf(tests: seq<TestInfo>, name: string) {
    && (forall i :: 0 <= i < |tests| ==> tests[i].testCaseName == name)
    && (forall i, j :: 0 <= i < j < |tests| ==> tests[i] != tests[j])
  }

  /** The range as the generator shuffles it from a state. */
  ghost function Shuffled<E>(v: seq<E>, begin: nat, end: nat, state: nat): seq<E>
    requires begin <= end <= |v|
  {
    FisherYates(v, begin, end - begin, DrawsFrom(state, end - begin))
  }

  /** The state after shuffling these lists. */
  ghost function StateAfterAll<E>(state: nat, lists: seq<seq<E>>): nat {
    if lists == [] then state else StateAfter(StateAfterAll(state, lists[..|lists| - 1]), |lists[|lists| - 1]|)
  }

  class TestCase {
    const name: string
    var testInfos: seq<TestInfo>
    var testIndices: seq<int>
    var shouldRun: bool

    ghost predicate Valid()
      reads this`testInfos, this`testIndices
    {
      && |testIndices| == |testInfos| && IsPermutation(testIndices, Identity(|testInfos|))
      && ListsTestsOf(testInfos, name)
    }

    ghost predicate Unshuffled()
      reads this`testInfos, this`testIndices
    {
      testIndices == Identity(|testInfos|)
    }

    constructor (name: string)
      ensures this.name == name && testInfos == [] && testIndices == [] && !shouldRun && Valid()
    {
      this.name := name;
      testInfos, testIndices, shouldRun := [], [], false;
    }

    method AddTestInfo(testInfo: TestInfo)
      requires Valid() && Unshuffled()
      requires testInfo.testCaseName == name && testInfo !in testInfos
      modifies this`testInfos, this`testIndices
      ensures testInfos == old(testInfos) + [testInfo]
      ensures Valid() && Unshuffled()
    {
      testInfos := testInfos + [testInfo];
      testIndices := testIndices + [|testIndices|];
      assert testIndices == Identity(|testInfos|);
    }

    method ShuffleTests(random: Random)
      requires Valid() && random.Valid() && |testInfos| <= kMaxRange
      modifies this`testIndices, random
      ensures Valid() && random.Valid()
      ensures testIndices == Shuffled(old(testIndices), 0, |testInfos|, old(random.state))
      ensures random.state == StateAfter(old(random.state), |testInfos|)
    {
      assert testIndices[0..|testIndices|] == testIndices;
      var shuffled := ShuffleRange(random, 0, |testIndices|, testIndices);
      assert shuffled[0..|testIndices|] == shuffled;
      testIndices := shuffled;
    }

    method UnshuffleTests()
      requires Valid()
      modifies this`testIndices
      ensures Valid() && Unshuffled()
    {
      for i := 0 to |testIndices|
        invariant |testIndices| == |testInfos|
        invariant forall k :: 0 <= k < i ==> testIndices[k] == k
      {
        testIndices := testIndices[i := i];
      }
      assert testIndices == Identity(|testInfos|);
    }
  }

  // Filtering.

  /** HONOR_SHARDING_PROTOCOL carries what the environment says. */
  datatype ReactionToSharding = HonorShardingProtocol(totalShards: int, shardIndex: int) | IgnoreShardingProtocol

  datatype FilterSettings = FilterSettings(filter: string, alsoRunDisabledTests: bool, shardTests: ReactionToSharding)
  {
    predicate Valid() { shardTests.HonorShardingProtocol? ==> shardTests.totalShards > 0 }

    /** Whether the test runs on some shard. */
    predicate IsRunnable(test: TestInfo) {
      && (alsoRunDisabledTests || !IsDisabled(test.testCaseName, test.name))
      && FilterMatchesTest(filter, test.testCaseName, test.name)
    }

    /** Whether the test runs here, when so many runnable tests come before it. */
    predicate IsSelected(test: TestInfo, testId: int)
      requires Valid()
    {
      && IsRunnable(test)
      && (shardTests.HonorShardingProtocol? ==>
            ShouldRunTestOnShard(shardTests.totalShards, shardTests.shardIndex, testId))
    }

    /** A test is runnable if and only if disabled tests are asked for or no name of it says that
        it is disabled, and the flag selects it: some pattern before the dash fits its full name, or
        nothing stands there, and none after the dash does. */
    lemma IsRunnableExactly(test: TestInfo, positive: string, negative: string)
      requires '-' !in positive && filter in [positive, positive + "-" + negative]
      ensures var fullName := test.testCaseName + "." + test.name;
              IsRunnable(test)
              <==> && (alsoRunDisabledTests || !(SaysDisabled(test.testCaseName) || SaysDisabled(test.name)))
                   && if filter == positive then SomePatternFits(positive, fullName)
                      else (positive == "" || SomePatternFits(positive, fullName))
                           && !SomePatternFits(negative, fullName)
    {
      hide IsDisabled, FilterMatchesTest, SaysDisabled, SomePatternFits;
      DisabledExactly(test.testCaseName, test.name);
      FilterMatchesTestExactly(positive, negative, test.testCaseName, test.name);
    }

    ghost function NumRunnable(tests: seq<TestInfo>): nat {
      if tests == [] then 0
      else NumRunnable(tests[..|tests| - 1]) + if IsRunnable(tests[|tests| - 1]) then 1 else 0
    }

    ghost function NumSelected(tests: seq<TestInfo>): nat
      requires Valid()
    {
      if tests == [] then 0
      else
        var before := tests[..|tests| - 1];
        NumSelected(before) + if IsSelected(tests[|tests| - 1], NumRunnable(before)) then 1 else 0
    }

    /** Every test carries its flags. */
    ghost predicate Filtered(tests: seq<TestInfo>)
      requires Valid()
      reads tests
    {
      tests != [] ==>
        var before, test := tests[..|tests| - 1], tests[|tests| - 1];
        && Filtered(before)
        && test.isDisabled == IsDisabled(test.testCaseName, test.name)
        && test.matchesFilter == FilterMatchesTest(filter, test.testCaseName, test.name)
        && test.shouldRun == IsSelected(test, NumRunnable(before))
    }
  }

  ghost predicate AnyShouldRun(tests: seq<TestInfo>)
    reads tests
  {
    exists test :: test in tests && test.shouldRun
  }

  /** The tests of all test cases in order. */
  ghost function AllTests(lists: seq<seq<TestInfo>>): seq<TestInfo> {
    if lists == [] then [] else AllTests(lists[..|lists| - 1]) + lists[|lists| - 1]
  }

  lemma {:induction false} AllTestsAreListed(lists: seq<seq<TestInfo>>, test: TestInfo)
    ensures test in AllTests(lists) <==> exists i :: 0 <= i < |lists| && test in lists[i]
    decreases |lists|
  {
    if lists != [] {
      AllTestsAreListed(lists[..|lists| - 1], test);
    }
  }

  /** The lists hold the tests of test cases of different names. */
  ghost predicate ListsTestsOfAll(lists: seq<seq<TestInfo>>, testCases: seq<TestCase>) {
    && |lists| == |testCases|
    && (forall i :: 0 <= i < |lists| ==> ListsTestsOf(lists[i], testCases[i].name))
    && (forall i, j :: 0 <= i < j < |lists| ==> testCases[i].name != testCases[j].name)
  }

  lemma ListsAreApart(lists: seq<seq<TestInfo>>, testCases: seq<TestCase>, i: nat, test: TestInfo)
    requires ListsTestsOfAll(lists, testCases) && i < |lists| && test in lists[i]
    ensures forall k :: 0 <= k < i ==> test !in lists[k]
    ensures test !in AllTests(lists[..i]) && test in AllTests(lists)
  {
    forall k | 0 <= k < i
      ensures test !in lists[k]
    {
      assert test.testCaseName == testCases[i].name;
    }
    hide ListsTestsOfAll;
    AllTestsAreListed(lists, test);
    AllTestsAreListed(lists[..i], test);
  }

  lemma NextListIsApart(lists: seq<seq<TestInfo>>, testCases: seq<TestCase>, i: nat)
    requires ListsTestsOfAll(lists, testCases) && i < |lists|
    ensures ListsTestsOf(lists[i], testCases[i].name)
    ensures AllTests(lists[..i + 1]) == AllTests(lists[..i]) + lists[i]
    ensures forall test :: test in lists[i] ==> test !in AllTests(lists[..i]) && test in AllTests(lists)
    ensures forall k :: 0 <= k < i ==> forall test :: test in lists[i] ==> test !in lists[k]
  {
    hide ListsTestsOf;
    assert lists[..i + 1][..i] == lists[..i];
    forall test | test in lists[i]
      ensures test !in AllTests(lists[..i]) && test in AllTests(lists)
      ensures forall k :: 0 <= k < i ==> test !in lists[k]
    {
      ListsAreApart(lists, testCases, i, test);
    }
  }

  /** A test selected here is the k-th runnable one for a k that is the shard's. */
  lemma {:induction false} FilteredAt(s: FilterSettings, tests: seq<TestInfo>, k: nat)
    requires s.Valid() && s.Filtered(tests) && k < |tests|
    ensures tests[k].shouldRun == s.IsSelected(tests[k], s.NumRunnable(tests[..k]))
    decreases |tests|
  {
    if k < |tests| - 1 {
      FilteredAt(s, tests[..|tests| - 1], k);
      assert tests[..|tests| - 1][..k] == tests[..k];
    }
  }

  /** A shard's share of the runnable tests. */
  lemma {:induction false} NumSelectedIsShardSize(s: FilterSettings, tests: seq<TestInfo>)
    requires s.Valid()
    ensures s.shardTests.IgnoreShardingProtocol? ==> s.NumSelected(tests) == s.NumRunnable(tests)
    ensures s.shardTests.HonorShardingProtocol? && s.shardTests.shardIndex >= 0 ==>
              s.NumSelected(tests) == ShardSize(s.NumRunnable(tests), s.shardTests.totalShards, s.shardTests.shardIndex)
    decreases |tests|
  {
    hide FilterSettings.IsRunnable, ShouldRunTestOnShard;
    if tests != [] {
      NumSelectedIsShardSize(s, tests[..|tests| - 1]);
    }
  }

  /** One more test with its flags set. */
  lemma FilterOneMore(s: FilterSettings, before: seq<TestInfo>, test: TestInfo)
    requires s.Valid() && s.Filtered(before)
    requires test.isDisabled == IsDisabled(test.testCaseName, test.name)
    requires test.matchesFilter == FilterMatchesTest(s.filter, test.testCaseName, test.name)
    requires test.shouldRun == s.IsSelected(test, s.NumRunnable(before))
    ensures s.Filtered(before + [test])
    ensures s.NumRunnable(before + [test]) == s.NumRunnable(before) + if s.IsRunnable(test) then 1 else 0
    ensures s.NumSelected(before + [test]) == s.NumSelected(before) + if test.shouldRun then 1 else 0
  {
    hide IsDisabled, FilterMatchesTest, FilterSettings.IsSelected;
    assert (before + [test])[..|before|] == before;
  }

  lemma AnyOneMore(tests: seq<TestInfo>, test: TestInfo)
    ensures AnyShouldRun(tests + [test]) == (AnyShouldRun(tests) || test.shouldRun)
  {
    assert test in tests + [test];
    assert forall t :: t in tests ==> t in tests + [test];
  }

  /** The same settings on another shard. */
  function OnShard(s: FilterSettings, totalShards: int, shardIndex: int): FilterSettings {
    s.(shardTests := HonorShardingProtocol(totalShards, shardIndex))
  }

  lemma {:induction false} NumRunnableOnShard(
    s: FilterSettings, totalShards: int, shardIndex: int, tests: seq<TestInfo>)
    ensures OnShard(s, totalShards, shardIndex).NumRunnable(tests) == s.NumRunnable(tests)
    decreases |tests|
  {
    hide IsDisabled, FilterMatchesTest;
    if tests != [] {
      NumRunnableOnShard(s, totalShards, shardIndex, tests[..|tests| - 1]);
    }
  }

  /** Whether filtering on that shard makes the k-th test run. */
  ghost predicate RunsOnShard(s: FilterSettings, totalShards: nat, shardIndex: nat, tests: seq<TestInfo>, k: nat)
    requires totalShards > 0 && k < |tests|
  {
    var settings := OnShard(s, totalShards, shardIndex);
    settings.IsSelected(tests[k], settings.NumRunnable(tests[..k]))
  }

  /** With the same settings on every shard, a runnable test runs on exactly one of them, and no
      other test runs on any. */
  lemma RunsOnExactlyOneShard(s: FilterSettings, totalShards: nat, tests: seq<TestInfo>, k: nat)
    requires totalShards > 0 && k < |tests|
    ensures s.IsRunnable(tests[k]) <==>
            exists i: nat :: i < totalShards && RunsOnShard(s, totalShards, i, tests, k)
    ensures forall i: nat, j: nat ::
              RunsOnShard(s, totalShards, i, tests, k) && RunsOnShard(s, totalShards, j, tests, k) ==> i == j
  {
    hide IsDisabled, FilterMatchesTest;
    var testId := s.NumRunnable(tests[..k]);
    forall i: nat
      ensures RunsOnShard(s, totalShards, i, tests, k)
         <==> s.IsRunnable(tests[k]) && ShouldRunTestOnShard(totalShards, i, testId)
    {
      NumRunnableOnShard(s, totalShards, i, tests[..k]);
    }
    ExactlyOneShardRuns(totalShards, testId);
  }

  /** How many tests the first `shards` shards select together. */
  ghost function SelectedOnShards(s: FilterSettings, totalShards: nat, shards: nat, tests: seq<TestInfo>): nat
    requires 0 < totalShards && shards <= totalShards
  {
    if shards == 0 then 0
    else SelectedOnShards(s, totalShards, shards - 1, tests) + OnShard(s, totalShards, shards - 1).NumSelected(tests)
  }

  lemma {:induction false} SelectedOnShardsIsSize(
    s: FilterSettings, totalShards: nat, shards: nat, tests: seq<TestInfo>)
    requires 0 < totalShards && shards <= totalShards
    ensures SelectedOnShards(s, totalShards, shards, tests) == SizeOfShards(s.NumRunnable(tests), totalShards, shards)
    decreases shards
  {
    hide FilterSettings.NumRunnable, FilterSettings.NumSelected;
    if shards > 0 {
      SelectedOnShardsIsSize(s, totalShards, shards - 1, tests);
      NumSelectedIsShardSize(OnShard(s, totalShards, shards - 1), tests);
      NumRunnableOnShard(s, totalShards, shards - 1, tests);
    }
  }

  /** The counts that filtering returns on all shards add up to the number of runnable tests, and
      differ by at most one. */
  lemma ShardCountsAddUpAndBalance(s: FilterSettings, totalShards: nat, tests: seq<TestInfo>)
    requires totalShards > 0
    ensures SelectedOnShards(s, totalShards, totalShards, tests) == s.NumRunnable(tests)
    ensures forall a: nat, b: nat :: a < totalShards && b < totalShards ==>
              OnShard(s, totalShards, a).NumSelected(tests) <= OnShard(s, totalShards, b).NumSelected(tests) + 1
  {
    hide FilterSettings.NumRunnable, FilterSettings.NumSelected, ShardSize, SelectedOnShards;
    SelectedOnShardsIsSize(s, totalShards, totalShards, tests);
    ShardsAddUp(s.NumRunnable(tests), totalShards);
    forall a: nat, b: nat | a < totalShards && b < totalShards
      ensures OnShard(s, totalShards, a).NumSelected(tests) <= OnShard(s, totalShards, b).NumSelected(tests) + 1
    {
      NumSelectedIsShardSize(OnShard(s, totalShards, a), tests);
      NumSelectedIsShardSize(OnShard(s, totalShards, b), tests);
      NumRunnableOnShard(s, totalShards, a, tests);
      NumRunnableOnShard(s, totalShards, b, tests);
      ShardsAreBalanced(s.NumRunnable(tests), totalShards, a, b);
    }
  }

  // Registration.

  /** The registered test cases of one kind, in the order of registration. */
  ghost function OfKind(registered: seq<TestCase>, death: bool): seq<TestCase> {
    if registered == [] then []
    else
      var last := registered[|registered| - 1];
      OfKind(registered[..|registered| - 1], death) + if IsDeathTestCase(last.name) == death then [last] else []
  }

  /** A permutation of the test cases that permutes the death tests, the first `deaths`, among
      themselves, and so the others. */
  ghost predicate PermutesBothKinds(indices: seq<int>, deaths: nat, n: nat) {
    && deaths <= n == |indices|
    && IsPermutation(indices[..deaths], Identity(n)[..deaths])
    && IsPermutation(indices[deaths..], Identity(n)[deaths..])
  }

  /** Death test cases come first, both kinds are in the order of registration, and names are
      unique. */
  ghost predicate KindsInOrder(testCases: seq<TestCase>, deaths: int, registered: seq<TestCase>) {
    && deaths == |OfKind(registered, true)|
    && testCases == OfKind(registered, true) + OfKind(registered, false)
    && (forall i :: 0 <= i < |testCases| ==> (IsDeathTestCase(testCases[i].name) <==> i < deaths))
    && (forall i, j :: 0 <= i < j < |testCases| ==> testCases[i].name != testCases[j].name)
  }

  /** A vector's insert. */
  function Inserted<E>(v: seq<E>, at: nat, x: E): (r: seq<E>)
    requires at <= |v|
    ensures |r| == |v| + 1 && x in r
    ensures (forall e :: e in v ==> e in r) && (forall e :: e in r ==> e in v || e == x)
  {
    v[..at] + [x] + v[at..]
  }

  lemma RegisterOne(registered: seq<TestCase>, testCase: TestCase, death: bool)
    ensures OfKind(registered + [testCase], death)
         == OfKind(registered, death) + if IsDeathTestCase(testCase.name) == death then [testCase] else []
  {
    hide IsDeathTestCase;
    assert (registered + [testCase])[..|registered|] == registered;
  }

  /** A death test case goes after the last one so far, any other to the end. */
  lemma RegisterKeepsOrder(testCases: seq<TestCase>, deaths: int, registered: seq<TestCase>, x: TestCase)
    requires KindsInOrder(testCases, deaths, registered)
    requires forall i :: 0 <= i < |testCases| ==> testCases[i].name != x.name
    ensures if IsDeathTestCase(x.name)
            then KindsInOrder(Inserted(testCases, deaths, x), deaths + 1, registered + [x])
            else KindsInOrder(testCases + [x], deaths, registered + [x])
  {
    RegisterOne(registered, x, true);
    RegisterOne(registered, x, false);
    hide OfKind, IsDeathTestCase;
    assert testCases[..deaths] == OfKind(registered, true) && testCases[deaths..] == OfKind(registered, false);
  }

  // The order of running.

  function GetElementOr<E>(v: seq<E>, i: int, defaultValue: E): E {
    if i < 0 || i >= |v| then defaultValue else v[i]
  }

  predicate AllBelow(indices: seq<int>, n: nat) {
    forall k :: 0 <= k < |indices| ==> 0 <= indices[k] < n
  }

  /** The elements of `v` in the order of the indices. */
  ghost function Selected<E>(v: seq<E>, indices: seq<int>): (s: seq<E>)
    requires AllBelow(indices, |v|)
    ensures |s| == |indices| && forall k :: 0 <= k < |s| ==> s[k] == v[indices[k]]
  {
    seq(|indices|, k requires 0 <= k < |indices| => v[indices[k]])
  }

  lemma WithoutFirst(a: seq<int>, b: seq<int>, j: nat)
    requires IsPermutation(a, b) && a != [] && j < |b| && b[j] == a[0]
    ensures IsPermutation(a[1..], b[..j] + b[j + 1..])
  {
    var rest := b[..j] + b[j + 1..];
    assert a == [a[0]] + a[1..];
    assert b == b[..j] + [a[0]] + b[j + 1..];
    assert multiset(b) == multiset(rest) + multiset{a[0]};
    assert multiset(a[1..]) == multiset(a) - multiset{a[0]};
    assert multiset(rest) == multiset(b) - multiset{a[0]};
  }

  /** Permuting the indices permutes the elements. */
  lemma {:induction false} SelectedPermutes<E>(v: seq<E>, a: seq<int>, b: seq<int>)
    requires AllBelow(a, |v|) && AllBelow(b, |v|) && IsPermutation(a, b)
    ensures IsPermutation(Selected(v, a), Selected(v, b))
    decreases |a|
  {
    SameLength(a, b);
    if a == [] {
      assert Selected(v, a) == Selected(v, b);
    } else {
      hide Selected, IsPermutation;
      PermutationIsInRange(a, b, 0);
      var j :| 0 <= j < |b| && b[j] == a[0];
      WithoutFirst(a, b, j);
      SelectedPermutes(v, a[1..], b[..j] + b[j + 1..]);
      SelectedWithFirst(v, a, b, j);
    }
  }

  lemma SameLength(a: seq<int>, b: seq<int>)
    requires IsPermutation(a, b)
    ensures |a| == |b|
  {
    assert |multiset(a)| == |multiset(b)|;
  }

  lemma SelectedWithFirst<E>(v: seq<E>, a: seq<int>, b: seq<int>, j: nat)
    requires AllBelow(a, |v|) && AllBelow(b, |v|) && a != [] && j < |b| && b[j] == a[0]
    requires IsPermutation(Selected(v, a[1..]), Selected(v, b[..j] + b[j + 1..]))
    ensures IsPermutation(Selected(v, a), Selected(v, b))
  {
    hide IsPermutation;
    var front, back := Selected(v, b[..j]), Selected(v, b[j + 1..]);
    assert Selected(v, b[..j] + b[j + 1..]) == front + back;
    PutBack(Selected(v, a[1..]), front, back, v[a[0]]);
    assert Selected(v, a) == [v[a[0]]] + Selected(v, a[1..]);
    assert Selected(v, b) == front + [v[a[0]]] + back;
  }

  lemma PutBack<E>(rest: seq<E>, front: seq<E>, back: seq<E>, e: E)
    requires IsPermutation(rest, front + back)
    ensures IsPermutation([e] + rest, front + [e] + back)
  {
  }

  lemma PermutationIsInRange(a: seq<int>, b: seq<int>, k: nat)
    requires IsPermutation(a, b) && k < |a|
    ensures a[k] in b
  {
    assert a[k] in multiset(a);
  }

  lemma IdentityPermutesBothKinds(deaths: nat, n: nat)
    requires deaths <= n
    ensures PermutesBothKinds(Identity(n), deaths, n)
  {
  }

  lemma BothKindsInRange(indices: seq<int>, deaths: nat, n: nat)
    requires PermutesBothKinds(indices, deaths, n)
    ensures |indices| == n && AllBelow(indices, n)
    ensures forall k :: 0 <= k < n ==> (indices[k] < deaths <==> k < deaths)
    ensures IsPermutation(indices, Identity(n))
  {
    forall k | 0 <= k < n
      ensures 0 <= indices[k] < n && (indices[k] < deaths <==> k < deaths)
    {
      if k < deaths {
        PermutationIsInRange(indices[..deaths], Identity(n)[..deaths], k);
      } else {
        PermutationIsInRange(indices[deaths..], Identity(n)[deaths..], k - deaths);
      }
    }
    assert indices == indices[..deaths] + indices[deaths..];
    assert Identity(n) == Identity(n)[..deaths] + Identity(n)[deaths..];
  }

  /** However the test cases have been shuffled, each runs exactly once and the death tests
      run first. */
  lemma RunsAllOnceDeathTestsFirst(testCases: seq<TestCase>, deaths: nat, registered: seq<TestCase>, indices: seq<int>)
    requires KindsInOrder(testCases, deaths, registered)
    requires PermutesBothKinds(indices, deaths, |testCases|)
    ensures AllBelow(indices, |testCases|)
    ensures IsPermutation(Selected(testCases, indices), testCases)
    ensures forall k :: 0 <= k < |testCases| ==>
              (IsDeathTestCase(Selected(testCases, indices)[k].name) <==> k < deaths)
  {
    hide IsDeathTestCase, OfKind, PermutesBothKinds;
    BothKindsInRange(indices, deaths, |testCases|);
    SelectedPermutes(testCases, indices, Identity(|testCases|));
    assert Selected(testCases, Identity(|testCases|)) == testCases;
  }

  /** First the death tests, the first `deaths`, are shuffled, then the others. */
  ghost function BothKindsShuffled(indices: seq<int>, deaths: int, state: nat): seq<int> {
    if 0 <= deaths <= |indices|
    then Shuffled(Shuffled(indices, 0, deaths, state), deaths, |indices|, StateAfter(state, deaths))
    else indices
  }

  ghost function StateAfterBothKinds(indices: seq<int>, deaths: int, state: nat): nat {
    if 0 <= deaths <= |indices| then StateAfter(StateAfter(state, deaths), |indices| - deaths) else state
  }

  /** The lists of indices, each shuffled from the state that the one before it left. */
  ghost predicate AreShuffled(testCases: seq<TestCase>, lists: seq<seq<int>>, state: nat)
    reads testCases`testIndices
  {
    && |lists| == |testCases|
    && (lists != [] ==>
          var n := |lists| - 1;
          && AreShuffled(testCases[..n], lists[..n], state)
          && testCases[n].testIndices == Shuffled(lists[n], 0, |lists[n]|, StateAfterAll(state, lists[..n])))
  }

  lemma NamesDiffer(testCases: seq<TestCase>, deaths: int, registered: seq<TestCase>)
    requires KindsInOrder(testCases, deaths, registered)
    ensures forall i, j :: 0 <= i < j < |testCases| ==> testCases[i] != testCases[j]
  {
    hide IsDeathTestCase, OfKind;
  }

  lemma RegisteredAreApart(impl: UnitTestImpl)
    requires impl.Valid()
    ensures impl.InOrder()
    ensures forall i, j :: 0 <= i < j < |impl.testCases| ==> impl.testCases[i] != impl.testCases[j]
    ensures forall i :: 0 <= i < |impl.testCases| ==>
              impl.testCases[i].Valid() && |impl.testCases[i].testInfos| == |impl.testCases[i].testIndices|
  {
    hide KindsInOrder, PermutesBothKinds, IsPermutation, ListsTestsOf, Identity;
    NamesDiffer(impl.testCases, impl.lastDeathTestCase + 1, impl.registered);
    forall i | 0 <= i < |impl.testCases|
      ensures impl.testCases[i].Valid() && |impl.testCases[i].testInfos| == |impl.testCases[i].testIndices|
    {
      assert impl.testCases[i] in impl.testCases;
    }
  }

  lemma ValidFromParts(impl: UnitTestImpl)
    requires impl.InOrder() && forall i :: 0 <= i < |impl.testCases| ==> impl.testCases[i].Valid()
    ensures impl.Valid()
  {
    hide UnitTestImpl.InOrder, TestCase.Valid;
  }

  method ShuffleEach(testCases: seq<TestCase>, random: Random, ghost lists: seq<seq<int>>)
    requires random.Valid() && |lists| == |testCases|
    requires forall i :: 0 <= i < |testCases| ==>
               testCases[i].Valid() && testCases[i].testIndices == lists[i]
    requires forall i :: 0 <= i < |testCases| ==> |testCases[i].testInfos| == |lists[i]| <= kMaxRange
    requires forall i, j :: 0 <= i < j < |testCases| ==> testCases[i] != testCases[j]
    modifies testCases`testIndices, random
    ensures random.Valid() && forall i :: 0 <= i < |testCases| ==> testCases[i].Valid()
    ensures AreShuffled(testCases, lists, old(random.state))
  {
    hide Shuffled, IsPermutation, ListsTestsOf, StateAfter, TestCase.Valid;
    for i := 0 to |testCases|
      invariant random.Valid() && random.state == StateAfterAll(old(random.state), lists[..i])
      invariant forall k :: 0 <= k < |testCases| ==> testCases[k].Valid()
      invariant AreShuffled(testCases[..i], lists[..i], old(random.state))
      invariant forall k :: i <= k < |testCases| ==> testCases[k].testIndices == lists[k]
    {
      testCases[i].ShuffleTests(random);
      assert lists[..i + 1][..i] == lists[..i] && testCases[..i + 1][..i] == testCases[..i];
    }
    assert lists[..|lists|] == lists && testCases[..|lists|] == testCases;
  }

  class UnitTestImpl {
    var testCases: seq<TestCase>
    var testCaseIndices: seq<int>
    var lastDeathTestCase: int
    const random: Random
    ghost var registered: seq<TestCase>

    /** The test cases are in order, and the run order keeps the two kinds apart. */
    ghost predicate InOrder()
      reads this
    {
      && lastDeathTestCase + 1 >= 0
      && KindsInOrder(testCases, lastDeathTestCase + 1, registered)
      && PermutesBothKinds(testCaseIndices, lastDeathTestCase + 1, |testCases|)
    }

    ghost predicate Valid()
      reads this, testCases`testInfos, testCases`testIndices
    {
      InOrder() && forall tc :: tc in testCases ==> tc.Valid()
    }

    ghost predicate Unshuffled()
      reads this, testCases`testInfos, testCases`testIndices
    {
      && testCaseIndices == Identity(|testCases|)
      && forall tc :: tc in testCases ==> tc.Unshuffled()
    }

    constructor ()
      ensures Valid() && Unshuffled() && testCases == [] && registered == []
      ensures fresh(random) && random.Valid()
    {
      testCases, testCaseIndices, lastDeathTestCase, registered := [], [], -1, [];
      random := new Random(0);
    }

    /** The position of the first test case of the given name, or the end. */
    method FindIf(name: string) returns (i: nat)
      ensures i <= |testCases| && (i < |testCases| ==> testCases[i].name == name)
      ensures forall k :: 0 <= k < i ==> testCases[k].name != name
    {
      i := 0;
      while i < |testCases| && testCases[i].name != name
        invariant i <= |testCases|
        invariant forall k :: 0 <= k < i ==> testCases[k].name != name
      {
        i := i + 1;
      }
    }

    /** Puts a new death test case after the last one so far, and any other one at the end. */
    method Register(testCase: TestCase)
      requires InOrder() && testCaseIndices == Identity(|testCases|)
      requires forall k :: 0 <= k < |testCases| ==> testCases[k].name != testCase.name
      modifies this
      ensures InOrder() && testCaseIndices == Identity(|testCases|)
      ensures registered == old(registered) + [testCase]
      ensures testCase in testCases
      ensures forall tc :: tc in testCases ==> tc in old(testCases) || tc == testCase
    {
      hide KindsInOrder, IsDeathTestCase;
      assert lastDeathTestCase + 1 <= |testCases| == |testCaseIndices|;
      RegisterKeepsOrder(testCases, lastDeathTestCase + 1, registered, testCase);
      hide PermutesBothKinds, Inserted;
      if IsDeathTestCase(testCase.name) {
        lastDeathTestCase := lastDeathTestCase + 1;
        testCases := Inserted(testCases, lastDeathTestCase, testCase);
      } else {
        testCases := testCases + [testCase];
      }
      testCaseIndices := testCaseIndices + [|testCaseIndices|];
      registered := registered + [testCase];
      IdentityPermutesBothKinds(lastDeathTestCase + 1, |testCases|);
      assert testCaseIndices == Identity(|testCases|);
    }

    /** Finds the test case of the given name, or registers a new one. Must only be called while
        the tests are not shuffled. */
    method GetTestCase(name: string) returns (testCase: TestCase)
      requires Valid() && Unshuffled()
      modifies this
      ensures Valid() && Unshuffled()
      ensures testCase.name == name && testCase in testCases
      ensures if testCase in old(testCases) then registered == old(registered) && testCases == old(testCases)
              else fresh(testCase) && testCase.testInfos == [] && registered == old(registered) + [testCase]
      ensures forall tc :: tc in testCases ==> tc in old(testCases) || tc == testCase
    {
      var i := FindIf(name);
      if i < |testCases| {
        return testCases[i];
      }
      testCase := new TestCase(name);
      Register(testCase);
    }

    /** Registers a test that is not registered yet with the test case it names. */
    method AddTestInfo(testInfo: TestInfo) returns (ghost testCase: TestCase)
      requires Valid() && Unshuffled()
      requires forall i :: 0 <= i < |testCases| ==> testInfo !in testCases[i].testInfos
      modifies this, testCases
      ensures Valid() && Unshuffled()
      ensures testCase in testCases && testCase.name == testInfo.testCaseName
      ensures testCase.testInfos
           == (if testCase in old(testCases) then old(testCase.testInfos) else []) + [testInfo]
      ensures forall tc :: tc in testCases && tc != testCase ==>
                tc in old(testCases) && tc.testInfos == old(tc.testInfos)
    {
      var found := GetTestCase(testInfo.testCaseName);
      testCase := found;
      found.AddTestInfo(testInfo);
    }

    /** The i-th test case in the order of running. */
    function GetMutableTestCase(i: int): (testCase: TestCase?)
      requires InOrder()
      reads this
      ensures |testCaseIndices| == |testCases| && AllBelow(testCaseIndices, |testCases|)
      ensures 0 <= i < |testCases| ==> testCase == Selected(testCases, testCaseIndices)[i]
      ensures i < 0 || i >= |testCases| ==> testCase == null
    {
      hide OfKind, IsDeathTestCase, PermutesBothKinds;
      var index := GetElementOr(testCaseIndices, i, -1);
      BothKindsInRange(testCaseIndices, lastDeathTestCase + 1, |testCases|);
      if index < 0 then null else testCases[index]
    }

    /** The accessor for constant objects, which looks up the position and not the index. */
    function GetTestCaseAt(i: int): (testCase: TestCase?)
      requires InOrder()
      reads this
      ensures |testCaseIndices| == |testCases|
      ensures testCase == if 0 <= i < |testCases| then testCases[i] else null
    {
      hide OfKind, IsDeathTestCase, PermutesBothKinds;
      BothKindsInRange(testCaseIndices, lastDeathTestCase + 1, |testCases|);
      var index := GetElementOr(testCaseIndices, i, -1);
      if index < 0 then null else testCases[i]
    }

    /** The two accessors agree everywhere exactly while the test cases are not shuffled. */
    lemma AccessorsAgreeExactlyUnshuffled()
      requires InOrder()
      ensures (forall i: int :: GetTestCaseAt(i) == GetMutableTestCase(i))
         <==> testCaseIndices == Identity(|testCases|)
    {
      hide OfKind, IsDeathTestCase, PermutesBothKinds;
      BothKindsInRange(testCaseIndices, lastDeathTestCase + 1, |testCases|);
      if forall i: int :: GetTestCaseAt(i) == GetMutableTestCase(i) {
        forall i | 0 <= i < |testCases|
          ensures testCaseIndices[i] == i
        {
          assert GetTestCaseAt(i) == GetMutableTestCase(i);
          assert testCases[i].name == testCases[testCaseIndices[i]].name;
        }
      }
    }

    /** The part of shuffling that is about the order of the test cases. */
    method ShuffleTestCases()
      requires InOrder() && random.Valid() && |testCases| <= kMaxRange
      modifies this`testCaseIndices, random
      ensures InOrder() && random.Valid()
      ensures testCaseIndices == BothKindsShuffled(old(testCaseIndices), lastDeathTestCase + 1, old(random.state))
      ensures random.state
           == StateAfterBothKinds(old(testCaseIndices), lastDeathTestCase + 1, old(random.state))
    {
      hide KindsInOrder, IsDeathTestCase, FisherYates, StateAfter, DrawsFrom;
      var deaths := lastDeathTestCase + 1;
      ghost var before := testCaseIndices;
      testCaseIndices := ShuffleRange(random, 0, deaths, testCaseIndices);
      ghost var between := testCaseIndices;
      testCaseIndices := ShuffleRange(random, deaths, |testCases|, testCaseIndices);
      BothShufflesKeepKinds(before, between, testCaseIndices, deaths, |testCases|);
    }

    /** Shuffles the death test cases, the others, and the tests of each, one after the other. */
    method ShuffleTests(ghost lists: seq<seq<int>>)
      requires Valid() && random.Valid() && |testCases| <= kMaxRange && |lists| == |testCases|
      requires forall i :: 0 <= i < |testCases| ==> testCases[i].testIndices == lists[i] && |lists[i]| <= kMaxRange
      modifies this`testCaseIndices, testCases`testIndices, random
      ensures Valid() && random.Valid()
      ensures testCaseIndices == BothKindsShuffled(old(testCaseIndices), lastDeathTestCase + 1, old(random.state))
      ensures AreShuffled(
                testCases, lists, StateAfterBothKinds(old(testCaseIndices), lastDeathTestCase + 1, old(random.state)))
    {
      hide *;
      RegisteredAreApart(this);
      ShuffleTestCases();
      ShuffleEach(testCases, random, lists);
      ValidFromParts(this);
    }

    /** Restores the order before the first shuffle. */
    method UnshuffleTests()
      requires Valid()
      modifies this`testCaseIndices, testCases`testIndices
      ensures Valid() && Unshuffled()
    {
      hide KindsInOrder, IsDeathTestCase, TestCase.Valid, TestCase.Unshuffled;
      for i := 0 to |testCases|
        invariant |testCaseIndices| == |testCases|
        invariant forall tc :: tc in testCases ==> tc.Valid()
        invariant forall k :: 0 <= k < i ==> testCases[k].Unshuffled() && testCaseIndices[k] == k
      {
        testCases[i].UnshuffleTests();
        testCaseIndices := testCaseIndices[i := i];
      }
      assert testCaseIndices == Identity(|testCases|);
    }

    /** Decides of every test whether it runs, and returns how many do. */
    method FilterTests(settings: FilterSettings, ghost lists: seq<seq<TestInfo>>, ghost tests: seq<TestInfo>)
      returns (numSelectedTests: int)
      requires Valid() && settings.Valid()
      requires |lists| == |testCases| && forall i :: 0 <= i < |lists| ==> testCases[i].testInfos == lists[i]
      requires tests == AllTests(lists)
      modifies testCases`shouldRun, set test | test in tests
      ensures settings.Filtered(tests)
      ensures forall i :: 0 <= i < |lists| ==> testCases[i].shouldRun == AnyShouldRun(lists[i])
      ensures numSelectedTests == settings.NumSelected(tests)
      ensures Valid()
    {
      hide *;
      RegisteredListsAreApart(this, lists);
      var numRunnableTests := 0;
      numSelectedTests := 0;
      NothingFiltered(settings);
      for i := 0 to |testCases|
        invariant forall k :: 0 <= k < |lists| ==> testCases[k].testInfos == lists[k]
        invariant settings.Filtered(AllTests(lists[..i]))
        invariant forall k :: 0 <= k < i ==> testCases[k].shouldRun == AnyShouldRun(lists[k])
        invariant numRunnableTests == settings.NumRunnable(AllTests(lists[..i]))
        invariant numSelectedTests == settings.NumSelected(AllTests(lists[..i]))
      {
        NextListIsApart(lists, testCases, i);
        numRunnableTests, numSelectedTests := FilterTestCase(
          settings, testCases[i], AllTests(lists[..i]), numRunnableTests, numSelectedTests);
      }
      assert lists[..|lists|] == lists;
    }
  }

  lemma RegisteredListsAreApart(impl: UnitTestImpl, lists: seq<seq<TestInfo>>)
    requires impl.Valid() && |lists| == |impl.testCases|
    requires forall i :: 0 <= i < |lists| ==> impl.testCases[i].testInfos == lists[i]
    ensures ListsTestsOfAll(lists, impl.testCases)
  {
    hide IsDeathTestCase, OfKind, PermutesBothKinds, IsPermutation, ListsTestsOf, Identity;
    forall i | 0 <= i < |lists|
      ensures ListsTestsOf(lists[i], impl.testCases[i].name)
    {
      assert impl.testCases[i] in impl.testCases && impl.testCases[i].Valid();
    }
  }

  lemma NothingFiltered(s: FilterSettings)
    requires s.Valid()
    ensures s.Filtered(AllTests([])) && s.NumRunnable(AllTests([])) == 0 == s.NumSelected(AllTests([]))
  {
  }

  /** The part of the filtering that is about one test case. */
  method FilterTestCase(settings: FilterSettings, testCase: TestCase, ghost before: seq<TestInfo>,
                        runnableBefore: int, selectedBefore: int)
    returns (numRunnableTests: int, numSelectedTests: int)
    requires settings.Valid() && ListsTestsOf(testCase.testInfos, testCase.name)
    requires settings.Filtered(before) && forall test :: test in testCase.testInfos ==> test !in before
    requires runnableBefore == settings.NumRunnable(before)
    requires selectedBefore == settings.NumSelected(before)
    modifies testCase`shouldRun, set test | test in testCase.testInfos
    ensures settings.Filtered(before + testCase.testInfos)
    ensures testCase.shouldRun == AnyShouldRun(testCase.testInfos)
    ensures numRunnableTests == settings.NumRunnable(before + testCase.testInfos)
    ensures numSelectedTests == settings.NumSelected(before + testCase.testInfos)
  {
    hide IsDisabled, FilterMatchesTest, ShouldRunTestOnShard, FilterSettings.Filtered, FilterSettings.NumRunnable;
    hide FilterSettings.NumSelected;
    ghost var tests := testCase.testInfos;
    numRunnableTests, numSelectedTests := runnableBefore, selectedBefore;
    testCase.shouldRun := false;
    assert before + tests[..0] == before;
    assert !AnyShouldRun(tests[..0]);
    hide AnyShouldRun;
    for j := 0 to |testCase.testInfos|
      invariant testCase.testInfos == tests
      invariant settings.Filtered(before + tests[..j])
      invariant testCase.shouldRun == AnyShouldRun(tests[..j])
      invariant numRunnableTests == settings.NumRunnable(before + tests[..j])
      invariant numSelectedTests == settings.NumSelected(before + tests[..j])
    {
      var testInfo := testCase.testInfos[j];
      testInfo.isDisabled := IsDisabled(testCase.name, testInfo.name);
      testInfo.matchesFilter := FilterMatchesTest(settings.filter, testCase.name, testInfo.name);
      var isRunnable := (settings.alsoRunDisabledTests || !testInfo.isDisabled) && testInfo.matchesFilter;
      var isSelected := isRunnable &&
        (settings.shardTests.IgnoreShardingProtocol?
         || ShouldRunTestOnShard(settings.shardTests.totalShards, settings.shardTests.shardIndex, numRunnableTests));
      numRunnableTests := numRunnableTests + if isRunnable then 1 else 0;
      numSelectedTests := numSelectedTests + if isSelected then 1 else 0;
      testInfo.shouldRun := isSelected;
      assert testInfo !in before + tests[..j];
      FilterOneMore(settings, before + tests[..j], testInfo);
      AnyOneMore(tests[..j], testInfo);
      assert before + tests[..j + 1] == before + tests[..j] + [testInfo];
      assert tests[..j + 1] == tests[..j] + [testInfo];
      testCase.shouldRun := testCase.shouldRun || isSelected;
    }
    assert tests[..|tests|] == tests;
  }

  /** Shuffling first the death tests and then the others permutes the two kinds separately. */
  lemma BothShufflesKeepKinds(before: seq<int>, between: seq<int>, after: seq<int>, deaths: nat, n: nat)
    requires PermutesBothKinds(before, deaths, n)
    requires IsShuffleOf(between, before, 0, deaths) && IsShuffleOf(after, between, deaths, n)
    ensures PermutesBothKinds(after, deaths, n)
  {
    assert before[0..deaths] == before[..deaths] && between[0..deaths] == between[..deaths];
    assert between[deaths..n] == between[deaths..] && after[deaths..n] == after[deaths..];
  }
}
