/** Counting for the sharding protocol: the k-th runnable test goes to shard k modulo the number
    of shards. */
module Sharding {
  import opened Division

  predicate ShouldRunTestOnShard(totalShards: int, shardIndex: int, testId: int)
    requires totalShards > 0
  {
    testId % totalShards == shardIndex
  }

  /** How many of the first `n` runnable tests a shard runs. */
  ghost function ShardSize(n: nat, totalShards: nat, shardIndex: nat): nat
    requires totalShards > 0
  {
    if n == 0 then 0
    else ShardSize(n - 1, totalShards, shardIndex)
         + if ShouldRunTestOnShard(totalShards, shardIndex, n - 1) then 1 else 0
  }

  /** The size of a shard in closed form. */
  lemma {:induction false} ShardSizeInClosedForm(n: nat, totalShards: nat, shardIndex: nat)
    requires shardIndex < totalShards
    ensures ShardSize(n, totalShards, shardIndex) == n / totalShards + if shardIndex < n % totalShards then 1 else 0
    decreases n
  {
    if n > 0 {
      ShardSizeInClosedForm(n - 1, totalShards, shardIndex);
      DivModStep(n - 1, totalShards);
    }
  }

  /** No two shards differ in size by more than one test. */
  lemma ShardsAreBalanced(n: nat, totalShards: nat, a: nat, b: nat)
    requires a < totalShards && b < totalShards
    ensures ShardSize(n, totalShards, a) <= ShardSize(n, totalShards, b) + 1
  {
    ShardSizeInClosedForm(n, totalShards, a);
    ShardSizeInClosedForm(n, totalShards, b);
  }

  /** Every test runs on one shard and no other. */
  lemma ExactlyOneShardRuns(totalShards: nat, testId: nat)
    requires totalShards > 0
    ensures exists shard: nat :: shard < totalShards && ShouldRunTestOnShard(totalShards, shard, testId)
    ensures forall a: nat, b: nat ::
              ShouldRunTestOnShard(totalShards, a, testId) && ShouldRunTestOnShard(totalShards, b, testId) ==> a == b
  {
    assert ShouldRunTestOnShard(totalShards, testId % totalShards, testId);
  }

  /** How many tests the first `shards` shards run together. */
  ghost function SizeOfShards(n: nat, totalShards: nat, shards: nat): nat
    requires shards <= totalShards && totalShards > 0
  {
    if shards == 0 then 0 else SizeOfShards(n, totalShards, shards - 1) + ShardSize(n, totalShards, shards - 1)
  }

  /** All shards together run every test once. */
  lemma {:induction false} ShardsAddUp(n: nat, totalShards: nat)
    requires totalShards > 0
    ensures SizeOfShards(n, totalShards, totalShards) == n
    decreases n
  {
    if n == 0 {
      NoTestsNoSizes(totalShards, totalShards);
    } else {
      ShardsAddUp(n - 1, totalShards);
      OneMoreTest(n, totalShards, totalShards);
    }
  }

  lemma {:induction false} NoTestsNoSizes(totalShards: nat, shards: nat)
    requires shards <= totalShards && totalShards > 0
    ensures SizeOfShards(0, totalShards, shards) == 0
    decreases shards
  {
    if shards > 0 { NoTestsNoSizes(totalShards, shards - 1); }
  }

  lemma {:induction false} OneMoreTest(n: nat, totalShards: nat, shards: nat)
    requires n > 0 && shards <= totalShards && totalShards > 0
    ensures SizeOfShards(n, totalShards, shards)
         == SizeOfShards(n - 1, totalShards, shards) + if (n - 1) % totalShards < shards then 1 else 0
    decreases shards
  {
    if shards > 0 { OneMoreTest(n, totalShards, shards - 1); }
  }
}
