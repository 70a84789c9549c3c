/** `MyIterator.create_batches`: the greedy loop of torchtext's `data.batch`
    run over the examples of `self.data()`, the training pools with their
    per-pool sort and shuffle, and the evaluation batches sorted one by one. */
module Iterator {
  import opened Batching
  import opened Strings

  // ---------------------------------------------------------------- data.batch

  /** One call of the splitter's size function for the batch `mb` whose last
      example has just been appended: the default rule returns `count`, the
      token rule is `batch_size_fn` with its running maxima. */
  method Measure(counter: TokenCounter, rule: CostRule, mb: seq<Example>, sofar: nat) returns (size: nat)
    requires mb != []
    requires rule == TokenRule && |mb| > 1 ==>
      counter.maxSrc == MaxSrc(mb[..|mb| - 1]) && counter.maxTgt == MaxTgt(mb[..|mb| - 1])
    modifies counter
    ensures size == Cost(rule, mb)
    ensures rule == TokenRule ==> counter.maxSrc == MaxSrc(mb) && counter.maxTgt == MaxTgt(mb)
  {
    var ex := mb[|mb| - 1];
    if rule == CountRule {
      size := |mb|;
    } else {
      size := counter.BatchSizeFn(ex, |mb|, sofar);
      MaxSnoc(mb[..|mb| - 1], ex);
      assert mb[..|mb| - 1] + [ex] == mb;
    }
  }

  /** `data.batch(d, budget, fn)`, collected into a list: the batches are
      exactly those of the greedy rule `GreedySplit`. */
  method Batch(d: seq<Example>, budget: nat, rule: CostRule) returns (batches: seq<seq<Example>>)
    ensures batches == GreedySplit(d, budget, rule)
  {
    var counter := new TokenCounter();
    batches := [];
    var mb: seq<Example> := [];
    var size: nat := 0;
    var i := 0;
    while i < |d|
      invariant 0 <= i <= |d|
      invariant size == Cost(rule, mb)
      invariant rule == TokenRule && mb != [] ==> counter.maxSrc == MaxSrc(mb) && counter.maxTgt == MaxTgt(mb)
      invariant batches + SplitFrom(d[i..], mb, budget, rule) == GreedySplit(d, budget, rule)
    {
      var ex := d[i];
      assert d[i..][0] == ex && d[i..][1..] == d[i + 1..];
      var before := mb;
      mb := mb + [ex];
      assert mb[..|mb| - 1] == before;
      size := Measure(counter, rule, mb, size);
      if size == budget {
        SeqAssoc(batches, [mb], SplitFrom(d[i + 1..], [], budget, rule));
        batches := batches + [mb];
        mb := [];
        size := 0;
      } else if size > budget {
        SeqAssoc(batches, [before], SplitFrom(d[i + 1..], [ex], budget, rule));
        batches := batches + [before];
        mb := [ex];
        size := Measure(counter, rule, mb, 0);
      }
      i := i + 1;
    }
    if mb != [] {
      batches := batches + [mb];
    }
  }

  // ---------------------------------------------------------------- training

  /** What the training generator yields, pool by pool: `perPool[j]` is an
      ordering of the batches that the sorted `j`-th pool splits into. */
  predicate PoolOrder(d: seq<Example>, batchSize: nat, rule: CostRule, perPool: seq<seq<seq<Example>>>) {
    var pools := GreedySplit(d, batchSize * 100, CountRule);
    |perPool| == |pools| &&
    forall j :: 0 <= j < |pools| ==>
      multiset(perPool[j]) == multiset(GreedySplit(Sort(pools[j]), batchSize, rule))
  }

  /** The nested generator `pool(d, random_shuffler)`: the batches are those
      of the pools in pool order, each pool's own batches in shuffled order. */
  method Pool(d: seq<Example>, batchSize: nat, rule: CostRule)
    returns (batches: seq<seq<Example>>, ghost perPool: seq<seq<seq<Example>>>)
    ensures PoolOrder(d, batchSize, rule, perPool)
    ensures batches == Flatten(perPool)
    ensures multiset(Flatten(batches)) == multiset(d)
  {
    var pools := Batch(d, batchSize * 100, CountRule);
    batches, perPool := ShufflePools(pools, batchSize, rule);
    PoolOrderKeepsExamples(d, batchSize, rule, perPool);
  }

  /** The loop over the pools: each is sorted, split and shuffled, and its
      batches are yielded after those of the pools before it. */
  method ShufflePools(pools: seq<seq<Example>>, batchSize: nat, rule: CostRule)
    returns (batches: seq<seq<Example>>, ghost perPool: seq<seq<seq<Example>>>)
    ensures |perPool| == |pools|
    ensures forall k :: 0 <= k < |pools| ==>
      multiset(perPool[k]) == multiset(GreedySplit(Sort(pools[k]), batchSize, rule))
    ensures batches == Flatten(perPool)
  {
    batches, perPool := [], [];
    var j := 0;
    while j < |pools|
      invariant 0 <= j <= |pools|
      invariant |perPool| == j
      invariant forall k :: 0 <= k < j ==>
        multiset(perPool[k]) == multiset(GreedySplit(Sort(pools[k]), batchSize, rule))
      invariant batches == Flatten(perPool)
    {
      var shuffled := PoolBatches(pools[j], batchSize, rule);
      FlattenConcat(perPool, [shuffled]);
      FlattenSingle(shuffled);
      ShuffledExtend(pools, batchSize, rule, perPool, shuffled);
      batches := batches + shuffled;
      perPool := perPool + [shuffled];
      j := j + 1;
    }
  }

  lemma ShuffledExtend(pools: seq<seq<Example>>, batchSize: nat, rule: CostRule,
                       perPool: seq<seq<seq<Example>>>, shuffled: seq<seq<Example>>)
    requires |perPool| < |pools|
    requires forall k :: 0 <= k < |perPool| ==>
      multiset(perPool[k]) == multiset(GreedySplit(Sort(pools[k]), batchSize, rule))
    requires multiset(shuffled) == multiset(GreedySplit(Sort(pools[|perPool|]), batchSize, rule))
    ensures forall k :: 0 <= k < |perPool| + 1 ==>
      multiset((perPool + [shuffled])[k]) == multiset(GreedySplit(Sort(pools[k]), batchSize, rule))
  {
    forall k | 0 <= k < |perPool| + 1
      ensures multiset((perPool + [shuffled])[k]) == multiset(GreedySplit(Sort(pools[k]), batchSize, rule))
    {
      if k < |perPool| {
        assert (perPool + [shuffled])[k] == perPool[k];
      }
    }
  }

  /** One pool: `random_shuffler(batch(sorted(p, key=...), ...))`. */
  method PoolBatches(pool: seq<Example>, batchSize: nat, rule: CostRule) returns (shuffled: seq<seq<Example>>)
    ensures multiset(shuffled) == multiset(GreedySplit(Sort(pool), batchSize, rule))
  {
    var pBatch := Batch(Sort(pool), batchSize, rule);
    shuffled := Shuffle(pBatch);
  }

  /** Every example of the input comes out of training exactly once. */
  lemma PoolOrderKeepsExamples(d: seq<Example>, batchSize: nat, rule: CostRule, perPool: seq<seq<seq<Example>>>)
    requires PoolOrder(d, batchSize, rule, perPool)
    ensures multiset(Flatten(Flatten(perPool))) == multiset(d)
  {
    var pools := GreedySplit(d, batchSize * 100, CountRule);
    forall j | 0 <= j < |pools|
      ensures multiset(Flatten(perPool[j])) == multiset(pools[j])
    {
      FlattenPermutation(perPool[j], GreedySplit(Sort(pools[j]), batchSize, rule));
      SplitFlatten(Sort(pools[j]), batchSize, rule);
    }
    JoinPools(perPool, pools);
    SplitFlatten(d, batchSize * 100, CountRule);
  }

  lemma {:induction false} JoinPools(perPool: seq<seq<seq<Example>>>, pools: seq<seq<Example>>)
    requires |perPool| == |pools|
    requires forall j :: 0 <= j < |pools| ==> multiset(Flatten(perPool[j])) == multiset(pools[j])
    ensures multiset(Flatten(Flatten(perPool))) == multiset(Flatten(pools))
    decreases |pools|
  {
    if pools != [] {
      var first, others := perPool[0], perPool[1..];
      assert perPool == [first] + others;
      assert pools == [pools[0]] + pools[1..];
      assert multiset(Flatten(first)) == multiset(pools[0]);
      JoinPools(others, pools[1..]);
      FlattenCons(first, others);
      FlattenConcat(first, Flatten(others));
      FlattenCons(pools[0], pools[1..]);
    }
  }

  /** Shuffling reorders a pool's batches and never changes one: every batch
      yielded for pool `j` is a batch of the sorted pool, and is sorted. */
  lemma PoolBatchesSorted(d: seq<Example>, batchSize: nat, rule: CostRule, perPool: seq<seq<seq<Example>>>, j: nat, k: nat)
    requires PoolOrder(d, batchSize, rule, perPool)
    requires j < |perPool| && k < |perPool[j]|
    ensures perPool[j][k] in GreedySplit(Sort(GreedySplit(d, batchSize * 100, CountRule)[j]), batchSize, rule)
    ensures Sorted(perPool[j][k])
  {
    var split := GreedySplit(Sort(GreedySplit(d, batchSize * 100, CountRule)[j]), batchSize, rule);
    assert perPool[j][k] in multiset(perPool[j]);
    assert perPool[j][k] in multiset(split);
    SplitSorted(Sort(GreedySplit(d, batchSize * 100, CountRule)[j]), batchSize, rule);
  }

  /** The pools are the consecutive chunks of `batch_size * 100` examples, in
      input order, and each pool's batches join to the sorted pool. */
  lemma PoolsInInputOrder(d: seq<Example>, batchSize: nat, rule: CostRule, j: nat)
    requires batchSize >= 1
    requires j < |GreedySplit(d, batchSize * 100, CountRule)|
    ensures GreedySplit(d, batchSize * 100, CountRule) == Chunks(d, batchSize * 100)
    ensures Flatten(GreedySplit(d, batchSize * 100, CountRule)) == d
    ensures Flatten(GreedySplit(Sort(GreedySplit(d, batchSize * 100, CountRule)[j]), batchSize, rule))
         == Sort(GreedySplit(d, batchSize * 100, CountRule)[j])
  {
    PoolsAreChunks(d, batchSize * 100);
    SplitFlatten(d, batchSize * 100, CountRule);
    SplitFlatten(Sort(GreedySplit(d, batchSize * 100, CountRule)[j]), batchSize, rule);
  }

  // ---------------------------------------------------------------- evaluation

  /** The evaluation branch: the split batches in split order, each sorted. */
  method EvalBatches(d: seq<Example>, batchSize: nat, rule: CostRule) returns (batches: seq<seq<Example>>)
    ensures |batches| == |GreedySplit(d, batchSize, rule)|
    ensures forall k :: 0 <= k < |batches| ==> batches[k] == Sort(GreedySplit(d, batchSize, rule)[k])
    ensures forall k :: 0 <= k < |batches| ==> Sorted(batches[k])
    ensures multiset(Flatten(batches)) == multiset(d)
  {
    var split := Batch(d, batchSize, rule);
    batches := SortEach(split);
    SortedEach(batches, split);
    SplitFlatten(d, batchSize, rule);
  }

  /** The loop `for b in data.batch(...): yield sorted(b, key=...)`. */
  method SortEach(split: seq<seq<Example>>) returns (batches: seq<seq<Example>>)
    ensures |batches| == |split|
    ensures forall m :: 0 <= m < |split| ==> batches[m] == Sort(split[m])
  {
    batches := [];
    var k := 0;
    while k < |split|
      invariant 0 <= k <= |split|
      invariant |batches| == k
      invariant forall m :: 0 <= m < k ==> batches[m] == Sort(split[m])
    {
      batches := batches + [Sort(split[k])];
      k := k + 1;
    }
  }

  /** Sorting every batch of a list keeps its examples and sorts each batch. */
  lemma SortedEach(batches: seq<seq<Example>>, split: seq<seq<Example>>)
    requires |batches| == |split|
    requires forall m :: 0 <= m < |split| ==> batches[m] == Sort(split[m])
    ensures forall m :: 0 <= m < |batches| ==> Sorted(batches[m])
    ensures multiset(Flatten(batches)) == multiset(Flatten(split))
  {
    forall m | 0 <= m < |split| ensures multiset(batches[m]) == multiset(split[m]) {
      assert batches[m] == Sort(split[m]);
    }
    FlattenPointwise(batches, split);
  }

  // ---------------------------------------------------------------- the iterator

  /** The part of `MyIterator` that `create_batches` uses: `self.data()` as a
      sequence, the batch size, the train flag and the splitter's size rule. */
  class MyIterator {
    const examples: seq<Example>
    const batchSize: nat
    const train: bool
    const rule: CostRule
    var batches: seq<seq<Example>>

    constructor(examples: seq<Example>, batchSize: nat, train: bool, rule: CostRule)
      ensures this.examples == examples && this.batchSize == batchSize
      ensures this.train == train && this.rule == rule
      ensures batches == []
    {
      this.examples := examples;
      this.batchSize := batchSize;
      this.train := train;
      this.rule := rule;
      batches := [];
    }

    /** Fills `batches`: in training, the pool generator's output; otherwise
        the sorted split batches. Either way every example appears once. */
    method CreateBatches()
      modifies this
      ensures train ==> exists perPool :: PoolOrder(examples, batchSize, rule, perPool) && batches == Flatten(perPool)
      ensures !train ==> |batches| == |GreedySplit(examples, batchSize, rule)|
      ensures !train ==> forall k :: 0 <= k < |batches| ==> batches[k] == Sort(GreedySplit(examples, batchSize, rule)[k])
      ensures multiset(Flatten(batches)) == multiset(examples)
    {
      if train {
        var b, perPool := Pool(examples, batchSize, rule);
        batches := b;
      } else {
        batches := EvalBatches(examples, batchSize, rule);
      }
    }
  }
}
