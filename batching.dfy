/** The batching of `MyIterator.create_batches` and the token-cost rule
    `batch_size_fn`. An example is a pair of token sequences, `listen` and
    `reply`; a batch is a sequence of examples. The splitter is the greedy rule
    of torchtext's `data.batch`, written out here, and the shuffle is an
    arbitrary permutation. */
module Batching {
  import opened Strings

  datatype Example = Example(listen: seq<string>, reply: seq<string>)

  // ---------------------------------------------------------------- sort key

  /** The sort key `(len(x.listen), len(x.reply))`, compared as a tuple. */
  predicate KeyLe(a: Example, b: Example) {
    |a.listen| < |b.listen| || (|a.listen| == |b.listen| && |a.reply| <= |b.reply|)
  }

  predicate SameKey(a: Example, b: Example) {
    |a.listen| == |b.listen| && |a.reply| == |b.reply|
  }

  predicate Sorted(s: seq<Example>) {
    forall i, j :: 0 <= i < j < |s| ==> KeyLe(s[i], s[j])
  }

  /** The examples of `s` whose key equals that of `e`, in their order in `s`. */
  function WithKeyOf(s: seq<Example>, e: Example): (r: seq<Example>)
    ensures |r| <= |s|
  {
    if s == [] then []
    else (if SameKey(s[0], e) then [s[0]] else []) + WithKeyOf(s[1..], e)
  }

  /** Puts `x` before the first element whose key is not smaller than its own. */
  function Insert(x: Example, s: seq<Example>): (r: seq<Example>)
    ensures |r| == |s| + 1
    ensures multiset(r) == multiset(s) + multiset{x}
    ensures Sorted(s) ==> Sorted(r)
  {
    if s == [] then [x]
    else if KeyLe(x, s[0]) then
      InsertFront(x, s);
      [x] + s
    else
      var t := Insert(x, s[1..]);
      assert s == [s[0]] + s[1..];
      InsertSortedCons(x, s, t);
      [s[0]] + t
  }

  lemma InsertFront(x: Example, s: seq<Example>)
    requires s != [] && KeyLe(x, s[0])
    ensures Sorted(s) ==> Sorted([x] + s)
  {
    if Sorted(s) {
      forall i, j | 0 <= i < j < |[x] + s| ensures KeyLe(([x] + s)[i], ([x] + s)[j]) {
        if i == 0 {
          assert KeyLe(x, s[0]) && (j - 1 == 0 || KeyLe(s[0], s[j - 1]));
        }
      }
    }
  }

  lemma InsertSortedCons(x: Example, s: seq<Example>, t: seq<Example>)
    requires s != [] && !KeyLe(x, s[0])
    requires multiset(t) == multiset(s[1..]) + multiset{x}
    requires Sorted(s) ==> Sorted(t)
    ensures Sorted(s) ==> Sorted([s[0]] + t)
  {
    if Sorted(s) {
      forall k | 0 <= k < |t| ensures KeyLe(s[0], t[k]) {
        assert t[k] in multiset(t);
        if t[k] != x {
          assert t[k] in multiset(s[1..]);
          var m :| 0 <= m < |s[1..]| && s[1..][m] == t[k];
          assert s[m + 1] == t[k];
        }
      }
    }
  }

  /** Python's `sorted(p, key=self.sort_key)`: the result is ordered by the key
      and holds exactly the examples it was given; `SortStable` shows that
      examples of equal key keep their order. */
  function Sort(s: seq<Example>): (r: seq<Example>)
    ensures Sorted(r) && multiset(r) == multiset(s) && |r| == |s|
  {
    if s == [] then []
    else
      assert s == [s[0]] + s[1..];
      Insert(s[0], Sort(s[1..]))
  }

  /** Inserting `x` places it ahead of the examples of equal key, and disturbs
      the order among the examples of any key no further. */
  lemma {:induction false} InsertWithKey(x: Example, s: seq<Example>, e: Example)
    ensures WithKeyOf(Insert(x, s), e)
         == if SameKey(x, e) then [x] + WithKeyOf(s, e) else WithKeyOf(s, e)
  {
    if s == [] {
      WithKeyOfCons(x, [], e);
    } else if KeyLe(x, s[0]) {
      WithKeyOfCons(x, s, e);
    } else {
      var t := Insert(x, s[1..]);
      InsertWithKey(x, s[1..], e);
      assert Insert(x, s) == [s[0]] + t;
      WithKeyOfCons(s[0], t, e);
      WithKeyOfCons(s[0], s[1..], e);
      assert [s[0]] + s[1..] == s;
      if SameKey(x, e) {
        assert !SameKey(s[0], e);
      }
    }
  }

  lemma WithKeyOfCons(y: Example, t: seq<Example>, e: Example)
    ensures WithKeyOf([y] + t, e) == (if SameKey(y, e) then [y] else []) + WithKeyOf(t, e)
  {
    assert ([y] + t)[1..] == t;
  }

  /** Stability: among the examples of one key, the sort keeps the input order. */
  lemma {:induction false} SortStable(s: seq<Example>, e: Example)
    ensures WithKeyOf(Sort(s), e) == WithKeyOf(s, e)
  {
    if s != [] {
      SortStable(s[1..], e);
      StableStep(s, e);
    }
  }

  /** One insertion step of the stability proof. */
  lemma StableStep(s: seq<Example>, e: Example)
    requires s != [] && WithKeyOf(Sort(s[1..]), e) == WithKeyOf(s[1..], e)
    ensures WithKeyOf(Sort(s), e) == WithKeyOf(s, e)
  {
    var x, t := s[0], s[1..];
    assert Sort(s) == Insert(x, Sort(t));
    StableInsert(x, t, Sort(t), Sort(s), e);
    assert s == [x] + t;
  }

  lemma StableInsert(x: Example, t: seq<Example>, st: seq<Example>, r: seq<Example>, e: Example)
    requires r == Insert(x, st) && WithKeyOf(st, e) == WithKeyOf(t, e)
    ensures WithKeyOf(r, e) == WithKeyOf([x] + t, e)
  {
    InsertWithKey(x, st, e);
    WithKeyOfCons(x, t, e);
  }

  // ---------------------------------------------------------------- batch_size_fn

  function Max(a: nat, b: nat): nat {
    if a >= b then a else b
  }

  /** The longest `listen` of the batch, 0 for no example. */
  function MaxSrc(b: seq<Example>): nat {
    if b == [] then 0 else Max(MaxSrc(b[..|b| - 1]), |b[|b| - 1].listen|)
  }

  /** The longest `reply` of the batch plus two (the `<sos>` and `<eos>` tokens). */
  function MaxTgt(b: seq<Example>): nat {
    if b == [] then 0 else Max(MaxTgt(b[..|b| - 1]), |b[|b| - 1].reply| + 2)
  }

  /** The padded token count of a batch, as `batch_size_fn` computes it. */
  function TokenCost(b: seq<Example>): nat {
    |b| * Max(MaxSrc(b), MaxTgt(b))
  }

  /** The cost is the example count times the longest side, where a `reply`
      counts two extra tokens: it bounds every example's padded sides, one
      example attains it, and so it is at least twice the example count. */
  lemma TokenCostBounds(b: seq<Example>)
    ensures forall k :: 0 <= k < |b| ==>
      |b| * |b[k].listen| <= TokenCost(b) && |b| * (|b[k].reply| + 2) <= TokenCost(b)
    ensures b != [] ==> exists k :: (0 <= k < |b| &&
      (TokenCost(b) == |b| * |b[k].listen| || TokenCost(b) == |b| * (|b[k].reply| + 2)))
    ensures TokenCost(b) >= 2 * |b|
  {
    ScaledMax(b, Max(MaxSrc(b), MaxTgt(b)));
  }

  lemma ScaledMax(b: seq<Example>, m: nat)
    requires m == Max(MaxSrc(b), MaxTgt(b))
    ensures forall k :: 0 <= k < |b| ==> |b| * |b[k].listen| <= |b| * m && |b| * (|b[k].reply| + 2) <= |b| * m
    ensures b != [] ==> exists k :: 0 <= k < |b| && (m == |b[k].listen| || m == |b[k].reply| + 2)
    ensures |b| * m >= 2 * |b|
  {
    MaxSrcIsMax(b);
    MaxTgtIsMax(b);
    forall k | 0 <= k < |b|
      ensures |b| * |b[k].listen| <= |b| * m && |b| * (|b[k].reply| + 2) <= |b| * m
    {
      MulRight(|b|, |b[k].listen|, m);
      MulRight(|b|, |b[k].reply| + 2, m);
    }
    if b != [] {
      MulRight(|b|, 2, m);
      if m == MaxSrc(b) {
        var k :| 0 <= k < |b| && |b[k].listen| == MaxSrc(b);
      } else {
        var k :| 0 <= k < |b| && |b[k].reply| + 2 == MaxTgt(b);
      }
    }
  }

  /** `MaxSrc` is the largest `len(listen)` of the batch, and one example attains it. */
  lemma {:induction false} MaxSrcIsMax(b: seq<Example>)
    ensures forall k :: 0 <= k < |b| ==> |b[k].listen| <= MaxSrc(b)
    ensures b != [] ==> exists k :: 0 <= k < |b| && |b[k].listen| == MaxSrc(b)
  {
    if b != [] {
      var init := b[..|b| - 1];
      MaxSrcIsMax(init);
      assert forall k :: 0 <= k < |init| ==> b[k] == init[k];
      if init != [] && MaxSrc(init) >= |b[|b| - 1].listen| {
        var k :| 0 <= k < |init| && |init[k].listen| == MaxSrc(init);
        assert |b[k].listen| == MaxSrc(b);
      } else {
        assert |b[|b| - 1].listen| == MaxSrc(b);
      }
    }
  }

  /** `MaxTgt` is the largest `len(reply) + 2` of the batch, and one example attains it. */
  lemma {:induction false} MaxTgtIsMax(b: seq<Example>)
    ensures forall k :: 0 <= k < |b| ==> |b[k].reply| + 2 <= MaxTgt(b)
    ensures b != [] ==> exists k :: 0 <= k < |b| && |b[k].reply| + 2 == MaxTgt(b)
  {
    if b != [] {
      var init := b[..|b| - 1];
      MaxTgtIsMax(init);
      assert forall k :: 0 <= k < |init| ==> b[k] == init[k];
      if init != [] && MaxTgt(init) >= |b[|b| - 1].reply| + 2 {
        var k :| 0 <= k < |init| && |init[k].reply| + 2 == MaxTgt(init);
        assert |b[k].reply| + 2 == MaxTgt(b);
      } else {
        assert |b[|b| - 1].reply| + 2 == MaxTgt(b);
      }
    }
  }

  /** Adding an example to a batch never lowers its cost. */
  lemma TokenCostMonotone(b: seq<Example>, x: Example)
    ensures TokenCost(b + [x]) >= TokenCost(b)
  {
    MaxSnoc(b, x);
    MulMonotone(|b|, |b + [x]|, Max(MaxSrc(b), MaxTgt(b)), Max(MaxSrc(b + [x]), MaxTgt(b + [x])));
  }

  /** The maxima grow by one example at a time. */
  lemma MaxSnoc(b: seq<Example>, x: Example)
    ensures MaxSrc(b + [x]) == Max(MaxSrc(b), |x.listen|)
    ensures MaxTgt(b + [x]) == Max(MaxTgt(b), |x.reply| + 2)
  {
    assert (b + [x])[..|b|] == b;
  }

  lemma MulMonotone(a: nat, b: nat, c: nat, d: nat)
    requires a <= b && c <= d
    ensures a * c <= b * d
  {
    MulLeft(a, b, c);
    MulRight(b, c, d);
  }

  lemma MulLeft(a: nat, b: nat, c: nat)
    requires a <= b
    ensures a * c <= b * c
  {
  }

  lemma MulRight(a: nat, c: nat, d: nat)
    requires c <= d
    ensures a * c <= a * d
  {
  }

  /** `max(count * a, count * b) == count * max(a, b)`. */
  lemma MaxOfProducts(count: nat, a: nat, b: nat)
    ensures Max(count * a, count * b) == count * Max(a, b)
  {
    if a >= b {
      MulRight(count, b, a);
    } else {
      MulRight(count, a, b);
    }
  }

  /** The module-global maxima `max_src_in_batch` and `max_tgt_in_batch`. */
  class TokenCounter {
    var maxSrc: nat
    var maxTgt: nat

    constructor()
      ensures maxSrc == 0 && maxTgt == 0
    {
      maxSrc := 0;
      maxTgt := 0;
    }

    /** `batch_size_fn(new, count, sofar)`, with `ex` for `new`: `count == 1`
        starts a new batch; `sofar` is not used. */
    method BatchSizeFn(ex: Example, count: nat, sofar: nat) returns (r: nat)
      modifies this
      ensures maxSrc == Max(if count == 1 then 0 else old(maxSrc), |ex.listen|)
      ensures maxTgt == Max(if count == 1 then 0 else old(maxTgt), |ex.reply| + 2)
      ensures r == Max(count * maxSrc, count * maxTgt)
      ensures r == count * Max(maxSrc, maxTgt) && r >= 2 * count
    {
      if count == 1 {
        maxSrc := 0;
        maxTgt := 0;
      }
      maxSrc := Max(maxSrc, |ex.listen|);
      maxTgt := Max(maxTgt, |ex.reply| + 2);
      var srcElements := count * maxSrc;
      var tgtElements := count * maxTgt;
      r := Max(srcElements, tgtElements);
      MaxOfProducts(count, maxSrc, maxTgt);
      MulRight(count, 2, maxTgt);
    }
  }

  // ---------------------------------------------------------------- the greedy splitter

  /** The `batch_size_fn` a splitter is given: torchtext's default counts the
      examples; `batch_size_fn` above counts padded tokens. */
  datatype CostRule = CountRule | TokenRule

  /** What the rule returns for a batch fed to it example by example. */
  function Cost(rule: CostRule, b: seq<Example>): nat {
    match rule
    case CountRule => |b|
    case TokenRule => TokenCost(b)
  }

  /** `data.batch` from the point where `minibatch` holds `mb` and `rest` is
      still to come: append the next example; at exactly the budget emit the
      batch; over it, emit all but the new example and start again from it. */
  function SplitFrom(rest: seq<Example>, mb: seq<Example>, budget: nat, rule: CostRule): seq<seq<Example>>
    decreases |rest|
  {
    if rest == [] then (if mb != [] then [mb] else [])
    else
      var grown := mb + [rest[0]];
      var size := Cost(rule, grown);
      if size == budget then [grown] + SplitFrom(rest[1..], [], budget, rule)
      else if size > budget then [mb] + SplitFrom(rest[1..], [rest[0]], budget, rule)
      else SplitFrom(rest[1..], grown, budget, rule)
  }

  /** `data.batch(d, budget, rule)`, from an empty batch; `SplitFlatten` and
      `SplitBudget` state what it promises. */
  function GreedySplit(d: seq<Example>, budget: nat, rule: CostRule): seq<seq<Example>> {
    SplitFrom(d, [], budget, rule)
  }

  function Flatten<T>(xs: seq<seq<T>>): seq<T> {
    if xs == [] then [] else xs[0] + Flatten(xs[1..])
  }

  lemma {:induction false} FlattenConcat<T>(xs: seq<seq<T>>, ys: seq<seq<T>>)
    ensures Flatten(xs + ys) == Flatten(xs) + Flatten(ys)
  {
    if xs == [] {
      assert xs + ys == ys;
    } else {
      assert (xs + ys)[1..] == xs[1..] + ys;
      FlattenConcat(xs[1..], ys);
    }
  }

  lemma FlattenCons<T>(x: seq<T>, xs: seq<seq<T>>)
    ensures Flatten([x] + xs) == x + Flatten(xs)
  {
    assert ([x] + xs)[1..] == xs;
  }

  /** Moving the next example into the batch does not change what is covered. */
  lemma ShiftOne<T>(mb: seq<T>, rest: seq<T>)
    requires rest != []
    ensures (mb + [rest[0]]) + rest[1..] == mb + rest
    ensures [rest[0]] + rest[1..] == rest
  {
    assert rest == [rest[0]] + rest[1..];
  }

  /** The splitter neither drops, repeats nor reorders examples: the batches,
      joined, are the input. */
  lemma {:induction false} SplitFromFlatten(rest: seq<Example>, mb: seq<Example>, budget: nat, rule: CostRule)
    ensures Flatten(SplitFrom(rest, mb, budget, rule)) == mb + rest
    decreases |rest|
  {
    if rest == [] {
      assert mb + rest == mb;
      if mb != [] {
        FlattenCons(mb, []);
      }
    } else {
      var x, tail := rest[0], rest[1..];
      var grown := mb + [x];
      var size := Cost(rule, grown);
      ShiftOne(mb, rest);
      if size == budget {
        SplitFromFlatten(tail, [], budget, rule);
        FlattenCons(grown, SplitFrom(tail, [], budget, rule));
        assert [] + tail == tail;
      } else if size > budget {
        SplitFromFlatten(tail, [x], budget, rule);
        FlattenCons(mb, SplitFrom(tail, [x], budget, rule));
        SeqAssoc(mb, [x], tail);
      } else {
        SplitFromFlatten(tail, grown, budget, rule);
      }
    }
  }


  /** A batch stays within the budget unless it is a single example that
      exceeds it on its own. */
  predicate WithinBudget(b: seq<Example>, budget: nat, rule: CostRule) {
    Cost(rule, b) <= budget || |b| == 1
  }

  predicate AllWithin(bs: seq<seq<Example>>, budget: nat, rule: CostRule) {
    forall k :: 0 <= k < |bs| ==> WithinBudget(bs[k], budget, rule)
  }

  lemma ConsWithin(b: seq<Example>, bs: seq<seq<Example>>, budget: nat, rule: CostRule)
    requires WithinBudget(b, budget, rule) && AllWithin(bs, budget, rule)
    ensures AllWithin([b] + bs, budget, rule)
  {
    assert forall k :: 1 <= k < |bs| + 1 ==> ([b] + bs)[k] == bs[k - 1];
  }

  lemma {:induction false} SplitFromBudget(rest: seq<Example>, mb: seq<Example>, budget: nat, rule: CostRule)
    requires mb == [] || Cost(rule, mb) < budget || |mb| == 1
    ensures AllWithin(SplitFrom(rest, mb, budget, rule), budget, rule)
    decreases |rest|
  {
    if rest == [] {
      assert mb != [] ==> WithinBudget(mb, budget, rule);
    } else {
      var grown := mb + [rest[0]];
      var size := Cost(rule, grown);
      if size == budget {
        var tail := SplitFrom(rest[1..], [], budget, rule);
        SplitFromBudget(rest[1..], [], budget, rule);
        ConsWithin(grown, tail, budget, rule);
      } else if size > budget {
        var tail := SplitFrom(rest[1..], [rest[0]], budget, rule);
        SplitFromBudget(rest[1..], [rest[0]], budget, rule);
        ConsWithin(mb, tail, budget, rule);
      } else {
        SplitFromBudget(rest[1..], grown, budget, rule);
      }
    }
  }

  /** The batches, joined in order, are the input. */
  lemma SplitFlatten(d: seq<Example>, budget: nat, rule: CostRule)
    ensures Flatten(GreedySplit(d, budget, rule)) == d
  {
    SplitFromFlatten(d, [], budget, rule);
    assert [] + d == d;
  }

  /** Every batch costs at most the budget unless it is a single example. */
  lemma SplitBudget(d: seq<Example>, budget: nat, rule: CostRule)
    ensures AllWithin(GreedySplit(d, budget, rule), budget, rule)
  {
    SplitFromBudget(d, [], budget, rule);
  }

  /** When every example fits the budget on its own, no batch is empty. An
      example that exceeds it alone is emitted after an empty batch. */
  lemma {:induction false} SplitFromNonEmpty(rest: seq<Example>, mb: seq<Example>, budget: nat, rule: CostRule)
    requires forall k :: 0 <= k < |rest| ==> Cost(rule, [rest[k]]) <= budget
    ensures forall k :: 0 <= k < |SplitFrom(rest, mb, budget, rule)| ==> SplitFrom(rest, mb, budget, rule)[k] != []
    decreases |rest|
  {
    if rest != [] {
      var grown := mb + [rest[0]];
      var size := Cost(rule, grown);
      assert mb == [] ==> grown == [rest[0]];
      if size == budget {
        SplitFromNonEmpty(rest[1..], [], budget, rule);
      } else if size > budget {
        SplitFromNonEmpty(rest[1..], [rest[0]], budget, rule);
      } else {
        SplitFromNonEmpty(rest[1..], grown, budget, rule);
      }
    }
  }

  lemma SplitNonEmpty(d: seq<Example>, budget: nat, rule: CostRule)
    requires forall k :: 0 <= k < |d| ==> Cost(rule, [d[k]]) <= budget
    ensures forall k :: 0 <= k < |GreedySplit(d, budget, rule)| ==> GreedySplit(d, budget, rule)[k] != []
  {
    SplitFromNonEmpty(d, [], budget, rule);
  }

  /** Each batch with examples after it is full: adding the example that
      follows it would take it over the budget, so the splitter never closes
      a batch that could still have grown. */
  predicate Greedy(bs: seq<seq<Example>>, budget: nat, rule: CostRule) {
    forall k :: 0 <= k < |bs| - 1 && bs[k] != [] ==>
      Flatten(bs[k + 1..]) != [] && Cost(rule, bs[k] + [Flatten(bs[k + 1..])[0]]) > budget
  }

  /** Either rule charges strictly more for each example added. */
  lemma CostGrows(rule: CostRule, b: seq<Example>, x: Example)
    ensures Cost(rule, b + [x]) > Cost(rule, b)
  {
    if rule == TokenRule {
      var m, m' := Max(MaxSrc(b), MaxTgt(b)), Max(MaxSrc(b + [x]), MaxTgt(b + [x]));
      MaxSnoc(b, x);
      assert m <= m' && m' >= 2;
      assert |b + [x]| == |b| + 1;
      ProductGrows(|b|, m, m');
    }
  }

  /** One more factor of a larger, positive maximum gives a larger product. */
  lemma ProductGrows(n: nat, m: nat, m': nat)
    requires m <= m' && m' >= 1
    ensures (n + 1) * m' > n * m
  {
    MulMonotone(n, n, m, m');
    assert (n + 1) * m' == n * m' + m';
  }

  lemma GreedyCons(b: seq<Example>, bs: seq<seq<Example>>, budget: nat, rule: CostRule)
    requires Greedy(bs, budget, rule)
    requires b != [] && bs != [] ==> Flatten(bs) != [] && Cost(rule, b + [Flatten(bs)[0]]) > budget
    ensures Greedy([b] + bs, budget, rule)
  {
    var all := [b] + bs;
    forall k | 0 <= k < |all| - 1 && all[k] != []
      ensures Flatten(all[k + 1..]) != [] && Cost(rule, all[k] + [Flatten(all[k + 1..])[0]]) > budget
    {
      if k == 0 {
        assert all[1..] == bs;
      } else {
        GreedyShift(b, bs, k, all, budget, rule);
      }
    }
  }

  lemma GreedyShift(b: seq<Example>, bs: seq<seq<Example>>, k: nat, all: seq<seq<Example>>, budget: nat, rule: CostRule)
    requires Greedy(bs, budget, rule) && all == [b] + bs
    requires 0 < k < |all| - 1 && all[k] != []
    ensures Flatten(all[k + 1..]) != [] && Cost(rule, all[k] + [Flatten(all[k + 1..])[0]]) > budget
  {
    assert all[k] == bs[k - 1] && all[k + 1..] == bs[k - 1 + 1..];
  }

  lemma {:induction false} SplitFromGreedy(rest: seq<Example>, mb: seq<Example>, budget: nat, rule: CostRule)
    ensures Greedy(SplitFrom(rest, mb, budget, rule), budget, rule)
    decreases |rest|
  {
    if rest != [] {
      var x, tail := rest[0], rest[1..];
      var grown := mb + [x];
      var size := Cost(rule, grown);
      if size == budget {
        var bs := SplitFrom(tail, [], budget, rule);
        SplitFromGreedy(tail, [], budget, rule);
        SplitFromFlatten(tail, [], budget, rule);
        assert [] + tail == tail;
        if tail != [] {
          CostGrows(rule, grown, tail[0]);
        }
        GreedyCons(grown, bs, budget, rule);
      } else if size > budget {
        var bs := SplitFrom(tail, [x], budget, rule);
        SplitFromGreedy(tail, [x], budget, rule);
        SplitFromFlatten(tail, [x], budget, rule);
        GreedyCons(mb, bs, budget, rule);
      } else {
        SplitFromGreedy(tail, grown, budget, rule);
      }
    }
  }

  /** `data.batch` is greedy: a batch is closed only when the next example
      would not fit. */
  lemma SplitGreedy(d: seq<Example>, budget: nat, rule: CostRule)
    ensures Greedy(GreedySplit(d, budget, rule), budget, rule)
  {
    SplitFromGreedy(d, [], budget, rule);
  }

  /** An example that exceeds the budget by itself, at the start of a batch,
      is preceded by an empty batch. */
  lemma OversizedFirst(x: Example, budget: nat, rule: CostRule)
    requires Cost(rule, [x]) > budget
    ensures GreedySplit([x], budget, rule) == [[], [x]]
  {
    var d := [x];
    assert [] + [d[0]] == [x] && d[1..] == [];
    assert SplitFrom(d[1..], [x], budget, rule) == [[x]];
  }

  /** Every batch cut from a sorted sequence is sorted. */
  lemma {:induction false} SplitFromSorted(rest: seq<Example>, mb: seq<Example>, budget: nat, rule: CostRule)
    requires Sorted(mb + rest)
    ensures forall k :: 0 <= k < |SplitFrom(rest, mb, budget, rule)| ==> Sorted(SplitFrom(rest, mb, budget, rule)[k])
    decreases |rest|
  {
    if rest == [] {
      assert mb + rest == mb;
    } else {
      var x, tail := rest[0], rest[1..];
      var grown := mb + [x];
      var size := Cost(rule, grown);
      ShiftOne(mb, rest);
      SortedParts(grown, tail);
      if size == budget {
        assert [] + tail == tail;
        SplitFromSorted(tail, [], budget, rule);
      } else if size > budget {
        SeqAssoc(mb, [x], tail);
        SortedParts(mb, [x] + tail);
        SplitFromSorted(tail, [x], budget, rule);
      } else {
        SplitFromSorted(tail, grown, budget, rule);
      }
    }
  }

  /** The two halves of a sorted sequence are sorted. */
  lemma SortedParts(a: seq<Example>, b: seq<Example>)
    requires Sorted(a + b)
    ensures Sorted(a) && Sorted(b)
  {
    assert a == (a + b)[..|a|] && b == (a + b)[|a|..];
    SortedSlice(a + b, 0, |a|);
    SortedSlice(a + b, |a|, |a + b|);
  }

  lemma SortedSlice(s: seq<Example>, i: nat, j: nat)
    requires Sorted(s) && i <= j <= |s|
    ensures Sorted(s[i..j])
  {
    forall a, b | 0 <= a < b < j - i ensures KeyLe(s[i..j][a], s[i..j][b]) {
      assert s[i..j][a] == s[i + a] && s[i..j][b] == s[i + b];
    }
  }

  lemma SplitSorted(d: seq<Example>, budget: nat, rule: CostRule)
    requires Sorted(d)
    ensures forall k :: 0 <= k < |GreedySplit(d, budget, rule)| ==> Sorted(GreedySplit(d, budget, rule)[k])
  {
    assert [] + d == d;
    SplitFromSorted(d, [], budget, rule);
  }

  // ---------------------------------------------------------------- pools

  /** Consecutive chunks of `n` examples in input order, the last one shorter. */
  function Chunks(d: seq<Example>, n: nat): seq<seq<Example>>
    requires n >= 1
    decreases |d|
  {
    if d == [] then []
    else if |d| <= n then [d]
    else [d[..n]] + Chunks(d[n..], n)
  }

  /** Counting examples against a budget of `n` cuts the input into chunks of `n`. */
  lemma {:induction false} SplitFromCounts(rest: seq<Example>, mb: seq<Example>, n: nat)
    requires n >= 1 && |mb| < n
    ensures SplitFrom(rest, mb, n, CountRule) == Chunks(mb + rest, n)
    decreases |rest|
  {
    if rest == [] {
      assert mb + rest == mb;
    } else {
      var x, tail := rest[0], rest[1..];
      var grown := mb + [x];
      var all := mb + rest;
      ShiftOne(mb, rest);
      assert Cost(CountRule, grown) == |grown| == |mb| + 1;
      if |grown| == n {
        SplitFromCounts(tail, [], n);
        assert [] + tail == tail;
        ChunksFront(all, grown, tail, n);
      } else {
        SplitFromCounts(tail, grown, n);
      }
    }
  }

  lemma ChunksFront(all: seq<Example>, front: seq<Example>, tail: seq<Example>, n: nat)
    requires n >= 1 && all == front + tail && |front| == n
    ensures Chunks(all, n) == [front] + Chunks(tail, n)
  {
    if tail == [] {
      assert all == front;
    } else {
      assert all[..n] == front && all[n..] == tail;
    }
  }

  lemma PoolsAreChunks(d: seq<Example>, n: nat)
    requires n >= 1
    ensures GreedySplit(d, n, CountRule) == Chunks(d, n)
  {
    SplitFromCounts(d, [], n);
    assert [] + d == d;
  }

  /** All chunks but the last hold exactly `n` examples, and none is empty. */
  lemma {:induction false} ChunkSizes(d: seq<Example>, n: nat)
    requires n >= 1
    ensures forall k :: 0 <= k < |Chunks(d, n)| ==> 1 <= |Chunks(d, n)[k]| <= n
    ensures forall k :: 0 <= k < |Chunks(d, n)| - 1 ==> |Chunks(d, n)[k]| == n
    decreases |d|
  {
    if |d| > n {
      ChunkSizes(d[n..], n);
    }
  }

  // ---------------------------------------------------------------- permutations of batches

  /** Shuffling the batches keeps every example: a permutation of the batch
      list joins to a permutation of the examples. */
  lemma {:induction false} FlattenPermutation<T>(xs: seq<seq<T>>, ys: seq<seq<T>>)
    requires multiset(xs) == multiset(ys)
    ensures multiset(Flatten(xs)) == multiset(Flatten(ys))
    decreases |xs|
  {
    if xs == [] {
      assert |ys| == |multiset(ys)| == 0;
    } else {
      var x := xs[0];
      assert x in multiset(ys);
      var k :| 0 <= k < |ys| && ys[k] == x;
      var before, after := ys[..k], ys[k + 1..];
      assert ys == before + [x] + after;
      var others := before + after;
      RemoveBatch(ys, before, x, after);
      assert xs == [x] + xs[1..];
      assert multiset(xs) == multiset(xs[1..]) + multiset{x};
      Cancel(multiset(xs[1..]), multiset(others), x);
      FlattenPermutation(xs[1..], others);
      FlattenCons(x, xs[1..]);
    }
  }

  /** Taking one batch `x` out of a batch list. */
  lemma RemoveBatch<T>(ys: seq<seq<T>>, before: seq<seq<T>>, x: seq<T>, after: seq<seq<T>>)
    requires ys == before + [x] + after
    ensures multiset(ys) == multiset(before + after) + multiset{x}
    ensures multiset(Flatten(ys)) == multiset(Flatten(before + after)) + multiset(x)
  {
    FlattenConcat(before + [x], after);
    FlattenConcat(before, [x]);
    FlattenConcat(before, after);
    FlattenSingle(x);
    MultisetMiddle(before, [x], after);
    MultisetMiddle(Flatten(before), x, Flatten(after));
  }

  lemma FlattenSingle<T>(x: seq<T>)
    ensures Flatten([x]) == x
  {
    assert [x][1..] == [];
  }

  lemma MultisetMiddle<T>(a: seq<T>, b: seq<T>, c: seq<T>)
    ensures multiset(a + b + c) == multiset(a + c) + multiset(b)
  {
  }

  lemma Cancel<T>(a: multiset<T>, b: multiset<T>, x: T)
    requires a + multiset{x} == b + multiset{x}
    ensures a == b
  {
    assert a == (a + multiset{x}) - multiset{x};
    assert b == (b + multiset{x}) - multiset{x};
  }

  lemma {:induction false} FlattenPointwise(xs: seq<seq<Example>>, ys: seq<seq<Example>>)
    requires |xs| == |ys| && forall k :: 0 <= k < |xs| ==> multiset(xs[k]) == multiset(ys[k])
    ensures multiset(Flatten(xs)) == multiset(Flatten(ys))
    decreases |xs|
  {
    if xs != [] {
      FlattenPointwise(xs[1..], ys[1..]);
    }
  }

  method Shuffle<T(==)>(xs: seq<T>) returns (ys: seq<T>)
    ensures multiset(ys) == multiset(xs)
  {
    ys :| multiset(ys) == multiset(xs);
  }
}
