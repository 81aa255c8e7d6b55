/** The reward percentiles of a block in the fee history: one cursor moves forward over the sorted transactions. */
module Percentiles {
  import opened EvmTypes

  /** A transaction's gas and the tip it pays for each unit. */
  datatype GasAndReward = GasAndReward(gasUsed: uint64, reward: int)

  // ---- sorting by reward ----

  ghost predicate SortedByReward(txs: seq<GasAndReward>) {
    forall i, j :: 0 <= i <= j < |txs| ==> txs[i].reward <= txs[j].reward
  }

  function Insert(tx: GasAndReward, txs: seq<GasAndReward>): seq<GasAndReward> {
    if txs == [] || tx.reward <= txs[0].reward then [tx] + txs else [txs[0]] + Insert(tx, txs[1..])
  }

  /** A sorted rearrangement of the transactions. */
  function Sort(txs: seq<GasAndReward>): seq<GasAndReward> {
    if txs == [] then [] else Insert(txs[0], Sort(txs[1..]))
  }

  ghost predicate AtLeast(bound: int, txs: seq<GasAndReward>) {
    forall i :: 0 <= i < |txs| ==> bound <= txs[i].reward
  }

  lemma {:induction false} InsertKeepsBound(tx: GasAndReward, txs: seq<GasAndReward>, bound: int)
    requires bound <= tx.reward && AtLeast(bound, txs)
    ensures AtLeast(bound, Insert(tx, txs))
  {
    if txs != [] && tx.reward > txs[0].reward {
      InsertKeepsBound(tx, txs[1..], bound);
    }
  }

  lemma PrependSorted(tx: GasAndReward, txs: seq<GasAndReward>)
    requires AtLeast(tx.reward, txs) && SortedByReward(txs)
    ensures SortedByReward([tx] + txs)
  {
  }

  lemma {:induction false} InsertSorts(tx: GasAndReward, txs: seq<GasAndReward>)
    requires SortedByReward(txs)
    ensures SortedByReward(Insert(tx, txs))
  {
    if txs == [] {
    } else if tx.reward <= txs[0].reward {
      PrependSorted(tx, txs);
    } else {
      InsertSorts(tx, txs[1..]);
      InsertKeepsBound(tx, txs[1..], txs[0].reward);
      PrependSorted(txs[0], Insert(tx, txs[1..]));
    }
  }

  lemma {:induction false} InsertRearranges(tx: GasAndReward, txs: seq<GasAndReward>)
    ensures multiset(Insert(tx, txs)) == multiset(txs) + multiset{tx}
  {
    if txs != [] && tx.reward > txs[0].reward {
      InsertRearranges(tx, txs[1..]);
      assert txs == [txs[0]] + txs[1..];
    }
  }

  lemma {:induction false} SortSorts(txs: seq<GasAndReward>)
    ensures SortedByReward(Sort(txs)) && multiset(Sort(txs)) == multiset(txs) && |Sort(txs)| == |txs|
  {
    if txs != [] {
      SortSorts(txs[1..]);
      InsertSorts(txs[0], Sort(txs[1..]));
      InsertRearranges(txs[0], Sort(txs[1..]));
      assert txs == [txs[0]] + txs[1..];
      assert |multiset(Sort(txs))| == |multiset(txs)|;
    }
  }

  // ---- the first transaction whose running total reaches the threshold ----

  /** The gas of the transactions up to and including the i-th. */
  function Total(txs: seq<GasAndReward>, i: nat): nat
    requires i < |txs|
  {
    if i == 0 then txs[0].gasUsed else Total(txs, i - 1) + txs[i].gasUsed
  }

  /** The index i is the least whose total, itself included, reaches the threshold, or the last one if none does. */
  ghost predicate Reaches(txs: seq<GasAndReward>, threshold: nat, i: nat) {
    && i < |txs|
    && (Total(txs, i) >= threshold || i == |txs| - 1)
    && (forall j :: 0 <= j < i ==> Total(txs, j) < threshold)
  }

  lemma {:induction false} TotalGrows(txs: seq<GasAndReward>, i: nat, j: nat)
    requires i <= j < |txs|
    ensures Total(txs, i) <= Total(txs, j)
  {
    if i < j {
      TotalGrows(txs, i, j - 1);
    }
  }

  /** There is one such index for a threshold, and a larger threshold is reached no earlier. */
  lemma ReachesMonotone(txs: seq<GasAndReward>, t: nat, u: nat, i: nat, j: nat)
    requires Reaches(txs, t, i) && Reaches(txs, u, j)
    ensures t <= u ==> i <= j
    ensures t == u ==> i == j
  {
  }

  function Highest(thresholds: seq<uint64>, i: nat): uint64
    requires i < |thresholds|
  {
    if i == 0 then thresholds[0] else
      var before := Highest(thresholds, i - 1);
      if before < thresholds[i] then thresholds[i] else before
  }

  ghost predicate NonDecreasing(thresholds: seq<uint64>) {
    forall i, j :: 0 <= i <= j < |thresholds| ==> thresholds[i] <= thresholds[j]
  }

  lemma {:induction false} HighestOfSorted(thresholds: seq<uint64>, i: nat)
    requires i < |thresholds| && NonDecreasing(thresholds)
    ensures Highest(thresholds, i) == thresholds[i]
  {
    if i > 0 {
      HighestOfSorted(thresholds, i - 1);
    }
  }

  /** The reward r belongs to the first sorted transaction at which the total gas reaches the threshold. */
  ghost predicate RewardAt(sorted: seq<GasAndReward>, threshold: nat, r: int) {
    exists k: nat :: Reaches(sorted, threshold, k) && sorted[k].reward == r
  }

  // ---- the same without an order ----

  function GasWhere(txs: seq<GasAndReward>, bound: int): nat {
    if txs == [] then 0
    else GasWhere(txs[..|txs| - 1], bound) + if txs[|txs| - 1].reward < bound then txs[|txs| - 1].gasUsed else 0
  }

  /** The gas of the transactions with a smaller reward. */
  function GasBelow(txs: seq<GasAndReward>, r: int): nat {
    GasWhere(txs, r)
  }

  /** The gas of the transactions with at most this reward. */
  function GasUpTo(txs: seq<GasAndReward>, r: int): nat {
    GasWhere(txs, r + 1)
  }

  /**
   * The weighted percentile of a block, whatever order its transactions are in: the gas of smaller rewards stays below
   * the threshold and that of this reward and smaller ones reaches it; the least reward if the threshold is zero, the
   * greatest if it is never reached.
   */
  ghost predicate RewardFor(txs: seq<GasAndReward>, threshold: nat, r: int) {
    && (exists i :: 0 <= i < |txs| && txs[i].reward == r)
    && ((forall i :: 0 <= i < |txs| ==> r <= txs[i].reward) || GasBelow(txs, r) < threshold)
    && ((forall i :: 0 <= i < |txs| ==> txs[i].reward <= r) || GasUpTo(txs, r) >= threshold)
  }

  lemma {:induction false} WhereGrows(txs: seq<GasAndReward>, b: int, c: int)
    requires b <= c
    ensures GasWhere(txs, b) <= GasWhere(txs, c)
  {
    if txs != [] {
      WhereGrows(txs[..|txs| - 1], b, c);
    }
  }

  /** There is one such reward. */
  lemma RewardUnique(txs: seq<GasAndReward>, threshold: nat, q: int, r: int)
    requires RewardFor(txs, threshold, q) && RewardFor(txs, threshold, r)
    ensures q == r
  {
    WhereGrows(txs, q + 1, if q < r then r else q + 1);
    WhereGrows(txs, r + 1, if r < q then q else r + 1);
  }

  lemma {:induction false} WhereOfPrefix(txs: seq<GasAndReward>, n: nat, bound: int)
    requires n <= |txs|
    ensures GasWhere(txs[..n], bound) <= GasWhere(txs, bound)
  {
    if n == |txs| {
      assert txs[..n] == txs;
    } else {
      WhereOfPrefix(txs[..|txs| - 1], n, bound);
      assert txs[..|txs| - 1][..n] == txs[..n];
    }
  }

  /** Up to a transaction below the bound, a sorted list counts every one. */
  lemma {:induction false} TotalIsWhere(sorted: seq<GasAndReward>, k: nat, bound: int)
    requires SortedByReward(sorted) && k < |sorted| && sorted[k].reward < bound
    ensures Total(sorted, k) == GasWhere(sorted[..k + 1], bound)
  {
    assert sorted[..k + 1][..k] == sorted[..k];
    if k > 0 {
      TotalIsWhere(sorted, k - 1, bound);
    } else {
      assert GasWhere(sorted[..0], bound) == 0;
    }
  }

  /** From a transaction not below the bound on, a sorted list counts none. */
  lemma {:induction false} WhereStops(sorted: seq<GasAndReward>, k: nat, bound: int)
    requires SortedByReward(sorted) && k <= |sorted| && (k < |sorted| ==> sorted[k].reward >= bound)
    ensures GasWhere(sorted, bound) == GasWhere(sorted[..k], bound)
    decreases |sorted|
  {
    if k == |sorted| {
      assert sorted[..k] == sorted;
    } else {
      var front := sorted[..|sorted| - 1];
      assert SortedByReward(front);
      WhereStops(front, k, bound);
      assert front[..k] == sorted[..k];
    }
  }

  lemma {:induction false} WhereBounded(sorted: seq<GasAndReward>, k: nat, bound: int)
    requires k < |sorted|
    ensures GasWhere(sorted[..k + 1], bound) <= Total(sorted, k)
  {
    assert sorted[..k + 1][..k] == sorted[..k];
    if k > 0 {
      WhereBounded(sorted, k - 1, bound);
    } else {
      assert GasWhere(sorted[..0], bound) == 0;
    }
  }

  /** On a sorted list the cursor stops at the percentile. */
  lemma CursorIsPercentile(sorted: seq<GasAndReward>, threshold: nat, k: nat)
    requires SortedByReward(sorted) && Reaches(sorted, threshold, k)
    ensures RewardFor(sorted, threshold, sorted[k].reward)
  {
    var r := sorted[k].reward;
    if k > 0 {
      WhereStops(sorted, k, r);
      WhereBounded(sorted, k - 1, r);
      assert Total(sorted, k - 1) < threshold;
    }
    TotalIsWhere(sorted, k, r + 1);
    WhereOfPrefix(sorted, k + 1, r + 1);
  }

  lemma {:induction false} WhereConcat(a: seq<GasAndReward>, b: seq<GasAndReward>, bound: int)
    ensures GasWhere(a + b, bound) == GasWhere(a, bound) + GasWhere(b, bound)
    decreases |b|
  {
    if b == [] {
      assert a + b == a;
    } else {
      WhereConcat(a, b[..|b| - 1], bound);
      assert (a + b)[..|a + b| - 1] == a + b[..|b| - 1];
    }
  }

  lemma RestPermutes(front: seq<GasAndReward>, c: seq<GasAndReward>, d: seq<GasAndReward>, x: GasAndReward)
    requires multiset(front + [x]) == multiset((c + [x]) + d)
    ensures multiset(front) == multiset(c + d)
  {
    assert multiset(front + [x]) == multiset(front) + multiset{x};
    assert multiset((c + [x]) + d) == multiset(c) + multiset{x} + multiset(d);
    assert multiset(c + d) == multiset(c) + multiset(d);
    assert multiset(front) + multiset{x} - multiset{x} == multiset(front);
    assert multiset(c) + multiset{x} + multiset(d) - multiset{x} == multiset(c) + multiset(d);
  }

  /** Gas sums do not depend on the order. */
  lemma {:induction false} WherePermutes(a: seq<GasAndReward>, b: seq<GasAndReward>, bound: int)
    requires multiset(a) == multiset(b)
    ensures GasWhere(a, bound) == GasWhere(b, bound)
    decreases |a|
  {
    if a == [] {
      assert multiset(a) == multiset{};
      assert b == [];
    } else {
      var x, front := a[|a| - 1], a[..|a| - 1];
      assert a == front + [x];
      assert x in multiset(b);
      var i :| 0 <= i < |b| && b[i] == x;
      var c, d := b[..i], b[i + 1..];
      assert b == (c + [x]) + d;
      RestPermutes(front, c, d, x);
      WherePermutes(front, c + d, bound);
      WhereConcat(c, d, bound);
      WhereConcat(c + [x], d, bound);
      WhereConcat(c, [x], bound);
      WhereConcat(front, [x], bound);
    }
  }

  lemma SameElements(a: seq<GasAndReward>, b: seq<GasAndReward>)
    requires multiset(a) == multiset(b)
    ensures forall x :: x in a <==> x in b
  {
    forall x ensures x in a <==> x in b {
      assert x in a <==> x in multiset(a);
      assert x in b <==> x in multiset(b);
    }
  }

  lemma RewardForPermutes(a: seq<GasAndReward>, b: seq<GasAndReward>, threshold: nat, r: int)
    requires multiset(a) == multiset(b) && RewardFor(a, threshold, r)
    ensures RewardFor(b, threshold, r)
  {
    SameElements(a, b);
    WherePermutes(a, b, r);
    WherePermutes(a, b, r + 1);
    var i :| 0 <= i < |a| && a[i].reward == r;
    assert a[i] in b;
    var j :| 0 <= j < |b| && b[j] == a[i];
    if forall i :: 0 <= i < |a| ==> r <= a[i].reward {
      forall k | 0 <= k < |b| ensures r <= b[k].reward {
        assert b[k] in a;
      }
    }
    if forall i :: 0 <= i < |a| ==> a[i].reward <= r {
      forall k | 0 <= k < |b| ensures b[k].reward <= r {
        assert b[k] in a;
      }
    }
  }

  /** Every sorted rearrangement of a block, however it orders equal rewards, has the cursor stop at the same reward. */
  lemma SortIsImmaterial(txs: seq<GasAndReward>, sorted: seq<GasAndReward>, threshold: nat, k: nat, r: int)
    requires SortedByReward(sorted) && multiset(sorted) == multiset(txs) && Reaches(sorted, threshold, k)
    ensures RewardFor(txs, threshold, r) <==> sorted[k].reward == r
  {
    hide RewardFor;
    CursorIsPercentile(sorted, threshold, k);
    RewardForPermutes(sorted, txs, threshold, sorted[k].reward);
    if RewardFor(txs, threshold, r) {
      RewardUnique(txs, threshold, r, sorted[k].reward);
    }
  }

  function GasSum(txs: seq<GasAndReward>): nat {
    if txs == [] then 0 else GasSum(txs[..|txs| - 1]) + txs[|txs| - 1].gasUsed
  }

  lemma {:induction false} WhereWithinSum(txs: seq<GasAndReward>, bound: int)
    ensures GasWhere(txs, bound) <= GasSum(txs)
  {
    if txs != [] {
      WhereWithinSum(txs[..|txs| - 1], bound);
    }
  }

  lemma TotalFits(txs: seq<GasAndReward>, sorted: seq<GasAndReward>)
    requires sorted != [] && SortedByReward(sorted) && multiset(sorted) == multiset(txs)
    ensures Total(sorted, |sorted| - 1) <= GasSum(txs)
  {
    var last := |sorted| - 1;
    var bound := sorted[last].reward + 1;
    TotalIsWhere(sorted, last, bound);
    assert sorted[..last + 1] == sorted;
    WherePermutes(sorted, txs, bound);
    WhereWithinSum(txs, bound);
  }

  // ---- the loop ----

  /**
   * The loop of `processBlock`. Unless the total gas overflows, the i-th reward is the percentile of the block at the
   * highest threshold so far, which for non-decreasing thresholds is the i-th threshold itself, and the rewards are
   * non-decreasing. A block without transactions has zero rewards.
   */
  method Rewards(txs: seq<GasAndReward>, thresholds: seq<uint64>) returns (rewards: seq<int>)
    requires GasSum(txs) < U64
    ensures |rewards| == |thresholds|
    ensures txs == [] ==> forall i :: 0 <= i < |rewards| ==> rewards[i] == 0
    ensures txs != [] ==> forall i :: 0 <= i < |rewards| ==> RewardFor(txs, Highest(thresholds, i), rewards[i])
    ensures txs != [] && NonDecreasing(thresholds) ==>
      forall i :: 0 <= i < |rewards| ==> RewardFor(txs, thresholds[i], rewards[i])
    ensures txs != [] ==> forall i, j :: 0 <= i <= j < |rewards| ==> rewards[i] <= rewards[j]
  {
    SortSorts(txs);
    var sorter := Sort(txs);
    if |sorter| == 0 {
      rewards := [];
      while |rewards| < |thresholds|
        invariant |rewards| <= |thresholds| && forall i :: 0 <= i < |rewards| ==> rewards[i] == 0
      {
        rewards := rewards + [0];
      }
      return;
    }
    hide Sort, RewardFor, Reaches, Total;
    TotalFits(txs, sorter);
    rewards := Cursor(sorter, thresholds);
    forall i | 0 <= i < |rewards| ensures RewardFor(txs, Highest(thresholds, i), rewards[i]) {
      var k: nat :| Reaches(sorter, Highest(thresholds, i), k) && sorter[k].reward == rewards[i];
      SortIsImmaterial(txs, sorter, Highest(thresholds, i), k, rewards[i]);
    }
    if NonDecreasing(thresholds) {
      forall i | 0 <= i < |rewards| ensures RewardFor(txs, thresholds[i], rewards[i]) {
        HighestOfSorted(thresholds, i);
      }
    }
  }

  method Cursor(sorter: seq<GasAndReward>, thresholds: seq<uint64>) returns (rewards: seq<int>)
    requires |sorter| > 0 && SortedByReward(sorter) && Total(sorter, |sorter| - 1) < U64
    ensures |rewards| == |thresholds|
    ensures forall i :: 0 <= i < |rewards| ==> RewardAt(sorter, Highest(thresholds, i), rewards[i])
    ensures forall i, j :: 0 <= i <= j < |rewards| ==> rewards[i] <= rewards[j]
  {
    hide Reaches, Total, Highest, RewardAt, SortedByReward;
    rewards := [];
    var txIndex, sumGasUsed := 0, sorter[0].gasUsed;
    ghost var highest: uint64 := 0;
    FirstTotal(sorter);
    for i := 0 to |thresholds|
      invariant txIndex < |sorter| && sumGasUsed == Total(sorter, txIndex) && |rewards| == i
      invariant Reaches(sorter, highest, txIndex) && (i == 0 ==> highest == 0) && (i > 0 ==> highest == Highest(thresholds, i - 1))
      invariant forall j :: 0 <= j < i ==> RewardAt(sorter, Highest(thresholds, j), rewards[j])
      invariant forall j :: 0 <= j < i ==> rewards[j] <= sorter[txIndex].reward
      invariant forall j, k :: 0 <= j <= k < i ==> rewards[j] <= rewards[k]
    {
      ghost var before := txIndex;
      txIndex, sumGasUsed := MoveTo(sorter, thresholds[i], txIndex, highest, sumGasUsed);
      NextHighest(thresholds, i, highest);
      highest := Highest(thresholds, i);
      RewardFound(sorter, highest, before, txIndex);
      rewards := rewards + [sorter[txIndex].reward];
    }
  }

  lemma NextHighest(thresholds: seq<uint64>, i: nat, highest: uint64)
    requires i < |thresholds| && (i == 0 ==> highest == 0) && (i > 0 ==> highest == Highest(thresholds, i - 1))
    ensures Highest(thresholds, i) == if highest < thresholds[i] then thresholds[i] else highest
  {
  }

  lemma RewardFound(sorter: seq<GasAndReward>, threshold: uint64, before: nat, txIndex: nat)
    requires SortedByReward(sorter) && Reaches(sorter, threshold, txIndex) && before <= txIndex
    ensures txIndex < |sorter| && RewardAt(sorter, threshold, sorter[txIndex].reward)
    ensures sorter[before].reward <= sorter[txIndex].reward
  {
  }

  lemma FirstTotal(txs: seq<GasAndReward>)
    requires txs != []
    ensures Total(txs, 0) == txs[0].gasUsed
    ensures Reaches(txs, 0, 0)
  {
  }

  /** Moves the cursor on until the total reaches the threshold; it stays where an earlier, higher threshold took it. */
  method MoveTo(sorter: seq<GasAndReward>, threshold: uint64, start: nat, ghost highest: uint64, sum: uint64)
    returns (txIndex: nat, sumGasUsed: uint64)
    requires sorter != [] && Total(sorter, |sorter| - 1) < U64
    requires Reaches(sorter, highest, start) && sum == Total(sorter, start)
    ensures start <= txIndex < |sorter| && sumGasUsed == Total(sorter, txIndex)
    ensures Reaches(sorter, if highest < threshold then threshold else highest, txIndex)
  {
    txIndex, sumGasUsed := start, sum;
    while sumGasUsed < threshold && txIndex < |sorter| - 1
      invariant start <= txIndex < |sorter| && sumGasUsed == Total(sorter, txIndex)
      invariant txIndex > start ==> highest < threshold
      invariant forall j :: 0 <= j < txIndex ==> Total(sorter, j) < Max(highest, threshold)
    {
      TotalGrows(sorter, txIndex + 1, |sorter| - 1);
      txIndex := txIndex + 1;
      sumGasUsed := (sumGasUsed + sorter[txIndex].gasUsed) % U64;
    }
  }
}
