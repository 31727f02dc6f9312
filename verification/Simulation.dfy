// The disk usage simulation: its counters follow the accounting of the
// history, and the two maxima it reports are the true ones.
module Simulation {
  import opened Bits
  import opened Fenwick
  import opened Accounting
  import Retention

  class MaxAt {
    var value: real
    var at: nat

    constructor (initial_value: real, initial_at: nat)
      ensures value == initial_value && at == initial_at
    {
      value, at := initial_value, initial_at;
    }

    method Update(v: real, node: nat)
      modifies this
      ensures value == (if v > old(value) then v else old(value))
      ensures at == (if v > old(value) then node else old(at))
    {
      if v > value {
        value := v;
        at := node;
      }
    }
  }

  /** Cost of node i relative to the i + 1 units an unbroken chain holds or writes. */
  function Relative(cost: nat, i: nat): real {
    (cost + 1) as real / (i + 1) as real
  }

  function UsageRatio(i: nat): real {
    if i == 0 then 0.0 else Relative(UsageAt(i), i)
  }

  function WriteRatio(i: nat): real { Relative(Written(i), i) }

  /** value is the greatest f(1), ..., f(n), first reached at the given node. */
  ghost predicate IsMax(value: real, at: nat, f: nat -> real, n: nat) {
    && (n == 0 ==> value == 0.0 && at == 0)
    && (n > 0 ==> 1 <= at <= n && value == f(at))
    && (forall i: nat :: 1 <= i <= n ==> f(i) <= value)
    && (forall i: nat :: 1 <= i < at ==> f(i) < value)
  }

  lemma IsMaxStep(value: real, at: nat, f: nat -> real, n: nat)
    requires IsMax(value, at, f, n) && f(n + 1) > 0.0
    ensures if f(n + 1) > value then IsMax(f(n + 1), n + 1, f, n + 1) else IsMax(value, at, f, n + 1)
  {
  }

  /** Folds the ratio of one more node into a running maximum, of f if the cost is right. */
  method Record(m: MaxAt, ghost f: nat -> real, cost: u64, node: nat)
    requires node > 0
    modifies m
    ensures old(IsMax(m.value, m.at, f, node - 1)) && cost + 1 < W64 && Relative(cost, node) == f(node) > 0.0 ==>
              IsMax(m.value, m.at, f, node)
    ensures m.value == old(m.value) || m.value == Wrap(cost + 1) as real / (node + 1) as real
  {
    if IsMax(m.value, m.at, f, node - 1) && f(node) > 0.0 { IsMaxStep(m.value, m.at, f, node - 1); }
    m.Update(Wrap(cost + 1) as real / (node + 1) as real, node);
  }

  /** The sum is exact as long as it fits a word. */
  method DiskUsage(alive: seq<nat>) returns (cost: u64)
    ensures Usage(alive) < W64 ==> cost == Usage(alive)
  {
    cost := 0;
    for i := 0 to |alive|
      invariant Usage(alive) < W64 ==> Usage(alive) == cost + Usage(alive[i..])
    {
      assert alive[i..][1..] == alive[i + 1..];
      cost := Wrap(cost + (alive[i] - Parent(alive[i])));
    }
  }

  /** The data held before a node is pruned for and stored, and the node's own changes. */
  method Costs(node: u64) returns (usage: u64, diff: nat, threw: bool)
    requires 0 < node
    ensures threw <==> node > 0x8000_0000_0000_0000
    ensures !threw ==> diff == Lsb(node)
    ensures node < 0x800_0000_0000_0000 ==> usage == UsageAt(node)
  {
    var alive;
    alive, threw := Retention.AliveAfter(node - 1);
    if threw { return 0, 0, true; }
    var disk_usage_cost := DiskUsage(alive);
    diff := node - Retention.FenwickParent(node);
    usage := Wrap(disk_usage_cost + diff);
    if node < 0x800_0000_0000_0000 { NodeCosts(node); }
  }

  /**
   * For every argument: below 2^59 no counter wraps, and both maxima are the
   * true ones.  Past 2^63 (as from a negative number) it ends in an exception.
   */
  method Run(n: u64) returns (max_disk_usage: MaxAt, max_disk_writes: MaxAt, threw: bool)
    ensures threw <==> n > 0x8000_0000_0000_0000
    ensures n < 0x800_0000_0000_0000 ==>
              && IsMax(max_disk_usage.value, max_disk_usage.at, UsageRatio, n)
              && IsMax(max_disk_writes.value, max_disk_writes.at, WriteRatio, n)
              && max_disk_usage.value <= 2.5
  {
    max_disk_usage := new MaxAt(0.0, 0);
    max_disk_writes := new MaxAt(0.0, 0);
    var disk_write_cost: u64 := 0;
    var node := 0;
    assert IsMax(0.0, 0, UsageRatio, 0) && IsMax(0.0, 0, WriteRatio, 0);
    hide IsMax, Relative, UsageRatio, WriteRatio, UsageAt;
    ghost var small := n < 0x800_0000_0000_0000;
    threw := false;
    for i := 0 to n
      invariant node == i <= 0x8000_0000_0000_0000
      invariant fresh(max_disk_usage) && fresh(max_disk_writes) && max_disk_usage != max_disk_writes
      invariant small ==> disk_write_cost == Written(i)
      invariant small ==> IsMax(max_disk_usage.value, max_disk_usage.at, UsageRatio, i) && max_disk_usage.value <= 2.5
      invariant small ==> IsMax(max_disk_writes.value, max_disk_writes.at, WriteRatio, i)
    {
      node := node + 1;
      var usage, diff;
      usage, diff, threw := Costs(node);
      if threw { return; }
      if small { NodeCosts(node); }
      disk_write_cost := Wrap(disk_write_cost + diff);
      RecordBoth(max_disk_usage, max_disk_writes, usage, disk_write_cost, node, small);
    }
  }

  /** Both maxima after one more node. */
  method RecordBoth(max_disk_usage: MaxAt, max_disk_writes: MaxAt, usage: u64, writes: u64, node: u64,
                    ghost small: bool)
    requires node > 0 && max_disk_usage != max_disk_writes
    requires small ==> node < 0x800_0000_0000_0000 && usage == UsageAt(node) && writes == Written(node)
    modifies max_disk_usage, max_disk_writes
    ensures small && old(max_disk_usage.value) <= 2.5 ==> max_disk_usage.value <= 2.5
    ensures small && old(IsMax(max_disk_usage.value, max_disk_usage.at, UsageRatio, node - 1)) ==>
              IsMax(max_disk_usage.value, max_disk_usage.at, UsageRatio, node)
    ensures small && old(IsMax(max_disk_writes.value, max_disk_writes.at, WriteRatio, node - 1)) ==>
              IsMax(max_disk_writes.value, max_disk_writes.at, WriteRatio, node)
  {
    hide IsMax, UsageAt, UsageRatio, WriteRatio;
    if small { NodeCosts(node); }
    Record(max_disk_usage, UsageRatio, usage, node);
    Record(max_disk_writes, WriteRatio, writes, node);
  }

  lemma NodeCosts(n: nat)
    requires 0 < n < 0x800_0000_0000_0000
    ensures UsageAt(n) + 1 < W64 && Written(n) + 1 < W64
    ensures 0.0 < UsageRatio(n) <= 2.5 && 0.0 < WriteRatio(n)
    ensures UsageRatio(n) == Relative(UsageAt(n), n) && WriteRatio(n) == Relative(Written(n), n)
  {
    UsageBound(n);
    RatioBound(UsageAt(n), n);
    RatioPositive(Written(n), n);
    WrittenFits(n);
  }

  lemma WrittenFits(n: nat)
    requires 0 < n < 0x800_0000_0000_0000
    ensures Written(n) + 1 < W64
  {
    WrittenBound(n);
    Log2Bounds(n);
    Limit59(Log2(n));
    ScaleBound(Log2(n) + 2, 60, n);
  }

  lemma RatioPositive(cost: nat, n: nat)
    ensures 0.0 < Relative(cost, n)
  {
  }

  lemma Limit59(e: nat)
    requires Pow2(e) < 0x800_0000_0000_0000
    ensures e <= 58
  {
    Pow2Word();
    assert Pow2(62) == 8 * Pow2(59) by { assert Pow2(60) == 2 * Pow2(59) && Pow2(61) == 2 * Pow2(60); }
    Pow2Monotone(59, e);
  }

  lemma ScaleBound(a: nat, b: nat, n: nat)
    requires a <= b
    ensures a * n <= b * n
  {
  }

  lemma RatioBound(cost: nat, n: nat)
    requires 2 * (cost + 1) <= 5 * (n + 1)
    ensures 0.0 < Relative(cost, n) <= 2.5
  {
  }
}
