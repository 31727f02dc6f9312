// What the history costs: how many nodes are kept, how much data they hold,
// and how much is written over time.
module Accounting {
  import opened Bits
  import opened Fenwick

  /** Data held by a set of stored nodes: node k holds the changes since its parent. */
  function Usage(s: seq<nat>): nat {
    if s == [] then 0 else s[0] - Parent(s[0]) + Usage(s[1..])
  }

  /** Data written while storing nodes 1 to n. */
  function Written(n: nat): nat {
    if n == 0 then 0 else Written(n - 1) + Lsb(n)
  }

  function Double(s: seq<nat>): (d: seq<nat>) {
    seq(|s|, i requires 0 <= i < |s| => 2 * s[i])
  }

  // ----- the alive set of 2n or 2n + 1, from that of n -----

  lemma AliveEven(m: nat, k: nat)
    requires k % 2 == 0
    ensures Alive(m, k) <==> Alive(m / 2, k / 2)
  {
  }

  lemma DoubleMeaning(s: seq<nat>)
    requires StrictlyDecreasing(s)
    ensures StrictlyDecreasing(Double(s))
    ensures forall k: nat :: k in Double(s) <==> k % 2 == 0 && k / 2 in s
  {
    forall k: nat ensures k in Double(s) <==> k % 2 == 0 && k / 2 in s {
      if k % 2 == 0 && k / 2 in s {
        var i :| 0 <= i < |s| && s[i] == k / 2;
        assert Double(s)[i] == k;
      }
    }
  }

  /** The even alive nodes of the doubled history, with its last odd one. */
  lemma DoubledTail(h: nat, s: seq<nat>)
    requires h > 0 && s != [] && s[0] == h && StrictlyDecreasing(s)
    ensures var tail: seq<nat> := [2 * h, 2 * h - 1] + Double(s[1..]);
            && StrictlyDecreasing(tail)
            && forall k: nat :: k in tail <==> k == 2 * h || k == 2 * h - 1 || (k % 2 == 0 && k / 2 in s[1..])
  {
    var rest := Double(s[1..]);
    DoubleMeaning(s[1..]);
    forall k | k in rest ensures k < 2 * h - 1 {
      var i :| 0 <= i < |s[1..]| && s[1..][i] == k / 2;
      assert s[i + 1] < s[0];
    }
    Prepend(2 * h - 1, rest);
    Prepend(2 * h, [2 * h - 1] + rest);
    assert [2 * h] + ([2 * h - 1] + rest) == [2 * h, 2 * h - 1] + rest;
  }

  lemma AliveDoubles(m: nat)
    requires m >= 2
    ensures var tail := [2 * (m / 2), 2 * (m / 2) - 1] + Double(AliveSeq(m / 2)[1..]);
            AliveSeq(m) == if m % 2 == 1 then [m] + tail else tail
  {
    var h, s := m / 2, AliveSeq(m / 2);
    AliveSeqMeaning(h);
    AliveSeqMeaning(m);
    DoubledTail(h, s);
    var tail: seq<nat> := [2 * h, 2 * h - 1] + Double(s[1..]);
    forall k: nat ensures k in AliveSeq(m) <==> k in tail || (m % 2 == 1 && k == m) {
      AliveMember(m, k, s);
    }
    if m % 2 == 1 {
      forall k | k in tail ensures k < m { assert Alive(m, k); }
      Prepend(m, tail);
      ListingUnique([m] + tail, AliveSeq(m));
    } else {
      ListingUnique(tail, AliveSeq(m));
    }
  }

  lemma AliveMember(m: nat, k: nat, s: seq<nat>)
    requires m >= 2 && s != [] && s[0] == m / 2 && StrictlyDecreasing(s)
    requires forall j: nat :: j in s <==> Alive(m / 2, j)
    ensures Alive(m, k) <==>
      (k == m || k == 2 * (m / 2) || k == 2 * (m / 2) - 1 || (k % 2 == 0 && k / 2 in s[1..]))
  {
    if k % 2 == 0 {
      AliveEven(m, k);
      assert s == [s[0]] + s[1..];
      assert k / 2 in s <==> k / 2 == m / 2 || k / 2 in s[1..];
    }
  }

  /** Repository size: exactly one node per level, one per set bit, and the root. */
  lemma {:induction false} AliveCount(n: nat)
    requires n > 0
    ensures |AliveSeq(n)| == Log2(n) + 1 + PopCount(n)
  {
    AliveSeqMeaning(n / 2);
    if n == 1 {
      UsageAtOne();
    } else {
      AliveDoubles(n);
      AliveCount(n / 2);
    }
  }

  lemma {:induction false} PopCountBound(n: nat)
    requires n > 0
    ensures 1 <= PopCount(n) <= Log2(n) + 1
  {
    if n > 1 {
      PopCountBound(n / 2);
    }
  }

  /** At most twice the depth of the tree. */
  lemma AliveCountBound(n: nat)
    requires n > 0
    ensures |AliveSeq(n)| <= 2 * Log2(n) + 2
  {
    AliveCount(n);
    PopCountBound(n);
  }

  // ----- storage -----

  lemma {:induction false} UsageDoubles(s: seq<nat>)
    ensures Usage(Double(s)) == 2 * Usage(s)
  {
    if s != [] {
      UsageDoubles(s[1..]);
      assert Double(s)[1..] == Double(s[1..]);
      assert Double(s)[0] == 2 * s[0];
      ParentDouble(s[0]);
    }
  }

  lemma UsageCons(k: nat, s: seq<nat>)
    ensures Usage([k] + s) == k - Parent(k) + Usage(s)
  {
    assert ([k] + s)[1..] == s;
  }

  lemma UsageTail(h: nat, s: seq<nat>)
    requires h > 0 && s != [] && s[0] == h
    ensures Usage([2 * h, 2 * h - 1] + Double(s[1..])) == 2 * Usage(s) + 1
  {
    var rest := Double(s[1..]);
    UsageDoubles(s[1..]);
    UsageCons(2 * h - 1, rest);
    UsageCons(2 * h, [2 * h - 1] + rest);
    assert [2 * h] + ([2 * h - 1] + rest) == [2 * h, 2 * h - 1] + rest;
    ParentDouble(h);
  }

  lemma UsageAtOne()
    ensures AliveSeq(1) == [1, 0] && Usage([1, 0]) == 1
    ensures AliveSeq(0) == [0] && Usage([0]) == 0
  {
    AliveSeqMeaning(1);
    assert Alive(1, 0) && Alive(1, 1);
    ListingUnique(AliveSeq(1), [1, 0]);
    AliveSeqMeaning(0);
    ListingUnique(AliveSeq(0), [0]);
    assert [1, 0][1..] == [0];
  }

  /** The data held after n: what a chain of n would hold, plus 2^floor(log2 n) - 1. */
  lemma {:induction false} AliveUsage(n: nat)
    requires n > 0
    ensures Usage(AliveSeq(n)) == n + Pow2(Log2(n)) - 1
  {
    UsageAtOne();
    if n > 1 {
      var h := n / 2;
      AliveDoubles(n);
      AliveUsage(h);
      AliveSeqMeaning(h);
      UsageTail(h, AliveSeq(h));
      UsageCons(n, [2 * h, 2 * h - 1] + Double(AliveSeq(h)[1..]));
    }
  }

  /** What the simulation charges for node n: the nodes alive before it, and its own changes. */
  function UsageAt(n: nat): nat
    requires n > 0
  {
    Usage(AliveSeq(n - 1)) + Lsb(n)
  }

  lemma {:induction false} LsbFits(n: nat)
    requires n > 0
    ensures Lsb(n) == n || Lsb(n) <= n - Pow2(Log2(n))
  {
    if n > 1 && n % 2 == 0 {
      LsbFits(n / 2);
    } else if n > 1 {
      OddAbovePow2(n);
    }
  }

  lemma OddAbovePow2(n: nat)
    requires n > 1 && n % 2 == 1
    ensures n > Pow2(Log2(n))
  {
    Log2Bounds(n);
  }

  lemma {:induction false} LogPredecessor(n: nat)
    requires n > 1
    ensures Log2(n - 1) == if Lsb(n) == n then Log2(n) - 1 else Log2(n)
    ensures Lsb(n) == n ==> n == Pow2(Log2(n))
  {
    if n == 2 {
    } else if n % 2 == 0 {
      LogPredecessor(n / 2);
      assert (n - 1) / 2 == n / 2 - 1;
    } else {
      assert (n - 1) / 2 == n / 2;
    }
  }

  /** Space: at most 2.5 times the optimum, and the bound is approached at every power of two. */
  lemma UsageBound(n: nat)
    requires n > 0
    ensures 2 * (UsageAt(n) + 1) <= 5 * (n + 1)
    ensures n > 1 && Lsb(n) == n ==> 2 * (UsageAt(n) + 1) == 5 * n - 2
  {
    if n == 1 {
      UsageAtOne();
    } else {
      AliveUsage(n - 1);
      Log2Bounds(n - 1);
      LogPredecessor(n);
      LsbFits(n);
    }
  }

  // ----- writes -----

  lemma {:induction false} WrittenDoubles(n: nat)
    ensures Written(2 * n) == 2 * Written(n) + n
  {
    if n > 0 {
      WrittenDoubles(n - 1);
      assert Written(2 * n) == Written(2 * n - 1) + Lsb(2 * n);
      assert Written(2 * n - 1) == Written(2 * (n - 1)) + 1;
      assert Lsb(2 * n) == 2 * Lsb(n);
    }
  }

  /** Write amplification grows with the logarithm of the number of snapshots. */
  lemma {:induction false} WrittenBound(n: nat)
    requires n > 0
    ensures 2 * Written(n) <= (Log2(n) + 2) * n
  {
    if n == 1 {
      assert Written(1) == Written(0) + 1;
    } else {
      WrittenBound(n / 2);
      WrittenDoubles(n / 2);
      BoundDoubles(Log2(n / 2) + 2, n / 2);
    }
  }

  lemma BoundDoubles(l: nat, h: nat)
    ensures (l + 1) * (2 * h) == 2 * (l * h) + 2 * h
    ensures (l + 1) * (2 * h + 1) == 2 * (l * h) + 2 * h + l + 1
  {
  }

  /** At a power of two the bound is exact: a factor of (k + 2) / 2. */
  lemma {:induction false} WrittenAtPow2(k: nat)
    ensures 2 * Written(Pow2(k)) == (k + 2) * Pow2(k)
  {
    if k == 0 {
      assert Written(1) == Written(0) + 1;
    } else {
      var p := Pow2(k - 1);
      WrittenAtPow2(k - 1);
      WrittenDoubles(p);
      BoundDoubles(k + 1, p);
    }
  }
}
