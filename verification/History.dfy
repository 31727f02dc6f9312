// The repository's own check of the history, for every number of steps: what
// pruning deletes and what the enumeration lists agree at each one.
module History {
  import opened Bits
  import opened Fenwick
  import opened Accounting
  import Retention

  lemma {:induction false} MembersCount(s: seq<nat>)
    requires StrictlyDecreasing(s)
    ensures |Members(s)| == |s|
  {
    if s != [] {
      MembersCount(s[1..]);
      assert Members(s) == Members(s[1..]) + {s[0]};
    }
  }

  /** Every pruned node was there to be erased. */
  method Erase(aliveset: set<nat>, victims: seq<nat>) returns (left: set<nat>)
    requires StrictlyDecreasing(victims) && forall j :: j in victims ==> j in aliveset
    ensures left == aliveset - Members(victims) && |left| == |aliveset| - |victims|
  {
    left := aliveset;
    for i := 0 to |victims|
      invariant left == aliveset - Members(victims[..i]) && |left| == |aliveset| - i
      invariant forall j :: i <= j < |victims| ==> victims[j] in left
    {
      assert victims[..i + 1] == victims[..i] + [victims[i]];
      left := left - {victims[i]};
    }
    assert victims[..|victims|] == victims;
  }

  /**
   * Stores node after node, each time erasing what is pruned: the set is the one
   * enumerated, never more than 126 nodes, and holds the parent of each member.
   */
  method Run(n: u64) returns (aliveset: set<nat>)
    requires n < 0x8000_0000_0000_0000
    ensures aliveset == Members(AliveSeq(n))
    ensures forall k :: k in aliveset ==> Parent(k) in aliveset
    ensures |aliveset| == |AliveSeq(n)| <= 126
  {
    aliveset := {0};
    assert forall k: nat :: k in aliveset <==> Alive(0, k);
    hide Alive;
    for cur := 0 to n
      invariant forall k: nat :: k in aliveset <==> Alive(cur, k)
    {
      aliveset := Step(cur + 1, aliveset);
    }
    Closing(n, aliveset);
  }

  /** One round: insert, then erase what is pruned. */
  method Step(cur: u64, aliveset: set<nat>) returns (left: set<nat>)
    requires cur > 0 && forall k: nat :: k in aliveset <==> Alive(cur - 1, k)
    ensures forall k: nat :: k in left <==> Alive(cur, k)
  {
    var pruned, tooBig := Retention.Prune(cur);
    Round(cur, aliveset, pruned);
    hide Alive, Dies, DyingSeq;
    left := Erase(aliveset + {cur}, pruned);
  }

  lemma Round(cur: nat, aliveset: set<nat>, pruned: seq<nat>)
    requires cur > 0 && forall k: nat :: k in aliveset <==> Alive(cur - 1, k)
    requires forall k: nat :: k in pruned <==> Dies(cur, k)
    ensures cur !in aliveset && forall k :: k in pruned ==> k in aliveset
    ensures forall k: nat :: k in aliveset + {cur} - Members(pruned) <==> Alive(cur, k)
  {
    NextIsNew(cur - 1);
    hide Alive, Dies;
    forall k: nat
      ensures Alive(cur, k) <==> k == cur || (Alive(cur - 1, k) && !Dies(cur, k))
      ensures Dies(cur, k) ==> Alive(cur - 1, k)
    {
      AliveStep(cur, k);
    }
  }

  lemma Closing(n: nat, aliveset: set<nat>)
    requires n < 0x8000_0000_0000_0000 && forall k: nat :: k in aliveset <==> Alive(n, k)
    ensures aliveset == Members(AliveSeq(n)) && |aliveset| == |AliveSeq(n)| <= 126
    ensures forall k :: k in aliveset ==> Parent(k) in aliveset
  {
    hide Alive, AliveSeq;
    AliveSeqMeaning(n);
    assert aliveset == Members(AliveSeq(n));
    MembersCount(AliveSeq(n));
    FewNodes(n);
    forall k | k in aliveset ensures Parent(k) in aliveset { ParentAlive(n, k); }
  }

  lemma NextIsNew(n: nat)
    ensures !Alive(n, n + 1)
  {
  }

  lemma FewNodes(n: nat)
    requires n < 0x8000_0000_0000_0000
    ensures |AliveSeq(n)| <= 126
  {
    if n == 0 {
      UsageAtOne();
    } else {
      AliveCountBound(n);
      Log2Bounds(n);
      Pow2Word();
      Pow2Monotone(63, Log2(n));
    }
  }

  /** The alive set is closed under parents. */
  lemma ParentAlive(n: nat, k: nat)
    requires Alive(n, k)
    ensures Alive(n, Parent(k))
  {
    if k > 0 && Parent(k) > 0 { ParentOutlives(k); }
  }
}
