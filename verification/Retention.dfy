// The retention loops, on 64-bit words, against the declarative history.
module Retention {
  import opened Bits
  import opened Fenwick

  function FenwickParent(node: u64): (parent: u64)
    ensures parent == Parent(node)
  {
    AndNegIsLsb(node);
    node - And(node, Neg(node))
  }

  datatype Demise = Undefined | At(node: u64)

  /** Below 2^63 the time of demise fits a word for every node but 2^62 (see DemiseFits). */
  function TimeOfDemise(node: u64): (d: Demise)
    ensures d.Undefined? <==> node == 0
    ensures node > 0 ==> (d.node == T(node) <==> T(node) < W64)
  {
    AndNegIsLsb(node);
    if node == 0 then Undefined else At(Wrap(node + 3 * And(node, Neg(node))))
  }

  lemma DemiseFits(node: u64)
    requires 0 < node < 0x8000_0000_0000_0000
    ensures T(node) < W64 <==> node != 0x4000_0000_0000_0000
  {
    Pow2Word();
    DemiseBelow(node, 62);
  }

  lemma {:induction false} DemiseBelow(n: nat, w: nat)
    requires 0 < n < Pow2(w + 1)
    ensures T(n) < Pow2(w + 2) <==> n != Pow2(w)
  {
    if n % 2 == 0 {
      DemiseBelow(n / 2, w - 1);
    }
  }

  method FenwickPathIncRoot(start: u64) returns (emitted: seq<nat>)
    ensures emitted == Path(start)
  {
    emitted := [];
    var node := start;
    while node != 0
      invariant Path(start) == emitted + Path(node)
      decreases node
    {
      emitted := emitted + [node];
      node := FenwickParent(node);
    }
    emitted := emitted + [0];
  }

  // ----- alive_after -----

  /** Nothing between a multiple of 2^e and the next is alive once n is two multiples on. */
  lemma EmptyGap(n: nat, q: nat, e: nat)
    requires Shl(q, e) + 2 * Pow2(e) <= n
    ensures forall k: nat :: Shl(q, e) < k < Shl(q, e) + Pow2(e) ==> !Alive(n, k)
  {
    forall k: nat | Shl(q, e) < k < Shl(q, e) + Pow2(e) ensures !Alive(n, k) {
      GapIsDead(n, q, e, k);
    }
  }

  /** The anchor of a round, one multiple of 2^e below n's, and the least node listed before it. */
  ghost predicate Anchored(n: nat, e: nat, a: nat, r: nat, cur: nat, last: nat) {
    && cur == Shl(a, e) && n == cur + Pow2(e) + r && r < Pow2(e)
    && last == if e == 0 then cur + 1 else if r >= Pow2(e - 1) then cur + Pow2(e) else cur + Pow2(e - 1)
  }

  /** Between two anchors only the odd multiple of s/2, if reached, is alive. */
  lemma RoundMembers(n: u64, e: nat, a: nat, r: nat, cur: nat, last: nat, c: nat)
    requires Anchored(n, e, a, r, cur, last)
    requires c == if e == 0 then 0 else Pow2(e - 1)
    ensures forall k: nat :: cur <= k < last ==>
              (Alive(n, k) <==> k == cur || (k == cur + c && r >= c))
  {
    hide Alive, Shl;
    MultipleIsAlive(n, a, e);
    if e > 0 {
      ShlDouble(a, e - 1);
      ShlNext(2 * a, e - 1);
      EmptyGap(n, 2 * a, e - 1);
      if r >= c {
        EmptyGap(n, 2 * a + 1, e - 1);
        MultipleIsAlive(n, 2 * a + 1, e - 1);
      }
    }
  }

  /** The nodes listed so far are exactly those alive from last upwards. */
  ghost predicate Listed(n: nat, emitted: seq<nat>, last: nat) {
    StrictlyDecreasing(emitted) && forall k: nat :: k in emitted <==> Alive(n, k) && k >= last
  }

  lemma RoundEmits(n: u64, e: nat, a: nat, r: nat, cur: nat, last: nat, emitted: seq<nat>)
    requires Anchored(n, e, a, r, cur, last) && Listed(n, emitted, last)
    ensures Listed(n, emitted + RoundOutput(n, cur, Pow2(e + 1)), cur)
  {
    var c := Pow2(e + 1) / 4;
    RoundMembers(n, e, a, r, cur, last, c);
    assert Pow2(e + 1) / 2 == Pow2(e) && (c == 0 <==> e == 0);
    assert forall x :: 0 <= x < |emitted| ==> emitted[x] in emitted;
  }

  lemma ListedAll(n: nat, emitted: seq<nat>)
    requires Listed(n, emitted, 0)
    ensures emitted == AliveSeq(n)
  {
    AliveSeqMeaning(n);
    ListingUnique(emitted, AliveSeq(n));
  }

  /** (cur - 1) & ~(2s - 1) moves the anchor from the grid of s to that of 2s. */
  lemma RoundAdvances(n: u64, e: nat, a: nat, r: nat, cur: nat, last: nat) returns (a': nat, r': nat)
    requires Anchored(n, e, a, r, cur, last) && e < 63
    ensures Pow2(e + 1) <= W64
    ensures cur == 0 ==> n < Pow2(e + 1)
    ensures cur > 0 ==>
      && n >= Pow2(e + 1)
      && Anchored(n, e + 1, a', r', And(cur - 1, Not(Pow2(e + 1) - 1)), cur)
  {
    hide And;
    Pow2Monotone(e + 1, 64);
    assert Pow2(64) == W64 by { Pow2Word(); }
    a', r' := 0, 0;
    if a == 0 {
      ShlDouble(0, e);
    } else {
      var low := HalveAnchor(a, e);
      a' := (a - 1) / 2;
      r' := if a % 2 == 1 then r else r + Pow2(e);
      ClearLow(cur - 1, e + 1, a', low - 1);
    }
  }

  lemma HalveAnchor(a: nat, e: nat) returns (low: nat)
    requires a > 0
    ensures Shl(a, e) == Shl((a - 1) / 2, e + 1) + low
    ensures low == if a % 2 == 1 then Pow2(e) else 2 * Pow2(e)
  {
    var a' := (a - 1) / 2;
    ShlDouble(a', e);
    ShlNext(2 * a', e);
    ShlNext(2 * a' + 1, e);
    low := Shl(a, e) - Shl(a', e + 1);
  }

  lemma ClearLow(x: u64, e: nat, a: nat, b: nat)
    requires x == Shl(a, e) + b && b < Pow2(e) <= W64 && e <= 64
    ensures And(x, Not(Pow2(e) - 1)) == Shl(a, e)
  {
    Pow2Word();
    AndHigh(e, 64, a, b);
  }

  /** The calls of one round: the candidate above the anchor, if it is due, then the anchor. */
  method EmitRound(node: u64, cur: u64, uint_2powm: u64, before: seq<nat>) returns (emitted: seq<nat>)
    requires cur <= node && uint_2powm <= 0x8000_0000_0000_0000
    ensures emitted == before + RoundOutput(node, cur, uint_2powm)
  {
    emitted := before;
    if node - cur >= uint_2powm / 2 + uint_2powm / 4 {
      var candidate := Wrap(cur + uint_2powm / 4);
      if candidate != cur {
        emitted := emitted + [candidate];
      }
    }
    emitted := emitted + [cur];
  }

  ghost function RoundOutput(n: nat, cur: nat, p: nat): seq<nat>
    requires cur <= n
  {
    (if n - cur >= p / 2 + p / 4 && p / 4 > 0 then [cur + p / 4] else []) + [cur]
  }

  /** The loop's state at the top of round i, with the ghost coordinates of its anchor. */
  ghost predicate AtRound(n: nat, i: nat, a: nat, r: nat, cur: nat, last: nat) {
    cur <= n && if i == 0 then cur == n && last == n + 1 else Anchored(n, i - 1, a, r, cur, last)
  }

  lemma RoundStep(n: u64, i: nat, a: nat, r: nat, cur: nat, last: nat, emitted: seq<nat>)
    returns (a': nat, r': nat, next: nat)
    requires i <= 63 && AtRound(n, i, a, r, cur, last) && Listed(n, emitted, last)
    requires i == 0 ==> emitted == []
    ensures Pow2(i) <= 0x8000_0000_0000_0000 && (Pow2(i) == 0x8000_0000_0000_0000 <==> i == 63)
    ensures Listed(n, emitted + RoundOutput(n, cur, Pow2(i)), cur)
    ensures cur == 0 ==> n < 0x8000_0000_0000_0000
    ensures cur > 0 ==> And(cur - 1, Not(Pow2(i) - 1)) == next && AtRound(n, i + 1, a', r', next, cur)
    ensures cur > 0 && i == 63 ==> n >= 0x8000_0000_0000_0000
  {
    hide And;
    Limits(i);
    if i == 0 {
      next, a', r' := if n == 0 then 0 else n - 1, if n == 0 then 0 else n - 1, 0;
      assert Alive(n, n);
      if n > 0 { ClearLow(n - 1, 0, n - 1, 0); }
    } else {
      RoundEmits(n, i - 1, a, r, cur, last, emitted);
      a', r' := RoundAdvances(n, i - 1, a, r, cur, last);
      next := if cur == 0 then 0 else And(cur - 1, Not(Pow2(i) - 1));
    }
  }

  /**
   * Emits the nodes alive after the given one, greatest first and each once;
   * gives up (after a part of them) exactly when the node has bit 63 set.
   */
  method AliveAfter(node: u64) returns (emitted: seq<nat>, tooBig: bool)
    ensures tooBig <==> node >= 0x8000_0000_0000_0000
    ensures !tooBig ==> emitted == AliveSeq(node)
    ensures StrictlyDecreasing(emitted) && forall k: nat :: k in emitted ==> Alive(node, k)
  {
    emitted, tooBig := [], false;
    var uint_2powm: u64, cur: u64 := 1, node;
    ghost var i, a: nat, r: nat, last: nat, next: nat := 0, 0, 0, node + 1, 0; // last: least node emitted
    while true
      invariant i <= 63 && uint_2powm == Pow2(i)
      invariant AtRound(node, i, a, r, cur, last)
      invariant Listed(node, emitted, last) && (i == 0 ==> emitted == [])
      decreases 64 - i
    {
      a, r, next := RoundStep(node, i, a, r, cur, last, emitted);
      emitted := EmitRound(node, cur, uint_2powm, emitted);
      last := cur;
      if cur == 0 {
        ListedAll(node, emitted);
        return;
      }
      cur := And(cur - 1, Not(uint_2powm - 1));
      if uint_2powm == 0x8000_0000_0000_0000 {
        tooBig := true;
        return;
      }
      uint_2powm := Wrap(uint_2powm * 2);
      i := i + 1;
    }
  }

  lemma Limits(i: nat)
    requires i <= 63
    ensures Pow2(i) <= 0x8000_0000_0000_0000
    ensures Pow2(i) == 0x8000_0000_0000_0000 <==> i == 63
  {
    Pow2Word();
    Pow2Monotone(i, 62);
    Pow2Monotone(i, 63);
  }

  // ----- prune -----

  /**
   * Emits the nodes that die at the given one, greatest first.  All of them are
   * emitted even for the two nodes at which the loop gives up.
   */
  method Prune(node: u64) returns (emitted: seq<nat>, tooBig: bool)
    ensures emitted == DyingSeq(node)
    ensures forall j: nat :: j in emitted <==> Dies(node, j)
    ensures StrictlyDecreasing(emitted)
    ensures tooBig <==> node in {0x8000_0000_0000_0000, 0xC000_0000_0000_0000}
  {
    hide And, Or, Dies, DyingBelow, StrictlyDecreasing, DyingSeq;
    emitted, tooBig := [], false;
    var mask: u64 := 1;
    ghost var m, c := 1, node;
    NothingYet(node);
    MaskTests(node, m, c);
    while And(node, Not(mask)) != 0
      invariant 1 <= m <= 63 && mask == Pow2(m) - 1 && node == Shl(c, m - 1)
      invariant And(node, Not(mask)) != 0 <==> node > mask
      invariant DyingBelow(node, emitted, m - 1)
      decreases 64 - m
    {
      MaskTests(node, m, c);
      Limits(m);
      if mask == 0x7FFF_FFFF_FFFF_FFFF {
        tooBig := true;
        GivesUp(node, c, m - 1);
        AllDying(node, emitted, m - 1);
        return;
      }
      if And(node, mask) != 0 {
        Stops(node, m, c);
        AllDying(node, emitted, m - 1);
        return;
      }
      var k := Wrap(mask + mask / 2 + 2);
      Limits(m + 1);
      assert k == 3 * Pow2(m - 1);
      c := c / 2;
      PruneRound(node, m, c, emitted);
      if node >= k {
        emitted := emitted + [node - k];
      }
      GrowMask(m, mask);
      mask := Or(mask, Wrap(mask * 2));
      m := m + 1;
      MaskTests(node, m, c);
    }
    Limits(m);
    NothingLeft(node, m);
    AllDying(node, emitted, m - 1);
  }

  /** The nodes listed so far are exactly those dying at n with LSB below 2^e. */
  ghost predicate DyingBelow(n: nat, emitted: seq<nat>, e: nat) {
    && StrictlyDecreasing(emitted)
    && (forall j: nat :: j in emitted <==> Dies(n, j) && TrailingZeros(j) < e)
    && (forall j: nat :: j in emitted ==> j + 3 * Pow2(e) > n)
  }

  lemma NothingYet(n: nat)
    ensures DyingBelow(n, [], 0)
  {
  }

  lemma AllDying(n: nat, emitted: seq<nat>, e: nat)
    requires DyingBelow(n, emitted, e) && forall j: nat :: Dies(n, j) ==> TrailingZeros(j) < e
    ensures StrictlyDecreasing(emitted) && (forall j: nat :: j in emitted <==> Dies(n, j)) && emitted == DyingSeq(n)
  {
    DyingSeqMeaning(n);
    ListingUnique(emitted, DyingSeq(n));
  }

  lemma PruneRound(n: nat, m: nat, q: nat, emitted: seq<nat>)
    requires m >= 1 && n == Shl(q, m) && DyingBelow(n, emitted, m - 1)
    ensures var k := 3 * Pow2(m - 1);
            DyingBelow(n, if n >= k then emitted + [n - k] else emitted, m)
  {
    DyingAtLevel(n, m, q);
    assert forall x :: 0 <= x < |emitted| ==> emitted[x] in emitted;
  }

  /** The loop's two bit tests for mask = 2^m - 1, when 2^(m-1) divides the node. */
  lemma MaskTests(node: u64, m: nat, c: nat)
    requires 1 <= m <= 63 && node == Shl(c, m - 1)
    ensures Pow2(m) <= W64
    ensures And(node, Not(Pow2(m) - 1)) != 0 <==> node > Pow2(m) - 1
    ensures And(node, Pow2(m) - 1) == 0 <==> c % 2 == 0
    ensures c % 2 == 0 ==> node == Shl(c / 2, m)
  {
    hide And, Shl;
    Limits(m);
    var q, r := c / 2, if c % 2 == 0 then 0 else Pow2(m - 1);
    ShlDouble(q, m - 1);
    ShlNext(2 * q, m - 1);
    ClearLow(node, m, q, r);
    AndLow(m, q, r);
    ShlNext(0, m);
    ShlOrder(1, q, m);
  }

  lemma Stops(node: u64, m: nat, c: nat)
    requires 1 <= m < 63 && node == Shl(c, m - 1) && c % 2 == 1
    ensures forall j: nat :: Dies(node, j) ==> TrailingZeros(j) < m - 1
    ensures node !in {0x8000_0000_0000_0000, 0xC000_0000_0000_0000}
  {
    var q, r := c / 2, Pow2(m - 1);
    ShlDouble(q, m - 1);
    ShlNext(2 * q, m - 1);
    forall j: nat | Dies(node, j) ensures TrailingZeros(j) < m - 1 {
      var d := DyingShape(node, j);
      if TrailingZeros(j) >= m - 1 { NoRemainder(q, m, r, d + 2, TrailingZeros(j) + 1); }
    }
    HighMultiples(node, m, q, r);
  }

  lemma HighMultiples(node: u64, m: nat, q: nat, r: nat)
    requires m <= 62 && node == Shl(q, m) + r && 0 < r < Pow2(m)
    ensures node !in {0x8000_0000_0000_0000, 0xC000_0000_0000_0000}
  {
    hide Shl, Pow2;
    var e := 62;
    assert Pow2(e) == 0x4000_0000_0000_0000 by { Pow2Word(); }
    MultiplesBelow4(e);
    if node == 2 * Pow2(e) { NoRemainder(q, m, r, 2, e); }
    if node == 3 * Pow2(e) { NoRemainder(q, m, r, 3, e); }
  }

  lemma MultiplesBelow4(e: nat)
    ensures Shl(0, e) == 0 && Shl(1, e) == Pow2(e) && Shl(2, e) == 2 * Pow2(e)
    ensures Shl(3, e) == 3 * Pow2(e) && Shl(4, e) == 4 * Pow2(e)
  {
    ShlDouble(0, e);
    ShlNext(0, e);
    ShlNext(1, e);
    ShlNext(2, e);
    ShlNext(3, e);
  }

  lemma DyingAtLevel(node: nat, m: nat, q: nat)
    requires m >= 1 && node == Shl(q, m)
    ensures forall j: nat :: Dies(node, j) && TrailingZeros(j) == m - 1
                         <==> node >= 3 * Pow2(m - 1) && j == node - 3 * Pow2(m - 1)
  {
    if node >= 3 * Pow2(m - 1) { DyingAt(node, q, m - 1); }
    forall j: nat | Dies(node, j) && TrailingZeros(j) == m - 1
      ensures node >= 3 * Pow2(m - 1) && j == node - 3 * Pow2(m - 1)
    {
      var _ := DyingShape(node, j);
    }
  }

  lemma NothingLeft(node: nat, m: nat)
    requires m >= 1 && node < 4 * Pow2(m - 1)
    ensures forall j: nat :: Dies(node, j) ==> TrailingZeros(j) < m - 1
  {
    forall j: nat | Dies(node, j) ensures TrailingZeros(j) < m - 1 {
      var _ := DyingShape(node, j);
      Pow2Monotone(m - 1, TrailingZeros(j));
    }
  }

  lemma GivesUp(node: u64, c: nat, e: nat)
    requires e == 62 && node == Shl(c, e) && node >= 0x8000_0000_0000_0000
    ensures node in {0x8000_0000_0000_0000, 0xC000_0000_0000_0000}
    ensures forall j: nat :: Dies(node, j) ==> TrailingZeros(j) < e
  {
    TopMultiples(node, c, e);
    assert node < 4 * Pow2(e) by { Pow2Word(); }
    NothingLeft(node, e + 1);
  }

  lemma TopMultiples(node: u64, c: nat, e: nat)
    requires e == 62 && node == Shl(c, e) && node >= 0x8000_0000_0000_0000
    ensures node in {0x8000_0000_0000_0000, 0xC000_0000_0000_0000}
  {
    assert Pow2(e) == 0x4000_0000_0000_0000 by { Pow2Word(); }
    TwoOrThree(c, e);
  }

  lemma TwoOrThree(c: nat, e: nat)
    requires 2 * Pow2(e) <= Shl(c, e) < 4 * Pow2(e)
    ensures Shl(c, e) == c * Pow2(e) && (c == 2 || c == 3)
  {
    MultiplesBelow4(e);
    ShlOrder(c, 1, e);
    ShlOrder(4, c, e);
  }
}
