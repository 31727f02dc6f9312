// The sparse Fenwick history, declaratively: parents, paths, the time at which
// a node dies, and the nodes alive after (or dying at) each step.
module Fenwick {
  import opened Bits

  /** T(k): node k is deleted just before node T(k) is stored. */
  function T(k: nat): nat
    requires k > 0
  {
    k + 3 * Lsb(k)
  }

  predicate Alive(n: nat, k: nat) {
    k == 0 || (k <= n && T(k) > n)
  }

  predicate Dies(n: nat, j: nat) {
    j > 0 && T(j) == n
  }

  function Parent(k: nat): nat {
    if k == 0 then 0 else k - Lsb(k)
  }

  /** The Fenwick path of v, from v down to the root. */
  function Path(v: nat): (path: seq<nat>)
    ensures |path| > 0 && path[0] == v && path[|path| - 1] == 0
  {
    if v == 0 then [0] else [v] + Path(Parent(v))
  }

  /** The k <= top satisfying p, greatest first. */
  function Listing(p: nat -> bool, top: nat): seq<nat> {
    var rest := if top == 0 then [] else Listing(p, top - 1);
    if p(top) then [top] + rest else rest
  }

  function AliveSeq(n: nat): seq<nat> { Listing((k: nat) => Alive(n, k), n) }

  function DyingSeq(n: nat): seq<nat> { Listing((k: nat) => Dies(n, k), n) }

  function Members(s: seq<nat>): set<nat> { set k | k in s }

  predicate StrictlyDecreasing(s: seq<nat>) {
    forall i, j :: 0 <= i < j < |s| ==> s[i] > s[j]
  }

  lemma {:induction false} ListingMeaning(p: nat -> bool, top: nat)
    ensures StrictlyDecreasing(Listing(p, top))
    ensures forall k: nat :: k in Listing(p, top) <==> k <= top && p(k)
  {
    var rest := if top == 0 then [] else Listing(p, top - 1);
    if top > 0 { ListingMeaning(p, top - 1); }
    Prepend(top, rest);
  }

  lemma AliveSeqMeaning(n: nat)
    ensures StrictlyDecreasing(AliveSeq(n))
    ensures forall k: nat :: k in AliveSeq(n) <==> Alive(n, k)
    ensures AliveSeq(n) != [] && AliveSeq(n)[0] == n && AliveSeq(n)[|AliveSeq(n)| - 1] == 0
  {
    ListingMeaning((k: nat) => Alive(n, k), n);
    assert Alive(n, n) && Alive(n, 0);
    LastIsLeast(AliveSeq(n), 0);
  }

  lemma DyingSeqMeaning(n: nat)
    ensures StrictlyDecreasing(DyingSeq(n))
    ensures forall k: nat :: k in DyingSeq(n) <==> Dies(n, k)
  {
    ListingMeaning((k: nat) => Dies(n, k), n);
  }

  lemma LastIsLeast(s: seq<nat>, k: nat)
    requires StrictlyDecreasing(s) && k in s
    ensures s[|s| - 1] <= k
  {
  }

  lemma Prepend(top: nat, rest: seq<nat>)
    requires StrictlyDecreasing(rest) && forall k :: k in rest ==> k < top
    ensures StrictlyDecreasing([top] + rest)
    ensures forall k :: k in [top] + rest <==> k == top || k in rest
  {
    assert forall i :: 0 <= i < |rest| ==> rest[i] in rest;
    assert forall i :: 0 < i <= |rest| ==> ([top] + rest)[i] == rest[i - 1];
  }

  /** A strictly decreasing listing is determined by its members. */
  lemma {:induction false} ListingUnique(s: seq<nat>, t: seq<nat>)
    requires StrictlyDecreasing(s) && StrictlyDecreasing(t)
    requires forall k: nat :: k in s <==> k in t
    ensures s == t
  {
    if s != [] || t != [] {
      assert s != [] ==> s[0] in s;
      assert t != [] ==> t[0] in t;
      var i :| 0 <= i < |t| && t[i] == s[0];
      var j :| 0 <= j < |s| && s[j] == t[0];
      assert s[0] == t[0];
      forall k: nat ensures k in s[1..] <==> k in t[1..] {
        assert k in s <==> k == s[0] || k in s[1..];
        assert k in t <==> k == t[0] || k in t[1..];
      }
      ListingUnique(s[1..], t[1..]);
    }
  }

  // ----- lifetimes on the grid of multiples of 2^e -----

  lemma MultipleIsAlive(n: nat, q: nat, e: nat)
    requires Shl(q, e) <= n < Shl(q, e) + 3 * Pow2(e)
    ensures Alive(n, Shl(q, e))
  {
    if q > 0 {
      LsbScale(q, e);
    }
  }

  lemma GapIsDead(n: nat, q: nat, e: nat, k: nat)
    requires Shl(q, e) < k < Shl(q, e) + Pow2(e)
    requires Shl(q, e) + 2 * Pow2(e) <= n
    ensures !Alive(n, k)
  {
    LsbBetween(q, e, k - Shl(q, e));
  }

  lemma DyingShape(n: nat, j: nat) returns (q: nat)
    requires Dies(n, j)
    ensures n == Shl(q + 2, TrailingZeros(j) + 1)
    ensures j == n - 3 * Pow2(TrailingZeros(j)) && n >= 4 * Pow2(TrailingZeros(j))
  {
    q := LsbDecompose(j);
    var e := TrailingZeros(j);
    ShlNext(2 * q, e);
    ShlDouble(q, e);
    ShlNext(q, e + 1);
    ShlNext(q + 1, e + 1);
  }

  lemma DyingAt(n: nat, c: nat, e: nat)
    requires n == Shl(c, e + 1) && n >= 3 * Pow2(e)
    ensures Dies(n, n - 3 * Pow2(e)) && TrailingZeros(n - 3 * Pow2(e)) == e
  {
    ThreeBelow(c, e);
    var d := 2 * c - 3;
    assert d % 2 == 1 && TrailingZeros(d) == 0;
    LsbScale(d, e);
    var q := LsbDecompose(n - 3 * Pow2(e));
  }

  lemma ThreeBelow(c: nat, e: nat)
    requires Shl(c, e + 1) >= 3 * Pow2(e)
    ensures 2 * c >= 3 && Shl(2 * c - 3, e) == Shl(c, e + 1) - 3 * Pow2(e)
  {
    ShlOrder(c, 1, e + 1);
    ShlNext(0, e + 1);
    ShlDouble(c, e);
    assert c >= 2;
    ShlNext(2 * c - 1, e);
    ShlNext(2 * c - 2, e);
    ShlNext(2 * c - 3, e);
  }

  // ----- parents and paths -----

  lemma {:induction false} ParentLsb(v: nat)
    requires v > 0 && Parent(v) > 0
    ensures Lsb(Parent(v)) >= 2 * Lsb(v)
  {
    if v % 2 == 0 {
      assert Parent(v) == 2 * Parent(v / 2);
      ParentLsb(v / 2);
    }
  }

  /** A node's parent outlives it. */
  lemma ParentOutlives(k: nat)
    requires k > 0 && Parent(k) > 0
    ensures T(Parent(k)) > T(k)
  {
    ParentLsb(k);
  }

  lemma {:induction false} AncestorRange(a: nat, v: nat)
    requires a in Path(v) && a > 0
    ensures a <= v && v + Lsb(v) <= a + Lsb(a)
    decreases v
  {
    if a != v {
      assert a in Path(Parent(v));
      AncestorRange(a, Parent(v));
      ParentLsb(v);
    }
  }

  /** Lifetime invariant: a Fenwick ancestor of v is alive from its creation until after v. */
  lemma AncestorAlive(a: nat, v: nat, n: nat)
    requires a in Path(v) && a <= n <= v
    ensures Alive(n, a)
  {
    if a > 0 {
      AncestorRange(a, v);
    }
  }

  /** What is pruned for node n lies neither on n's path nor on its predecessor's. */
  lemma PrunedOffPath(n: nat, j: nat)
    requires Dies(n, j)
    ensures j !in Path(n) && j !in Path(n - 1)
  {
    if j in Path(n) {
      AncestorRange(j, n);
    }
    if j in Path(n - 1) {
      AncestorRange(j, n - 1);
    }
  }

  lemma {:induction false} PathShape(v: nat)
    ensures StrictlyDecreasing(Path(v))
    ensures forall k :: k in Path(v) ==> k <= v && Parent(k) in Path(v)
  {
    if v > 0 {
      PathShape(Parent(v));
      var rest := Path(Parent(v));
      forall k | k in Path(v)
        ensures k <= v && Parent(k) in Path(v)
      {
        if k != v { assert k in rest; }
      }
    }
  }

  lemma {:induction false} PathTail(v: nat, i: nat)
    requires i < |Path(v)|
    ensures i > 0 ==> Path(v)[i] == Parent(Path(v)[i - 1]) && Path(v)[i - 1] > 0
  {
    if i > 1 {
      PathTail(Parent(v), i - 1);
    }
  }

  /** The parent of the next node lies on the current node's path. */
  lemma {:induction false} NextParentOnPath(v: nat)
    ensures Parent(v + 1) in Path(v)
  {
    if v % 2 == 0 {
      EvenStep(v);
    } else {
      hide Path, Parent;
      NextParentOnPath(v / 2);
      OddStep(v, v / 2);
    }
  }

  lemma EvenStep(v: nat)
    requires v % 2 == 0
    ensures Parent(v + 1) in Path(v)
  {
    assert Parent(v + 1) == v == Path(v)[0];
  }

  lemma OddStep(v: nat, h: nat)
    requires v == 2 * h + 1
    ensures Parent(h + 1) in Path(h) ==> Parent(v + 1) in Path(v)
  {
    hide Path, Parent;
    OddParent(h);
    DoublePath(h);
    ParentDouble(h + 1);
    PathStep(2 * h + 1);
  }

  lemma OddParent(h: nat)
    ensures Parent(2 * h + 1) == 2 * h
  {
  }

  lemma PathStep(v: nat)
    requires v > 0
    ensures Path(v) == [v] + Path(Parent(v))
  {
  }

  lemma ParentDouble(v: nat)
    ensures Parent(2 * v) == 2 * Parent(v)
  {
  }

  lemma {:induction false} DoublePath(v: nat)
    ensures forall k: nat :: k in Path(v) ==> 2 * k in Path(2 * v)
  {
    if v > 0 {
      DoublePath(Parent(v));
      ParentDouble(v);
    }
  }

  // ----- one step of the history -----

  /** Storing n and deleting what dies at n turns the alive set of n - 1 into that of n. */
  lemma AliveStep(n: nat, k: nat)
    requires n > 0
    ensures Alive(n, k) <==> k == n || (Alive(n - 1, k) && !Dies(n, k))
    ensures Dies(n, k) ==> Alive(n - 1, k)
  {
  }

  /** Both multiples of 2^e just below n - 2^e are alive. */
  lemma GridBelow(n: nat, e: nat) returns (r: nat)
    requires n >= 2 * Pow2(e)
    ensures r < Pow2(e) && r + 2 * Pow2(e) <= n
    ensures Alive(n, n - r - Pow2(e)) && Alive(n, n - r - 2 * Pow2(e))
  {
    hide Alive, Shl;
    var q;
    q, r := ShlSplit(n, e);
    ShlNext(0, e);
    ShlOrder(q, 1, e);
    assert q >= 2;
    ShlNext(q - 1, e);
    ShlNext(q - 2, e);
    MultipleIsAlive(n, q - 1, e);
    MultipleIsAlive(n, q - 2, e);
  }

  /** Node distribution: some node alive after n lies between m/2 and m steps back. */
  lemma NodeDistribution(n: nat, m: nat) returns (k: nat)
    requires 0 < m <= n
    ensures Alive(n, k) && n - m <= k <= n - m / 2
  {
    if m == 1 {
      k := n - 1;
    } else {
      // 2h <= m < 4h
      var e := Log2(m / 2);
      var h := Pow2(e);
      Log2Bounds(m / 2);
      hide Alive, Log2;
      var r := GridBelow(n, e);
      k := if m >= 2 * h + r then n - r - 2 * h else n - r - h;
    }
  }

  /** Neighbouring alive nodes skip at most half the distance back from n. */
  lemma GapWidth(n: nat, i: nat)
    requires i + 1 < |AliveSeq(n)|
    ensures 2 * (AliveSeq(n)[i] - AliveSeq(n)[i + 1] - 1) <= n - AliveSeq(n)[i + 1]
  {
    var s := AliveSeq(n);
    AliveSeqMeaning(n);
    var low := s[i + 1];
    if low + 1 < n {
      var k := NodeDistribution(n, n - low - 1);
      assert k in s;
      var j :| 0 <= j < |s| && s[j] == k;
      assert j <= i by { assert low < k; }
      assert k >= s[i];
    } else {
      assert s[0] >= s[i];
    }
  }

  lemma {:induction false} PathLength(v: nat)
    ensures |Path(v)| == PopCount(v) + 1
    decreases v
  {
    if v > 0 {
      PathLength(Parent(v));
      PopCountParent(v);
    }
  }

  lemma {:induction false} PopCountParent(v: nat)
    requires v > 0
    ensures PopCount(v) == PopCount(Parent(v)) + 1
  {
    if v % 2 == 0 {
      PopCountParent(v / 2);
      assert Parent(v) == 2 * Parent(v / 2);
    }
  }
}
