// The two commands that prune: prune_repository on a mirror, and snapshot on
// the local repository.
module Controller {
  import opened Bits
  import opened Fenwick
  import opened Repository
  import opened Trust

  // ----- prune_repository -----

  /** Stored nodes not yet trusted: what is left for prune_repository to consider. */
  ghost function Untrusted<D>(s: State<D>): set<nat> {
    set k | k in s.stored && k >= s.breadcrumb.untrusted_begin
  }

  ghost function Advanced<D>(s: State<D>, b: Breadcrumb): State<D> {
    State(WithoutDying(s.stored, s.breadcrumb.untrusted_begin), b)
  }

  lemma AdvancingConsumes<D>(s: State<D>, spacing: int, now: int)
    requires Decide(s, spacing, now).Trusted?
    ensures var s' := Advanced(s, Decide(s, spacing, now).breadcrumb);
            && Untrusted(s') == Untrusted(s) - {s.breadcrumb.untrusted_begin}
            && s.breadcrumb.untrusted_begin in Untrusted(s)
  {
  }

  /** The result of prune_repository at one clock reading: the final state, and whether it threw. */
  ghost function Pruned<D>(s: State<D>, spacing: int, now: int): (State<D>, bool)
    decreases |Untrusted(s)|
  {
    match Decide(s, spacing, now)
    case Quarantined => (s, false)
    case Throws => (s, true)
    case Trusted(b) =>
      if GivesUp(s.breadcrumb.untrusted_begin) then
        (s.(stored := WithoutDying(s.stored, s.breadcrumb.untrusted_begin)), true)
      else
        AdvancingConsumes(s, spacing, now);
        Pruned(Advanced(s, b), spacing, now)
  }

  method PruneRepository<D>(repo: RepositoryStructure<D>, spacing: int, now: int) returns (threw: bool)
    requires repo.Valid()
    modifies repo
    ensures repo.Valid()
    ensures (repo.Value(), threw) == Pruned(old(repo.Value()), spacing, now)
    ensures AdvancesTo(old(repo.Value()), spacing, now, repo.breadcrumb, threw)
  {
    PrunedAdvances(repo.Value(), spacing, now);
    while true
      invariant repo.Valid()
      invariant Pruned(repo.Value(), spacing, now) == Pruned(old(repo.Value()), spacing, now)
      decreases |Untrusted(repo.Value())|
    {
      var breadcrumb := repo.breadcrumb;
      var maybe_snapshot := LookUp(repo.stored, breadcrumb.untrusted_begin);
      if maybe_snapshot.Missing? { return false; }
      if maybe_snapshot.Corrupt? { return true; }
      var verdict := MaybeUpdateBreadcrumb(repo.stored, breadcrumb, maybe_snapshot.timestamp, spacing, now);
      if verdict.Quarantined? { return false; }
      if verdict.Throws? { return true; }
      AdvancingConsumes(repo.Value(), spacing, now);
      threw := repo.DeleteDying(breadcrumb.untrusted_begin);
      if threw { return; }
      repo.WriteBreadcrumb(verdict.breadcrumb);
    }
  }

  // ----- what prune_repository does as a whole -----

  /** A node other than the root that dies in the half-open range of steps. */
  predicate DiesWithin(k: nat, from: nat, to: nat) {
    k > 0 && from <= T(k) < to
  }

  /**
   * prune_repository deletes exactly what dies while the breadcrumb moves (and,
   * if it gives up in the middle of a step, perhaps what dies at that step).
   */
  lemma {:induction false} PrunedStored<D>(s: State<D>, spacing: int, now: int)
    ensures var (s', threw) := Pruned(s, spacing, now);
            var u, u' := s.breadcrumb.untrusted_begin, s'.breadcrumb.untrusted_begin;
            && u <= u'
            && (forall k :: k in s'.stored ==> k in s.stored && s'.stored[k] == s.stored[k])
            && (forall k :: k in s.stored && !Dies(u', k) ==> (k in s'.stored <==> !DiesWithin(k, u, u')))
            && (!threw ==> forall k :: k in s.stored && Dies(u', k) ==> k in s'.stored)
    decreases |Untrusted(s)|
  {
    var verdict := Decide(s, spacing, now);
    if verdict.Trusted? && !GivesUp(s.breadcrumb.untrusted_begin) {
      AdvancingConsumes(s, spacing, now);
      PrunedStored(Advanced(s, verdict.breadcrumb), spacing, now);
    }
  }

  /** Timestamp claimed by the id of a stored node. */
  ghost function ClaimedAt<D>(stored: map<nat, Entry<D>>, k: nat): int {
    if LookUp(stored, k).Found? then LookUp(stored, k).timestamp else 0
  }

  /**
   * When the nodes below v are authorised: node 0 by the clock, every other a
   * spacing after its predecessor, or when it claims if that is later.
   */
  ghost function AuthorisedAt<D>(s: State<D>, spacing: int, now: int, v: nat): int
    requires v >= s.breadcrumb.untrusted_begin
    decreases v
  {
    if v == s.breadcrumb.untrusted_begin then s.breadcrumb.last_trusted_node_authorised_at
    else if v == 1 then now
    else
      var due, claimed := AuthorisedAt(s, spacing, now, v - 1) + spacing, ClaimedAt(s.stored, v - 1);
      if claimed > due then claimed else due
  }

  /**
   * Node k is due: it is there, dated no earlier than its predecessor (which is
   * there as well), and the clock, or else the last authorised time, has reached
   * the time at which it would be authorised.  Node 0 is always due.
   */
  ghost predicate Due<D>(s: State<D>, spacing: int, now: int, k: nat)
    requires k >= s.breadcrumb.untrusted_begin
  {
    && LookUp(s.stored, k).Found?
    && (k > 0 ==>
          && LookUp(s.stored, k - 1).Found?
          && ClaimedAt(s.stored, k - 1) <= ClaimedAt(s.stored, k)
          && var at := AuthorisedAt(s, spacing, now, k + 1);
             now >= at || AuthorisedAt(s, spacing, now, k) >= at)
  }

  /** A node that is due stops the command when numbers run out, or when pruning for it gives up. */
  predicate Last(k: nat) { (k > 0 && k + 1 == W64) || GivesUp(k) }

  /** No decision can be made: the node's id, or its predecessor's, cannot be read. */
  ghost predicate Undecidable<D>(s: State<D>, k: nat) {
    LookUp(s.stored, k).Corrupt? || (k > 0 && LookUp(s.stored, k).Found? && !LookUp(s.stored, k - 1).Found?)
  }

  /**
   * Where prune_repository takes the breadcrumb, in terms of what it found: on
   * over all nodes that are due, to the first that is not (or is the last).
   */
  ghost predicate AdvancesTo<D>(s: State<D>, spacing: int, now: int, b: Breadcrumb, threw: bool) {
    var u, u' := s.breadcrumb.untrusted_begin, b.untrusted_begin;
    && u <= u'
    && (forall k :: u <= k < u' ==> Due(s, spacing, now, k) && !Last(k))
    && (Due(s, spacing, now, u') ==> Last(u'))
    && b.last_trusted_node_authorised_at == AuthorisedAt(s, spacing, now, u')
    && (threw <==> Due(s, spacing, now, u') || Undecidable(s, u'))
  }

  lemma DecideIsDue<D>(s: State<D>, spacing: int, now: int)
    requires s.breadcrumb.untrusted_begin < W64
    ensures var u, verdict := s.breadcrumb.untrusted_begin, Decide(s, spacing, now);
            && (verdict.Trusted? <==> Due(s, spacing, now, u) && !(u > 0 && u + 1 == W64))
            && (verdict.Throws? <==> Undecidable(s, u) || (Due(s, spacing, now, u) && u > 0 && u + 1 == W64))
            && (verdict.Trusted? ==> verdict.breadcrumb == Breadcrumb(u + 1, AuthorisedAt(s, spacing, now, u + 1)))
  {
  }

  lemma {:induction false} AuthorisedShift<D>(s: State<D>, b: Breadcrumb, spacing: int, now: int, v: nat)
    requires b == Breadcrumb(s.breadcrumb.untrusted_begin + 1,
                             AuthorisedAt(s, spacing, now, s.breadcrumb.untrusted_begin + 1))
    requires b.untrusted_begin <= v
    ensures AuthorisedAt(Advanced(s, b), spacing, now, v) == AuthorisedAt(s, spacing, now, v)
    decreases v
  {
    if v > b.untrusted_begin {
      AuthorisedShift(s, b, spacing, now, v - 1);
    }
  }

  lemma DueShift<D>(s: State<D>, b: Breadcrumb, spacing: int, now: int, k: nat)
    requires b == Breadcrumb(s.breadcrumb.untrusted_begin + 1,
                             AuthorisedAt(s, spacing, now, s.breadcrumb.untrusted_begin + 1))
    requires b.untrusted_begin <= k
    ensures Due(Advanced(s, b), spacing, now, k) <==> Due(s, spacing, now, k)
    ensures Undecidable(Advanced(s, b), k) <==> Undecidable(s, k)
  {
    hide AuthorisedAt;
    AuthorisedShift(s, b, spacing, now, k);
    AuthorisedShift(s, b, spacing, now, k + 1);
  }

  /** The command moves the breadcrumb over exactly the nodes that are due, and throws exactly where it says. */
  lemma {:induction false} PrunedAdvances<D>(s: State<D>, spacing: int, now: int)
    requires s.breadcrumb.untrusted_begin < W64
    ensures AdvancesTo(s, spacing, now, Pruned(s, spacing, now).0.breadcrumb, Pruned(s, spacing, now).1)
    decreases |Untrusted(s)|
  {
    var verdict, u := Decide(s, spacing, now), s.breadcrumb.untrusted_begin;
    DecideIsDue(s, spacing, now);
    if verdict.Trusted? && !GivesUp(u) {
      var s1 := Advanced(s, verdict.breadcrumb);
      AdvancingConsumes(s, spacing, now);
      var (final, threw) := Pruned(s1, spacing, now);
      PrunedAdvances(s1, spacing, now);
      AdvancesShift(s, verdict.breadcrumb, spacing, now, final.breadcrumb, threw);
    }
  }

  lemma AdvancesShift<D>(s: State<D>, b: Breadcrumb, spacing: int, now: int, b': Breadcrumb, threw: bool)
    requires b == Breadcrumb(s.breadcrumb.untrusted_begin + 1,
                             AuthorisedAt(s, spacing, now, s.breadcrumb.untrusted_begin + 1))
    requires Due(s, spacing, now, s.breadcrumb.untrusted_begin) && !Last(s.breadcrumb.untrusted_begin)
    requires AdvancesTo(Advanced(s, b), spacing, now, b', threw)
    ensures AdvancesTo(s, spacing, now, b', threw)
  {
    hide Due, Undecidable, AuthorisedAt;
    forall k | b.untrusted_begin <= k <= b'.untrusted_begin
      ensures Due(Advanced(s, b), spacing, now, k) <==> Due(s, spacing, now, k)
      ensures Undecidable(Advanced(s, b), k) <==> Undecidable(s, k)
    {
      DueShift(s, b, spacing, now, k);
    }
    AuthorisedShift(s, b, spacing, now, b'.untrusted_begin);
  }

  lemma DecisionSurvivesDeletion<D>(s: State<D>, spacing: int, now: int)
    ensures Decide(s.(stored := WithoutDying(s.stored, s.breadcrumb.untrusted_begin)), spacing, now)
         == Decide(s, spacing, now)
  {
  }

  /** Schedule independence: pruning at t1 and again at t2 is pruning once at t2. */
  lemma {:induction false} ScheduleIndependence<D>(s: State<D>, spacing: int, t1: int, t2: int)
    requires s.breadcrumb.untrusted_begin > 0 && t1 <= t2
    ensures Pruned(Pruned(s, spacing, t1).0, spacing, t2) == Pruned(s, spacing, t2)
    decreases |Untrusted(s)|
  {
    var u := s.breadcrumb.untrusted_begin;
    if Decide(s, spacing, t1).Trusted? {
      TrustIsMonotone(s, spacing, t1, t2);
      if GivesUp(u) {
        DecisionSurvivesDeletion(s, spacing, t2);
        var left := WithoutDying(s.stored, u);
        assert WithoutDying(left, u) == left;
      } else {
        AdvancingConsumes(s, spacing, t1);
        ScheduleIndependence(Advanced(s, Decide(s, spacing, t1).breadcrumb), spacing, t1, t2);
      }
    }
  }
}
