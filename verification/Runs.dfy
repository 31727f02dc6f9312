// Whole runs of a repository.  A run is a sequence of atomic steps: a node
// arriving from the source, one deletion, a breadcrumb write, a rename.  Any
// prefix of a command's steps is a run too, so every state in which a command
// can be interrupted is covered.
module Runs {
  import opened Bits
  import opened Options
  import opened Fenwick
  import opened Repository
  import opened Trust
  import opened Controller
  import opened Backend

  datatype Event<D> =
    | Arrive(node: nat, entry: Entry<D>)        // a new node is mirrored here
    | MirrorDelete(node: nat, now: int)         // prune_repository deletes what dies at the breadcrumb
    | MirrorAdvance(now: int)                   // prune_repository writes the breadcrumb
    | LocalDelete(node: nat)                    // snapshot deletes what dies at the breadcrumb
    | LocalCommit(timestamp: int, payload: D)   // snapshot renames the new node, and moves the breadcrumb

  ghost predicate Enabled<D>(spacing: int, s: State<D>, e: Event<D>) {
    var u := s.breadcrumb.untrusted_begin;
    match e
    case Arrive(node, _) => node >= u && node !in s.stored
    case MirrorDelete(node, now) => Decide(s, spacing, now).Trusted? && Dies(u, node)
    case MirrorAdvance(now) => Decide(s, spacing, now).Trusted? && WithoutDying(s.stored, u) == s.stored
    case LocalDelete(node) => u !in s.stored && Dies(u, node)
    case LocalCommit(_, _) =>
      && u !in s.stored && WithoutDying(s.stored, u) == s.stored
      && (u > 0 ==> LookUp(s.stored, Parent(u)).Found?)
  }

  ghost function Apply<D>(spacing: int, s: State<D>, e: Event<D>): State<D>
    requires Enabled(spacing, s, e)
  {
    var u := s.breadcrumb.untrusted_begin;
    match e
    case Arrive(node, entry) => s.(stored := s.stored[node := entry])
    case MirrorDelete(node, _) => s.(stored := s.stored - {node})
    case MirrorAdvance(now) => s.(breadcrumb := Decide(s, spacing, now).breadcrumb)
    case LocalDelete(node) => s.(stored := s.stored - {node})
    case LocalCommit(timestamp, payload) =>
      State(s.stored[u := Entry(Id(u, timestamp), payload)], Breadcrumb(u + 1, timestamp))
  }

  ghost function Exec<D>(spacing: int, s: State<D>, run: seq<Event<D>>): Option<State<D>>
    decreases |run|
  {
    if run == [] then Some(s)
    else if !Enabled(spacing, s, run[0]) then None
    else Exec(spacing, Apply(spacing, s, run[0]), run[1..])
  }

  lemma {:induction false} ExecAppend<D>(spacing: int, s: State<D>, a: seq<Event<D>>, b: seq<Event<D>>)
    requires Exec(spacing, s, a).Some?
    ensures Exec(spacing, s, a + b) == Exec(spacing, Exec(spacing, s, a).value, b)
    decreases |a|
  {
    if a == [] {
      assert a + b == b;
    } else {
      assert (a + b)[0] == a[0] && (a + b)[1..] == a[1..] + b;
      ExecAppend(spacing, Apply(spacing, s, a[0]), a[1..], b);
    }
  }

  /** Wherever a run stops, what was done by then is a run. */
  lemma {:induction false} ExecPrefix<D>(spacing: int, s: State<D>, run: seq<Event<D>>, i: nat)
    requires Exec(spacing, s, run).Some? && i <= |run|
    ensures Exec(spacing, s, run[..i]).Some?
    decreases |run|
  {
    if i > 0 {
      assert run[..i][0] == run[0] && run[..i][1..] == run[1..][..i - 1];
      ExecPrefix(spacing, Apply(spacing, s, run[0]), run[1..], i - 1);
    }
  }

  // ----- the repository invariant -----

  /**
   * Below the breadcrumb u: only nodes alive after u - 1, each with its own id,
   * and all of them except perhaps some that die at u.
   */
  ghost predicate Sound<D>(s: State<D>) {
    var u := s.breadcrumb.untrusted_begin;
    forall k: nat :: k < u ==>
      && (k in s.stored ==> Alive(u - 1, k) && LookUp(s.stored, k).Found?)
      && (Alive(u - 1, k) && !Dies(u, k) ==> k in s.stored)
  }

  lemma StepKeepsSound<D>(spacing: int, s: State<D>, e: Event<D>)
    requires Sound(s) && Enabled(spacing, s, e)
    ensures Sound(Apply(spacing, s, e))
  {
    var s' := Apply(spacing, s, e);
    var u, u' := s.breadcrumb.untrusted_begin, s'.breadcrumb.untrusted_begin;
    forall k: nat | k < u'
      ensures k in s'.stored ==> Alive(u' - 1, k) && LookUp(s'.stored, k).Found?
      ensures Alive(u' - 1, k) && !Dies(u', k) ==> k in s'.stored
    {
      if u' == u + 1 && k < u {
        assert k in WithoutDying(s.stored, u) <==> k in s.stored;
        AliveStep(u, k);
      }
    }
  }

  /** Crash safety: every state of every run is sound, wherever the run stops. */
  lemma {:induction false} RunKeepsSound<D>(spacing: int, s: State<D>, run: seq<Event<D>>)
    requires Sound(s) && Exec(spacing, s, run).Some?
    ensures Sound(Exec(spacing, s, run).value)
    decreases |run|
  {
    if run != [] {
      StepKeepsSound(spacing, s, run[0]);
      RunKeepsSound(spacing, Apply(spacing, s, run[0]), run[1..]);
    }
  }

  lemma NewRepositoryIsSound<D>(a: int)
    ensures Sound<D>(State(map[], Breadcrumb(0, a)))
  {
  }

  /** What soundness buys: chains are complete and the quarantine's lookup of u - 1 succeeds. */
  lemma SoundMeans<D>(s: State<D>)
    requires Sound(s)
    ensures var u := s.breadcrumb.untrusted_begin;
            && (u > 0 ==> LookUp(s.stored, u - 1).Found?)
            && (forall k: nat :: k < u && k in s.stored ==> Parent(k) in s.stored)
            && (forall k: nat :: k < u && k in Path(u) ==> k in s.stored)
            && (u > 0 ==> LookUp(s.stored, Parent(u)).Found?)
  {
    var u := s.breadcrumb.untrusted_begin;
    if u > 0 { assert Alive(u - 1, u - 1) && !Dies(u, u - 1); }
    forall k: nat | k < u && k in s.stored ensures Parent(k) in s.stored {
      if Parent(k) > 0 { ParentOutlives(k); }
    }
    forall k: nat | k < u && k in Path(u) ensures k in s.stored {
      AncestorAlive(k, u, u - 1);
      if Dies(u, k) { PrunedOffPath(u, k); }
    }
    if u > 0 {
      PathShape(u);
      assert Path(u)[0] == u;
    }
  }

  /** The quarantine therefore throws only for an unreadable candidate, or when node numbers run out. */
  lemma DecideThrowsOnlyFor<D>(s: State<D>, spacing: int, now: int)
    requires Sound(s) && Decide(s, spacing, now).Throws?
    ensures LookUp(s.stored, s.breadcrumb.untrusted_begin).Corrupt? || s.breadcrumb.untrusted_begin + 1 == W64
  {
    SoundMeans(s);
  }

  /** All ancestors of a trusted stored node are stored. */
  lemma {:induction false} PathStored<D>(s: State<D>, v: nat)
    requires Sound(s) && v < s.breadcrumb.untrusted_begin && v in s.stored
    ensures forall k :: k in Path(v) ==> k in s.stored && LookUp(s.stored, k).Found?
    decreases v
  {
    SoundMeans(s);
    if v > 0 {
      PathStored(s, Parent(v));
      assert forall k :: k in Path(v) <==> k == v || k in Path(Parent(v));
    }
  }

  /** A completed snapshot leaves exactly the nodes the retention rule asks for. */
  lemma CommitIsExact<D>(spacing: int, s: State<D>, timestamp: int, payload: D)
    requires Sound(s) && Enabled(spacing, s, LocalCommit(timestamp, payload))
    ensures var s' := Apply(spacing, s, LocalCommit(timestamp, payload));
            var n := s.breadcrumb.untrusted_begin;
            forall k: nat :: k <= n ==> (k in s'.stored <==> Alive(n, k))
  {
    var s', n := Apply(spacing, s, LocalCommit(timestamp, payload)), s.breadcrumb.untrusted_begin;
    forall k: nat | k <= n ensures k in s'.stored <==> Alive(n, k) {
      if k < n {
        assert k in WithoutDying(s.stored, n) <==> k in s.stored;
        AliveStep(n, k);
      }
    }
  }

  // ----- the quarantine's rate limit -----

  ghost predicate MirrorRun<D>(run: seq<Event<D>>, limit: int) {
    forall e :: e in run ==>
      e.Arrive? || (e.MirrorDelete? && e.now <= limit) || (e.MirrorAdvance? && e.now <= limit)
  }

  function Spacings(K: nat, spacing: int): int {
    if K == 0 then 0 else Spacings(K - 1, spacing) + spacing
  }

  /** Stored in both, alike, whatever is the root or dies late enough. */
  ghost predicate Kept<D>(before: State<D>, after: State<D>, bound: nat) {
    forall j :: j in before.stored && (j == 0 || T(j) >= bound) ==>
      j in after.stored && after.stored[j] == before.stored[j]
  }

  /** Throttling from the first state on: see Throttled. */
  lemma {:induction false} ThrottledStart<D>(spacing: int, s: State<D>, run: seq<Event<D>>, limit: int, K: nat)
    requires spacing > 0 && s.breadcrumb.untrusted_begin > 0
    requires MirrorRun(run, limit) && Exec(spacing, s, run).Some?
    requires limit < s.breadcrumb.last_trusted_node_authorised_at + Spacings(K + 1, spacing)
    ensures var s', bound := Exec(spacing, s, run).value, s.breadcrumb.untrusted_begin + K;
            s'.breadcrumb.untrusted_begin <= bound && Kept(s, s', bound)
    decreases |run|
  {
    if run != [] {
      var e, s1 := run[0], Apply(spacing, s, run[0]);
      assert e in run;
      assert forall x :: x in run[1..] ==> x in run;
      if e.Arrive? {
        ThrottledStart(spacing, s1, run[1..], limit, K);
      } else {
        TrustCosts(s, spacing, e.now);
        assert Spacings(1, spacing) == spacing;
        ThrottledStart(spacing, s1, run[1..], limit, if e.MirrorAdvance? then K - 1 else K);
      }
    }
  }

  /**
   * Whatever arrives, and however it is dated: if K + 1 spacings do not fit
   * between the last authorised time and the clock, at most K nodes become
   * trusted, and nothing that dies at u + K or later is deleted once it is
   * stored, be it there from the beginning or arrived in the course of the run.
   */
  lemma {:induction false} Throttled<D>(spacing: int, s: State<D>, a: seq<Event<D>>, b: seq<Event<D>>,
                                        limit: int, K: nat)
    requires spacing > 0 && s.breadcrumb.untrusted_begin > 0
    requires MirrorRun(a, limit) && MirrorRun(b, limit)
    requires Exec(spacing, s, a).Some? && Exec(spacing, Exec(spacing, s, a).value, b).Some?
    requires limit < s.breadcrumb.last_trusted_node_authorised_at + Spacings(K + 1, spacing)
    ensures var s1 := Exec(spacing, s, a).value;
            var s2, bound := Exec(spacing, s1, b).value, s.breadcrumb.untrusted_begin + K;
            s2.breadcrumb.untrusted_begin <= bound && Kept(s1, s2, bound)
    decreases |a|
  {
    if a == [] {
      ThrottledStart(spacing, s, b, limit, K);
    } else {
      var e, s1 := a[0], Apply(spacing, s, a[0]);
      assert e in a;
      assert forall x :: x in a[1..] ==> x in a;
      if e.Arrive? {
        Throttled(spacing, s1, a[1..], b, limit, K);
      } else {
        TrustCosts(s, spacing, e.now);
        assert Spacings(1, spacing) == spacing;
        Throttled(spacing, s1, a[1..], b, limit, if e.MirrorAdvance? then K - 1 else K);
      }
    }
  }

  lemma {:induction false} SpacingsIsProduct(K: nat, spacing: int)
    ensures Spacings(K, spacing) == K * spacing
  {
    if K > 0 {
      SpacingsIsProduct(K - 1, spacing);
      MulAdd(K, -1, spacing);
    }
  }

  lemma MulAdd(q: int, d: int, p: int)
    ensures (q + d) * p == q * p + d * p
  {
  }

  /** The rate limit as a count: one node per spacing since the last authorised time, at every point of a run a + b. */
  lemma ThrottledByClock<D>(spacing: int, s: State<D>, a: seq<Event<D>>, b: seq<Event<D>>, now: int)
    requires spacing > 0 && s.breadcrumb.untrusted_begin > 0
    requires MirrorRun(a + b, now) && Exec(spacing, s, a + b).Some?
    ensures Exec(spacing, s, a).Some?
    ensures var K := Affordable(spacing, s.breadcrumb.last_trusted_node_authorised_at, now);
            var s1, s2 := Exec(spacing, s, a).value, Exec(spacing, s, a + b).value;
            var bound := s.breadcrumb.untrusted_begin + K;
            s2.breadcrumb.untrusted_begin <= bound && Kept(s1, s2, bound)
  {
    var K := Affordable(spacing, s.breadcrumb.last_trusted_node_authorised_at, now);
    AffordableBound(spacing, s.breadcrumb.last_trusted_node_authorised_at, now);
    ExecPrefix(spacing, s, a + b, |a|);
    assert (a + b)[..|a|] == a;
    ExecAppend(spacing, s, a, b);
    assert forall e :: e in a || e in b ==> e in a + b;
    Throttled(spacing, s, a, b, now, K);
  }

  function Affordable(spacing: int, a: int, now: int): nat
    requires spacing > 0
  {
    if now < a then 0 else (now - a) / spacing
  }

  lemma AffordableBound(spacing: int, a: int, now: int)
    requires spacing > 0
    ensures now < a + Spacings(Affordable(spacing, a, now) + 1, spacing)
  {
    var K := Affordable(spacing, a, now);
    SpacingsIsProduct(K, spacing);
  }

  // ----- trusted nodes are dated in order -----

  /** Of two trusted stored nodes the later one does not claim the earlier time. */
  ghost predicate DatesAscend<D>(s: State<D>) {
    forall i, j :: i in s.stored && j in s.stored && i < j < s.breadcrumb.untrusted_begin ==>
      ClaimedAt(s.stored, i) <= ClaimedAt(s.stored, j)
  }

  /** On a mirror they stay in order over every run, whatever dates the arriving nodes claim. */
  lemma {:induction false} DatesStayInOrder<D>(spacing: int, s: State<D>, run: seq<Event<D>>, limit: int)
    requires MirrorRun(run, limit) && Exec(spacing, s, run).Some? && DatesAscend(s)
    ensures DatesAscend(Exec(spacing, s, run).value)
    decreases |run|
  {
    if run != [] {
      assert run[0] in run;
      assert forall x :: x in run[1..] ==> x in run;
      MirrorStepKeepsDates(spacing, s, run[0]);
      DatesStayInOrder(spacing, Apply(spacing, s, run[0]), run[1..], limit);
    }
  }

  lemma MirrorStepKeepsDates<D>(spacing: int, s: State<D>, e: Event<D>)
    requires (e.Arrive? || e.MirrorDelete? || e.MirrorAdvance?) && Enabled(spacing, s, e) && DatesAscend(s)
    ensures DatesAscend(Apply(spacing, s, e))
  {
    var s', u := Apply(spacing, s, e), s.breadcrumb.untrusted_begin;
    if e.MirrorAdvance? && u > 0 {
      forall i | i in s'.stored && i < u ensures ClaimedAt(s'.stored, i) <= ClaimedAt(s'.stored, u) {
        assert ClaimedAt(s.stored, i) <= ClaimedAt(s.stored, u - 1);
      }
    }
  }

  // ----- prune_repository is such a run -----

  function Deletions<D>(js: seq<nat>, now: int): seq<Event<D>> {
    if js == [] then [] else [MirrorDelete(js[0], now)] + Deletions(js[1..], now)
  }

  /** The command, step by step: what dies at the breadcrumb, greatest first, then the breadcrumb; and again. */
  ghost function CommandSteps<D>(s: State<D>, spacing: int, now: int): seq<Event<D>>
    decreases |Untrusted(s)|
  {
    match Decide(s, spacing, now)
    case Quarantined => []
    case Throws => []
    case Trusted(b) =>
      var deletions := Deletions(DyingSeq(s.breadcrumb.untrusted_begin), now);
      if GivesUp(s.breadcrumb.untrusted_begin) then deletions
      else
        AdvancingConsumes(s, spacing, now);
        deletions + ([MirrorAdvance(now)] + CommandSteps(Advanced(s, b), spacing, now))
  }

  lemma {:induction false} DeletionsRun<D>(spacing: int, s: State<D>, now: int, js: seq<nat>)
    requires Decide(s, spacing, now).Trusted?
    requires forall j :: j in js ==> Dies(s.breadcrumb.untrusted_begin, j)
    ensures MirrorRun<D>(Deletions(js, now), now)
    ensures Exec(spacing, s, Deletions(js, now)) == Some(s.(stored := Without(s.stored, js)))
    decreases |js|
  {
    if js == [] {
      assert Without(s.stored, js) == s.stored;
    } else {
      var s1 := Apply(spacing, s, MirrorDelete(js[0], now));
      DeletionsRun(spacing, s1, now, js[1..]);
      assert Without(s1.stored, js[1..]) == Without(s.stored, js);
      assert Deletions<D>(js, now)[1..] == Deletions(js[1..], now);
    }
  }

  ghost function Without<D>(stored: map<nat, Entry<D>>, js: seq<nat>): map<nat, Entry<D>> {
    map k | k in stored && k !in js :: stored[k]
  }

  /** All the deletions of one step of the command. */
  lemma StepDeletions<D>(spacing: int, s: State<D>, now: int)
    requires Decide(s, spacing, now).Trusted?
    ensures var u := s.breadcrumb.untrusted_begin;
            && MirrorRun<D>(Deletions(DyingSeq(u), now), now)
            && Exec(spacing, s, Deletions(DyingSeq(u), now)) == Some(s.(stored := WithoutDying(s.stored, u)))
  {
    var u := s.breadcrumb.untrusted_begin;
    DyingSeqMeaning(u);
    DeletionsRun(spacing, s, now, DyingSeq(u));
    assert Without(s.stored, DyingSeq(u)) == WithoutDying(s.stored, u);
  }

  /**
   * The command as a whole is a run of single deletions and breadcrumb writes,
   * and so is what was done of it whenever it is interrupted.
   */
  lemma {:induction false} PruneRepositoryRuns<D>(spacing: int, s: State<D>, now: int)
    ensures MirrorRun(CommandSteps(s, spacing, now), now)
    ensures Exec(spacing, s, CommandSteps(s, spacing, now)) == Some(Pruned(s, spacing, now).0)
    ensures forall i :: 0 <= i <= |CommandSteps(s, spacing, now)| ==>
              Exec(spacing, s, CommandSteps(s, spacing, now)[..i]).Some?
    decreases |Untrusted(s)|
  {
    var verdict, u := Decide(s, spacing, now), s.breadcrumb.untrusted_begin;
    if verdict.Trusted? {
      StepDeletions(spacing, s, now);
      if !GivesUp(u) {
        AdvancingConsumes(s, spacing, now);
        PruneRepositoryRuns(spacing, Advanced(s, verdict.breadcrumb), now);
        AdvanceThen(spacing, s, now, CommandSteps(Advanced(s, verdict.breadcrumb), spacing, now));
      }
    }
    forall i | 0 <= i <= |CommandSteps(s, spacing, now)|
      ensures Exec(spacing, s, CommandSteps(s, spacing, now)[..i]).Some?
    {
      ExecPrefix(spacing, s, CommandSteps(s, spacing, now), i);
    }
  }

  lemma AdvanceThen<D>(spacing: int, s: State<D>, now: int, rest: seq<Event<D>>)
    requires Decide(s, spacing, now).Trusted? && MirrorRun(rest, now)
    ensures var steps := Deletions(DyingSeq(s.breadcrumb.untrusted_begin), now) + ([MirrorAdvance(now)] + rest);
            && MirrorRun(steps, now)
            && Exec(spacing, s, steps) == Exec(spacing, Advanced(s, Decide(s, spacing, now).breadcrumb), rest)
  {
    var u := s.breadcrumb.untrusted_begin;
    var deletions, tail := Deletions<D>(DyingSeq(u), now), [MirrorAdvance(now)] + rest;
    StepDeletions(spacing, s, now);
    ExecAppend(spacing, s, deletions, tail);
    DecisionSurvivesDeletion(s, spacing, now);
    assert WithoutDying(WithoutDying(s.stored, u), u) == WithoutDying(s.stored, u);
    assert tail[0] == MirrorAdvance(now) && tail[1..] == rest;
  }

  // ----- what the payloads hold -----

  /** The stored payloads of the given nodes are the ones the history calls for; the others may hold anything. */
  ghost predicate Faithful<C, D>(s: State<D>, driver: Driver<C, D>, history: nat -> C, keys: set<nat>) {
    forall k :: k in s.stored && k in keys ==> s.stored[k].payload == PayloadOf(driver, history, k)
  }

  /** Each of the given nodes, if it enters the repository during the run, carries its own changes. */
  ghost predicate FaithfulRun<C, D>(spacing: int, s: State<D>, run: seq<Event<D>>, driver: Driver<C, D>,
                                    history: nat -> C, keys: set<nat>)
    decreases |run|
  {
    run == [] || (
      var e, u := run[0], s.breadcrumb.untrusted_begin;
      && (e.Arrive? && e.node in keys ==> e.entry.payload == PayloadOf(driver, history, e.node))
      && (e.LocalCommit? && u in keys ==> e.payload == PayloadOf(driver, history, u))
      && (Enabled(spacing, s, e) ==> FaithfulRun(spacing, Apply(spacing, s, e), run[1..], driver, history, keys)))
  }

  lemma {:induction false} RunKeepsFaithful<C, D>(spacing: int, s: State<D>, run: seq<Event<D>>, driver: Driver<C, D>,
                                                  history: nat -> C, keys: set<nat>)
    requires Exec(spacing, s, run).Some? && Faithful(s, driver, history, keys)
    requires FaithfulRun(spacing, s, run, driver, history, keys)
    ensures Faithful(Exec(spacing, s, run).value, driver, history, keys)
    decreases |run|
  {
    if run != [] {
      RunKeepsFaithful(spacing, Apply(spacing, s, run[0]), run[1..], driver, history, keys);
    }
  }
}
