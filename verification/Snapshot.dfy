// The snapshot command on the local repository, attempt by attempt.
module Snapshot {
  import opened Bits
  import opened Options
  import opened Fenwick
  import opened Repository
  import opened Backend
  import opened Runs
  import opened Restore
  import Retention

  datatype Outcome = Stored(alreadyOld: bool) | Threw | Stuck

  /** The backend may fail to take the snapshot, or (it or the encrypting process) to write it out. */
  datatype Failure = Nothing | TakingFails | StoringFails

  /** What an attempt finds: the dataset's live content, the time, and trouble if there is any. */
  datatype World<C> = World(live: C, timestamp: int, failure: Failure)

  /** The dataset after the backend's snapshot: an orphan left by an earlier attempt is adopted. */
  function Taken<C>(dataset: map<nat, C>, node: nat, live: C): map<nat, C> {
    if node in dataset then dataset else dataset[node := live]
  }

  function DiffPayload<C, D>(driver: Driver<C, D>, dataset: map<nat, C>, u: nat): D
    requires u in dataset && Parent(u) in dataset
  {
    if u == 0 then driver.initial(dataset[0]) else driver.diff(dataset[Parent(u)], dataset[u])
  }

  /** When a snapshot goes through. */
  ghost predicate CanStore<C, D>(s: State<D>, checkedOut: bool, dataset: map<nat, C>) {
    var u := s.breadcrumb.untrusted_begin;
    && LookUp(s.stored, u).Missing? && !checkedOut && !GivesUp(u) && u + 1 < W64
    && (u > 0 ==> LookUp(s.stored, Parent(u)).Found? && Parent(u) in dataset)
  }

  /** Nothing but nodes that die at the breadcrumb, if any, is gone. */
  ghost predicate Pruning<D>(s: State<D>, s': State<D>) {
    && s'.breadcrumb == s.breadcrumb
    && (forall k :: k in s'.stored ==> k in s.stored && s'.stored[k] == s.stored[k])
    && (forall k :: k in s.stored && !Dies(s.breadcrumb.untrusted_begin, k) ==> k in s'.stored)
  }

  ghost function Renamed<C, D>(s: State<D>, driver: Driver<C, D>, dataset: map<nat, C>, timestamp: int)
    : map<nat, Entry<D>>
    requires s.breadcrumb.untrusted_begin in dataset && Parent(s.breadcrumb.untrusted_begin) in dataset
  {
    var u := s.breadcrumb.untrusted_begin;
    WithoutDying(s.stored, u)[u := Entry(Id(u, timestamp), DiffPayload(driver, dataset, u))]
  }

  /**
   * What an attempt can have done to the repository and the dataset by the time
   * it ends or is stopped: pruned in part, taken the backend's snapshot, renamed
   * the new node's directory, or written the breadcrumb as well.
   */
  ghost predicate Attempt<C, D>(driver: Driver<C, D>, s: State<D>, dataset: map<nat, C>, s': State<D>,
                                dataset': map<nat, C>, w: World<C>) {
    var u := s.breadcrumb.untrusted_begin;
    && (dataset' == dataset || dataset' == Taken(dataset, u, w.live))
    && (Pruning(s, s') || (
          && LookUp(s.stored, u).Missing? && u in dataset' && Parent(u) in dataset'
          && (u > 0 ==> LookUp(s.stored, Parent(u)).Found?)
          && s'.stored == Renamed(s, driver, dataset', w.timestamp)
          && (s'.breadcrumb == s.breadcrumb || s'.breadcrumb == Breadcrumb(u + 1, w.timestamp))))
  }

  /** A failure to write leaves the temporary snapshot checked out. */
  method StoreSnapshot<C, D>(repo: RepositoryStructure<D>, driver: Driver<C, D>, dataset: map<nat, C>,
                             node: u64, timestamp: int, failure: Failure) returns (threw: bool)
    requires repo.Valid() && node !in repo.stored && node in dataset && Parent(node) in dataset
    modifies repo
    ensures repo.Valid()
    ensures threw <==> old(repo.checkedOut) || failure.StoringFails? || node + 1 == W64
    ensures old(repo.checkedOut) || failure.StoringFails? ==> repo.Value() == old(repo.Value()) && repo.checkedOut
    ensures !old(repo.checkedOut) && !failure.StoringFails? ==>
              && !repo.checkedOut
              && repo.stored == old(repo.stored)[node := Entry(Id(node, timestamp), DiffPayload(driver, dataset, node))]
              && repo.breadcrumb == if node + 1 < W64 then Breadcrumb(node + 1, timestamp) else old(repo.breadcrumb)
  {
    threw := repo.CheckOutTemporarySnapshot();
    if threw || failure.StoringFails? { return true; }
    var payload := DiffPayload(driver, dataset, node);
    threw := repo.Commit(node, timestamp, payload);
  }

  /** One attempt at a snapshot; stuck when the search for the next node never ends. */
  method TakeSnapshot<C, D>(repo: RepositoryStructure<D>, driver: Driver<C, D>, dataset: map<nat, C>, w: World<C>)
    returns (outcome: Outcome, dataset': map<nat, C>)
    requires repo.Valid()
    modifies repo
    ensures repo.Valid()
    ensures outcome.Stuck? <==> LookUp(old(repo.stored), old(repo.breadcrumb.untrusted_begin)).Found?
    ensures outcome.Stuck? ==> repo.Value() == old(repo.Value()) && dataset' == dataset
    ensures outcome.Stored? <==> w.failure.Nothing? && CanStore(old(repo.Value()), old(repo.checkedOut), dataset)
    ensures outcome.Stored? ==>
              var u := old(repo.breadcrumb.untrusted_begin);
              && dataset' == Taken(dataset, u, w.live) && Parent(u) in dataset'
              && outcome.alreadyOld == (u in dataset) && !repo.checkedOut
              && repo.Value() == State(Renamed(old(repo.Value()), driver, dataset', w.timestamp),
                                       Breadcrumb(u + 1, w.timestamp))
    ensures outcome.Threw? ==> repo.breadcrumb == old(repo.breadcrumb)
    ensures forall k :: k in dataset ==> k in dataset' && dataset'[k] == dataset[k]
    ensures Attempt(driver, old(repo.Value()), dataset, repo.Value(), dataset', w)
  {
    dataset' := dataset;
    var next := repo.NextSnapshotNode();
    if next.None? {
      return Stuck, dataset;
    }
    if next.value.None? {
      return Threw, dataset;
    }
    var node: u64 := next.value.value;
    if node > 0 {
      var threw := repo.DeleteDying(node);
      if threw { return Threw, dataset; }
      var parent := Retention.FenwickParent(node);
      ParentIsKept(node);
      if !LookUp(repo.stored, parent).Found? || parent !in dataset {
        return Threw, dataset;
      }
    } else {
      assert WithoutDying(repo.stored, 0) == repo.stored;
    }
    if w.failure.TakingFails? {
      return Threw, dataset;
    }
    dataset' := Taken(dataset, node, w.live);
    var threw := StoreSnapshot(repo, driver, dataset', node, w.timestamp, w.failure);
    outcome := if threw then Threw else Stored(node in dataset);
  }

  lemma ParentIsKept(node: nat)
    requires node > 0
    ensures !Dies(node, Parent(node))
  {
    if Parent(node) > 0 { ParentLsb(node); }
  }

  // ----- the command: attempts until one is not an adopted orphan -----

  ghost function Orphans<C>(dataset: map<nat, C>, u: nat): set<nat> { set k | k in dataset && k >= u }

  /** How many snapshots, from number u on, the dataset holds without a gap. */
  ghost function Consecutive<C>(dataset: map<nat, C>, u: nat): nat
    decreases |Orphans(dataset, u)|
  {
    if u !in dataset then 0
    else
      assert Orphans(dataset, u + 1) == Orphans(dataset, u) - {u} && u in Orphans(dataset, u);
      1 + Consecutive(dataset, u + 1)
  }

  lemma {:induction false} ConsecutiveMeans<C>(dataset: map<nat, C>, u: nat)
    ensures forall k :: u <= k < u + Consecutive(dataset, u) ==> k in dataset
    ensures u + Consecutive(dataset, u) !in dataset
    decreases |Orphans(dataset, u)|
  {
    if u in dataset {
      assert Orphans(dataset, u + 1) == Orphans(dataset, u) - {u} && u in Orphans(dataset, u);
      ConsecutiveMeans(dataset, u + 1);
    }
  }

  /** The repository once a snapshot is stored. */
  ghost function NextState<C, D>(s: State<D>, driver: Driver<C, D>, dataset: map<nat, C>, timestamp: int): State<D> {
    var u := s.breadcrumb.untrusted_begin;
    if u in dataset && Parent(u) in dataset then
      State(Renamed(s, driver, dataset, timestamp), Breadcrumb(u + 1, timestamp))
    else s
  }

  /** The repository after so many attempts that each adopted an orphan. */
  ghost function StateAt<C, D>(s: State<D>, driver: Driver<C, D>, dataset: map<nat, C>, world: nat -> World<C>, i: nat)
    : State<D>
  {
    if i == 0 then s else NextState(StateAt(s, driver, dataset, world, i - 1), driver, dataset, world(i - 1).timestamp)
  }

  /** Attempt i, if all before it adopted orphans, stores a snapshot. */
  ghost predicate Succeeds<C, D>(s: State<D>, checkedOut: bool, driver: Driver<C, D>, dataset: map<nat, C>,
                                 world: nat -> World<C>, i: nat) {
    world(i).failure.Nothing? && CanStore(StateAt(s, driver, dataset, world, i), checkedOut && i == 0, dataset)
  }

  ghost predicate Adopts<C, D>(s: State<D>, checkedOut: bool, driver: Driver<C, D>, dataset: map<nat, C>,
                               world: nat -> World<C>, i: nat) {
    Succeeds(s, checkedOut, driver, dataset, world, i) && s.breadcrumb.untrusted_begin + i in dataset
  }

  /** What the command leaves if attempt i is its last. */
  ghost predicate EndsAt<C, D>(s0: State<D>, checkedOut: bool, driver: Driver<C, D>, dataset: map<nat, C>,
                               world: nat -> World<C>, i: nat, outcome: Outcome, s': State<D>, dataset': map<nat, C>) {
    var s, w := StateAt(s0, driver, dataset, world, i), world(i);
    var u := s.breadcrumb.untrusted_begin;
    && u == s0.breadcrumb.untrusted_begin + i
    && !Adopts(s0, checkedOut, driver, dataset, world, i)
    && (outcome.Stored? <==> Succeeds(s0, checkedOut, driver, dataset, world, i))
    && (outcome.Stored? ==> outcome == Stored(false) && u !in dataset && dataset' == dataset[u := w.live]
                            && s' == NextState(s, driver, dataset', w.timestamp))
    && (outcome.Stuck? <==> LookUp(s.stored, u).Found?)
    && (outcome.Stuck? ==> s' == s && dataset' == dataset)
    && (outcome.Threw? ==> s'.breadcrumb == s.breadcrumb)
    && Attempt(driver, s, dataset, s', dataset', w)
  }

  /**
   * Repeats as long as an orphan is adopted: the first attempt that does not is
   * the last, and its outcome is the command's.
   */
  method SnapshotCommand<C, D>(repo: RepositoryStructure<D>, driver: Driver<C, D>, dataset: map<nat, C>,
                               world: nat -> World<C>)
    returns (outcome: Outcome, dataset': map<nat, C>, attempts: nat)
    requires repo.Valid()
    modifies repo
    ensures repo.Valid() && attempts > 0
    ensures forall i :: 0 <= i < attempts - 1 ==>
              Adopts(old(repo.Value()), old(repo.checkedOut), driver, dataset, world, i)
    ensures EndsAt(old(repo.Value()), old(repo.checkedOut), driver, dataset, world, attempts - 1,
                   outcome, repo.Value(), dataset')
    ensures outcome.Stored? <==>
              forall i :: 0 <= i <= Consecutive(dataset, old(repo.breadcrumb.untrusted_begin)) ==>
                Succeeds(old(repo.Value()), old(repo.checkedOut), driver, dataset, world, i)
    ensures outcome.Stored? ==> attempts == Consecutive(dataset, old(repo.breadcrumb.untrusted_begin)) + 1
  {
    ghost var s0, out0 := repo.Value(), repo.checkedOut;
    NoAttempt(s0, driver, dataset, world);
    hide Consecutive, StateAt, Succeeds, Adopts, EndsAt;
    dataset', attempts := dataset, 0;
    outcome := Stored(true);
    while outcome == Stored(true)
      invariant repo.Valid() && (outcome == Stored(true) ==> dataset' == dataset)
      invariant SoFar(s0, out0, driver, dataset, world, attempts, outcome, repo.Value(), repo.checkedOut, dataset')
      decreases outcome == Stored(true), |Orphans(dataset, repo.breadcrumb.untrusted_begin)|
    {
      outcome, dataset' := TryAgain(repo, driver, dataset', world, attempts, s0, out0);
      attempts := attempts + 1;
    }
    FirstToFail(s0, out0, driver, dataset, world, attempts - 1, outcome, repo.Value(), dataset');
  }

  /** One round of the loop. */
  method TryAgain<C, D>(repo: RepositoryStructure<D>, driver: Driver<C, D>, dataset: map<nat, C>,
                        world: nat -> World<C>, i: nat, ghost s0: State<D>, ghost out0: bool)
    returns (outcome: Outcome, dataset': map<nat, C>)
    requires repo.Valid()
    requires SoFar(s0, out0, driver, dataset, world, i, Stored(true), repo.Value(), repo.checkedOut, dataset)
    modifies repo
    ensures repo.Valid()
    ensures SoFar(s0, out0, driver, dataset, world, i + 1, outcome, repo.Value(), repo.checkedOut, dataset')
    ensures outcome == Stored(true) ==>
              |Orphans(dataset, repo.breadcrumb.untrusted_begin)|
                < |Orphans(dataset, old(repo.breadcrumb.untrusted_begin))|
  {
    hide Attempt, CanStore, DiffPayload, WithoutDying, StateAt, Adopts, EndsAt, Renamed, Taken;
    outcome, dataset' := TakeSnapshot(repo, driver, dataset, world(i));
    Attempted(s0, out0, driver, dataset, world, i, outcome, old(repo.Value()), repo.Value(), dataset');
  }

  /** All attempts so far adopted orphans, or all but the last. */
  ghost predicate SoFar<C, D>(s0: State<D>, checkedOut: bool, driver: Driver<C, D>, dataset: map<nat, C>,
                              world: nat -> World<C>, n: nat, outcome: Outcome, s: State<D>, out: bool,
                              dataset': map<nat, C>) {
    if outcome == Stored(true) then
      && (forall i :: 0 <= i < n ==> Adopts(s0, checkedOut, driver, dataset, world, i))
      && s == StateAt(s0, driver, dataset, world, n) && dataset' == dataset
      && s.breadcrumb.untrusted_begin == s0.breadcrumb.untrusted_begin + n && out == (checkedOut && n == 0)
    else
      && n > 0
      && (forall i :: 0 <= i < n - 1 ==> Adopts(s0, checkedOut, driver, dataset, world, i))
      && EndsAt(s0, checkedOut, driver, dataset, world, n - 1, outcome, s, dataset')
  }

  /** What the contract of one attempt says of attempt i. */
  lemma Attempted<C, D>(s0: State<D>, checkedOut: bool, driver: Driver<C, D>, dataset: map<nat, C>,
                        world: nat -> World<C>, i: nat, outcome: Outcome, s: State<D>, s': State<D>,
                        dataset': map<nat, C>)
    requires s == StateAt(s0, driver, dataset, world, i)
    requires s.breadcrumb.untrusted_begin == s0.breadcrumb.untrusted_begin + i
    requires outcome.Stuck? <==> LookUp(s.stored, s.breadcrumb.untrusted_begin).Found?
    requires outcome.Stuck? ==> s' == s && dataset' == dataset
    requires outcome.Stored? <==> world(i).failure.Nothing? && CanStore(s, checkedOut && i == 0, dataset)
    requires outcome.Stored? ==>
               var u := s.breadcrumb.untrusted_begin;
               && dataset' == Taken(dataset, u, world(i).live) && Parent(u) in dataset'
               && outcome.alreadyOld == (u in dataset)
               && s' == State(Renamed(s, driver, dataset', world(i).timestamp), Breadcrumb(u + 1, world(i).timestamp))
    requires outcome.Threw? ==> s'.breadcrumb == s.breadcrumb
    requires Attempt(driver, s, dataset, s', dataset', world(i))
    ensures outcome == Stored(true) ==>
              && Adopts(s0, checkedOut, driver, dataset, world, i) && dataset' == dataset
              && s' == StateAt(s0, driver, dataset, world, i + 1)
              && |Orphans(dataset, s'.breadcrumb.untrusted_begin)| < |Orphans(dataset, s.breadcrumb.untrusted_begin)|
    ensures outcome != Stored(true) ==> EndsAt(s0, checkedOut, driver, dataset, world, i, outcome, s', dataset')
  {
    hide Attempt, CanStore, Renamed, LookUp;
    if outcome == Stored(true) {
      var u := s.breadcrumb.untrusted_begin;
      assert Orphans(dataset, u + 1) == Orphans(dataset, u) - {u} && u in Orphans(dataset, u);
    }
  }

  lemma NoAttempt<C, D>(s: State<D>, driver: Driver<C, D>, dataset: map<nat, C>, world: nat -> World<C>)
    ensures StateAt(s, driver, dataset, world, 0) == s
  {
  }

  /** The command succeeds exactly if all attempts up to the first without an orphan do. */
  lemma FirstToFail<C, D>(s: State<D>, checkedOut: bool, driver: Driver<C, D>, dataset: map<nat, C>,
                          world: nat -> World<C>, last: nat, outcome: Outcome, s': State<D>, dataset': map<nat, C>)
    requires forall i :: 0 <= i < last ==> Adopts(s, checkedOut, driver, dataset, world, i)
    requires EndsAt(s, checkedOut, driver, dataset, world, last, outcome, s', dataset')
    ensures var n := Consecutive(dataset, s.breadcrumb.untrusted_begin);
            && (outcome.Stored? <==> forall i :: 0 <= i <= n ==> Succeeds(s, checkedOut, driver, dataset, world, i))
            && (outcome.Stored? ==> last == n)
  {
    hide Succeeds, Consecutive, StateAt, Attempt, NextState, LookUp;
    var n, u := Consecutive(dataset, s.breadcrumb.untrusted_begin), s.breadcrumb.untrusted_begin;
    assert last > n ==> Adopts(s, checkedOut, driver, dataset, world, n);
    ConsecutiveMeans(dataset, u);
    forall i | 0 <= i < last ensures Succeeds(s, checkedOut, driver, dataset, world, i) && u + i in dataset {
      assert Adopts(s, checkedOut, driver, dataset, world, i);
    }
    if last < n {
      assert u <= u + last < u + n;
      assert !Succeeds(s, checkedOut, driver, dataset, world, last);
    }
  }

  // ----- when the command succeeds, from the first state -----

  /** Nothing stands in the way of storing node k. */
  ghost predicate Clear<C, D>(s: State<D>, dataset: map<nat, C>, k: nat) {
    LookUp(s.stored, k).Missing? && !GivesUp(k) && k + 1 < W64 && (k > 0 ==> Parent(k) in dataset)
  }

  ghost predicate Fine<C, D>(s: State<D>, dataset: map<nat, C>, world: nat -> World<C>, i: nat) {
    world(i).failure.Nothing? && Clear(s, dataset, s.breadcrumb.untrusted_begin + i)
  }

  /** Attempts do not change what is stored from the breadcrumb on, and keep the repository sound. */
  lemma {:induction false} StaysClear<C, D>(s: State<D>, driver: Driver<C, D>, dataset: map<nat, C>,
                                            world: nat -> World<C>, i: nat)
    requires Sound(s) && forall k :: s.breadcrumb.untrusted_begin <= k < s.breadcrumb.untrusted_begin + i ==>
                           k in dataset && Parent(k) in dataset && Clear(s, dataset, k)
    ensures var s' := StateAt(s, driver, dataset, world, i);
            && Sound(s') && s'.breadcrumb.untrusted_begin == s.breadcrumb.untrusted_begin + i
            && forall k :: k >= s'.breadcrumb.untrusted_begin ==> LookUp(s'.stored, k) == LookUp(s.stored, k)
  {
    NoAttempt(s, driver, dataset, world);
    hide Sound, StateAt, LookUp, NextState, Parent;
    if i > 0 {
      var u, k := s.breadcrumb.untrusted_begin, s.breadcrumb.untrusted_begin + (i - 1);
      StaysClear(s, driver, dataset, world, i - 1);
      var before := StateAt(s, driver, dataset, world, i - 1);
      assert u <= k < u + i && k in dataset && Clear(s, dataset, k);
      assert LookUp(before.stored, k).Missing?;
      NextIsSound(before, driver, dataset, world(i - 1).timestamp);
      NextAttempt(s, driver, dataset, world, i - 1);
    }
  }

  lemma NextAttempt<C, D>(s: State<D>, driver: Driver<C, D>, dataset: map<nat, C>, world: nat -> World<C>, i: nat)
    ensures StateAt(s, driver, dataset, world, i + 1)
         == NextState(StateAt(s, driver, dataset, world, i), driver, dataset, world(i).timestamp)
  {
  }

  lemma NextIsSound<C, D>(s: State<D>, driver: Driver<C, D>, dataset: map<nat, C>, timestamp: int)
    requires var u := s.breadcrumb.untrusted_begin;
             Sound(s) && LookUp(s.stored, u).Missing? && u in dataset && Parent(u) in dataset
    ensures var s' := NextState(s, driver, dataset, timestamp);
            && Sound(s') && s'.breadcrumb.untrusted_begin == s.breadcrumb.untrusted_begin + 1
            && forall k :: k > s.breadcrumb.untrusted_begin ==> LookUp(s'.stored, k) == LookUp(s.stored, k)
  {
    var u, s' := s.breadcrumb.untrusted_begin, NextState(s, driver, dataset, timestamp);
    SoundMeans(s);
    RenameKeepsSound(s, s', s'.stored[u]);
  }

  lemma SucceedsIfClear<C, D>(s: State<D>, checkedOut: bool, driver: Driver<C, D>, dataset: map<nat, C>,
                              world: nat -> World<C>, i: nat)
    requires var s' := StateAt(s, driver, dataset, world, i);
             && Sound(s') && s'.breadcrumb.untrusted_begin == s.breadcrumb.untrusted_begin + i
             && LookUp(s'.stored, s'.breadcrumb.untrusted_begin) == LookUp(s.stored, s'.breadcrumb.untrusted_begin)
    ensures Succeeds(s, checkedOut, driver, dataset, world, i) <==>
              !(checkedOut && i == 0) && Fine(s, dataset, world, i)
  {
    hide Sound, StateAt;
    SoundMeans(StateAt(s, driver, dataset, world, i));
  }

  /**
   * In a sound repository the command succeeds exactly if no temporary snapshot
   * is out, nothing fails, and nothing stands in the way of any of the nodes from
   * the breadcrumb to the first that is no orphan.
   */
  lemma {:induction false} CommandSucceeds<C, D>(s: State<D>, checkedOut: bool, driver: Driver<C, D>,
                                                 dataset: map<nat, C>, world: nat -> World<C>, n: nat)
    requires Sound(s) && n <= Consecutive(dataset, s.breadcrumb.untrusted_begin)
    ensures (forall i :: 0 <= i <= n ==> Succeeds(s, checkedOut, driver, dataset, world, i)) <==>
              (!checkedOut && forall i :: 0 <= i <= n ==> Fine(s, dataset, world, i))
  {
    hide Sound, StateAt, Succeeds, Clear, Consecutive;
    var u := s.breadcrumb.untrusted_begin;
    if n > 0 { CommandSucceeds(s, checkedOut, driver, dataset, world, n - 1); }
    if !checkedOut || n == 0 {
      if forall i :: 0 <= i < n ==> Fine(s, dataset, world, i) {
        ConsecutiveMeans(dataset, u);
        forall k | u <= k < u + n ensures k in dataset && Parent(k) in dataset && Clear(s, dataset, k) {
          assert Fine(s, dataset, world, k - u);
          ClearParent(s, dataset, k);
        }
        StaysClear(s, driver, dataset, world, n);
        SucceedsIfClear(s, checkedOut, driver, dataset, world, n);
      }
    }
  }

  lemma ClearParent<C, D>(s: State<D>, dataset: map<nat, C>, k: nat)
    requires Clear(s, dataset, k) && k in dataset
    ensures Parent(k) in dataset
  {
  }

  // ----- any number of attempts -----

  /** Every stored payload is the difference between the contents the dataset holds. */
  ghost predicate Captured<C, D>(s: State<D>, driver: Driver<C, D>, dataset: map<nat, C>) {
    forall k :: k in s.stored ==>
      k in dataset && Parent(k) in dataset && s.stored[k].payload == DiffPayload(driver, dataset, k)
  }

  lemma AttemptKeeps<C, D>(driver: Driver<C, D>, s: State<D>, dataset: map<nat, C>, s': State<D>, dataset': map<nat, C>,
                           w: World<C>)
    requires Sound(s) && Captured(s, driver, dataset) && Attempt(driver, s, dataset, s', dataset', w)
    ensures Sound(s') && Captured(s', driver, dataset')
    ensures forall k :: k in dataset ==> k in dataset' && dataset'[k] == dataset[k]
  {
    hide Sound, Alive;
    if Pruning(s, s') {
      PruningKeepsSound(s, s');
    } else {
      RenameKeepsSound(s, s', Entry(Id(s.breadcrumb.untrusted_begin, w.timestamp),
                                    DiffPayload(driver, dataset', s.breadcrumb.untrusted_begin)));
    }
  }

  lemma PruningKeepsSound<D>(s: State<D>, s': State<D>)
    requires Sound(s) && Pruning(s, s')
    ensures Sound(s')
  {
  }

  lemma RenameKeepsSound<D>(s: State<D>, s': State<D>, e: Entry<D>)
    requires var u := s.breadcrumb.untrusted_begin;
             && Sound(s) && u !in s.stored && e.id.Id? && e.id.node == u
             && (u > 0 ==> LookUp(s.stored, Parent(u)).Found?)
             && s'.stored == WithoutDying(s.stored, u)[u := e]
             && (s'.breadcrumb == s.breadcrumb || s'.breadcrumb == Breadcrumb(u + 1, e.id.timestamp))
    ensures Sound(s')
  {
    var u := s.breadcrumb.untrusted_begin;
    var pruned := s.(stored := WithoutDying(s.stored, u));
    PruningKeepsSound(s, pruned);
    if s'.breadcrumb != s.breadcrumb {
      if u > 0 { ParentIsKept(u); }
      assert WithoutDying(pruned.stored, u) == pruned.stored;
      StepKeepsSound(0, pruned, LocalCommit(e.id.timestamp, e.payload));
    }
  }

  /**
   * End to end for local use: after any number of attempts from a new
   * repository, finished, failed or stopped anywhere, every trusted stored node
   * replays to the content its snapshot captured, which no attempt has changed.
   */
  lemma {:induction false} SnapshotsReplay<C(!new), D>(driver: Driver<C, D>, a: int, states: seq<State<D>>,
                                                       datasets: seq<map<nat, C>>, worlds: seq<World<C>>,
                                                       i: nat, k: nat)
    requires Lawful(driver) && i < |states| == |datasets| == |worlds| + 1
    requires states[0] == State(map[], Breadcrumb(0, a)) && datasets[0] == map[]
    requires forall j :: 0 <= j < |worlds| ==>
               Attempt(driver, states[j], datasets[j], states[j + 1], datasets[j + 1], worlds[j])
    ensures Sound(states[i]) && Captured(states[i], driver, datasets[i])
    ensures k in states[i].stored && k < states[i].breadcrumb.untrusted_begin ==>
              && (forall j :: j in Path(k) ==> j in states[i].stored)
              && k in datasets[i] && Replay(states[i], driver, k) == datasets[i][k]
    decreases i
  {
    if i == 0 {
      NewRepositoryIsSound<D>(a);
    } else {
      SnapshotsReplay(driver, a, states, datasets, worlds, i - 1, k);
      AttemptKeeps(driver, states[i - 1], datasets[i - 1], states[i], datasets[i], worlds[i - 1]);
    }
    if k in states[i].stored && k < states[i].breadcrumb.untrusted_begin {
      PathStored(states[i], k);
      var d := datasets[i];
      var history := (j: nat) => if j in d then d[j] else d[k];
      CapturedIsFaithful(states[i], driver, d, history, Members(Path(k)));
      ReplayIsHistory(states[i], driver, history, k);
    }
  }

  lemma CapturedIsFaithful<C(!new), D>(s: State<D>, driver: Driver<C, D>, dataset: map<nat, C>, history: nat -> C,
                                       keys: set<nat>)
    requires Captured(s, driver, dataset) && Agrees(dataset, history)
    ensures Faithful(s, driver, history, keys)
  {
    forall k | k in s.stored ensures s.stored[k].payload == PayloadOf(driver, history, k) {
      PayloadIsFaithful(driver, dataset, history, k);
    }
  }

  /** What a snapshot stores is what the dataset's history calls for. */
  lemma PayloadIsFaithful<C(!new), D>(driver: Driver<C, D>, dataset: map<nat, C>, history: nat -> C, u: nat)
    requires Agrees(dataset, history) && u in dataset && Parent(u) in dataset
    ensures DiffPayload(driver, dataset, u) == PayloadOf(driver, history, u)
  {
  }

  // ----- a snapshot is a run -----

  function LocalDeletions<D>(js: seq<nat>): seq<Event<D>> {
    if js == [] then [] else [LocalDelete(js[0])] + LocalDeletions(js[1..])
  }

  /** The steps of a successful attempt: what dies at the new node, greatest first, then the rename. */
  function SnapshotSteps<D>(u: nat, timestamp: int, payload: D): seq<Event<D>> {
    LocalDeletions(DyingSeq(u)) + [LocalCommit(timestamp, payload)]
  }

  /** A successful attempt is a run, and so is what was done of it whenever it is stopped. */
  lemma SnapshotRuns<D>(spacing: int, s: State<D>, timestamp: int, payload: D)
    requires var u := s.breadcrumb.untrusted_begin;
             u !in s.stored && (u > 0 ==> LookUp(s.stored, Parent(u)).Found?)
    ensures var u := s.breadcrumb.untrusted_begin;
            var steps := SnapshotSteps(u, timestamp, payload);
            && Exec(spacing, s, steps) == Some(State(
                 WithoutDying(s.stored, u)[u := Entry(Id(u, timestamp), payload)], Breadcrumb(u + 1, timestamp)))
            && forall i :: 0 <= i <= |steps| ==> Exec(spacing, s, steps[..i]).Some?
  {
    var u := s.breadcrumb.untrusted_begin;
    DyingSeqMeaning(u);
    LocalDeletionsRun(spacing, s, DyingSeq(u));
    var left := WithoutDying(s.stored, u);
    assert Without(s.stored, DyingSeq(u)) == left;
    assert WithoutDying(left, u) == left;
    if u > 0 { ParentIsKept(u); }
    ExecAppend(spacing, s, LocalDeletions(DyingSeq(u)), [LocalCommit(timestamp, payload)]);
    var steps := SnapshotSteps(u, timestamp, payload);
    forall i | 0 <= i <= |steps| ensures Exec(spacing, s, steps[..i]).Some? {
      ExecPrefix(spacing, s, steps, i);
    }
  }

  lemma {:induction false} LocalDeletionsRun<D>(spacing: int, s: State<D>, js: seq<nat>)
    requires s.breadcrumb.untrusted_begin !in s.stored
    requires forall j :: j in js ==> Dies(s.breadcrumb.untrusted_begin, j)
    ensures Exec(spacing, s, LocalDeletions(js)) == Some(s.(stored := Without(s.stored, js)))
    decreases |js|
  {
    if js == [] {
      assert Without(s.stored, js) == s.stored;
    } else {
      var s1 := Apply(spacing, s, LocalDelete(js[0]));
      LocalDeletionsRun(spacing, s1, js[1..]);
      assert Without(s1.stored, js[1..]) == Without(s.stored, js);
      assert LocalDeletions<D>(js)[1..] == LocalDeletions(js[1..]);
    }
  }
}
