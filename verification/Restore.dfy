// Restoring: replaying stored differences along Fenwick paths.
module Restore {
  import opened Bits
  import opened Fenwick
  import opened Repository
  import opened Backend
  import opened Runs
  import Retention

  /** Every node of the list but the root comes after its parent. */
  predicate SelfContained(nodes: seq<nat>) {
    && StrictlyIncreasing(nodes)
    && forall k :: k in nodes ==> Parent(k) in nodes
  }

  function Ascending(s: seq<nat>): (r: seq<nat>)
    ensures |r| == |s|
    ensures forall i :: 0 <= i < |r| ==> r[i] == s[|s| - 1 - i]
    ensures forall k :: k in r <==> k in s
  {
    if s == [] then [] else Ascending(s[1..]) + [s[0]]
  }

  /** The path from the root up: each node directly after its parent. */
  lemma AscendingPath(v: nat)
    ensures var nodes := Ascending(Path(v));
            && SelfContained(nodes)
            && nodes[0] == 0 && nodes[|nodes| - 1] == v
            && (forall i :: 0 < i < |nodes| ==> nodes[i - 1] == Parent(nodes[i]))
  {
    hide Path, Ascending;
    PathShape(v);
    var path, nodes := Path(v), Ascending(Path(v));
    forall i | 0 < i < |nodes| ensures nodes[i - 1] == Parent(nodes[i]) {
      PathTail(v, |path| - i);
    }
  }

  /**
   * Applies one payload.  Throws when an id is missing, when a difference is to
   * be applied to a snapshot the dataset does not hold, or when the backend
   * does not restore over an existing snapshot.
   */
  method RestoreOne<C(!new), D>(repo: RepositoryStructure<D>, driver: Driver<C, D>, dataset: map<nat, C>, node: nat)
    returns (restored: map<nat, C>, threw: bool)
    requires LookUp(repo.stored, node).Found?
    ensures threw <==>
              (node > 0 && (!LookUp(repo.stored, Parent(node)).Found? || Parent(node) !in dataset))
              || (node in dataset && !driver.overwrites)
    ensures threw ==> restored == dataset
    ensures !threw ==>
              var payload := repo.stored[node].payload;
              restored == dataset[node := if node == 0 then driver.restoreInitial(payload)
                                          else driver.restoreDiff(dataset[Parent(node)], payload)]
  {
    var payload := repo.stored[node].payload;
    var parent := Parent(node);
    if node > 0 && (!LookUp(repo.stored, parent).Found? || parent !in dataset) {
      return dataset, true;
    }
    if node in dataset && !driver.overwrites {
      return dataset, true;
    }
    if node == 0 {
      restored := dataset[node := driver.restoreInitial(payload)];
    } else {
      restored := dataset[node := driver.restoreDiff(dataset[parent], payload)];
    }
    threw := false;
  }

  ghost predicate Recreated<C(!new)>(restored: map<nat, C>, nodes: seq<nat>, history: nat -> C) {
    forall k :: k in nodes ==> k in restored && restored[k] == history(k)
  }

  /** The dataset is no obstacle: what it holds of these nodes is skipped, and right, or can be replaced. */
  ghost predicate Ready<C(!new), D>(driver: Driver<C, D>, dataset: map<nat, C>, nodes: seq<nat>, skip_existing: bool,
                                    history: nat -> C) {
    forall k :: k in nodes && k in dataset ==> if skip_existing then dataset[k] == history(k) else driver.overwrites
  }

  /** When restoring these nodes is bound to succeed, whatever the payloads of other nodes. */
  ghost predicate Good<C(!new), D>(s: State<D>, driver: Driver<C, D>, dataset: map<nat, C>, nodes: seq<nat>,
                                   skip_existing: bool, history: nat -> C) {
    && Lawful(driver) && Faithful(s, driver, history, Members(nodes))
    && SelfContained(nodes) && (forall k :: k in nodes ==> LookUp(s.stored, k).Found?)
    && Ready(driver, dataset, nodes, skip_existing, history)
  }

  /** Present once the first i of the nodes are restored. */
  predicate Present<C>(dataset: map<nat, C>, nodes: seq<nat>, i: nat, k: nat)
    requires i <= |nodes|
  {
    k in dataset || k in nodes[..i]
  }

  /**
   * What stops at node i of the list: no readable id; and, unless it is skipped,
   * no readable id or no snapshot of its parent, or a snapshot in its place.
   */
  predicate Blocked<C, D>(s: State<D>, driver: Driver<C, D>, dataset: map<nat, C>, nodes: seq<nat>, skip_existing: bool,
                          i: nat)
    requires i < |nodes|
  {
    var k, here := nodes[i], Present(dataset, nodes, i, nodes[i]);
    || !LookUp(s.stored, k).Found?
    || (!(here && skip_existing) &&
          ((k > 0 && (!LookUp(s.stored, Parent(k)).Found? || !Present(dataset, nodes, i, Parent(k))))
            || (here && !driver.overwrites)))
  }

  /** Node k was left as it was, or is its payload applied to its parent. */
  ghost predicate Applied<C, D>(s: State<D>, driver: Driver<C, D>, dataset: map<nat, C>, restored: map<nat, C>,
                                skip_existing: bool, k: nat) {
    && LookUp(s.stored, k).Found? && k in restored
    && if skip_existing && k in dataset then restored[k] == dataset[k]
       else if k == 0 then restored[k] == driver.restoreInitial(s.stored[k].payload)
       else Parent(k) in restored && restored[k] == driver.restoreDiff(restored[Parent(k)], s.stored[k].payload)
  }

  /** What a normal return means: every node of the list is there, as it should be, and nothing else is touched. */
  ghost predicate Done<C, D>(s: State<D>, driver: Driver<C, D>, dataset: map<nat, C>, restored: map<nat, C>,
                             nodes: seq<nat>, skip_existing: bool) {
    && (forall k :: k in nodes ==> Applied(s, driver, dataset, restored, skip_existing, k))
    && (forall k :: k in restored ==> k in dataset || k in nodes)
  }

  /** Snapshots of other nodes stay as they are, whether the restoring succeeds or not. */
  ghost predicate OthersKept<C(!new)>(dataset: map<nat, C>, restored: map<nat, C>, nodes: seq<nat>) {
    forall k :: k in dataset && k !in nodes ==> k in restored && restored[k] == dataset[k]
  }

  /** The first i of the nodes are done, and nothing else is touched. */
  ghost predicate Progress<C(!new), D>(s: State<D>, driver: Driver<C, D>, dataset: map<nat, C>, restored: map<nat, C>,
                                       nodes: seq<nat>, skip_existing: bool, i: nat)
    requires i <= |nodes|
  {
    && OthersKept(dataset, restored, nodes[..i])
    && (forall k :: k in restored <==> Present(dataset, nodes, i, k))
    && (forall k :: k in nodes[..i] ==> Applied(s, driver, dataset, restored, skip_existing, k))
  }

  /** Restores the next node, unless it is there and to be skipped. */
  method RestoreNext<C(!new), D>(repo: RepositoryStructure<D>, driver: Driver<C, D>, ghost dataset: map<nat, C>,
                                 before: map<nat, C>, nodes: seq<nat>, skip_existing: bool, i: nat)
    returns (restored: map<nat, C>, threw: bool)
    requires StrictlyIncreasing(nodes) && i < |nodes|
    requires Progress(repo.Value(), driver, dataset, before, nodes, skip_existing, i)
    ensures threw <==> Blocked(repo.Value(), driver, dataset, nodes, skip_existing, i)
    ensures threw ==> restored == before
    ensures !threw ==> Progress(repo.Value(), driver, dataset, restored, nodes, skip_existing, i + 1)
  {
    hide Applied, Parent;
    var node := nodes[i];
    assert nodes[..i + 1] == nodes[..i] + [node];
    restored, threw := before, false;
    if !LookUp(repo.stored, node).Found? {
      return before, true;
    }
    if !(node in before && skip_existing) {
      restored, threw := RestoreOne(repo, driver, before, node);
      if threw { return; }
      StaysApplied(repo.Value(), driver, dataset, before, restored, nodes, skip_existing, i);
    }
    NowApplied(repo.Value(), driver, dataset, before, restored, skip_existing, nodes, i);
  }

  lemma NowApplied<C(!new), D>(s: State<D>, driver: Driver<C, D>, dataset: map<nat, C>, before: map<nat, C>,
                               restored: map<nat, C>, skip_existing: bool, nodes: seq<nat>, i: nat)
    requires StrictlyIncreasing(nodes) && i < |nodes| && Progress(s, driver, dataset, before, nodes, skip_existing, i)
    requires var k := nodes[i];
             && LookUp(s.stored, k).Found?
             && (k in before && skip_existing ==> restored == before)
             && (!(k in before && skip_existing) ==>
                   && (k == 0 || Parent(k) in before)
                   && restored == before[k := if k == 0 then driver.restoreInitial(s.stored[k].payload)
                                              else driver.restoreDiff(before[Parent(k)], s.stored[k].payload)])
    ensures Applied(s, driver, dataset, restored, skip_existing, nodes[i])
  {
    var k := nodes[i];
    assert k !in nodes[..i];
    if k > 0 { assert Parent(k) < k; }
  }

  /** Restores the given nodes in order, skipping (if asked to) those already in the dataset. */
  method RestoreNodes<C(!new), D>(repo: RepositoryStructure<D>, driver: Driver<C, D>, dataset: map<nat, C>,
                                  nodes: seq<nat>, skip_existing: bool, ghost history: nat -> C)
    returns (restored: map<nat, C>, threw: bool)
    requires StrictlyIncreasing(nodes)
    ensures threw <==> exists i :: 0 <= i < |nodes| && Blocked(repo.Value(), driver, dataset, nodes, skip_existing, i)
    ensures !threw ==> Done(repo.Value(), driver, dataset, restored, nodes, skip_existing)
    ensures OthersKept(dataset, restored, nodes)
    ensures Good(repo.Value(), driver, dataset, nodes, skip_existing, history) ==>
              !threw && Recreated(restored, nodes, history)
  {
    restored := dataset;
    hide Applied, Blocked, Good, StrictlyIncreasing, Recreated;
    for i := 0 to |nodes|
      invariant Progress(repo.Value(), driver, dataset, restored, nodes, skip_existing, i)
      invariant forall j :: 0 <= j < i ==> !Blocked(repo.Value(), driver, dataset, nodes, skip_existing, j)
    {
      restored, threw := RestoreNext(repo, driver, dataset, restored, nodes, skip_existing, i);
      if threw {
        NotGood(repo.Value(), driver, dataset, nodes, skip_existing, history, i);
        return;
      }
    }
    assert nodes[..|nodes|] == nodes;
    threw := false;
    if Good(repo.Value(), driver, dataset, nodes, skip_existing, history) {
      DoneIsRecreated(repo.Value(), driver, dataset, restored, nodes, skip_existing, history, |nodes|);
    }
  }

  /** Restoring one more node, later than all before, leaves those as they are. */
  lemma StaysApplied<C, D>(s: State<D>, driver: Driver<C, D>, dataset: map<nat, C>, before: map<nat, C>,
                           restored: map<nat, C>, nodes: seq<nat>, skip_existing: bool, i: nat)
    requires StrictlyIncreasing(nodes) && i < |nodes|
    requires nodes[i] in restored && restored == before[nodes[i] := restored[nodes[i]]]
    requires forall k :: k in nodes[..i] ==> Applied(s, driver, dataset, before, skip_existing, k)
    ensures forall k :: k in nodes[..i] ==> Applied(s, driver, dataset, restored, skip_existing, k)
    ensures nodes[i] > 0 ==> Parent(nodes[i]) != nodes[i]
  {
    forall k | k in nodes[..i] ensures Applied(s, driver, dataset, restored, skip_existing, k) {
      assert Parent(k) <= k < nodes[i];
    }
  }

  /** In a list where parents come first, only missing ids and snapshots in the way can stop anything. */
  lemma BlockedMeans<C, D>(s: State<D>, driver: Driver<C, D>, dataset: map<nat, C>, nodes: seq<nat>,
                           skip_existing: bool)
    requires SelfContained(nodes)
    ensures (exists i :: 0 <= i < |nodes| && Blocked(s, driver, dataset, nodes, skip_existing, i))
       <==> (exists k :: k in nodes && Stops(s, driver, dataset, skip_existing, k))
  {
    if i :| 0 <= i < |nodes| && Blocked(s, driver, dataset, nodes, skip_existing, i) {
      ParentReady(nodes, i);
      assert Stops(s, driver, dataset, skip_existing, nodes[i])
        || (nodes[i] > 0 && Stops(s, driver, dataset, skip_existing, Parent(nodes[i])));
    }
    if k :| k in nodes && Stops(s, driver, dataset, skip_existing, k) {
      var i :| 0 <= i < |nodes| && nodes[i] == k;
      assert Blocked(s, driver, dataset, nodes, skip_existing, i);
    }
  }

  /** Its id cannot be read, or a snapshot is in its place that is neither to be kept nor can be overwritten. */
  predicate Stops<C, D>(s: State<D>, driver: Driver<C, D>, dataset: map<nat, C>, skip_existing: bool, k: nat) {
    !LookUp(s.stored, k).Found? || (k in dataset && !skip_existing && !driver.overwrites)
  }

  lemma NotGood<C(!new), D>(s: State<D>, driver: Driver<C, D>, dataset: map<nat, C>, nodes: seq<nat>,
                            skip_existing: bool, history: nat -> C, i: nat)
    requires i < |nodes| && Blocked(s, driver, dataset, nodes, skip_existing, i)
    ensures !Good(s, driver, dataset, nodes, skip_existing, history)
  {
    if Good(s, driver, dataset, nodes, skip_existing, history) {
      BlockedMeans(s, driver, dataset, nodes, skip_existing);
      assert false;
    }
  }

  lemma AppliedIsHistory<C(!new), D>(s: State<D>, driver: Driver<C, D>, dataset: map<nat, C>, restored: map<nat, C>,
                                     skip_existing: bool, history: nat -> C, k: nat)
    requires Lawful(driver) && Applied(s, driver, dataset, restored, skip_existing, k)
    requires s.stored[k].payload == PayloadOf(driver, history, k)
    requires skip_existing && k in dataset ==> dataset[k] == history(k)
    requires k > 0 && Parent(k) in restored ==> restored[Parent(k)] == history(Parent(k))
    ensures k in restored && restored[k] == history(k)
  {
  }

  /** With the right payloads, what is done is the captured content. */
  lemma {:induction false} DoneIsRecreated<C(!new), D>(s: State<D>, driver: Driver<C, D>, dataset: map<nat, C>,
                                                       restored: map<nat, C>, nodes: seq<nat>, skip_existing: bool,
                                                       history: nat -> C, i: nat)
    requires Good(s, driver, dataset, nodes, skip_existing, history) && i <= |nodes|
    requires Done(s, driver, dataset, restored, nodes, skip_existing)
    ensures Recreated(restored, nodes[..i], history)
  {
    hide Lawful, Applied, PayloadOf, SelfContained, LookUp, Parent;
    if i > 0 {
      var k := nodes[i - 1];
      DoneIsRecreated(s, driver, dataset, restored, nodes, skip_existing, history, i - 1);
      ParentReady(nodes, i - 1);
      assert k in nodes && k in Members(nodes) && nodes[..i] == nodes[..i - 1] + [k];
      StoredIfFound(s, k);
      AppliedIsHistory(s, driver, dataset, restored, skip_existing, history, k);
    }
  }

  lemma StoredIfFound<D>(s: State<D>, k: nat)
    requires LookUp(s.stored, k).Found?
    ensures k in s.stored
  {
  }

  /** The order of the list plays no part in what is promised of its members. */
  lemma SameMembers<C(!new), D>(s: State<D>, driver: Driver<C, D>, dataset: map<nat, C>, restored: map<nat, C>,
                                a: seq<nat>, b: seq<nat>, skip_existing: bool, history: nat -> C)
    requires forall k :: k in a <==> k in b
    ensures Done(s, driver, dataset, restored, a, skip_existing)
        ==> Done(s, driver, dataset, restored, b, skip_existing)
    ensures OthersKept(dataset, restored, a) ==> OthersKept(dataset, restored, b)
    ensures Recreated(restored, a, history) ==> Recreated(restored, b, history)
    ensures Ready(driver, dataset, b, skip_existing, history) ==> Ready(driver, dataset, a, skip_existing, history)
    ensures Members(a) == Members(b)
    ensures (exists k :: k in a && Stops(s, driver, dataset, skip_existing, k))
       <==> (exists k :: k in b && Stops(s, driver, dataset, skip_existing, k))
  {
    hide Applied, Stops;
  }

  lemma ParentReady(nodes: seq<nat>, i: nat)
    requires SelfContained(nodes) && i < |nodes|
    ensures nodes[i] > 0 ==> Parent(nodes[i]) in nodes[..i] && Parent(nodes[i]) in nodes
    ensures nodes[i] !in nodes[..i]
  {
    if nodes[i] > 0 { ParentEarlier(nodes, i); }
  }

  lemma ParentEarlier(nodes: seq<nat>, i: nat)
    requires SelfContained(nodes) && i < |nodes| && nodes[i] > 0
    ensures Parent(nodes[i]) in nodes[..i]
  {
    var p := Parent(nodes[i]);
    assert p in nodes;
    var j :| 0 <= j < |nodes| && nodes[j] == p;
    assert j < i;
    assert nodes[..i][j] == p;
  }

  /** restore: the node's Fenwick path, root first. */
  method RestoreNode<C(!new), D>(repo: RepositoryStructure<D>, driver: Driver<C, D>, dataset: map<nat, C>,
                                 node: u64, skip_existing: bool, ghost history: nat -> C)
    returns (restored: map<nat, C>, order: seq<nat>, threw: bool)
    ensures order == Ascending(Path(node))
    ensures threw <==> exists k :: k in Path(node) && Stops(repo.Value(), driver, dataset, skip_existing, k)
    ensures !threw ==> Done(repo.Value(), driver, dataset, restored, Path(node), skip_existing)
    ensures OthersKept(dataset, restored, Path(node))
    ensures Sound(repo.Value()) && node in repo.stored && node < repo.breadcrumb.untrusted_begin
            && Lawful(driver) && Faithful(repo.Value(), driver, history, Members(Path(node)))
            && Ready(driver, dataset, Path(node), skip_existing, history)
            ==> !threw && Recreated(restored, Path(node), history)
  {
    hide Applied, Lawful, Faithful, LookUp, Stops, Done, OthersKept, Recreated, Ready, Path, Members, Ascending;
    var path := Retention.FenwickPathIncRoot(node);
    order := Ascending(path);
    AscendingPath(node);
    BlockedMeans(repo.Value(), driver, dataset, order, skip_existing);
    if Sound(repo.Value()) && node in repo.stored && node < repo.breadcrumb.untrusted_begin {
      PathStored(repo.Value(), node);
    }
    restored, threw := RestoreNodes(repo, driver, dataset, order, skip_existing, history);
    SameMembers(repo.Value(), driver, dataset, restored, order, path, skip_existing, history);
  }

  /** The nodes up to the given one whose whole path is listed, exactly. */
  method Restorable(listed: seq<nat>, node: nat) returns (nodes: seq<nat>)
    requires StrictlyIncreasing(listed)
    ensures SelfContained(nodes)
    ensures forall k :: k in nodes <==> k in listed && k <= node && PathIn(k, listed)
  {
    nodes := [];
    for i := 0 to |listed|
      invariant SelfContained(nodes)
      invariant forall k :: k in nodes <==> k in listed[..i] && k <= node && PathIn(k, listed)
    {
      hide Path;
      assert listed[..i + 1] == listed[..i] + [listed[i]];
      if listed[i] > node {
        LaterAreGreater(listed, i, node);
        return;
      }
      PathInStep(listed, i);
      if listed[i] == 0 || Parent(listed[i]) in nodes {
        assert forall j :: 0 <= j < |nodes| ==> nodes[j] in nodes;
        nodes := nodes + [listed[i]];
      }
    }
    assert listed[..|listed|] == listed;
  }

  predicate PathIn(k: nat, listed: seq<nat>) { forall j :: j in Path(k) ==> j in listed }

  lemma PathInStep(listed: seq<nat>, i: nat)
    requires StrictlyIncreasing(listed) && i < |listed|
    ensures var k := listed[i];
            PathIn(k, listed) <==> k == 0 || (Parent(k) in listed[..i] && PathIn(Parent(k), listed))
  {
    var k := listed[i];
    assert k in listed;
    if k > 0 {
      assert Path(k) == [k] + Path(Parent(k));
      assert Path(Parent(k))[0] == Parent(k);
      if Parent(k) in listed {
        var j :| 0 <= j < |listed| && listed[j] == Parent(k);
        assert listed[..i][j] == Parent(k);
      }
    }
  }

  lemma LaterAreGreater(listed: seq<nat>, i: nat, node: nat)
    requires StrictlyIncreasing(listed) && i < |listed| && listed[i] > node
    ensures forall k :: k in listed && k <= node ==> k in listed[..i]
  {
    forall k | k in listed && k <= node ensures k in listed[..i] {
      var j :| 0 <= j < |listed| && listed[j] == k;
      assert j < i;
      assert listed[..i][j] == k;
    }
  }

  /** The nodes restoring everything up to a node is about. */
  ghost function Available<D>(s: State<D>, node: nat): set<nat> {
    set k | k in s.stored && k <= node && k < s.breadcrumb.untrusted_begin
  }

  predicate Listed<D>(s: State<D>, k: nat) {
    k in s.stored && k < s.breadcrumb.untrusted_begin && Alive(s.breadcrumb.untrusted_begin - 1, k)
  }

  /** Listed, up to the node, with everything on its path. */
  predicate Selected<D>(s: State<D>, node: nat, k: nat) {
    Listed(s, k) && k <= node && forall j :: j in Path(k) ==> Listed(s, j)
  }

  /**
   * Restoring everything up to a node, as an export does.  Which nodes that is,
   * when it throws and what a normal return means are stated for any
   * repository; in a sound one all trusted stored nodes come back exactly.
   */
  method RestoreAll<C(!new), D>(repo: RepositoryStructure<D>, driver: Driver<C, D>, dataset: map<nat, C>,
                                node: u64, skip_existing: bool, ghost history: nat -> C)
    returns (restored: map<nat, C>, nodes: seq<nat>, ending: Ending)
    requires repo.Valid()
    ensures !ListingEnding(repo.Value()).Returned? ==> ending == ListingEnding(repo.Value()) && restored == dataset
    ensures ListingEnding(repo.Value()).Returned? ==>
              && (forall k :: k in nodes <==> Selected(repo.Value(), node, k))
              && ending == if exists k :: k in nodes && Stops(repo.Value(), driver, dataset, skip_existing, k)
                           then Thrown else Returned
    ensures ending.Returned? ==> Done(repo.Value(), driver, dataset, restored, nodes, skip_existing)
    ensures OthersKept(dataset, restored, nodes)
    ensures ListingEnding(repo.Value()).Returned? && Sound(repo.Value())
            && Lawful(driver) && Faithful(repo.Value(), driver, history, Available(repo.Value(), node))
            && (forall k :: k in Available(repo.Value(), node) && k in dataset ==>
                  if skip_existing then dataset[k] == history(k) else driver.overwrites)
            ==> ending.Returned? && forall k :: k in Available(repo.Value(), node) ==>
                                      k in restored && restored[k] == history(k)
  {
    hide Alive, Stops, Path, Lawful, Done, Good, Recreated, Faithful, Sound, Selected, PathIn, SelfContained;
    var listed;
    listed, ending := repo.GetNodesIncludingUntrusted();
    if !ending.Returned? { return dataset, [], ending; }
    nodes := Restorable(listed, node);
    SelectedIs(repo.Value(), listed, nodes, node);
    BlockedMeans(repo.Value(), driver, dataset, nodes, skip_existing);
    assert StrictlyIncreasing(nodes) by { Increasing(nodes); }
    var threw;
    restored, threw := RestoreNodes(repo, driver, dataset, nodes, skip_existing, history);
    AllRecreated(repo.Value(), driver, dataset, restored, nodes, skip_existing, history, node);
    ending := if threw then Thrown else Returned;
  }

  /** In a sound repository the selection is everything available, and restoring it is bound to succeed. */
  lemma AllRecreated<C(!new), D>(s: State<D>, driver: Driver<C, D>, dataset: map<nat, C>, restored: map<nat, C>,
                                 nodes: seq<nat>, skip_existing: bool, history: nat -> C, node: nat)
    requires SelfContained(nodes) && forall k :: k in nodes <==> Selected(s, node, k)
    ensures Sound(s) && Lawful(driver) && Faithful(s, driver, history, Available(s, node))
            && (forall k :: k in Available(s, node) && k in dataset ==>
                  if skip_existing then dataset[k] == history(k) else driver.overwrites)
            ==> Good(s, driver, dataset, nodes, skip_existing, history)
    ensures Sound(s) && Recreated(restored, nodes, history) ==>
              forall k :: k in Available(s, node) ==> k in restored && restored[k] == history(k)
  {
    hide Lawful, Selected, SelfContained, PayloadOf, Sound, Path;
    if Sound(s) { AvailableIsSelected(s, node); }
  }

  lemma Increasing(nodes: seq<nat>)
    requires SelfContained(nodes)
    ensures StrictlyIncreasing(nodes)
  {
  }

  lemma SelectedIs<D>(s: State<D>, listed: seq<nat>, nodes: seq<nat>, node: nat)
    requires forall k: nat :: k in listed <==> Listed(s, k)
    requires forall k :: k in nodes <==> k in listed && k <= node && PathIn(k, listed)
    ensures forall k :: k in nodes <==> Selected(s, node, k)
  {
  }

  lemma AvailableIsSelected<D>(s: State<D>, node: nat)
    requires Sound(s)
    ensures forall k: nat :: k in Available(s, node) <==> Selected(s, node, k)
    ensures forall k :: k in Available(s, node) ==> LookUp(s.stored, k).Found?
  {
    forall k: nat ensures k in Available(s, node) <==> Selected(s, node, k) {
      if k in Available(s, node) {
        PathStored(s, k);
        PathShape(k);
      }
    }
  }

  /**
   * End to end: after any run that starts from a new repository, in which the
   * nodes of one trusted stored node's path entered with their own changes and
   * everything else with anything at all, that path is all there, and its
   * payloads replay to the captured content.
   */
  lemma RunThenRestore<C(!new), D>(spacing: int, a: int, run: seq<Event<D>>, driver: Driver<C, D>, history: nat -> C,
                                   k: nat)
    requires Exec<D>(spacing, State(map[], Breadcrumb(0, a)), run).Some? && Lawful(driver)
    requires FaithfulRun<C, D>(spacing, State(map[], Breadcrumb(0, a)), run, driver, history, Members(Path(k)))
    requires var s := Exec<D>(spacing, State(map[], Breadcrumb(0, a)), run).value;
             k in s.stored && k < s.breadcrumb.untrusted_begin
    ensures var s := Exec<D>(spacing, State(map[], Breadcrumb(0, a)), run).value;
            && Sound(s) && Faithful(s, driver, history, Members(Path(k)))
            && (forall j :: j in Path(k) ==> j in s.stored)
            && Replay(s, driver, k) == history(k)
  {
    var s0: State<D> := State(map[], Breadcrumb(0, a));
    NewRepositoryIsSound<D>(a);
    RunKeepsSound(spacing, s0, run);
    RunKeepsFaithful(spacing, s0, run, driver, history, Members(Path(k)));
    var s := Exec(spacing, s0, run).value;
    PathStored(s, k);
    ReplayIsHistory(s, driver, history, k);
  }

  /** The content a chain of stored differences stands for. */
  ghost function Replay<C, D>(s: State<D>, driver: Driver<C, D>, k: nat): C
    requires forall j :: j in Path(k) ==> j in s.stored
    decreases k
  {
    if k == 0 then driver.restoreInitial(s.stored[0].payload)
    else
      assert Path(k) == [k] + Path(Parent(k));
      driver.restoreDiff(Replay(s, driver, Parent(k)), s.stored[k].payload)
  }

  lemma {:induction false} ReplayIsHistory<C(!new), D>(s: State<D>, driver: Driver<C, D>, history: nat -> C, k: nat)
    requires Lawful(driver) && Faithful(s, driver, history, Members(Path(k)))
    requires forall j :: j in Path(k) ==> j in s.stored
    ensures Replay(s, driver, k) == history(k)
    decreases k
  {
    assert k in Members(Path(k));
    if k > 0 {
      assert Path(k) == [k] + Path(Parent(k));
      ReplayIsHistory(s, driver, history, Parent(k));
    }
  }
}
