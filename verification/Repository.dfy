// The repository directory: stored nodes and the breadcrumb, as a value and as
// the mutable structure the commands work on.
module Repository {
  import opened Bits
  import opened Options
  import opened Fenwick
  import Retention

  /** What the id file of a stored node deserialises to. */
  datatype IdFile = Garbled | Id(node: nat, timestamp: int)

  datatype Entry<D> = Entry(id: IdFile, payload: D)

  datatype Breadcrumb = Breadcrumb(untrusted_begin: nat, last_trusted_node_authorised_at: int)

  datatype State<D> = State(stored: map<nat, Entry<D>>, breadcrumb: Breadcrumb)

  /** An id file may be absent, present and naming its own node, or anything else (an exception). */
  datatype Lookup = Missing | Corrupt | Found(timestamp: int)

  /** How a call ends, if it does. */
  datatype Ending = Returned | Thrown | NeverEnds

  function LookUp<D>(stored: map<nat, Entry<D>>, node: nat): Lookup {
    if node !in stored then Missing
    else match stored[node].id
      case Garbled => Corrupt
      case Id(n, timestamp) => if n == node then Found(timestamp) else Corrupt
  }

  /** The search for the next free node, run for so many rounds; None while it has not ended. */
  function Search<D>(stored: map<nat, Entry<D>>, prev: nat, rounds: nat): Option<Option<nat>> {
    if rounds == 0 then None
    else match LookUp(stored, prev)
      case Missing => Some(Some(prev))
      case Corrupt => Some(None)
      case Found(_) => Search(stored, stored[prev].id.node, rounds - 1)
  }

  /** The search never advances: it ends, in its first round, exactly when no valid id is stored where it starts. */
  lemma {:induction false} SearchStaysPut<D>(stored: map<nat, Entry<D>>, u: nat, rounds: nat)
    ensures LookUp(stored, u).Found? ==> Search(stored, u, rounds).None?
    ensures rounds > 0 && !LookUp(stored, u).Found? ==>
              Search(stored, u, rounds) == Some(if LookUp(stored, u).Missing? then Some(u) else None)
  {
    if rounds > 0 && LookUp(stored, u).Found? {
      SearchStaysPut(stored, u, rounds - 1);
    }
  }

  /** After a stop between a commit's rename and its breadcrumb write the search goes on for ever. */
  lemma StaleBreadcrumbIsStuck<D>(stored: map<nat, Entry<D>>, u: nat, timestamp: int, payload: D, rounds: nat)
    ensures Search(stored[u := Entry(Id(u, timestamp), payload)], u, rounds).None?
  {
    SearchStaysPut(stored[u := Entry(Id(u, timestamp), payload)], u, rounds);
  }

  /** The stored nodes left once everything that dies at n is deleted. */
  function WithoutDying<D>(stored: map<nat, Entry<D>>, n: nat): map<nat, Entry<D>> {
    map k | k in stored && !Dies(n, k) :: stored[k]
  }

  /** The two nodes at which the pruning loop throws, after emitting everything. */
  predicate GivesUp(n: nat) { n == 0x8000_0000_0000_0000 || n == 0xC000_0000_0000_0000 }

  class RepositoryStructure<D> {
    var stored: map<nat, Entry<D>>
    var breadcrumb: Breadcrumb
    var checkedOut: bool  // whether the single TemporarySnapshot is in use

    ghost function Value(): State<D>
      reads this
    {
      State(stored, breadcrumb)
    }

    ghost predicate Valid()
      reads this
    {
      breadcrumb.untrusted_begin < W64
    }

    constructor (stored: map<nat, Entry<D>>, breadcrumb: Breadcrumb)
      requires breadcrumb.untrusted_begin < W64
      ensures Valid() && Value() == State(stored, breadcrumb) && !checkedOut
    {
      this.stored, this.breadcrumb, this.checkedOut := stored, breadcrumb, false;
    }

    method DeleteNode(node: nat)
      modifies this`stored
      ensures stored == old(stored) - {node}
    {
      stored := stored - {node};
    }

    method WriteBreadcrumb(b: Breadcrumb)
      modifies this`breadcrumb
      ensures breadcrumb == b
    {
      breadcrumb := b;
    }

    method CheckOutTemporarySnapshot() returns (threw: bool)
      modifies this`checkedOut
      ensures threw == old(checkedOut) && checkedOut
    {
      threw := checkedOut;
      checkedOut := true;
    }

    /**
     * Renames the temporary directory to the node's name, then moves the
     * breadcrumb past it.  Throws, storing nothing, when the node exists.
     */
    method Commit(node: u64, timestamp: int, payload: D) returns (threw: bool)
      requires Valid()
      modifies this
      ensures Valid() && !checkedOut
      ensures node in old(stored) ==> threw && Value() == old(Value())
      ensures node !in old(stored) ==> stored == old(stored)[node := Entry(Id(node, timestamp), payload)]
      ensures node !in old(stored) ==> (threw <==> node + 1 == W64)
      ensures !threw ==> breadcrumb == Breadcrumb(node + 1, timestamp)
      ensures threw ==> breadcrumb == old(breadcrumb)
    {
      checkedOut := false;
      if node in stored {
        return true;
      }
      stored := stored[node := Entry(Id(node, timestamp), payload)];
      if node + 1 == W64 {
        return true;
      }
      WriteBreadcrumb(Breadcrumb(node + 1, timestamp));
      threw := false;
    }

    /** Where the search from the breadcrumb ends, if it does. */
    function NextSnapshotNode(): (next: Option<Option<nat>>)
      reads this
      ensures forall rounds: nat :: next.None? ==> Search(stored, breadcrumb.untrusted_begin, rounds).None?
      ensures forall rounds: nat :: next.Some? && rounds > 0 ==>
                Search(stored, breadcrumb.untrusted_begin, rounds) == next
    {
      var u := breadcrumb.untrusted_begin;
      assert forall rounds: nat :: LookUp(stored, u).Found? ==> Search(stored, u, rounds).None? by {
        forall rounds: nat { SearchStaysPut(stored, u, rounds); }
      }
      assert forall rounds: nat :: rounds > 0 && !LookUp(stored, u).Found? ==>
          Search(stored, u, rounds) == Some(if LookUp(stored, u).Missing? then Some(u) else None) by {
        forall rounds: nat { SearchStaysPut(stored, u, rounds); }
      }
      match LookUp(stored, breadcrumb.untrusted_begin)
      case Missing => Some(Some(breadcrumb.untrusted_begin))
      case Corrupt => Some(None)
      case Found(_) => None
    }

    /** Deletes all that dies at the given node; throws afterwards at the two nodes pruning gives up on. */
    method DeleteDying(node: u64) returns (threw: bool)
      modifies this`stored
      ensures stored == WithoutDying(old(stored), node)
      ensures threw <==> GivesUp(node)
    {
      var dying, tooBig := Retention.Prune(node);
      for i := 0 to |dying|
        invariant stored == map k | k in old(stored) && k !in dying[..i] :: old(stored)[k]
      {
        assert dying[..i + 1] == dying[..i] + [dying[i]];
        DeleteNode(dying[i]);
      }
      assert dying[..|dying|] == dying;
      threw := tooBig;
    }

    /** The enumeration's calls, keeping the nodes that exist. */
    method StoredAndAlive(node: u64) returns (nodes: seq<nat>, threw: bool)
      ensures threw <==> node >= 0x8000_0000_0000_0000
      ensures StrictlyIncreasing(nodes)
      ensures !threw ==> forall k: nat :: k in nodes <==> k in stored && Alive(node, k)
    {
      hide AliveSeq, Alive;
      nodes := [];
      var alive: seq<nat>;
      alive, threw := Retention.AliveAfter(node);
      AliveSeqMeaning(node);
      for i := 0 to |alive|
        invariant forall k: nat :: k in nodes <==> k in alive[..i] && k in stored
        invariant StrictlyIncreasing(nodes)
        invariant forall k: nat, j :: k in nodes && i <= j < |alive| ==> alive[j] < k
      {
        assert alive[..i + 1] == alive[..i] + [alive[i]];
        if alive[i] in stored {
          assert forall j :: 0 <= j < |nodes| ==> nodes[j] in nodes;
          nodes := [alive[i]] + nodes;
        }
      }
      assert alive[..|alive|] == alive;
    }

    /**
     * The stored nodes below the breadcrumb, in ascending order.  (Where the
     * search for the next node ends there is none from the breadcrumb on.)
     */
    method GetNodesIncludingUntrusted() returns (nodes: seq<nat>, ending: Ending)
      requires Valid()
      ensures ending == ListingEnding(Value())
      ensures StrictlyIncreasing(nodes)
      ensures ending.Returned? ==> forall k: nat :: k in nodes <==>
                k < breadcrumb.untrusted_begin && k in stored && Alive(breadcrumb.untrusted_begin - 1, k)
    {
      nodes := [];
      if breadcrumb.untrusted_begin == 0 {
        return nodes, Returned;
      }
      var threw;
      nodes, threw := StoredAndAlive(breadcrumb.untrusted_begin - 1);
      if threw {
        return nodes, Thrown;
      }
      var next := NextSnapshotNode();
      ending := if next.None? then NeverEnds else if next.value.None? then Thrown else Returned;
    }
  }

  /**
   * How the listing ends: with an exception past 2^63 or at an unreadable id, and
   * never if the search goes on for ever.
   */
  function ListingEnding<D>(s: State<D>): Ending {
    var u := s.breadcrumb.untrusted_begin;
    if u == 0 then Returned
    else if u > 0x8000_0000_0000_0000 then Thrown
    else match LookUp(s.stored, u)
      case Missing => Returned
      case Corrupt => Thrown
      case Found(_) => NeverEnds
  }

  predicate StrictlyIncreasing(s: seq<nat>) {
    forall i, j :: 0 <= i < j < |s| ==> s[i] < s[j]
  }
}
