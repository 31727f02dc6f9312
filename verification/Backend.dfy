// What the controller relies on in a backend: a first snapshot stored whole,
// every later one as the difference from its Fenwick parent.
module Backend {
  import opened Fenwick

  datatype Driver<!C, !D> = Driver(
    initial: C -> D,
    diff: (C, C) -> D,
    restoreInitial: D -> C,
    restoreDiff: (C, D) -> C,
    overwrites: bool)  // whether a snapshot can be restored where there is one already

  /** Restoring undoes storing. */
  ghost predicate Lawful<C(!new), D>(driver: Driver<C, D>) {
    && (forall x :: driver.restoreInitial(driver.initial(x)) == x)
    && (forall x, y :: driver.restoreDiff(x, driver.diff(x, y)) == y)
  }

  /** The payload of node k, when history(i) is the content captured at node i. */
  function PayloadOf<C, D>(driver: Driver<C, D>, history: nat -> C, k: nat): D {
    if k == 0 then driver.initial(history(0)) else driver.diff(history(Parent(k)), history(k))
  }

  /** The contents found in the dataset are those of the given history. */
  ghost predicate Agrees<C(!new)>(dataset: map<nat, C>, history: nat -> C) {
    forall k :: k in dataset ==> dataset[k] == history(k)
  }
}
