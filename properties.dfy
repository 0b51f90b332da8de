/**
 * What a run promises, stated on the functions the passes are proved
 * against: the classification rule, bit rot and the exit code, that the
 * completion order does not matter, and that a second run over an
 * unchanged tree changes nothing.
 */
module Properties {
  import opened Types
  import opened FileSystem
  import opened Hashing
  import opened Database
  import opened Reconcile

  /**
   * The fate of each record in the verification pass: a missing file
   * loses its record; a moved mtime replaces it with the fresh digest and
   * mtime whatever the digest; an equal mtime keeps it, bit rot or not.
   */
  lemma VerifiedOutcome(table: Table, tree: Tree, algorithm: HashFunction, chunkSize: int, path: Path)
    requires path in table
    ensures var v := Verified(table, tree, algorithm, chunkSize);
      var outcome := Classify(table[path], tree, path, algorithm, chunkSize);
      && (outcome == Removed <==> path !in v)
      && (outcome == Updated ==> v[path] == Observe(tree, path, algorithm, chunkSize))
      && (outcome == BitRotDetected || outcome == Unchanged ==> v[path] == table[path])
  {
  }

  /** Timestamp priority: a moved mtime is an update even when the digest still matches. */
  lemma TimestampPriority(stored: Stamp, tree: Tree, path: Path, algorithm: HashFunction, chunkSize: int)
    requires IsRegular(tree, path) && tree[path].mtime != stored.mtime
    ensures Classify(stored, tree, path, algorithm, chunkSize) == Updated
    ensures Reverify(stored, Observe(tree, path, algorithm, chunkSize)) == Observe(tree, path, algorithm, chunkSize)
  {
  }

  /** Bit rot is reported and the record that exposed it is kept, so the next run reports it again. */
  lemma BitRotKept(table: Table, tree: Tree, algorithm: HashFunction, chunkSize: int, path: Path)
    requires path in table && Classify(table[path], tree, path, algorithm, chunkSize) == BitRotDetected
    ensures var v := Verified(table, tree, algorithm, chunkSize);
      && path in v && v[path] == table[path]
      && Classify(v[path], tree, path, algorithm, chunkSize) == BitRotDetected
    ensures RunExitCode(table, tree, algorithm, chunkSize, true) == Failure
  {
  }

  /**
   * Records do not interact in the exit code: a run fails exactly when the
   * same run over one of its records alone would fail.
   */
  lemma ExitCodeRule(table: Table, tree: Tree, algorithm: HashFunction, chunkSize: int, check: bool)
    ensures RunExitCode(table, tree, algorithm, chunkSize, check) == Failure
      <==> exists p :: p in table && RunExitCode(map[p := table[p]], tree, algorithm, chunkSize, check) == Failure
  {
    forall p | p in table
      ensures RunExitCode(map[p := table[p]], tree, algorithm, chunkSize, check) == Failure
        <==> check && Classify(table[p], tree, p, algorithm, chunkSize) == BitRotDetected
    {
      SingleBitRot(table, tree, algorithm, chunkSize, p);
    }
  }

  /** A one-record table has bit rot exactly when its record does. */
  lemma SingleBitRot(table: Table, tree: Tree, algorithm: HashFunction, chunkSize: int, p: Path)
    requires p in table
    ensures BitRotFound(map[p := table[p]], tree, algorithm, chunkSize)
      <==> Classify(table[p], tree, p, algorithm, chunkSize) == BitRotDetected
  {
    var single := map[p := table[p]];
    assert p in single && single[p] == table[p];
    if BitRotFound(single, tree, algorithm, chunkSize) {
      var q :| q in single && Classify(single[q], tree, q, algorithm, chunkSize) == BitRotDetected;
      assert q == p;
    }
  }

  /**
   * A run over an unchanged tree, after a run with `check`, deletes
   * nothing, updates nothing and adds nothing, and reports bit rot exactly
   * when the first run did.
   */
  lemma SecondRunQuiet(table: Table, tree: Tree, algorithm: HashFunction, chunkSize: int)
    ensures var r := Reconciled(table, tree, algorithm, chunkSize, true);
      && Missing(r, tree) == {}
      && Stale(r, tree) == {}
      && NewFiles(Verified(r, tree, algorithm, chunkSize), tree) == {}
      && Reconciled(r, tree, algorithm, chunkSize, true) == r
      && RunExitCode(r, tree, algorithm, chunkSize, true) == RunExitCode(table, tree, algorithm, chunkSize, true)
  {
    var r := Reconciled(table, tree, algorithm, chunkSize, true);
    VerifiedFixed(r, tree, algorithm, chunkSize);
    assert NewFiles(r, tree) == {};
    assert Discovered(r, tree, algorithm, chunkSize) == r;
    BitRotPersists(table, tree, algorithm, chunkSize);
  }

  /** A ledger whose every record matches the tree's mtimes is left as it is by the verification pass. */
  lemma VerifiedFixed(table: Table, tree: Tree, algorithm: HashFunction, chunkSize: int)
    requires forall p :: p in table ==> IsRegular(tree, p) && table[p].mtime == tree[p].mtime
    ensures Verified(table, tree, algorithm, chunkSize) == table
  {
  }

  /** The records a run reports as bit rot are the records the next run reports. */
  lemma BitRotPersists(table: Table, tree: Tree, algorithm: HashFunction, chunkSize: int)
    ensures var r := Reconciled(table, tree, algorithm, chunkSize, true);
      BitRotFound(r, tree, algorithm, chunkSize) <==> BitRotFound(table, tree, algorithm, chunkSize)
  {
    var v := Verified(table, tree, algorithm, chunkSize);
    var r := Reconciled(table, tree, algorithm, chunkSize, true);
    if BitRotFound(table, tree, algorithm, chunkSize) {
      var p :| p in table && Classify(table[p], tree, p, algorithm, chunkSize) == BitRotDetected;
      assert r[p] == table[p];
    }
    if BitRotFound(r, tree, algorithm, chunkSize) {
      var p :| p in r && Classify(r[p], tree, p, algorithm, chunkSize) == BitRotDetected;
      assert p in table && r[p] == v[p];
      assert Classify(table[p], tree, p, algorithm, chunkSize) == BitRotDetected;
    }
  }

  /**
   * Handling the check jobs one by one, in the order `order`, starting from
   * the ledger the first loop left.
   */
  ghost function HandleInOrder(table: Table, tree: Tree, algorithm: HashFunction, chunkSize: int, order: seq<Path>): Table
    requires forall i :: 0 <= i < |order| ==> order[i] in table && IsRegular(tree, order[i])
    decreases |order|
  {
    if order == [] then Pruned(table, tree, table.Keys)
    else
      var last := order[|order| - 1];
      HandleInOrder(table, tree, algorithm, chunkSize, order[..|order| - 1])
        [last := Reverify(table[last], Observe(tree, last, algorithm, chunkSize))]
  }

  /** The elements of a sequence of paths. */
  ghost function Elements(order: seq<Path>): set<Path> {
    set i | 0 <= i < |order| :: order[i]
  }

  /**
   * Completion order does not matter: handling the jobs in any order that
   * lists each surviving record once gives the same ledger.
   */
  lemma {:induction false} AnyCompletionOrder(table: Table, tree: Tree, algorithm: HashFunction, chunkSize: int, order: seq<Path>)
    requires forall i :: 0 <= i < |order| ==> order[i] in table && IsRegular(tree, order[i])
    requires forall i, j :: 0 <= i < j < |order| ==> order[i] != order[j]
    ensures HandleInOrder(table, tree, algorithm, chunkSize, order)
      == VerifiedUpTo(table, tree, algorithm, chunkSize, Elements(order))
    ensures Elements(order) == Surviving(table, tree)
      ==> HandleInOrder(table, tree, algorithm, chunkSize, order) == Verified(table, tree, algorithm, chunkSize)
    decreases |order|
  {
    if order == [] {
      assert Elements(order) == {};
      PrunedAll(table, tree, algorithm, chunkSize);
    } else {
      var front, last := order[..|order| - 1], order[|order| - 1];
      AnyCompletionOrder(table, tree, algorithm, chunkSize, front);
      assert Elements(order) == Elements(front) + {last} by {
        forall p | p in Elements(order) ensures p in Elements(front) + {last} {
          var i :| 0 <= i < |order| && order[i] == p;
          if i < |front| {
            assert front[i] == p;
          }
        }
        forall p | p in Elements(front) ensures p in Elements(order) {
          var i :| 0 <= i < |front| && front[i] == p;
          assert order[i] == p;
        }
      }
      assert last !in Elements(front);
      VerifiedUpToStep(table, tree, algorithm, chunkSize, Elements(front), last);
    }
    if Elements(order) == Surviving(table, tree) {
      VerifiedUpToAll(table, tree, algorithm, chunkSize, Elements(order));
    }
  }
}
