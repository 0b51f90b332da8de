/**
 * The discovery pass of `run` (bitrat/core.py:93-123, and without the
 * counter at bitrat/__main__.py:83-107): a walk over the tree that submits
 * a hash job for every regular file without a record, other than the
 * ledger file, then a loop that adds a record for each job as it completes.
 */
module Discovery {
  import opened Types
  import opened FileSystem
  import opened Hashing
  import opened Database
  import opened Reconcile
  import opened Checkpoint

  /** The paths still waiting in `update_futures`. */
  ghost function PendingAdds(futures: map<nat, Path>): set<Path> {
    set f | f in futures :: futures[f]
  }

  /** The paths of `update_futures`: jobs for new files of `table`, one per path. */
  ghost predicate AdditionsValid(futures: map<nat, Path>, table: Table, tree: Tree) {
    && (forall f :: f in futures ==> IsNew(table, tree, futures[f]))
    && (forall f, g :: f in futures && g in futures && f != g ==> futures[f] != futures[g])
  }

  /**
   * The whole pass: the ledger ends as `Discovered`, every record it had
   * is left as it was, and the counter and the commits follow the
   * checkpoint rule once per new file.
   */
  method DiscoverPass(ledger: Ledger, tree: Tree, algorithm: HashFunction, chunkSize: int,
                      checkpoints: Checkpoints, changes0: int)
    returns (changes: int)
    requires ValidCheckpoints(checkpoints)
    modifies ledger
    ensures ledger.records == Discovered(old(ledger.records), tree, algorithm, chunkSize)
    ensures Tally(changes, ledger.commits)
      == AfterAdditions(Tally(changes0, old(ledger.commits)), checkpoints, |NewFiles(old(ledger.records), tree)|)
    ensures checkpoints.AtEndOnly? ==> ledger.committed == old(ledger.committed)
  {
    var updateFutures := SubmitAdditions(ledger, tree);
    changes := CompleteAdditions(ledger, tree, algorithm, chunkSize, checkpoints, changes0, ledger.records, updateFutures);
  }

  /**
   * The walk over `root_path.rglob("*")`, in whatever order it yields the
   * paths: the ledger file, anything that is not a regular file and any
   * path with a record are skipped.
   */
  method SubmitAdditions(ledger: Ledger, tree: Tree) returns (updateFutures: map<nat, Path>)
    ensures AdditionsValid(updateFutures, ledger.records, tree)
    ensures PendingAdds(updateFutures) == NewFiles(ledger.records, tree)
  {
    updateFutures := map[];
    var unwalked := tree.Keys;
    var submitted: nat := 0;
    while unwalked != {}
      invariant Walking(updateFutures, submitted, unwalked, ledger.records, tree)
      decreases |unwalked|
    {
      var path :| path in unwalked;
      WalkStep(updateFutures, submitted, unwalked, ledger.records, tree, path);
      unwalked := unwalked - {path};
      if path == LedgerFileName {
        continue;
      }
      if !IsRegular(tree, path) {
        continue;
      }
      var recorded := ledger.RecordExists(path);
      if recorded {
        continue;
      }
      updateFutures := updateFutures[submitted := path];
      submitted := submitted + 1;
    }
  }

  /** Part way through the walk: one job, keyed below `submitted`, for every new file not in `unwalked`. */
  ghost predicate Walking(futures: map<nat, Path>, submitted: nat, unwalked: set<Path>, table: Table, tree: Tree) {
    && AdditionsValid(futures, table, tree)
    && (forall f :: f in futures ==> f < submitted)
    && PendingAdds(futures) !! unwalked
    && PendingAdds(futures) == NewFiles(table, tree) - unwalked
  }

  /** Walking one path keeps the walk consistent, whether or not it gets a job. */
  lemma WalkStep(futures: map<nat, Path>, submitted: nat, unwalked: set<Path>, table: Table, tree: Tree, path: Path)
    requires Walking(futures, submitted, unwalked, table, tree)
    requires path in unwalked
    ensures |unwalked - {path}| < |unwalked|
    ensures !IsNew(table, tree, path) ==> Walking(futures, submitted, unwalked - {path}, table, tree)
    ensures IsNew(table, tree, path) ==> Walking(futures[submitted := path], submitted + 1, unwalked - {path}, table, tree)
  {
    if IsNew(table, tree, path) {
      WalkSubmit(futures, submitted, unwalked, table, tree, path);
    } else {
      assert path !in NewFiles(table, tree);
    }
  }

  lemma WalkSubmit(futures: map<nat, Path>, submitted: nat, unwalked: set<Path>, table: Table, tree: Tree, path: Path)
    requires Walking(futures, submitted, unwalked, table, tree)
    requires path in unwalked && IsNew(table, tree, path)
    ensures Walking(futures[submitted := path], submitted + 1, unwalked - {path}, table, tree)
  {
    assert submitted !in futures;
    assert path in NewFiles(table, tree);
    PendingAddsInsert(futures, submitted, path);
    forall f | f in futures ensures futures[f] != path {
      assert futures[f] in PendingAdds(futures);
    }
  }

  lemma PendingAddsInsert(futures: map<nat, Path>, key: nat, path: Path)
    requires key !in futures
    ensures PendingAdds(futures[key := path]) == PendingAdds(futures) + {path}
  {
    var added := futures[key := path];
    forall p | p in PendingAdds(added) ensures p in PendingAdds(futures) + {path} {
      var f :| f in added && added[f] == p;
      if f != key {
        assert futures[f] == p;
      }
    }
    assert added[key] == path;
    forall p | p in PendingAdds(futures) ensures p in PendingAdds(added) {
      var f :| f in futures && futures[f] == p;
      assert added[f] == p;
    }
  }

  lemma PendingAddsRemove(futures: map<nat, Path>, table: Table, tree: Tree, key: nat)
    requires AdditionsValid(futures, table, tree)
    requires key in futures
    ensures PendingAdds(futures - {key}) == PendingAdds(futures) - {futures[key]}
  {
    var rest := futures - {key};
    forall p | p in PendingAdds(futures) - {futures[key]} ensures p in PendingAdds(rest) {
      var f :| f in futures && futures[f] == p;
      assert f != key;
      assert f in rest && rest[f] == p;
    }
  }

  /** The loop over the additions as they complete. */
  method CompleteAdditions(ledger: Ledger, tree: Tree, algorithm: HashFunction, chunkSize: int,
                           checkpoints: Checkpoints, changes0: int,
                           ghost table: Table, updateFutures0: map<nat, Path>)
    returns (changes: int)
    requires ValidCheckpoints(checkpoints)
    requires ledger.records == table
    requires AdditionsValid(updateFutures0, table, tree)
    requires PendingAdds(updateFutures0) == NewFiles(table, tree)
    modifies ledger
    ensures ledger.records == Discovered(table, tree, algorithm, chunkSize)
    ensures Tally(changes, ledger.commits)
      == AfterAdditions(Tally(changes0, old(ledger.commits)), checkpoints, |NewFiles(table, tree)|)
    ensures checkpoints.AtEndOnly? ==> ledger.committed == old(ledger.committed)
  {
    var updateFutures: map<nat, Path> := updateFutures0;
    ghost var added: set<Path> := {};
    changes := changes0;
    while updateFutures != map[]
      invariant Adding(updateFutures, added, table, tree)
      invariant ledger.records == AddedUpTo(table, tree, algorithm, chunkSize, added)
      invariant Tally(changes, ledger.commits)
        == AfterAdditions(Tally(changes0, old(ledger.commits)), checkpoints, |added|)
      invariant checkpoints.AtEndOnly? ==> ledger.committed == old(ledger.committed)
      decreases |updateFutures|
    {
      var future :| future in updateFutures;
      var path := updateFutures[future];
      AddingStep(updateFutures, added, table, tree, future);
      AddedUpToStep(table, tree, algorithm, chunkSize, added, path);
      AfterAdditionsNext(Tally(changes0, old(ledger.commits)), checkpoints, |added|, |added + {path}|);
      changes := AddRecord(ledger, tree, algorithm, chunkSize, checkpoints, path, changes);
      updateFutures := updateFutures - {future};
      added := added + {path};
    }
    CompletedAdditions(added, table, tree);
  }

  /** The bookkeeping of the completion loop: the pending jobs and the added paths split the new files. */
  ghost predicate Adding(futures: map<nat, Path>, added: set<Path>, table: Table, tree: Tree) {
    && AdditionsValid(futures, table, tree)
    && PendingAdds(futures) !! added
    && PendingAdds(futures) + added == NewFiles(table, tree)
  }

  /**
   * One completed addition: the new record holds the fresh digest and the
   * file's mtime; then the change is counted and the checkpoint rule runs.
   */
  method AddRecord(ledger: Ledger, tree: Tree, algorithm: HashFunction, chunkSize: int,
                   checkpoints: Checkpoints, path: Path, changes0: int)
    returns (changes: int)
    requires ValidCheckpoints(checkpoints)
    requires IsRegular(tree, path)
    modifies ledger
    ensures ledger.records == old(ledger.records)[path := Observe(tree, path, algorithm, chunkSize)]
    ensures Tally(changes, ledger.commits) == Add(Tally(changes0, old(ledger.commits)), checkpoints)
    ensures ledger.committed == if ledger.commits == old(ledger.commits) then old(ledger.committed) else ledger.records
  {
    var digest, _ := CalculateHash(tree[path].content, algorithm, chunkSize);
    ledger.UpdateRecord(path, digest, tree[path].mtime);
    changes := CommitIfDue(ledger, checkpoints, changes0 + 1);
  }

  /** Completing one addition keeps the bookkeeping and leaves fewer jobs. */
  lemma AddingStep(futures: map<nat, Path>, added: set<Path>, table: Table, tree: Tree, future: nat)
    requires Adding(futures, added, table, tree)
    requires future in futures
    ensures IsNew(table, tree, futures[future])
    ensures futures[future] !in added
    ensures |added + {futures[future]}| == |added| + 1
    ensures Adding(futures - {future}, added + {futures[future]}, table, tree)
    ensures |futures - {future}| < |futures|
  {
    var path := futures[future];
    assert path in PendingAdds(futures);
    PendingAddsRemove(futures, table, tree, future);
    MapRemoveSize(futures, future);
  }

  /** Once no job is pending, every new file has been added. */
  lemma CompletedAdditions(added: set<Path>, table: Table, tree: Tree)
    requires Adding(map[], added, table, tree)
    ensures added == NewFiles(table, tree)
  {
    var none: map<nat, Path> := map[];
    assert PendingAdds(none) == {};
  }
}
