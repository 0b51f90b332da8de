/**
 * The verification pass of `run` (bitrat/core.py:46-90, and without the
 * counter at bitrat/__main__.py:45-80): a loop over the rows of the ledger
 * that deletes the records of missing files and submits a hash job for the
 * others, then a loop over the jobs in whatever order they complete.
 */
module Verification {
  import opened Types
  import opened FileSystem
  import opened Hashing
  import opened Database
  import opened Reconcile
  import opened Checkpoint

  /** The paths of the records still waiting in `check_futures`. */
  ghost function PendingChecks(futures: map<nat, Record>): set<Path> {
    set f | f in futures :: futures[f].path
  }

  /** Every pending check job carries a surviving record of `table`, and no two carry the same path. */
  ghost predicate ChecksValid(futures: map<nat, Record>, table: Table, tree: Tree) {
    && (forall f :: f in futures ==> Holds(table, futures[f]) && IsRegular(tree, futures[f].path))
    && (forall f, g :: f in futures && g in futures && f != g ==> futures[f].path != futures[g].path)
  }

  /**
   * The whole pass: the ledger ends as `Verified`, the exit code is Failure
   * exactly when some record is classified as bit rot, and the counter rose
   * by one for each delete and each update (and by one per commit of the
   * completion loop).
   */
  method VerifyPass(ledger: Ledger, tree: Tree, algorithm: HashFunction, chunkSize: int,
                    checkpoints: Checkpoints, changes0: int)
    returns (exitCode: ExitCode, changes: int)
    requires ValidCheckpoints(checkpoints)
    modifies ledger
    ensures ledger.records == Verified(old(ledger.records), tree, algorithm, chunkSize)
    ensures exitCode == if BitRotFound(old(ledger.records), tree, algorithm, chunkSize) then Failure else Success
    ensures changes >= changes0 + |Missing(old(ledger.records), tree)| + |Stale(old(ledger.records), tree)|
    ensures checkpoints.AtEndOnly? ==>
      && changes == changes0 + |Missing(old(ledger.records), tree)| + |Stale(old(ledger.records), tree)|
      && ledger.commits == old(ledger.commits) && ledger.committed == old(ledger.committed)
    ensures ledger.commits >= old(ledger.commits)
  {
    var totalRecords := ledger.GetTotalRecords();
    var rows := ledger.YieldRecords(1);
    var checkFutures;
    checkFutures, changes := SubmitChecks(ledger, tree, rows, checkpoints, changes0);
    FirstLoopBounds(Tally(changes0, old(ledger.commits)), rows, tree, checkpoints);
    exitCode, changes := CompleteChecks(ledger, tree, algorithm, chunkSize, checkpoints, changes, old(ledger.records), checkFutures);
  }

  /**
   * The first loop, over the rows of `yield_records`: a row whose file is
   * missing is deleted and counted; any other gets a hash job.
   */
  method SubmitChecks(ledger: Ledger, tree: Tree, rows: seq<Record>, checkpoints: Checkpoints, changes0: int)
    returns (checkFutures: map<nat, Record>, changes: int)
    requires ValidCheckpoints(checkpoints)
    requires Enumerates(rows, ledger.records)
    modifies ledger
    ensures ledger.records == Pruned(old(ledger.records), tree, old(ledger.records).Keys)
    ensures ChecksValid(checkFutures, old(ledger.records), tree)
    ensures PendingChecks(checkFutures) == Surviving(old(ledger.records), tree)
    ensures changes == changes0 + |Missing(old(ledger.records), tree)|
    ensures Tally(changes, ledger.commits) == FirstLoop(Tally(changes0, old(ledger.commits)), rows, tree, checkpoints)
    ensures checkpoints.AtEndOnly? ==> ledger.commits == old(ledger.commits) && ledger.committed == old(ledger.committed)
  {
    ghost var table := ledger.records;
    checkFutures := map[];
    changes := changes0;
    var i := 0;
    while i < |rows|
      invariant 0 <= i <= |rows|
      invariant ledger.records == Pruned(table, tree, PathsOf(rows[..i]))
      invariant Submitted(checkFutures, rows, i, tree)
      invariant changes == changes0 + |MissingAmong(table, tree, PathsOf(rows[..i]))|
      invariant Tally(changes, ledger.commits) == FirstLoop(Tally(changes0, old(ledger.commits)), rows[..i], tree, checkpoints)
      invariant checkpoints.AtEndOnly? ==> ledger.commits == old(ledger.commits) && ledger.committed == old(ledger.committed)
    {
      checkFutures, changes := SubmitOne(ledger, tree, checkpoints, table, Tally(changes0, old(ledger.commits)),
                                         rows, i, checkFutures, changes);
      i := i + 1;
    }
    assert rows[..|rows|] == rows;
    assert MissingAmong(table, tree, table.Keys) == Missing(table, tree);
    SubmittedChecks(table, tree, rows, checkFutures);
  }

  /** The jobs submitted for the first `i` rows: one, keyed by its position, for each row whose file is there. */
  ghost predicate Submitted(futures: map<nat, Record>, rows: seq<Record>, i: nat, tree: Tree)
    requires i <= |rows|
  {
    && (forall f :: f in futures ==> f < i && futures[f] == rows[f] && IsRegular(tree, rows[f].path))
    && (forall k :: 0 <= k < i && IsRegular(tree, rows[k].path) ==> k in futures)
  }

  /** The body of the first loop for row `i`. */
  method SubmitOne(ledger: Ledger, tree: Tree, checkpoints: Checkpoints, ghost table: Table, ghost start: Tally,
                   rows: seq<Record>, i: nat, checkFutures0: map<nat, Record>, changes0: int)
    returns (checkFutures: map<nat, Record>, changes: int)
    requires ValidCheckpoints(checkpoints)
    requires Enumerates(rows, table)
    requires i < |rows|
    requires ledger.records == Pruned(table, tree, PathsOf(rows[..i]))
    requires Submitted(checkFutures0, rows, i, tree)
    modifies ledger
    ensures ledger.records == Pruned(table, tree, PathsOf(rows[..i + 1]))
    ensures Submitted(checkFutures, rows, i + 1, tree)
    ensures changes - |MissingAmong(table, tree, PathsOf(rows[..i + 1]))|
      == changes0 - |MissingAmong(table, tree, PathsOf(rows[..i]))|
    ensures Tally(changes, ledger.commits) == FirstStep(Tally(changes0, old(ledger.commits)), rows[i], tree, checkpoints)
    ensures Tally(changes0, old(ledger.commits)) == FirstLoop(start, rows[..i], tree, checkpoints)
      ==> Tally(changes, ledger.commits) == FirstLoop(start, rows[..i + 1], tree, checkpoints)
    ensures ledger.committed == if ledger.commits == old(ledger.commits) then old(ledger.committed) else ledger.records
    ensures checkpoints.AtEndOnly? ==> ledger.commits == old(ledger.commits) && ledger.committed == old(ledger.committed)
  {
    var record := rows[i];
    SubmitStep(table, tree, rows, i);
    assert rows[..i + 1][..i] == rows[..i];
    checkFutures, changes := checkFutures0, changes0;
    if !IsRegular(tree, record.path) {
      ledger.DeleteRecord(record.path);
      changes := changes + 1;
      return;
    }
    checkFutures := checkFutures[i := record];
    if Due(changes, checkpoints) {
      ledger.Commit();
    }
  }

  /**
   * The counter and the commits after one row of the first loop: a missing
   * file counts one change; any other row commits when the counter is due,
   * and that commit is not counted.
   */
  function FirstStep(t: Tally, record: Record, tree: Tree, checkpoints: Checkpoints): (r: Tally)
    requires ValidCheckpoints(checkpoints)
    ensures t.counter <= r.counter <= t.counter + 1 && t.commits <= r.commits <= t.commits + 1
    ensures r.counter > t.counter <==> !IsRegular(tree, record.path)
    ensures r.commits > t.commits <==> IsRegular(tree, record.path) && Due(t.counter, checkpoints)
  {
    if !IsRegular(tree, record.path) then Tally(t.counter + 1, t.commits)
    else if Due(t.counter, checkpoints) then Tally(t.counter, t.commits + 1)
    else t
  }

  /** The counter and the commits after the first loop has gone through `rows` in order. */
  function FirstLoop(t: Tally, rows: seq<Record>, tree: Tree, checkpoints: Checkpoints): (r: Tally)
    requires ValidCheckpoints(checkpoints)
    ensures t.counter <= r.counter && t.commits <= r.commits
    ensures r.counter > t.counter <==> exists i :: 0 <= i < |rows| && !IsRegular(tree, rows[i].path)
    decreases |rows|
  {
    if rows == [] then t
    else
      var front := rows[..|rows| - 1];
      assert forall i :: 0 <= i < |front| ==> front[i] == rows[i];
      FirstStep(FirstLoop(t, front, tree, checkpoints), rows[|rows| - 1], tree, checkpoints)
  }

  /**
   * The first loop commits at most once per row and never without
   * checkpoints; each row either counts a delete, or commits, or neither.
   */
  lemma {:induction false} FirstLoopBounds(t: Tally, rows: seq<Record>, tree: Tree, checkpoints: Checkpoints)
    requires ValidCheckpoints(checkpoints)
    ensures var r := FirstLoop(t, rows, tree, checkpoints);
      && t.commits <= r.commits
      && t.counter <= r.counter
      && (r.counter - t.counter) + (r.commits - t.commits) <= |rows|
      && (checkpoints.AtEndOnly? ==> r.commits == t.commits)
    decreases |rows|
  {
    if rows != [] {
      FirstLoopBounds(t, rows[..|rows| - 1], tree, checkpoints);
    }
  }

  /**
   * The commit in the first loop is not counted, so once the counter is due
   * every further surviving record commits again until a missing file moves
   * the counter: a run that starts with counter 0 commits after each
   * submission up to the first missing file.
   */
  lemma {:induction false} FirstLoopRepeats(t: Tally, rows: seq<Record>, tree: Tree, checkpoints: Checkpoints)
    requires ValidCheckpoints(checkpoints) && Due(t.counter, checkpoints)
    requires forall i :: 0 <= i < |rows| ==> IsRegular(tree, rows[i].path)
    ensures FirstLoop(t, rows, tree, checkpoints) == Tally(t.counter, t.commits + |rows|)
    decreases |rows|
  {
    if rows != [] {
      FirstLoopRepeats(t, rows[..|rows| - 1], tree, checkpoints);
    }
  }

  /** What one row of the first loop does to the paths seen, the ledger and the count of deletes. */
  lemma SubmitStep(table: Table, tree: Tree, rows: seq<Record>, i: nat)
    requires Enumerates(rows, table)
    requires i < |rows|
    ensures PathsOf(rows[..i + 1]) == PathsOf(rows[..i]) + {rows[i].path}
    ensures Pruned(table, tree, PathsOf(rows[..i + 1]))
      == if IsRegular(tree, rows[i].path) then Pruned(table, tree, PathsOf(rows[..i]))
         else Pruned(table, tree, PathsOf(rows[..i])) - {rows[i].path}
    ensures |MissingAmong(table, tree, PathsOf(rows[..i + 1]))|
      == |MissingAmong(table, tree, PathsOf(rows[..i]))| + if IsRegular(tree, rows[i].path) then 0 else 1
  {
    assert rows[..i + 1] == rows[..i] + [rows[i]];
    PathsOfAppend(rows[..i], rows[i]);
    PrunedStep(table, tree, PathsOf(rows[..i]), rows[i].path);
    assert rows[i].path !in PathsOf(rows[..i]) by {
      PathsOfMember(rows[..i], rows[i].path);
    }
    assert Holds(table, rows[i]);
    MissingAmongStep(table, tree, PathsOf(rows[..i]), rows[i].path);
  }

  /** The second loop: each job is handled once, in whatever order the jobs complete. */
  method CompleteChecks(ledger: Ledger, tree: Tree, algorithm: HashFunction, chunkSize: int,
                        checkpoints: Checkpoints, changes0: int,
                        ghost table: Table, checkFutures0: map<nat, Record>)
    returns (exitCode: ExitCode, changes: int)
    requires ValidCheckpoints(checkpoints)
    requires ledger.records == Pruned(table, tree, table.Keys)
    requires ChecksValid(checkFutures0, table, tree)
    requires PendingChecks(checkFutures0) == Surviving(table, tree)
    modifies ledger
    ensures ledger.records == Verified(table, tree, algorithm, chunkSize)
    ensures exitCode == if BitRotFound(table, tree, algorithm, chunkSize) then Failure else Success
    ensures ledger.commits >= old(ledger.commits)
    ensures changes == changes0 + |Stale(table, tree)| + (ledger.commits - old(ledger.commits))
    ensures checkpoints.AtEndOnly? ==> ledger.commits == old(ledger.commits) && ledger.committed == old(ledger.committed)
  {
    PrunedAll(table, tree, algorithm, chunkSize);
    var checkFutures: map<nat, Record> := checkFutures0;
    ghost var done: set<Path> := {};
    exitCode := Success;
    changes := changes0;
    while checkFutures != map[]
      invariant Completing(checkFutures, done, table, tree)
      invariant ledger.records == VerifiedUpTo(table, tree, algorithm, chunkSize, done)
      invariant exitCode == if BitRotAmong(table, tree, algorithm, chunkSize, done) then Failure else Success
      invariant ledger.commits >= old(ledger.commits)
      invariant changes == changes0 + |StaleAmong(table, tree, done)| + (ledger.commits - old(ledger.commits))
      invariant checkpoints.AtEndOnly? ==> ledger.commits == old(ledger.commits) && ledger.committed == old(ledger.committed)
      decreases |checkFutures|
    {
      var future :| future in checkFutures;
      ghost var path := checkFutures[future].path;
      exitCode, changes := CompleteOne(ledger, tree, algorithm, chunkSize, checkpoints, table,
                                       checkFutures, done, future, exitCode, changes);
      checkFutures := checkFutures - {future};
      done := done + {path};
    }
    CompletedChecks(done, table, tree);
    VerifiedUpToAll(table, tree, algorithm, chunkSize, done);
  }

  /** Handles the job `future` of the second loop, keeping the loop's invariant for the jobs left. */
  method CompleteOne(ledger: Ledger, tree: Tree, algorithm: HashFunction, chunkSize: int,
                     checkpoints: Checkpoints, ghost table: Table, checkFutures: map<nat, Record>,
                     ghost done: set<Path>, future: nat, exitCode0: ExitCode, changes0: int)
    returns (exitCode: ExitCode, changes: int)
    requires ValidCheckpoints(checkpoints)
    requires future in checkFutures
    requires Completing(checkFutures, done, table, tree)
    requires ledger.records == VerifiedUpTo(table, tree, algorithm, chunkSize, done)
    requires exitCode0 == if BitRotAmong(table, tree, algorithm, chunkSize, done) then Failure else Success
    modifies ledger
    ensures Completing(checkFutures - {future}, done + {checkFutures[future].path}, table, tree)
    ensures |checkFutures - {future}| < |checkFutures|
    ensures ledger.records == VerifiedUpTo(table, tree, algorithm, chunkSize, done + {checkFutures[future].path})
    ensures exitCode == if BitRotAmong(table, tree, algorithm, chunkSize, done + {checkFutures[future].path}) then Failure else Success
    ensures ledger.commits >= old(ledger.commits)
    ensures changes - |StaleAmong(table, tree, done + {checkFutures[future].path})| - ledger.commits
      == changes0 - |StaleAmong(table, tree, done)| - old(ledger.commits)
    ensures checkpoints.AtEndOnly? ==> ledger.commits == old(ledger.commits) && ledger.committed == old(ledger.committed)
  {
    var record := checkFutures[future];
    CompletingStep(checkFutures, done, table, tree, future);
    VerifiedUpToStep(table, tree, algorithm, chunkSize, done, record.path);
    BitRotAmongStep(table, tree, algorithm, chunkSize, done, record.path);
    StaleAmongStep(table, tree, done, record.path);
    exitCode, changes := HandleCheck(ledger, tree, algorithm, chunkSize, checkpoints, record, exitCode0, changes0);
  }

  /** The bookkeeping of the second loop: the pending jobs and the handled paths split the surviving records. */
  ghost predicate Completing(futures: map<nat, Record>, done: set<Path>, table: Table, tree: Tree) {
    && ChecksValid(futures, table, tree)
    && PendingChecks(futures) !! done
    && PendingChecks(futures) + done == Surviving(table, tree)
  }

  /** Handling one job keeps the bookkeeping and leaves fewer jobs. */
  lemma CompletingStep(futures: map<nat, Record>, done: set<Path>, table: Table, tree: Tree, future: nat)
    requires Completing(futures, done, table, tree)
    requires future in futures
    ensures Holds(table, futures[future]) && IsRegular(tree, futures[future].path)
    ensures futures[future].path !in done
    ensures Completing(futures - {future}, done + {futures[future].path}, table, tree)
    ensures |futures - {future}| < |futures|
  {
    RemovePendingCheck(table, tree, futures, future);
    MapRemoveSize(futures, future);
  }

  /** Once no job is pending, every surviving record has been handled. */
  lemma CompletedChecks(done: set<Path>, table: Table, tree: Tree)
    requires Completing(map[], done, table, tree)
    ensures done == Surviving(table, tree)
    ensures StaleAmong(table, tree, done) == Stale(table, tree)
  {
    assert PendingChecks(map[]) == {};
  }

  /**
   * One completed hash job: a moved mtime replaces the row and counts as a
   * change; an equal mtime with a different digest is bit rot and leaves the
   * row alone; then the checkpoint rule runs.
   */
  method HandleCheck(ledger: Ledger, tree: Tree, algorithm: HashFunction, chunkSize: int,
                     checkpoints: Checkpoints, record: Record, exitCode0: ExitCode, changes0: int)
    returns (exitCode: ExitCode, changes: int)
    requires ValidCheckpoints(checkpoints)
    requires IsRegular(tree, record.path)
    requires Holds(ledger.records, record)
    modifies ledger
    ensures ledger.records == old(ledger.records)[record.path :=
      Reverify(Stamp(record.digest, record.mtime), Observe(tree, record.path, algorithm, chunkSize))]
    ensures exitCode ==
      if Classify(Stamp(record.digest, record.mtime), tree, record.path, algorithm, chunkSize) == BitRotDetected
      then Failure else exitCode0
    ensures Tally(changes, ledger.commits) == Bump(Tally(
      changes0 + (if Classify(Stamp(record.digest, record.mtime), tree, record.path, algorithm, chunkSize) == Updated then 1 else 0),
      old(ledger.commits)), checkpoints)
    ensures ledger.committed == if ledger.commits == old(ledger.commits) then old(ledger.committed) else ledger.records
  {
    exitCode, changes := exitCode0, changes0;
    var digest, _ := CalculateHash(tree[record.path].content, algorithm, chunkSize);
    var modified := tree[record.path].mtime;

    if record.mtime != modified {
      ledger.UpdateRecord(record.path, digest, modified);
      changes := changes + 1;
    } else if record.digest != digest {
      exitCode := Failure;
    }

    changes := CommitIfDue(ledger, checkpoints, changes);
  }

  /** After the first loop, the pending jobs are exactly those of the surviving records. */
  lemma SubmittedChecks(table: Table, tree: Tree, rows: seq<Record>, futures: map<nat, Record>)
    requires Enumerates(rows, table)
    requires forall f :: f in futures ==> f < |rows| && futures[f] == rows[f] && IsRegular(tree, rows[f].path)
    requires forall k :: 0 <= k < |rows| && IsRegular(tree, rows[k].path) ==> k in futures
    ensures ChecksValid(futures, table, tree)
    ensures PendingChecks(futures) == Surviving(table, tree)
  {
    forall p | p in Surviving(table, tree) ensures p in PendingChecks(futures) {
      PathsOfMember(rows, p);
      var k :| 0 <= k < |rows| && rows[k].path == p;
      assert futures[k].path == p;
    }
    forall p | p in PendingChecks(futures) ensures p in Surviving(table, tree) {
      var f :| f in futures && futures[f].path == p;
      assert Holds(table, rows[f]);
    }
    forall f, g | f in futures && g in futures && f != g ensures futures[f].path != futures[g].path {
      if f < g { assert rows[f].path != rows[g].path; }
      else { assert rows[g].path != rows[f].path; }
    }
  }

  /** Jobs carry distinct paths, so handling one removes just its path. */
  lemma RemovePendingCheck(table: Table, tree: Tree, futures: map<nat, Record>, future: nat)
    requires ChecksValid(futures, table, tree)
    requires future in futures
    ensures ChecksValid(futures - {future}, table, tree)
    ensures PendingChecks(futures - {future}) == PendingChecks(futures) - {futures[future].path}
  {
    forall p | p in PendingChecks(futures) - {futures[future].path}
      ensures p in PendingChecks(futures - {future})
    {
      var f :| f in futures && futures[f].path == p;
      assert f != future;
      assert f in futures - {future} && (futures - {future})[f].path == p;
    }
  }
}
