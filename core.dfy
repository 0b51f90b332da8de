/**
 * `run` of bitrat/core.py: open the ledger, run the verification pass when
 * `check` is set, run the discovery pass, and commit once more at the end.
 */
module Core {
  import opened Types
  import opened FileSystem
  import opened Hashing
  import opened Database
  import opened Reconcile
  import opened Checkpoint
  import opened Verification
  import opened Discovery

  /**
   * One run over `tree`. `existing` is the ledger file's table, or None when
   * there is no ledger file yet. The result is the exit code and the table
   * the final commit leaves on disk.
   */
  method Run(tree: Tree, existing: Option<Table>, check: bool,
             algorithm: HashFunction, chunkSize: int, saveEvery: int)
    returns (exitCode: ExitCode, durable: Table)
    requires saveEvery != 0
    ensures durable == Reconciled(Opened(existing), tree, algorithm, chunkSize, check)
    ensures exitCode == RunExitCode(Opened(existing), tree, algorithm, chunkSize, check)
  {
    var ledger := new Ledger.Open(existing);
    var checkpoints := SaveEvery(saveEvery);
    var changes := 0;
    exitCode := Success;
    if check {
      exitCode, changes := VerifyPass(ledger, tree, algorithm, chunkSize, checkpoints, changes);
    }
    changes := DiscoverPass(ledger, tree, algorithm, chunkSize, checkpoints, changes);
    ledger.Commit();
    durable := ledger.committed;
  }
}
