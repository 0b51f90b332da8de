/**
 * The older `run` of bitrat/__main__.py: the same two passes, the
 * verification pass always on, and no checkpoints, so the one commit is the
 * final one.
 */
module Legacy {
  import opened Types
  import opened FileSystem
  import opened Hashing
  import opened Database
  import opened Reconcile
  import opened Checkpoint
  import opened Verification
  import opened Discovery

  /**
   * One run over `tree`, with the same parameters as `Core.Run` less
   * `check` and `save_every`. Besides the exit code and the table on disk
   * it returns how many commits the run made after opening the ledger.
   */
  method Run(tree: Tree, existing: Option<Table>, algorithm: HashFunction, chunkSize: int)
    returns (exitCode: ExitCode, durable: Table, commits: nat)
    ensures durable == Reconciled(Opened(existing), tree, algorithm, chunkSize, true)
    ensures exitCode == RunExitCode(Opened(existing), tree, algorithm, chunkSize, true)
    ensures commits == 1
  {
    var ledger := new Ledger.Open(existing);
    var openCommits := ledger.commits;
    var table := ledger.records;
    // The older `run` keeps no counter; the passes' count is ignored here.
    var changes, ignored;
    exitCode, changes := VerifyPass(ledger, tree, algorithm, chunkSize, AtEndOnly, 0);
    ignored := DiscoverPass(ledger, tree, algorithm, chunkSize, AtEndOnly, changes);
    AfterAdditionsAtEndOnly(Tally(changes, openCommits), |NewFiles(Verified(table, tree, algorithm, chunkSize), tree)|);
    ledger.Commit();
    durable := ledger.committed;
    commits := ledger.commits - openCommits;
  }
}
