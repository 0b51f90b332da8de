/**
 * What one run of the reconciler does to the ledger, as functions of the
 * ledger it starts from and the tree it scans: the verification pass, the
 * discovery pass, the classification of each record and the exit code.
 */
module Reconcile {
  import opened Types
  import opened FileSystem
  import opened Hashing
  import opened Database

  /** `ExitCode` (bitrat/console.py): 0 when no bit rot was seen, 1 otherwise. */
  datatype ExitCode = Success | Failure

  /** How one record fares in the verification pass. */
  datatype Outcome = Removed | Updated | BitRotDetected | Unchanged

  /** A fresh hash of the regular file at `path`, paired with its mtime. */
  function Observe(tree: Tree, path: Path, algorithm: HashFunction, chunkSize: int): (s: Stamp)
    requires IsRegular(tree, path)
    ensures s.mtime == tree[path].mtime
    ensures chunkSize != 0 ==> s.digest == algorithm(tree[path].content)
  {
    Stamp(DigestOf(tree[path].content, algorithm, chunkSize), tree[path].mtime)
  }

  /**
   * The classification rule: a missing file removes the record; a moved
   * mtime is an update whatever the digest says; only with an equal mtime
   * does a different digest count as bit rot.
   */
  function Classify(stored: Stamp, tree: Tree, path: Path, algorithm: HashFunction, chunkSize: int): (outcome: Outcome)
    ensures outcome == Removed <==> !IsRegular(tree, path)
    ensures outcome == Updated <==> IsRegular(tree, path) && tree[path].mtime != stored.mtime
    ensures outcome == Unchanged <==> IsRegular(tree, path) && Observe(tree, path, algorithm, chunkSize) == stored
    ensures outcome != Removed ==>
      (Reverify(stored, Observe(tree, path, algorithm, chunkSize)) == stored <==> outcome != Updated)
  {
    if !IsRegular(tree, path) then Removed
    else
      var current := Observe(tree, path, algorithm, chunkSize);
      if current.mtime != stored.mtime then Updated
      else if current.digest != stored.digest then BitRotDetected
      else Unchanged
  }

  /** The row left for a record whose file is still there: replaced only when the mtime moved. */
  function Reverify(stored: Stamp, current: Stamp): (kept: Stamp)
    ensures kept == current || kept == stored
    ensures kept.mtime == current.mtime
    ensures kept.mtime == stored.mtime ==> kept == stored
  {
    if current.mtime != stored.mtime then current else stored
  }

  /** The recorded paths that still name a regular file: the ones that get a hash job. */
  ghost function Surviving(table: Table, tree: Tree): set<Path> {
    set p | p in table && IsRegular(tree, p)
  }

  /** The recorded paths that no longer name a regular file. */
  ghost function Missing(table: Table, tree: Tree): set<Path> {
    set p | p in table && !IsRegular(tree, p)
  }

  /** The recorded paths whose file has a different mtime. */
  ghost function Stale(table: Table, tree: Tree): set<Path> {
    set p | p in table && IsRegular(tree, p) && tree[p].mtime != table[p].mtime
  }

  /** The ledger after the first loop of the verification pass has seen the records at `seen`. */
  ghost function Pruned(table: Table, tree: Tree, seen: set<Path>): Table {
    map p | p in table && (p in seen ==> IsRegular(tree, p)) :: table[p]
  }

  /** The ledger once the hash jobs of the records at `done` have completed. */
  ghost function VerifiedUpTo(table: Table, tree: Tree, algorithm: HashFunction, chunkSize: int, done: set<Path>): Table {
    map p | p in table && IsRegular(tree, p) ::
      if p in done then Reverify(table[p], Observe(tree, p, algorithm, chunkSize)) else table[p]
  }

  /** The ledger after the verification pass: only surviving records, each carrying its file's current mtime. */
  ghost function Verified(table: Table, tree: Tree, algorithm: HashFunction, chunkSize: int): (v: Table)
    ensures v.Keys == Surviving(table, tree) && v.Keys <= table.Keys
    ensures forall p :: p in v ==> IsRegular(tree, p) && v[p].mtime == tree[p].mtime
  {
    map p | p in table && IsRegular(tree, p) :: Reverify(table[p], Observe(tree, p, algorithm, chunkSize))
  }

  /** Some record among `done` is classified as bit rot. */
  ghost predicate BitRotAmong(table: Table, tree: Tree, algorithm: HashFunction, chunkSize: int, done: set<Path>) {
    exists p :: p in done && p in table && Classify(table[p], tree, p, algorithm, chunkSize) == BitRotDetected
  }

  /** Some record of the ledger is classified as bit rot. */
  ghost predicate BitRotFound(table: Table, tree: Tree, algorithm: HashFunction, chunkSize: int) {
    exists p :: p in table && Classify(table[p], tree, p, algorithm, chunkSize) == BitRotDetected
  }

  /** A path the discovery pass submits a hash job for. */
  predicate IsNew(table: Table, tree: Tree, path: Path) {
    path != LedgerFileName && IsRegular(tree, path) && path !in table
  }

  /** Every path the discovery pass submits a hash job for. */
  ghost function NewFiles(table: Table, tree: Tree): set<Path> {
    set p | p in tree && IsNew(table, tree, p)
  }

  /** The ledger once the hash jobs of the new files at `added` have completed. */
  ghost function AddedUpTo(table: Table, tree: Tree, algorithm: HashFunction, chunkSize: int, added: set<Path>): Table {
    table + map p | p in added && IsRegular(tree, p) :: Observe(tree, p, algorithm, chunkSize)
  }

  /** The ledger after the discovery pass: every row kept, and a fresh row for each new file. */
  ghost function Discovered(table: Table, tree: Tree, algorithm: HashFunction, chunkSize: int): (d: Table)
    ensures forall p :: p in table ==> p in d && d[p] == table[p]
    ensures d.Keys - table.Keys == NewFiles(table, tree)
    ensures forall p :: p in d && p !in table ==> IsNew(table, tree, p) && d[p] == Observe(tree, p, algorithm, chunkSize)
  {
    AddedUpTo(table, tree, algorithm, chunkSize, NewFiles(table, tree))
  }

  /** The ledger after a whole run; `check` false skips the verification pass. */
  ghost function Reconciled(table: Table, tree: Tree, algorithm: HashFunction, chunkSize: int, check: bool): (r: Table)
    ensures forall p :: p != LedgerFileName && IsRegular(tree, p) ==> p in r
    ensures check ==> forall p :: p in r ==> IsRegular(tree, p) && r[p].mtime == tree[p].mtime
  {
    Discovered(if check then Verified(table, tree, algorithm, chunkSize) else table, tree, algorithm, chunkSize)
  }

  /**
   * The exit code of a run: Failure exactly when `check` is set and some
   * record comes through the verification pass untouched although a fresh
   * hash of its file differs from it.
   */
  ghost function RunExitCode(table: Table, tree: Tree, algorithm: HashFunction, chunkSize: int, check: bool): (code: ExitCode)
    ensures !check ==> code == Success
    ensures code == Failure <==> check && exists p ::
      && p in table && IsRegular(tree, p)
      && Verified(table, tree, algorithm, chunkSize)[p] == table[p]
      && table[p].digest != DigestOf(tree[p].content, algorithm, chunkSize)
  {
    if check && BitRotFound(table, tree, algorithm, chunkSize) then Failure else Success
  }

  /** The records among `seen` whose file is missing: each one is a delete. */
  ghost function MissingAmong(table: Table, tree: Tree, seen: set<Path>): set<Path> {
    set p | p in seen && p in table && !IsRegular(tree, p)
  }

  /** The records among `done` whose file has a moved mtime: each one is an update. */
  ghost function StaleAmong(table: Table, tree: Tree, done: set<Path>): set<Path> {
    set p | p in done && p in table && IsRegular(tree, p) && tree[p].mtime != table[p].mtime
  }

  // ---------------------------------------------------------------------
  // Steps of the passes, used by the loops that implement them.

  lemma PrunedStep(table: Table, tree: Tree, seen: set<Path>, path: Path)
    ensures Pruned(table, tree, seen + {path})
      == if IsRegular(tree, path) then Pruned(table, tree, seen) else Pruned(table, tree, seen) - {path}
  {
  }

  lemma PrunedAll(table: Table, tree: Tree, algorithm: HashFunction, chunkSize: int)
    ensures Pruned(table, tree, table.Keys) == VerifiedUpTo(table, tree, algorithm, chunkSize, {})
  {
  }

  lemma VerifiedUpToStep(table: Table, tree: Tree, algorithm: HashFunction, chunkSize: int, done: set<Path>, path: Path)
    requires path in table && IsRegular(tree, path) && path !in done
    ensures VerifiedUpTo(table, tree, algorithm, chunkSize, done + {path})
      == VerifiedUpTo(table, tree, algorithm, chunkSize, done)[path := Reverify(table[path], Observe(tree, path, algorithm, chunkSize))]
  {
  }

  lemma VerifiedUpToAll(table: Table, tree: Tree, algorithm: HashFunction, chunkSize: int, done: set<Path>)
    requires done == Surviving(table, tree)
    ensures VerifiedUpTo(table, tree, algorithm, chunkSize, done) == Verified(table, tree, algorithm, chunkSize)
    ensures BitRotAmong(table, tree, algorithm, chunkSize, done) == BitRotFound(table, tree, algorithm, chunkSize)
  {
  }

  lemma BitRotAmongStep(table: Table, tree: Tree, algorithm: HashFunction, chunkSize: int, done: set<Path>, path: Path)
    requires path in table
    ensures BitRotAmong(table, tree, algorithm, chunkSize, done + {path})
      == (BitRotAmong(table, tree, algorithm, chunkSize, done)
          || Classify(table[path], tree, path, algorithm, chunkSize) == BitRotDetected)
  {
  }

  lemma AddedUpToStep(table: Table, tree: Tree, algorithm: HashFunction, chunkSize: int, added: set<Path>, path: Path)
    requires IsRegular(tree, path)
    ensures AddedUpTo(table, tree, algorithm, chunkSize, added + {path})
      == AddedUpTo(table, tree, algorithm, chunkSize, added)[path := Observe(tree, path, algorithm, chunkSize)]
  {
  }

  lemma MissingAmongStep(table: Table, tree: Tree, seen: set<Path>, path: Path)
    requires path !in seen
    ensures |MissingAmong(table, tree, seen + {path})|
      == |MissingAmong(table, tree, seen)| + if path in table && !IsRegular(tree, path) then 1 else 0
  {
    if path in table && !IsRegular(tree, path) {
      assert MissingAmong(table, tree, seen + {path}) == MissingAmong(table, tree, seen) + {path};
    } else {
      assert MissingAmong(table, tree, seen + {path}) == MissingAmong(table, tree, seen);
    }
  }

  lemma StaleAmongStep(table: Table, tree: Tree, done: set<Path>, path: Path)
    requires path !in done && path in table && IsRegular(tree, path)
    ensures |StaleAmong(table, tree, done + {path})|
      == |StaleAmong(table, tree, done)| + if tree[path].mtime != table[path].mtime then 1 else 0
  {
    if tree[path].mtime != table[path].mtime {
      assert StaleAmong(table, tree, done + {path}) == StaleAmong(table, tree, done) + {path};
    } else {
      assert StaleAmong(table, tree, done + {path}) == StaleAmong(table, tree, done);
    }
  }
}
