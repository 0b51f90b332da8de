# bitrat: the reconciliation engine, modelled in Dafny

bitrat detects bit rot. It keeps a ledger (an SQLite file, `.bitrot.db`, at
the root of the scanned tree) with one row per file: the relative path, the
digest of the file's bytes, and the file's mtime when that digest was
computed. A run has two passes.

- **Verification pass** (only with `check`). Every row of the ledger is meant
  to be visited (as written, a delete cuts the loop short; see "## Findings").
  A row whose file is gone is deleted. Every other row gets a hash job.
  As the jobs complete, in any order:
  - a moved mtime overwrites the row with the fresh digest and mtime (an
    update, never corruption);
  - an equal mtime with a different digest is bit rot: it is reported, the
    row is kept, and the exit code becomes 1.
- **Discovery pass.** Every regular file under the root that has no row,
  other than the ledger file itself, is hashed and added.

The ledger is committed when a counter of changes (`database_changes`) hits a
multiple of `save_every`, and once more at the end. The older `run` in
`bitrat/__main__.py` has the same two passes, always checks, and commits only
at the end.

The model is split into these modules:

- `Types`: bytes, paths, timestamps, digests and `Option`.
- `Utils`: `hexlify` and its inverse.
- `FileSystem`: the scanned tree as a map from relative path to node; a file
  object with `read(size)`.
- `Hashing`: a streaming hash object and `calculate_hash`, as a method with
  its loop.
- `Database`: the ledger connection as the class `Ledger`. Its fields are the
  table this connection sees, the table the last commit left on disk, and the
  number of commits.
- `Reconcile`: what a run does, as functions of the starting table and the
  tree. These are `Classify` (the per-record rule), `Verified`, `Discovered`,
  `Reconciled` and `RunExitCode`. The passes are proved against them.
- `Checkpoint`: the `save_every` counter as a `Tally` of (counter, commits),
  and the commit-when-due step.
- `Verification` and `Discovery`: the two passes as methods with the source's
  loops, over a `Ledger`.
- `Core` and `Legacy`: the two versions of `run`.
- `Properties`: what a run promises, as lemmas over `Reconcile`. These cover
  timestamp priority, bit rot persistence, completion-order independence and
  the quietness of a second run.
- `CursorReset`: the verification pass's first loop as written, where a
  delete on the shared cursor ends the scan of the rows (see "## Findings").

Parameters stand in for the outside world:

- The hash algorithm is a function from bytes to digest.
- The tree is a fixed map.
- The ledger file's content at start-up is `existing` (`None` when there is
  no file yet).
- The order in which the SQL engine returns rows, `rglob` yields paths and
  `as_completed` yields jobs is an arbitrary choice (`:|`). So every proof holds
  for every order.

Two behaviours of the code that the model keeps:

- The first loop of the verification pass commits without counting the
  commit as a change, so while the counter stays at a multiple of
  `save_every` (at 0, for a start) it commits after every submitted row.
- `save_every` is applied with Python's `%`, so a negative value also works, as
  a period of `|save_every|`.

## Model

| member | source | states |
|---|---|---|
| Utils.Hexlify | bitrat/utils.py:15-16 | The hex text has two characters per byte |
| Utils.HexlifyAt | bitrat/utils.py:15-16 | Characters 2i and 2i+1 are the lower-case hex digits of the high and low nibble of byte i |
| Utils.HexlifyAlphabet | bitrat/utils.py:15-16 | Every character of the output is one of `0123456789abcdef` |
| Utils.HexlifyAppend | bitrat/utils.py:15-16 | Hexlify of a concatenation is the concatenation of the hexlified parts |
| Utils.HexlifyEmpty | bitrat/utils.py:15-16 | No bytes give the empty string |
| Utils.NibbleValue | bitrat/utils.py:15-16 | Decoding one character gives the nibble whose digit it is, and fails exactly on characters outside the alphabet |
| Utils.Unhexlify | bitrat/utils.py:15-16 | The decoder (the partner of hexlify): a decoded text has half as many bytes as characters |
| Utils.UnhexlifyHexlify | bitrat/utils.py:15-16 | Round trip: decoding the hex text of any bytes gives those bytes back |
| Utils.HexlifyInjective | bitrat/utils.py:15-16 | Different digests never print as the same hex text |
| FileSystem.ReadCount | bitrat/core.py:31 | `read(size)` returns at most the bytes left and at most `size` of them; a negative size reads to the end, and a short read happens only at end of file; it returns nothing exactly at end of file or for size 0 |
| FileSystem.FileReader.Open | bitrat/core.py:30 | Opening a file starts at offset 0 |
| FileSystem.FileReader.Read | bitrat/core.py:31 | The chunk is the next `ReadCount` bytes from the offset, and the offset moves past it |
| Hashing.Hasher.constructor | bitrat/core.py:28 | A new hash object has been fed nothing |
| Hashing.Hasher.Update | bitrat/core.py:32 | `update` appends the chunk to the input fed so far |
| Hashing.Fed | bitrat/core.py:31-32 | The bytes that `read` after `read` hands to `update` until one comes back empty: the rest of the file for any non-zero size, nothing for size 0 |
| Hashing.DigestOf | bitrat/core.py:26-34 | The value `calculate_hash` returns, defined as the algorithm over what the reads feed it: for any non-zero chunk size that is the digest of the whole file, whatever the size; for size 0 the first `read` is empty, so the digest of no bytes |
| Hashing.CalculateHash | bitrat/core.py:26-34 | The chunks fed to the hash are non-empty, at most `chunk_size` bytes each for a positive size, and concatenate to the whole file (nothing for size 0); the digest is the algorithm applied to exactly that input. The copy in bitrat/__main__.py:26-34 is the same loop |
| Database.Ledger.Open | bitrat/database.py:17-27 | An existing ledger file is opened as stored, with no commit; a new one gets an empty table and one commit |
| Database.Ledger.Commit | bitrat/core.py:125 | A commit makes the on-disk table equal the connection's table and counts one commit; the connection's table is unchanged |
| Database.Ledger.UpdateRecord | bitrat/database.py:30-31 | Upsert keyed by path: the row for the path is replaced or created; no other row and nothing on disk changes |
| Database.Ledger.DeleteRecord | bitrat/database.py:34-35 | The row for the path is gone and every other row is kept |
| Database.Ledger.RecordExists | bitrat/database.py:38-40 | True exactly when the table has a row for the path |
| Database.Ledger.GetTotalRecords | bitrat/database.py:50-52 | The count is the number of rows |
| Database.Ledger.SelectAll | bitrat/database.py:44 | The result set lists every row of the table exactly once, each with its stored digest and mtime, in whatever order the engine returns them |
| Database.ReadAhead | bitrat/database.py:45 | `fetchmany` returns at most `arraysize` of the remaining rows, and nothing only when none remain |
| Database.Ledger.YieldRecords | bitrat/database.py:43-47 | Fetching chunk by chunk until one comes back empty yields every row of the table exactly once |
| Database.PathsOfMember | bitrat/database.py:25 | A path is among the paths of some rows exactly when some row carries it |
| Database.DistinctPathsSize | bitrat/database.py:25 | Rows with pairwise different paths (the primary key) have as many paths as rows |
| Database.EnumeratesSize | bitrat/database.py:43-52 | The rows `yield_records` goes through number exactly what `get_total_records` reports |
| Checkpoint.Bump | bitrat/core.py:86-88 | A step commits at most once and exactly when the counter is due, and every commit is counted too, so the counter minus the commits never moves |
| Checkpoint.CommitIfDue | bitrat/core.py:86-121 | The rule that ends each step of both completion loops (lines 86-88 and 119-121), on the ledger: when due, the on-disk table becomes the current table and one commit is counted; the rows never change |
| Checkpoint.Add | bitrat/core.py:116-121 | One new record counts one change and then applies the checkpoint rule: at most one commit, made exactly when the raised counter is due, and counted too |
| Checkpoint.AfterAdditions | bitrat/core.py:110-123 | After n additions the counter minus the commits has grown by exactly n, and commits never decrease |
| Checkpoint.BumpNoRepeat | bitrat/core.py:86-88 | With `save_every` other than 1 and -1, the step after a commit leaves the counter off a multiple, so the same value never triggers a second commit |
| Checkpoint.AfterAdditionsCount | bitrat/core.py:116-121 | After n additions the counter has risen by n plus one per commit, and there are at most n commits |
| Checkpoint.AfterAdditionsAtEndOnly | bitrat/__main__.py:99-109 | Without checkpoints, n additions make no commit and the counter only rises by n |
| Checkpoint.AfterAdditionsSplit | bitrat/core.py:110-123 | a + b additions are a additions followed by b |
| Checkpoint.CommitWithin | bitrat/core.py:117-121 | Any run of as many additions as the magnitude of `save_every` includes a commit |
| Checkpoint.CommitsAtLeast | bitrat/core.py:117-121 | With m the magnitude of `save_every`, n additions commit at least n / m times, so fewer than m trailing additions wait for the final commit |
| Reconcile.Classify | bitrat/core.py:53-84 | A record is Removed exactly when its file is missing, Updated exactly when the mtime moved, Unchanged exactly when a fresh observation equals the stored row; when the file is there, the row is kept exactly when the outcome is not Updated |
| Reconcile.Reverify | bitrat/core.py:73-76 | The row left is the stored or the fresh one, always carries the file's current mtime, and is the stored one whenever the mtime did not move |
| Reconcile.Verified | bitrat/core.py:46-90 | After the verification pass the keys are exactly the recorded paths that still name a regular file, and each row carries its file's current mtime |
| Reconcile.Discovered | bitrat/core.py:93-123 | Discovery keeps every row as it was, adds exactly the new files (never the ledger file), each with a fresh observation |
| Reconcile.Reconciled | bitrat/core.py:37-127 | After a run every regular file but the ledger file has a row; with `check`, every row names a regular file and carries its current mtime |
| Reconcile.RunExitCode | bitrat/core.py:44-127 | Success without `check`; Failure exactly when `check` is set and some record comes through the pass untouched although a fresh hash of its file differs from it |
| Verification.VerifyPass | bitrat/core.py:46-90 | The ledger ends as `Verified`. The exit code is Failure exactly when some record is bit rot. The counter rises by at least one per delete and per update, and exactly by that count without checkpoints (see "## Left out"); commits never decrease. Without checkpoints nothing is committed, which is how the older pass at bitrat/__main__.py:45-80 runs |
| Verification.SubmitChecks | bitrat/core.py:51-63 | The ledger loses exactly the rows whose file is missing. One job is pending per surviving row. The counter rises by the number of deletes, and the counter and commits are `FirstLoop` over the rows in the order yielded |
| Verification.FirstStep | bitrat/core.py:52-63 | One row of the first loop moves the counter and the commits by at most one each: the counter exactly when the file is missing, the commits (uncounted) exactly when the file is there and the counter is due |
| Verification.FirstLoop | bitrat/core.py:51-63 | Over the rows in order, the counter and the commits never decrease, and the counter moves exactly when some row's file is missing |
| Verification.FirstLoopBounds | bitrat/core.py:51-63 | The first loop commits at most once per row and never without checkpoints; each row counts a delete, commits, or neither |
| Verification.FirstLoopRepeats | bitrat/core.py:59-63 | Because that commit is not counted, a due counter makes every following surviving row commit again until a missing file moves the counter |
| Verification.SubmitOne | bitrat/core.py:52-63 | One row: a missing file deletes the row and counts one change; any other row gets a job keyed by its position and commits, uncounted, exactly when the counter is due, which makes the on-disk table the current one |
| Verification.SubmitStep | bitrat/core.py:51-57 | Each row adds its path to those seen, removes the row when its file is missing, and adds one to the missing count exactly then |
| Verification.SubmittedChecks | bitrat/core.py:59-60 | After the loop, the jobs carry exactly the surviving rows, one each |
| Verification.CompleteChecks | bitrat/core.py:65-90 | Whatever order the jobs complete in, the ledger ends as `Verified` and the exit code tells whether any record was bit rot. The counter rises by one per update plus one per commit |
| Verification.CompleteOne | bitrat/core.py:66-90 | Handling one job extends the handled set by its path and keeps the ledger equal to `VerifiedUpTo` that set |
| Verification.HandleCheck | bitrat/core.py:67-88 | The row is replaced by the fresh digest and mtime exactly when the mtime moved. Bit rot sets the exit code to Failure. The change is counted and the checkpoint rule applied |
| Verification.CompletingStep | bitrat/core.py:90 | Removing a completed job leaves its path handled and not pending |
| Verification.CompletedChecks | bitrat/core.py:66 | When no job is pending, every surviving row has been handled and every stale row updated |
| Discovery.DiscoverPass | bitrat/core.py:93-123 | The ledger ends as `Discovered`. The counter and commits follow the checkpoint rule once per new file. Without checkpoints nothing is committed, as in the older pass at bitrat/__main__.py:83-107 |
| Discovery.SubmitAdditions | bitrat/core.py:95-107 | Whatever order the walk yields paths in, one job is pending per regular file with no row, the ledger file excluded, and no path twice |
| Discovery.WalkStep | bitrat/core.py:95-107 | Each walked path gets a job exactly when it is a new regular file other than the ledger file |
| Discovery.CompleteAdditions | bitrat/core.py:109-123 | Whatever order the jobs complete in, every new file gets a row with its fresh digest and mtime, and the counter follows `AfterAdditions` |
| Discovery.AddRecord | bitrat/core.py:111-121 | One addition: the row for the path holds the fresh digest and the file's mtime; the counter and commits follow `Add` |
| Discovery.AddingStep | bitrat/core.py:123 | Removing a completed job moves its path from pending to added |
| Discovery.CompletedAdditions | bitrat/core.py:110 | When no job is pending, every new file has been added |
| Core.Run | bitrat/core.py:37-127 | What the final commit leaves on disk is `Reconciled` of the starting table. The exit code is Failure exactly when `check` is set and some record is bit rot |
| Legacy.Run | bitrat/__main__.py:37-111 | The same outcome with `check` always on; the run commits exactly once |
| Properties.VerifiedOutcome | bitrat/core.py:51-84 | A record is deleted exactly when its file is missing. A moved mtime stores the fresh observation. Bit rot and unchanged files keep the row |
| Properties.TimestampPriority | bitrat/core.py:73-76 | A moved mtime is an update even if the digest still matches, and the row becomes the fresh observation |
| Properties.BitRotKept | bitrat/core.py:77-84 | A bit rot record is kept unchanged, is still bit rot afterwards, and makes the run fail |
| Properties.ExitCodeRule | bitrat/core.py:44-84 | Records do not interact in the exit code: a run fails exactly when the run over one of its records alone would fail |
| Properties.SecondRunQuiet | bitrat/core.py:37-127 | A second run over an unchanged tree deletes, updates and adds nothing, leaves the ledger as it is, and fails exactly when the first run did |
| Properties.VerifiedFixed | bitrat/core.py:73-84 | A ledger whose rows all match the tree's mtimes is a fixed point of the verification pass |
| Properties.BitRotPersists | bitrat/core.py:77-84 | Bit rot is reported after the run exactly when it was reported during it |
| Properties.AnyCompletionOrder | bitrat/core.py:66-90 | Handling the jobs in any order that lists each surviving record once gives the same ledger, namely `Verified` |
| CursorReset.VisitedRowsAsWritten | bitrat/database.py:43-47 | As written: the rows the first loop visits are a prefix of the result set |
| CursorReset.ReachesFirstDelete | bitrat/core.py:51-57 | As written, the visit ends with the first chunk that contains a delete: a missing file among the rows is among the visited ones, and every visited row before the last chunk names a regular file |
| CursorReset.BitRotReportedAsWritten | bitrat/core.py:51-84 | The exit code of the pass as written: it never reports bit rot that is not in the rows, and without a missing file it reports exactly the bit rot there is |
| CursorReset.NoDeleteVisitsAll | bitrat/database.py:43-47 | Without a missing file the loop as written does visit every row |
| CursorReset.CursorResetHidesBitRot | bitrat/core.py:51-57 | Counterexample: two records, the first missing and the second bit rot. The loop as written visits only the first and reports no bit rot, although the run should fail |

## Left out

- `ensure_pathlib_path` (bitrat/utils.py:8-12) and `types.py`: path type coercion, which has no counterpart once paths are strings relative to the root.
- `bitrat/console.py`: argument parsing and its defaults. `ExitCode` is mirrored in `Reconcile.ExitCode`.
- The process pool and its workers: the hash jobs are computed in the reconciler, and `as_completed` is modelled as an arbitrary choice.
- Console output: the progress lines, `hexlify` of the digests for printing, and `datetime.fromtimestamp`.
- mtimes are integers, not floats. The comparison is exact equality either way.
- The tree does not change during a run. There is no race between hashing a file and the `stat` call that reads its mtime.
- I/O errors and exceptions (a file vanishing between `is_file` and `open`, a permission error, a corrupt ledger file) are not modelled, nor are hash errors. The source catches none of them and lets them propagate.
- SQLite itself: the SQL text, `close`, transactions beyond "what the last commit left on disk", and the lazy generator. `yield_records` produces its rows as a sequence before the loop uses them. How a DELETE on the shared cursor cuts that generator short is modelled separately in `CursorReset`.
- `cursor.arraysize`: the verification pass passes the default of 1.
- Core.Run: requires `save_every != 0`. In the source `x % 0` raises ZeroDivisionError at the first surviving record (bitrat/core.py:62), completed check (line 86) or new file (line 119); a run with none of them succeeds in the source and is excluded here too.
- Core.Run: does not expose the counter or the number of intermediate commits; `Verification.VerifyPass`, `Discovery.DiscoverPass` and the `Checkpoint` lemmas state them.
- Verification.VerifyPass: with checkpoints only a lower bound on the counter is stated. How many commits the second loop makes depends on the completion order. `Verification.CompleteChecks` states the exact counter given the commits.
- Hash algorithms are uninterpreted functions. Two different inputs may collide, as with any real digest.
- Three field names in the source do not match `Record`, which has `path`, `digest` and `mtime`:
  - `record.modified` in bitrat/core.py:73 and 79;
  - `record.hash_` in bitrat/__main__.py:71-72;
  - the import of `has_record` in bitrat/core.py:19, where bitrat/database.py defines `record_exists`.

  As written, these raise AttributeError and ImportError. The model uses the record's own fields and `record_exists`, as the code evidently intends.
- Legacy.Run: the shared passes carry a counter that `bitrat/__main__.py` does not have. With no checkpoints the counter never triggers a commit, and its value is discarded.

## Findings

| source | as written | input that shows it | evidently intended | confidence | as-written member | corrected member |
|---|---|---|---|---|---|---|
| bitrat/core.py:51-57 with bitrat/database.py:34-35 and 43-47 (also bitrat/__main__.py:50-55) | `delete_record` runs its DELETE on the cursor that `yield_records` is still fetching from. That discards the rest of the SELECT, so the loop ends after the current `fetchmany` chunk and later rows are never checked | records `a` (file missing) and `b` (same mtime, different digest), SELECT order `a`, `b`, default `arraysize` 1: `a` is deleted, `b` is never hashed, and the run exits 0 | every record is visited: `b` is reported as bit rot and the run exits 1 | high, not executed | CursorReset.CursorResetHidesBitRot | Verification.VerifyPass |
