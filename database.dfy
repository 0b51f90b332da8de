/**
 * The ledger: the `records` table keyed by `path`, its rows, and the
 * operations the reconciler issues through one cursor.
 */
module Database {
  import opened Types

  /** One row of `records`, as `yield_records` produces it. */
  datatype Record = Record(path: Path, digest: Digest, mtime: Timestamp)

  /** The non-key columns of a row. */
  datatype Stamp = Stamp(digest: Digest, mtime: Timestamp)

  /** The table: `path` is the primary key, so a path has at most one row. */
  type Table = map<Path, Stamp>

  /** The row the table holds for `r.path` is exactly `r`. */
  ghost predicate Holds(table: Table, r: Record) {
    r.path in table && table[r.path] == Stamp(r.digest, r.mtime)
  }

  /** The paths of a sequence of rows. */
  function PathsOf(rows: seq<Record>): set<Path>
    decreases |rows|
  {
    if rows == [] then {} else PathsOf(rows[..|rows| - 1]) + {rows[|rows| - 1].path}
  }

  lemma {:induction false} PathsOfMember(rows: seq<Record>, p: Path)
    ensures p in PathsOf(rows) <==> exists i :: 0 <= i < |rows| && rows[i].path == p
    decreases |rows|
  {
    if rows != [] {
      var front := rows[..|rows| - 1];
      PathsOfMember(front, p);
      if p in PathsOf(front) {
        var i :| 0 <= i < |front| && front[i].path == p;
        assert rows[i].path == p;
      }
      if exists i :: 0 <= i < |rows| && rows[i].path == p {
        var i :| 0 <= i < |rows| && rows[i].path == p;
        if i < |rows| - 1 {
          assert front[i].path == p;
        }
      }
    }
  }

  lemma PathsOfAppend(rows: seq<Record>, r: Record)
    ensures PathsOf(rows + [r]) == PathsOf(rows) + {r.path}
  {
    assert (rows + [r])[..|rows|] == rows;
  }

  /** Pairwise distinct paths. */
  ghost predicate DistinctPaths(rows: seq<Record>) {
    forall i, j :: 0 <= i < j < |rows| ==> rows[i].path != rows[j].path
  }

  /** `rows` lists every row of `table` exactly once. */
  ghost predicate Enumerates(rows: seq<Record>, table: Table) {
    && (forall i :: 0 <= i < |rows| ==> Holds(table, rows[i]))
    && DistinctPaths(rows)
    && PathsOf(rows) == table.Keys
  }

  lemma {:induction false} DistinctPathsSize(rows: seq<Record>)
    requires DistinctPaths(rows)
    ensures |PathsOf(rows)| == |rows|
    decreases |rows|
  {
    if rows != [] {
      var front := rows[..|rows| - 1];
      var last := rows[|rows| - 1];
      assert DistinctPaths(front) by {
        forall i, j | 0 <= i < j < |front| ensures front[i].path != front[j].path {
          assert front[i] == rows[i] && front[j] == rows[j];
        }
      }
      DistinctPathsSize(front);
      assert last.path !in PathsOf(front) by {
        PathsOfMember(front, last.path);
      }
    }
  }

  /** An enumeration has exactly as many rows as the table. */
  lemma EnumeratesSize(rows: seq<Record>, table: Table)
    requires Enumerates(rows, table)
    ensures |rows| == |table|
  {
    DistinctPathsSize(rows);
    assert |table.Keys| == |table|;
  }

  /** Part way through a scan: `rows` lists the rows of `table` whose paths are not `unseen`, once each. */
  ghost predicate Selecting(rows: seq<Record>, unseen: set<Path>, table: Table) {
    && unseen <= table.Keys
    && (forall i :: 0 <= i < |rows| ==> Holds(table, rows[i]))
    && DistinctPaths(rows)
    && PathsOf(rows) !! unseen
    && PathsOf(rows) + unseen == table.Keys
  }

  /** Scanning one more row keeps the scan consistent and shrinks what is left. */
  lemma SelectingStep(rows: seq<Record>, unseen: set<Path>, table: Table, path: Path)
    requires Selecting(rows, unseen, table)
    requires path in unseen
    ensures Selecting(rows + [Record(path, table[path].digest, table[path].mtime)], unseen - {path}, table)
    ensures |unseen - {path}| < |unseen|
  {
    var row := Record(path, table[path].digest, table[path].mtime);
    PathsOfAppend(rows, row);
    PathsOfMember(rows, path);
  }

  /** The table a run starts from: the stored one, or an empty one for a new ledger file. */
  function Opened(existing: Option<Table>): Table {
    if existing.Some? then existing.value else map[]
  }

  /** A connection to the ledger's SQLite file. */
  class Ledger {
    /** The table as this connection sees it, uncommitted changes included. */
    var records: Table
    /** The table as the last commit left it on disk. */
    var committed: Table
    /** How many times `commit` has run on this connection. */
    var commits: nat

    /**
     * `get_database(path)`: an existing ledger file (`Some`) is opened as it
     * is; otherwise a new file gets an empty `records` table, committed once.
     */
    constructor Open(existing: Option<Table>)
      ensures records == Opened(existing) && committed == Opened(existing)
      ensures commits == if existing.Some? then 0 else 1
    {
      if existing.Some? {
        records := existing.value;
        committed := existing.value;
        commits := 0;
      } else {
        records := map[];
        committed := map[];
        commits := 1;
      }
    }

    /** `connection.commit()` */
    method Commit()
      modifies this
      ensures records == old(records)
      ensures committed == records
      ensures commits == old(commits) + 1
    {
      committed := records;
      commits := commits + 1;
    }

    /** `update_record`: INSERT OR REPLACE, an upsert keyed by path. */
    method UpdateRecord(path: Path, digest: Digest, mtime: Timestamp)
      modifies this
      ensures records == old(records)[path := Stamp(digest, mtime)]
      ensures committed == old(committed) && commits == old(commits)
    {
      records := records[path := Stamp(digest, mtime)];
    }

    /** `delete_record`: removes the row for `path`, if there is one. */
    method DeleteRecord(path: Path)
      modifies this
      ensures records == old(records) - {path}
      ensures committed == old(committed) && commits == old(commits)
    {
      records := records - {path};
    }

    /** `record_exists` */
    method RecordExists(path: Path) returns (found: bool)
      ensures found <==> path in records
    {
      found := path in records;
    }

    /** `get_total_records`: `SELECT COUNT()`. */
    method GetTotalRecords() returns (total: nat)
      ensures total == |records|
    {
      total := |records|;
    }

    /** The result set of `SELECT path, hash, mtime FROM records`, in whatever order the engine returns it. */
    method SelectAll() returns (resultSet: seq<Record>)
      ensures Enumerates(resultSet, records)
    {
      resultSet := [];
      var unseen := records.Keys;
      while unseen != {}
        invariant Selecting(resultSet, unseen, records)
        decreases |unseen|
      {
        var path :| path in unseen;
        var row := Record(path, records[path].digest, records[path].mtime);
        SelectingStep(resultSet, unseen, records, path);
        resultSet := resultSet + [row];
        unseen := unseen - {path};
      }
    }

    /**
     * `yield_records`: runs the SELECT, then takes `fetchmany` chunks of at
     * most `arraySize` rows (the cursor's `arraysize`) until one comes back
     * empty, producing each row of each chunk in turn.
     */
    method YieldRecords(arraySize: nat) returns (rows: seq<Record>)
      requires arraySize > 0
      ensures Enumerates(rows, records)
    {
      var resultSet := SelectAll();
      var fetched := 0;
      rows := [];
      var chunk := resultSet[fetched..fetched + ReadAhead(|resultSet| - fetched, arraySize)];
      fetched := fetched + |chunk|;
      while chunk != []
        invariant |chunk| <= fetched <= |resultSet|
        invariant rows + chunk == resultSet[..fetched]
        invariant chunk == [] ==> fetched == |resultSet|
        decreases |resultSet| - |rows|
      {
        var k := 0;
        ghost var before := rows;
        while k < |chunk|
          invariant 0 <= k <= |chunk|
          invariant rows == before + chunk[..k]
        {
          rows := rows + [chunk[k]];
          k := k + 1;
        }
        assert chunk[..|chunk|] == chunk;
        chunk := resultSet[fetched..fetched + ReadAhead(|resultSet| - fetched, arraySize)];
        fetched := fetched + |chunk|;
      }
      assert resultSet[..|resultSet|] == resultSet;
    }
  }

  /** How many rows `fetchmany` returns when `remaining` rows are left. */
  function ReadAhead(remaining: nat, arraySize: nat): (n: nat)
    requires arraySize > 0
    ensures n <= remaining && n <= arraySize
    ensures n == 0 <==> remaining == 0
  {
    if remaining < arraySize then remaining else arraySize
  }
}
