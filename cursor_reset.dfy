/**
 * The first loop of the verification pass as bitrat/core.py:51-57 (and
 * bitrat/__main__.py:50-55) actually runs it. `yield_records` and
 * `delete_record` share one cursor, and `cursor.execute` of the DELETE
 * discards what is left of the SELECT: the rows already fetched by the
 * current `fetchmany` chunk are still produced, but the next `fetchmany`
 * comes back empty and the loop ends. The rows after that chunk are never
 * checked.
 */
module CursorReset {
  import opened Types
  import opened FileSystem
  import opened Hashing
  import opened Database
  import opened Reconcile

  /** Some row of `rows` names a path that is not a regular file, so the loop deletes it. */
  predicate DeletesIn(rows: seq<Record>, tree: Tree) {
    exists i :: 0 <= i < |rows| && !IsRegular(tree, rows[i].path)
  }

  /**
   * The rows the loop visits when the SELECT returned `resultSet` and the
   * cursor fetches `arraySize` rows at a time (1 by default): a chunk that
   * contains a delete is the last one.
   */
  function VisitedRowsAsWritten(resultSet: seq<Record>, tree: Tree, arraySize: nat): (visited: seq<Record>)
    requires arraySize > 0
    ensures |visited| <= |resultSet| && visited == resultSet[..|visited|]
    decreases |resultSet|
  {
    if resultSet == [] then []
    else
      var n := ReadAhead(|resultSet|, arraySize);
      var chunk := resultSet[..n];
      if DeletesIn(chunk, tree) then chunk
      else
        var rest := VisitedRowsAsWritten(resultSet[n..], tree, arraySize);
        assert resultSet[n..][..|rest|] == resultSet[n..n + |rest|];
        assert chunk + rest == resultSet[..n + |rest|];
        chunk + rest
  }

  /** Some row of `rows` is classified as bit rot. */
  predicate BitRotIn(rows: seq<Record>, tree: Tree, algorithm: HashFunction, chunkSize: int) {
    exists i :: 0 <= i < |rows|
      && Classify(Stamp(rows[i].digest, rows[i].mtime), tree, rows[i].path, algorithm, chunkSize) == BitRotDetected
  }

  /**
   * Whether the verification pass as written reports bit rot: only the
   * visited rows are checked. It never reports bit rot that is not there,
   * and without a missing file it reports exactly what is there.
   */
  function BitRotReportedAsWritten(resultSet: seq<Record>, tree: Tree, algorithm: HashFunction, chunkSize: int, arraySize: nat): (reported: bool)
    requires arraySize > 0
    ensures reported ==> BitRotIn(resultSet, tree, algorithm, chunkSize)
    ensures !DeletesIn(resultSet, tree) ==> (reported <==> BitRotIn(resultSet, tree, algorithm, chunkSize))
  {
    var visited := VisitedRowsAsWritten(resultSet, tree, arraySize);
    if !DeletesIn(resultSet, tree) then
      NoDeleteVisitsAll(resultSet, tree, arraySize);
      BitRotIn(visited, tree, algorithm, chunkSize)
    else
      assert forall i :: 0 <= i < |visited| ==> visited[i] == resultSet[i];
      BitRotIn(visited, tree, algorithm, chunkSize)
  }

  /** Without deletes the loop does visit every row: the early stop needs a missing file. */
  lemma {:induction false} NoDeleteVisitsAll(resultSet: seq<Record>, tree: Tree, arraySize: nat)
    requires arraySize > 0
    requires !DeletesIn(resultSet, tree)
    ensures VisitedRowsAsWritten(resultSet, tree, arraySize) == resultSet
    decreases |resultSet|
  {
    if resultSet != [] {
      var n := ReadAhead(|resultSet|, arraySize);
      assert !DeletesIn(resultSet[..n], tree) by {
        forall i | 0 <= i < n ensures IsRegular(tree, resultSet[..n][i].path) {
          assert resultSet[..n][i] == resultSet[i];
        }
      }
      assert !DeletesIn(resultSet[n..], tree) by {
        forall i | 0 <= i < |resultSet| - n ensures IsRegular(tree, resultSet[n..][i].path) {
          assert resultSet[n..][i] == resultSet[n + i];
        }
      }
      NoDeleteVisitsAll(resultSet[n..], tree, arraySize);
      assert resultSet[..n] + resultSet[n..] == resultSet;
    }
  }

  /**
   * The loop as written stops at the first chunk that holds a delete: a
   * missing file among the rows is among the visited ones, and every visited
   * row before the last chunk names a regular file.
   */
  lemma {:induction false} ReachesFirstDelete(resultSet: seq<Record>, tree: Tree, arraySize: nat)
    requires arraySize > 0
    ensures var visited := VisitedRowsAsWritten(resultSet, tree, arraySize);
      && (DeletesIn(resultSet, tree) ==> DeletesIn(visited, tree))
      && (forall i :: 0 <= i < |visited| - arraySize ==> IsRegular(tree, visited[i].path))
    decreases |resultSet|
  {
    if resultSet != [] {
      var n := ReadAhead(|resultSet|, arraySize);
      var chunk := resultSet[..n];
      if !DeletesIn(chunk, tree) {
        assert forall k :: 0 <= k < n ==> IsRegular(tree, resultSet[k].path) by {
          forall k | 0 <= k < n ensures IsRegular(tree, resultSet[k].path) {
            assert chunk[k] == resultSet[k];
          }
        }
        var rest := resultSet[n..];
        ReachesFirstDelete(rest, tree, arraySize);
        var visited := VisitedRowsAsWritten(resultSet, tree, arraySize);
        var restVisited := VisitedRowsAsWritten(rest, tree, arraySize);
        assert visited == chunk + restVisited;
        if DeletesIn(resultSet, tree) {
          var j :| 0 <= j < |resultSet| && !IsRegular(tree, resultSet[j].path);
          assert j >= n;
          assert rest[j - n] == resultSet[j];
          var m :| 0 <= m < |restVisited| && !IsRegular(tree, restVisited[m].path);
          assert visited[n + m] == restVisited[m];
        }
        forall i | 0 <= i < |visited| - arraySize ensures IsRegular(tree, visited[i].path) {
          if i >= n {
            assert visited[i] == restVisited[i - n];
          } else {
            assert visited[i] == resultSet[i];
          }
        }
      }
    }
  }

  /**
   * The counterexample: `a` has lost its file, `b` has bit rot, and the
   * SELECT returns `a` first. With the default `arraysize` of 1 the loop
   * deletes `a` and stops, so `b` is never hashed and the run exits with
   * Success, although the intended exit code is Failure.
   */
  lemma CursorResetHidesBitRot(algorithm: HashFunction, chunkSize: int)
    requires chunkSize > 0
    ensures var content: seq<byte> := [1];
      var stale := algorithm(content) + [0];
      var tree: Tree := map["b" := File(content, 0)];
      var table: Table := map["a" := Stamp(stale, 0), "b" := Stamp(stale, 0)];
      var resultSet := [Record("a", stale, 0), Record("b", stale, 0)];
      && Enumerates(resultSet, table)
      && VisitedRowsAsWritten(resultSet, tree, 1) == [Record("a", stale, 0)]
      && !BitRotReportedAsWritten(resultSet, tree, algorithm, chunkSize, 1)
      && BitRotFound(table, tree, algorithm, chunkSize)
      && RunExitCode(table, tree, algorithm, chunkSize, true) == Failure
  {
    var content: seq<byte> := [1];
    var stale := algorithm(content) + [0];
    var tree: Tree := map["b" := File(content, 0)];
    var table: Table := map["a" := Stamp(stale, 0), "b" := Stamp(stale, 0)];
    var resultSet := [Record("a", stale, 0), Record("b", stale, 0)];
    assert PathsOf(resultSet) == {"a", "b"} by {
      assert resultSet[..1] == [Record("a", stale, 0)];
      assert PathsOf(resultSet[..1][..0]) == {};
    }
    assert "a" != "b";
    assert !IsRegular(tree, "a");
    assert resultSet[..1][0].path == "a";
    assert DeletesIn(resultSet[..1], tree);
    assert VisitedRowsAsWritten(resultSet, tree, 1) == [Record("a", stale, 0)];
    assert DigestOf(content, algorithm, chunkSize) == algorithm(content);
    assert |stale| != |algorithm(content)|;
    assert Classify(table["b"], tree, "b", algorithm, chunkSize) == BitRotDetected;
  }
}
