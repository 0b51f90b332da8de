/**
 * The `database_changes` counter of bitrat/core.py and the commits it
 * triggers. Each completed change adds one; after it, a completion loop
 * commits when the counter is a multiple of `save_every` and then adds one
 * more, so that the same value cannot trigger a second commit.
 */
module Checkpoint {
  import opened Database

  /** When a pass commits: only at the end of the run (bitrat/__main__.py), or by the `save_every` rule too (bitrat/core.py). */
  datatype Checkpoints = AtEndOnly | SaveEvery(saveEvery: int)

  /** `x % save_every` raises ZeroDivisionError for a zero `save_every`. */
  predicate ValidCheckpoints(checkpoints: Checkpoints) {
    checkpoints.SaveEvery? ==> checkpoints.saveEvery != 0
  }

  /** The value of `database_changes` and how many commits have run. */
  datatype Tally = Tally(counter: int, commits: nat)

  /**
   * The test `database_changes % save_every == 0`. Python's `%` takes the
   * sign of the divisor and Dafny's is never negative, but the two agree on
   * whether the remainder is zero.
   */
  predicate Due(counter: int, checkpoints: Checkpoints)
    requires ValidCheckpoints(checkpoints)
  {
    checkpoints.SaveEvery? && counter % checkpoints.saveEvery == 0
  }

  /**
   * The rule that ends each step of a completion loop: commit when due, then
   * count the commit as a change. A step commits at most once, exactly when
   * due, and every commit it makes is also counted, so the counter minus the
   * commits never moves.
   */
  function Bump(t: Tally, checkpoints: Checkpoints): (r: Tally)
    requires ValidCheckpoints(checkpoints)
    ensures r.counter - r.commits == t.counter - t.commits
    ensures t.commits <= r.commits <= t.commits + 1
    ensures r.commits > t.commits <==> Due(t.counter, checkpoints)
  {
    if Due(t.counter, checkpoints) then Tally(t.counter + 1, t.commits + 1) else t
  }

  /**
   * The checkpoint rule as the completion loops run it on the ledger: when
   * due, commit and count the commit; nothing else about the ledger changes.
   */
  method CommitIfDue(ledger: Ledger, checkpoints: Checkpoints, changes0: int) returns (changes: int)
    requires ValidCheckpoints(checkpoints)
    modifies ledger
    ensures Tally(changes, ledger.commits) == Bump(Tally(changes0, old(ledger.commits)), checkpoints)
    ensures ledger.records == old(ledger.records)
    ensures ledger.committed == if Due(changes0, checkpoints) then ledger.records else old(ledger.committed)
  {
    changes := changes0;
    if Due(changes, checkpoints) {
      ledger.Commit();
      changes := changes + 1;
    }
  }

  /** One new record in the discovery pass: the change, then the rule. */
  function Add(t: Tally, checkpoints: Checkpoints): (r: Tally)
    requires ValidCheckpoints(checkpoints)
    ensures r.counter - r.commits == t.counter + 1 - t.commits
    ensures t.commits <= r.commits <= t.commits + 1
    ensures r.commits > t.commits <==> Due(t.counter + 1, checkpoints)
  {
    Bump(Tally(t.counter + 1, t.commits), checkpoints)
  }

  /** The tally after `n` new records. */
  function AfterAdditions(t: Tally, checkpoints: Checkpoints, n: nat): (r: Tally)
    requires ValidCheckpoints(checkpoints)
    ensures r.counter - r.commits == t.counter - t.commits + n
    ensures t.commits <= r.commits
    decreases n
  {
    if n == 0 then t else Add(AfterAdditions(t, checkpoints, n - 1), checkpoints)
  }

  /**
   * With a `save_every` other than 1 and -1, a step never leaves the counter
   * at a multiple: a commit is not repeated by the next step unless that
   * step changes something.
   */
  lemma BumpNoRepeat(t: Tally, checkpoints: Checkpoints)
    requires checkpoints.SaveEvery? && (checkpoints.saveEvery > 1 || checkpoints.saveEvery < -1)
    ensures !Due(Bump(t, checkpoints).counter, checkpoints)
  {
    var s := checkpoints.saveEvery;
    if Due(t.counter, checkpoints) {
      var m := if s < 0 then -s else s;
      ModAbs(t.counter, s);
      ModAbs(t.counter + 1, s);
      ModNext(t.counter, m);
    }
  }

  /** `x % s` and `x % |s|` are the same in Dafny. */
  lemma ModAbs(x: int, s: int)
    requires s != 0
    ensures x % s == x % (if s < 0 then -s else s)
  {
  }

  /** The successor of a multiple of `m > 1` is not one. */
  lemma ModNext(x: int, m: int)
    requires m > 1 && x % m == 0
    ensures (x + 1) % m == 1
  {
    var q := x / m;
    assert x == m * q;
    ModUnique(x + 1, m, q, 1);
  }

  /** Euclidean division is unique: `a = m q + r` with `0 <= r < m` fixes `a / m` and `a % m`. */
  lemma ModUnique(a: int, m: int, q: int, r: int)
    requires m > 0 && 0 <= r < m && a == m * q + r
    ensures a / m == q && a % m == r
  {
    var q', r' := a / m, a % m;
    assert a == m * q' + r';
    if q' > q {
      assert m * q' == m * q + m * (q' - q);
      MulAtLeast(m, q' - q);
    } else if q' < q {
      assert m * q == m * q' + m * (q - q');
      MulAtLeast(m, q - q');
    }
  }

  lemma MulAtLeast(m: int, k: int)
    requires m > 0 && k >= 1
    ensures m * k >= m
  {
  }

  /**
   * Every step adds one change, plus one per commit: the counter minus the
   * commits grows by exactly `n`, and there are at most `n` new commits.
   */
  lemma {:induction false} AfterAdditionsCount(t: Tally, checkpoints: Checkpoints, n: nat)
    requires ValidCheckpoints(checkpoints)
    ensures AfterAdditions(t, checkpoints, n).counter
      == t.counter + n + (AfterAdditions(t, checkpoints, n).commits - t.commits)
    ensures t.commits <= AfterAdditions(t, checkpoints, n).commits <= t.commits + n
  {
    if n > 0 {
      AfterAdditionsCount(t, checkpoints, n - 1);
    }
  }

  /** One more addition. */
  lemma AfterAdditionsNext(t: Tally, checkpoints: Checkpoints, n: nat, m: nat)
    requires ValidCheckpoints(checkpoints)
    requires m == n + 1
    ensures AfterAdditions(t, checkpoints, m) == Add(AfterAdditions(t, checkpoints, n), checkpoints)
  {
  }

  /** Without checkpoints, additions only count: no commit happens. */
  lemma {:induction false} AfterAdditionsAtEndOnly(t: Tally, n: nat)
    ensures AfterAdditions(t, AtEndOnly, n) == Tally(t.counter + n, t.commits)
  {
    if n > 0 {
      AfterAdditionsAtEndOnly(t, n - 1);
    }
  }

  /** `a + b` additions are `a` additions followed by `b`. */
  lemma {:induction false} AfterAdditionsSplit(t: Tally, checkpoints: Checkpoints, a: nat, b: nat)
    requires ValidCheckpoints(checkpoints)
    ensures AfterAdditions(t, checkpoints, a + b)
      == AfterAdditions(AfterAdditions(t, checkpoints, a), checkpoints, b)
    decreases b
  {
    if b > 0 {
      AfterAdditionsSplit(t, checkpoints, a, b - 1);
    }
  }

  /** As long as nothing was committed, the counter rose by one per step and never hit a multiple. */
  lemma {:induction false} NoCommitRun(t: Tally, checkpoints: Checkpoints, k: nat, j: int)
    requires ValidCheckpoints(checkpoints)
    requires AfterAdditions(t, checkpoints, k).commits == t.commits
    requires 1 <= j <= k
    ensures AfterAdditions(t, checkpoints, k).counter == t.counter + k
    ensures !Due(t.counter + j, checkpoints)
    decreases k
  {
    AfterAdditionsCount(t, checkpoints, k - 1);
    if k > 1 {
      NoCommitRun(t, checkpoints, k - 1, if j < k then j else 1);
    }
  }

  /** Some value among `c + 1 .. c + |s|` is a multiple of `s`. */
  lemma MultipleWithin(c: int, s: int) returns (j: int)
    requires s != 0
    ensures 1 <= j <= (if s < 0 then -s else s)
    ensures (c + j) % s == 0
  {
    var m := if s < 0 then -s else s;
    var q, r := c / m, c % m;
    assert c == m * q + r;
    j := m - r;
    assert c + j == m * (q + 1);
    ModUnique(c + j, m, q + 1, 0);
    ModAbs(c + j, s);
  }

  /** With `save_every` = s, any |s| consecutive additions include a commit. */
  lemma CommitWithin(t: Tally, checkpoints: Checkpoints)
    requires checkpoints.SaveEvery? && checkpoints.saveEvery != 0
    ensures AfterAdditions(t, checkpoints, Period(checkpoints)).commits > t.commits
  {
    var s := checkpoints.saveEvery;
    var m := Period(checkpoints);
    AfterAdditionsCount(t, checkpoints, m);
    if AfterAdditions(t, checkpoints, m).commits == t.commits {
      var j := MultipleWithin(t.counter, s);
      NoCommitRun(t, checkpoints, m, j);
      assert false;
    }
  }

  /** The magnitude of a nonzero `save_every`: the length of a run of additions that must commit. */
  function Period(checkpoints: Checkpoints): (m: nat)
    requires checkpoints.SaveEvery? && checkpoints.saveEvery != 0
    ensures m >= 1
  {
    if checkpoints.saveEvery < 0 then -checkpoints.saveEvery else checkpoints.saveEvery
  }

  /** So `n` additions commit at least `n / |s|` times. */
  lemma {:induction false} CommitsAtLeast(t: Tally, checkpoints: Checkpoints, n: nat)
    requires checkpoints.SaveEvery? && checkpoints.saveEvery != 0
    ensures AfterAdditions(t, checkpoints, n).commits >= t.commits + n / Period(checkpoints)
    decreases n
  {
    var m := Period(checkpoints);
    if n < m {
      AfterAdditionsCount(t, checkpoints, n);
      ModUnique(n, m, 0, n);
    } else {
      var q, r := (n - m) / m, (n - m) % m;
      assert n - m == m * q + r;
      ModUnique(n, m, q + 1, r);
      var middle := AfterAdditions(t, checkpoints, m);
      AfterAdditionsSplit(t, checkpoints, m, n - m);
      CommitWithin(t, checkpoints);
      CommitsAtLeast(middle, checkpoints, n - m);
    }
  }
}
