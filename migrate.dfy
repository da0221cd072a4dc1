/** The migration runner: which `.sql` files are pending, the order they run in, and the
    all-or-nothing application of each one together with its record in the `migrations` table. */
module Migrate {
  import opened Wrappers
  import opened Js

  // ---------------------------------------------------------------------------------------
  // Selecting the pending files

  /** The order `Array.prototype.sort` gives strings with no comparator: character by character,
      a proper prefix first. */
  predicate NameLeq(a: string, b: string)
    decreases |a|
  {
    |a| == 0 || (|b| > 0 && (a[0] < b[0] || (a[0] == b[0] && NameLeq(a[1..], b[1..]))))
  }

  lemma {:induction false} NameLeqTotal(a: string, b: string)
    ensures NameLeq(a, b) || NameLeq(b, a)
    decreases |a|
  {
    if |a| > 0 && |b| > 0 && a[0] == b[0] {
      NameLeqTotal(a[1..], b[1..]);
    }
  }

  lemma {:induction false} NameLeqTransitive(a: string, b: string, c: string)
    requires NameLeq(a, b) && NameLeq(b, c)
    ensures NameLeq(a, c)
    decreases |a|
  {
    if |a| > 0 && a[0] == b[0] && b[0] == c[0] {
      NameLeqTransitive(a[1..], b[1..], c[1..]);
    }
  }

  ghost predicate Sorted(s: seq<string>) {
    forall i, j :: 0 <= i < j < |s| ==> NameLeq(s[i], s[j])
  }

  function InsertName(x: string, s: seq<string>): seq<string> {
    if |s| == 0 then [x]
    else if NameLeq(x, s[0]) then [x] + s
    else [s[0]] + InsertName(x, s[1..])
  }

  lemma {:induction false} InsertNamePermutes(x: string, s: seq<string>)
    ensures multiset(InsertName(x, s)) == multiset(s) + multiset{x}
  {
    if |s| > 0 && !NameLeq(x, s[0]) {
      InsertNamePermutes(x, s[1..]);
      assert s == [s[0]] + s[1..];
    }
  }

  lemma {:induction false} InsertNameSorted(x: string, s: seq<string>)
    requires Sorted(s)
    ensures Sorted(InsertName(x, s))
  {
    if |s| == 0 {
    } else if NameLeq(x, s[0]) {
      forall k | 0 <= k < |s| ensures NameLeq(x, s[k]) {
        if k > 0 {
          NameLeqTransitive(x, s[0], s[k]);
        }
      }
    } else {
      var rest := InsertName(x, s[1..]);
      InsertNameSorted(x, s[1..]);
      InsertNamePermutes(x, s[1..]);
      NameLeqTotal(x, s[0]);
      forall k | 0 <= k < |rest| ensures NameLeq(s[0], rest[k]) {
        assert rest[k] in multiset(rest);
        if rest[k] != x {
          assert rest[k] in multiset(s[1..]);
          var m :| 0 <= m < |s[1..]| && s[1..][m] == rest[k];
          assert s[m + 1] == rest[k];
        }
      }
    }
  }

  /** The sort orders the names and loses or adds none. */
  /** `.sort()` on the directory's file names: the names in order, and the same names. */
  function SortNames(s: seq<string>): (sorted: seq<string>)
    ensures Sorted(sorted)
    ensures multiset(sorted) == multiset(s)
  {
    if |s| == 0 then []
    else
      var rest := SortNames(s[1..]);
      InsertNameSorted(s[0], rest);
      InsertNamePermutes(s[0], rest);
      assert s == [s[0]] + s[1..];
      InsertName(s[0], rest)
  }

  /** `.filter((f) => f.endsWith(".sql"))`. */
  function SqlFiles(entries: seq<string>): (files: seq<string>)
    ensures forall f :: f in files <==> f in entries && EndsWith(f, ".sql")
    ensures multiset(files) <= multiset(entries)
  {
    if |entries| == 0 then []
    else
      var rest := SqlFiles(entries[1..]);
      assert entries == [entries[0]] + entries[1..];
      if EndsWith(entries[0], ".sql") then [entries[0]] + rest else rest
  }

  /** The directory entries ending in ".sql", sorted ascending. */
  function Candidates(entries: seq<string>): (files: seq<string>)
    ensures Sorted(files)
    ensures multiset(files) == multiset(SqlFiles(entries))
    ensures forall f :: f in files <==> f in entries && EndsWith(f, ".sql")
  {
    var files := SortNames(SqlFiles(entries));
    assert forall f :: f in files <==> f in multiset(files);
    files
  }

  /** `files.filter((f) => !applied.includes(f))`. */
  function Pending(files: seq<string>, applied: seq<string>): (pending: seq<string>)
    ensures forall f :: f in pending <==> f in files && f !in applied
    ensures Sorted(files) ==> Sorted(pending)
    ensures |pending| <= |files|
  {
    if |files| == 0 then []
    else
      var rest := Pending(files[1..], applied);
      assert Sorted(files) ==> Sorted(files[1..]);
      if files[0] !in applied then
        assert Sorted(files) ==> forall k :: 0 <= k < |rest| ==> NameLeq(files[0], rest[k]) by {
          if Sorted(files) {
            forall k | 0 <= k < |rest| ensures NameLeq(files[0], rest[k]) {
              assert rest[k] in files[1..];
              var m :| 0 <= m < |files[1..]| && files[1..][m] == rest[k];
              assert files[m + 1] == rest[k];
            }
          }
        }
        [files[0]] + rest
      else rest
  }

  /** Pending files keep the candidates' order and, when the names are distinct, stay distinct. */
  lemma {:induction false} PendingDistinct(files: seq<string>, applied: seq<string>)
    requires Distinct(files)
    ensures Distinct(Pending(files, applied))
  {
    if |files| > 0 {
      PendingDistinct(files[1..], applied);
    }
  }

  predicate Distinct(s: seq<string>) {
    forall i, j :: 0 <= i < j < |s| ==> s[i] != s[j]
  }

  // ---------------------------------------------------------------------------------------
  // Applying them

  /** How many of `pending` commit when they are run in order from the recorded names
      `applied`: a file stops the run when its SQL fails, or when its name is already recorded
      (the UNIQUE name column rejects the INSERT). */
  function Completed(pending: seq<string>, fails: string -> bool, applied: seq<string>): (n: nat)
    ensures n <= |pending|
    ensures forall k :: 0 <= k < n ==> !fails(pending[k])
  {
    if |pending| == 0 || fails(pending[0]) || pending[0] in applied then 0
    else 1 + Completed(pending[1..], fails, applied + [pending[0]])
  }

  /** For distinct names none of which is recorded yet, only a failing script stops the run:
      the run commits exactly the files before the first one whose SQL fails. */
  lemma {:induction false} CompletedStopsAtFirstFailure(pending: seq<string>, fails: string -> bool, applied: seq<string>)
    requires Distinct(pending) && forall f :: f in pending ==> f !in applied
    ensures var n := Completed(pending, fails, applied);
      && (forall k :: 0 <= k < n ==> !fails(pending[k]))
      && (n < |pending| ==> fails(pending[n]))
  {
    if |pending| > 0 && !fails(pending[0]) {
      assert forall f :: f in pending[1..] ==> f !in applied + [pending[0]] by {
        forall f | f in pending[1..] ensures f !in applied + [pending[0]] {
          var m :| 0 <= m < |pending[1..]| && pending[1..][m] == f;
          assert pending[m + 1] == f;
        }
      }
      CompletedStopsAtFirstFailure(pending[1..], fails, applied + [pending[0]]);
    }
  }

  /** One file of the run: it commits, and the rest runs from the extended records, or it stops the run. */
  lemma CompletedStep(pending: seq<string>, fails: string -> bool, applied: seq<string>, i: nat)
    requires i < |pending|
    ensures fails(pending[i]) || pending[i] in applied ==> Completed(pending[i..], fails, applied) == 0
    ensures !fails(pending[i]) && pending[i] !in applied ==>
      Completed(pending[i..], fails, applied) == 1 + Completed(pending[i + 1..], fails, applied + [pending[i]])
  {
    assert pending[i..][1..] == pending[i + 1..];
  }

  /** The database as the migration runner sees it. */
  class MigrationDb {
    /** The names in the `migrations` table. */
    var applied: seq<string>
    /** The scripts whose effects are committed, in commit order. */
    var executed: seq<string>

    /** Every committed script has its record and every record its script, and no name is
        recorded twice. */
    ghost predicate Valid()
      reads this
    {
      applied == executed && Distinct(applied)
    }

    constructor ()
      ensures Valid() && applied == [] && executed == []
    {
      applied := [];
      executed := [];
    }

    /** `runMigration(name)`: BEGIN, run the script, insert its record, COMMIT; a failure of
        either statement rolls both back. `fails` tells which scripts fail. */
    method RunMigration(name: string, fails: string -> bool) returns (ok: bool)
      requires Valid()
      modifies this
      ensures Valid()
      ensures ok <==> !fails(name) && name !in old(applied)
      ensures ok ==> applied == old(applied) + [name]
      ensures !ok ==> applied == old(applied)
    {
      var schema := executed;
      if fails(name) {
        return false;
      }
      schema := schema + [name];
      if name in applied {
        return false;
      }
      executed := schema;
      applied := applied + [name];
      return true;
    }

    /** The `for` loop of `migrate()`: run the files one at a time in order; the first failure
        aborts the rest and is rethrown with its file name. */
    method RunInOrder(pending: seq<string>, fails: string -> bool) returns (r: Outcome<string>)
      requires Valid()
      modifies this
      ensures Valid()
      ensures var n := Completed(pending, fails, old(applied));
        && applied == old(applied) + pending[..n]
        && (r.Pass? <==> n == |pending|)
        && (r.Fail? ==> r.error == pending[n])
    {
      ghost var start := applied;
      var i := 0;
      while i < |pending|
        invariant 0 <= i <= |pending| && Valid()
        invariant applied == start + pending[..i]
        invariant Completed(pending, fails, start) == i + Completed(pending[i..], fails, applied)
      {
        CompletedStep(pending, fails, applied, i);
        var ok := RunMigration(pending[i], fails);
        if !ok {
          return Fail(pending[i]);
        }
        assert pending[..i + 1] == pending[..i] + [pending[i]];
        i := i + 1;
      }
      assert pending[..i] == pending;
      return Pass;
    }

    /** `migrate()`: select the pending files; with none, nothing runs. */
    method Migrate(entries: seq<string>, fails: string -> bool) returns (r: Outcome<string>)
      requires Valid()
      modifies this
      ensures Valid()
      ensures var pending := Pending(Candidates(entries), old(applied));
        var n := Completed(pending, fails, old(applied));
        && applied == old(applied) + pending[..n]
        && (r.Pass? <==> n == |pending|)
        && (r.Fail? ==> r.error == pending[n])
      ensures |Pending(Candidates(entries), old(applied))| == 0 ==> applied == old(applied) && executed == old(executed)
    {
      var pending := Pending(Candidates(entries), applied);
      if |pending| == 0 {
        return Pass;
      }
      r := RunInOrder(pending, fails);
    }
  }

  /** A run over files none of which is recorded yet commits every file before the first failing
      script and no file after it. */
  lemma MigrateAbortsAtFirstFailure(entries: seq<string>, applied: seq<string>, fails: string -> bool)
    requires Distinct(entries)
    ensures var pending := Pending(Candidates(entries), applied);
      var n := Completed(pending, fails, applied);
      && (forall k :: 0 <= k < n ==> !fails(pending[k]))
      && (n < |pending| ==> fails(pending[n]))
  {
    var pending := Pending(Candidates(entries), applied);
    CandidatesDistinct(entries);
    PendingDistinct(Candidates(entries), applied);
    CompletedStopsAtFirstFailure(pending, fails, applied);
  }

  lemma CandidatesDistinct(entries: seq<string>)
    requires Distinct(entries)
    ensures Distinct(Candidates(entries))
  {
    var files := Candidates(entries);
    DistinctMultiset(entries);
    SqlFilesDistinct(entries);
    DistinctMultiset(SqlFiles(entries));
    DistinctMultiset(files);
  }

  lemma {:induction false} SqlFilesDistinct(entries: seq<string>)
    requires Distinct(entries)
    ensures Distinct(SqlFiles(entries))
  {
    if |entries| > 0 {
      SqlFilesDistinct(entries[1..]);
    }
  }

  /** A sequence is free of repeats exactly when no name occurs twice in its multiset. */
  lemma {:induction false} DistinctMultiset(s: seq<string>)
    ensures Distinct(s) <==> forall f :: multiset(s)[f] <= 1
  {
    if |s| > 0 {
      var tail := s[1..];
      DistinctMultiset(tail);
      assert s == [s[0]] + tail;
      assert forall f :: multiset(s)[f] == (if f == s[0] then 1 else 0) + multiset(tail)[f];
      assert Distinct(s) <==> s[0] !in tail && Distinct(tail) by {
        if s[0] !in tail && Distinct(tail) {
          forall i, j | 0 <= i < j < |s| ensures s[i] != s[j] {
            if i == 0 {
              assert s[j] == tail[j - 1];
            } else {
              assert s[i] == tail[i - 1] && s[j] == tail[j - 1];
            }
          }
        }
        if Distinct(s) {
          forall i, j | 0 <= i < j < |tail| ensures tail[i] != tail[j] {
            assert tail[i] == s[i + 1] && tail[j] == s[j + 1];
          }
        }
      }
    }
  }
}
