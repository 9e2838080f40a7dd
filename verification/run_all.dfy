/** `migrate_all` (migranite/run.py): every migration, in file-name order, is run
    unless the store says it already succeeded, in which case `[SKP] str(m)` is
    printed instead. Success is read from the store as it stands at that point of
    the walk, so an attempt earlier in the walk counts. */
module RunAll {
  import opened Results
  import opened Seqs
  import opened Identity
  import opened ResultLog
  import opened Orchestrator
  import Discovery

  /** One migration of the walk: run it when the store has no success for it,
      otherwise print the skip line, whose `str(m)` may raise as well. */
  function Visit(m: Migration, show: Migration -> Result<string, Error>, env: Env, log: seq<Record>): (r: Outcome)
    ensures r.status.Done? || r.status == RunFailed(m) || r.status.Crash?
    ensures r.status.Crash? <==> show(m).Err?
    ensures Success(log, m) ==> r.log == log && r.lines == (if show(m).Ok? then [Line(Skipped, show(m).value)] else [])
    ensures !Success(log, m) && !r.status.Crash? ==>
              r.log == log + [Attempt(m, env, r.status.Done?, |log|)]
    ensures r.status.Crash? ==> r.log == log
  {
    if !Success(log, m) then RunOne(m, show, env, log)
    else
      match show(m)
      case Err(e) => Outcome(log, [], Crash(e))
      case Ok(text) => Outcome(log, [Line(Skipped, text)], Done)
  }

  /** The walk over `ms`, stopping at the first exception. */
  function Walk(ms: seq<Migration>, show: Migration -> Result<string, Error>, env: Env, log: seq<Record>): (r: Outcome)
    decreases |ms|
    ensures r.status.Done? || r.status.RunFailed? || r.status.Crash?
  {
    if |ms| == 0 then Outcome(log, [], Done)
    else
      var first := Visit(ms[0], show, env, log);
      if !first.status.Done? then first
      else
        var rest := Walk(ms[1..], show, env, first.log);
        Outcome(rest.log, first.lines + rest.lines, rest.status)
  }

  /** `migrate_all(config)`: load every migration, then walk them with `str(m)`
      read from each module's docstring. */
  function MigrateAll(dir: Discovery.Directory, log: seq<Record>, env: Env): (r: Outcome)
    ensures Discovery.GetAll(dir).Err? ==> r == Outcome(log, [], Crash(Discovery.GetAll(dir).error))
    ensures Discovery.GetAll(dir).Ok? ==> r == Walk(Discovery.GetAll(dir).value, Texts(env), env, log)
  {
    match Discovery.GetAll(dir)
    case Err(e) => Outcome(log, [], Crash(e))
    case Ok(objects) => Walk(objects, Texts(env), env, log)
  }

  /** The walk only appends, at most one record per migration. */
  lemma {:induction false} WalkExtends(ms: seq<Migration>, show: Migration -> Result<string, Error>, env: Env, log: seq<Record>)
    ensures var r := Walk(ms, show, env, log);
            |log| <= |r.log| <= |log| + |ms| && r.log[..|log|] == log
    decreases |ms|
  {
    if |ms| > 0 {
      var first := Visit(ms[0], show, env, log);
      if first.status.Done? {
        var mid := first.log;
        WalkExtends(ms[1..], show, env, mid);
        var rest := Walk(ms[1..], show, env, mid);
        assert rest.log[..|log|] == mid[..|log|];
      }
    }
  }

  /** Every record the walk appends is a success but possibly the last, which is a
      failure exactly when a run failed. */
  lemma {:induction false} WalkAppends(ms: seq<Migration>, show: Migration -> Result<string, Error>, env: Env, log: seq<Record>)
    ensures var r := Walk(ms, show, env, log);
            |log| <= |r.log| && FailFast(r.log[|log|..], r.status)
    decreases |ms|
  {
    if |ms| > 0 {
      var first := Visit(ms[0], show, env, log);
      var mid := first.log;
      VisitAppends(ms[0], show, env, log);
      if first.status.Done? {
        var rest := Walk(ms[1..], show, env, mid);
        WalkExtends(ms[1..], show, env, mid);
        WalkAppends(ms[1..], show, env, mid);
        assert Walk(ms, show, env, log).log == rest.log && Walk(ms, show, env, log).status == rest.status;
        assert rest.log[|log|..] == mid[|log|..] + rest.log[|mid|..];
        FailFastAfterSuccesses(mid[|log|..], rest.log[|mid|..], rest.status);
      }
    }
  }

  /** One visit appends at most one record, a failure exactly when the run failed. */
  lemma VisitAppends(m: Migration, show: Migration -> Result<string, Error>, env: Env, log: seq<Record>)
    ensures var r := Visit(m, show, env, log);
            && |log| <= |r.log| && r.log[..|log|] == log
            && FailFast(r.log[|log|..], r.status)
  {
    var r := Visit(m, show, env, log);
    if r.log == log {
      assert r.log[|log|..] == [];
    } else {
      assert r.log[|log|..] == [Attempt(m, env, r.status.Done?, |log|)];
    }
  }

  /** A migration that had succeeded before the walk gets no new record: neither
      it nor any migration sharing its key is run again. */
  lemma {:induction false} WalkSkipsSucceeded(ms: seq<Migration>, show: Migration -> Result<string, Error>, env: Env, log: seq<Record>, m: Migration)
    requires Success(log, m)
    ensures var r := Walk(ms, show, env, log);
            forall k :: |log| <= k < |r.log| ==> !About(r.log[k], m)
    decreases |ms|
  {
    WalkExtends(ms, show, env, log);
    if |ms| > 0 {
      var first := Visit(ms[0], show, env, log);
      var mid := first.log;
      if mid != log {
        assert mid == log + [Attempt(ms[0], env, first.status.Done?, |log|)];
        if Same(ms[0], m) {
          FindSameKey(log, ms[0], m);
        }
        assert !About(mid[|log|], m);
        SuccessAppend(log, mid[|log|], m);
      }
      if first.status.Done? {
        WalkSkipsSucceeded(ms[1..], show, env, mid, m);
        WalkExtends(ms[1..], show, env, mid);
        var rest := Walk(ms[1..], show, env, mid);
        forall k | |log| <= k < |rest.log|
          ensures !About(rest.log[k], m)
        {
          if k < |mid| {
            assert rest.log[k] == rest.log[..|mid|][k] == mid[k];
          }
        }
      }
    }
  }

  /** A finished walk leaves every migration of the list successful, and `str(m)`
      worked for each of them. */
  lemma {:induction false} WalkDone(ms: seq<Migration>, show: Migration -> Result<string, Error>, env: Env, log: seq<Record>)
    requires Walk(ms, show, env, log).status.Done?
    ensures forall i :: 0 <= i < |ms| ==> Success(Walk(ms, show, env, log).log, ms[i]) && show(ms[i]).Ok?
    decreases |ms|
  {
    if |ms| > 0 {
      var first := Visit(ms[0], show, env, log);
      var mid := first.log;
      var r := Walk(ms[1..], show, env, mid);
      assert Walk(ms, show, env, log).log == r.log && Walk(ms, show, env, log).status == r.status;
      VisitDone(ms[0], show, env, log);
      WalkDoneKeeps(ms[1..], show, env, mid, ms[0]);
      WalkDone(ms[1..], show, env, mid);
      forall i | 0 < i < |ms|
        ensures Success(r.log, ms[i]) && show(ms[i]).Ok?
      {
        assert ms[i] == ms[1..][i - 1];
      }
    }
  }

  /** A finished walk keeps every success it started from. */
  lemma WalkDoneKeeps(ms: seq<Migration>, show: Migration -> Result<string, Error>, env: Env, log: seq<Record>, m: Migration)
    requires Walk(ms, show, env, log).status.Done?
    requires Success(log, m)
    ensures Success(Walk(ms, show, env, log).log, m)
  {
    var r := Walk(ms, show, env, log);
    WalkExtends(ms, show, env, log);
    WalkAppends(ms, show, env, log);
    var added := r.log[|log|..];
    assert r.log == log + added;
    SuccessKeptBySuccesses(log, added, m);
  }

  /** A visit that finished leaves its migration successful. */
  lemma VisitDone(m: Migration, show: Migration -> Result<string, Error>, env: Env, log: seq<Record>)
    requires Visit(m, show, env, log).status.Done?
    ensures Success(Visit(m, show, env, log).log, m) && show(m).Ok?
  {
    var r := Visit(m, show, env, log);
    if r.log != log {
      SuccessAppend(log, r.log[|log|], m);
    }
  }

  /** When every migration has succeeded and `str(m)` works for each, the walk
      appends nothing and prints one skip line per migration. */
  lemma {:induction false} WalkAllSkipped(ms: seq<Migration>, show: Migration -> Result<string, Error>, env: Env, log: seq<Record>)
    requires forall i :: 0 <= i < |ms| ==> Success(log, ms[i]) && show(ms[i]).Ok?
    ensures var r := Walk(ms, show, env, log);
            && r.log == log && r.status.Done? && |r.lines| == |ms|
            && forall i :: 0 <= i < |ms| ==> r.lines[i] == Line(Skipped, show(ms[i]).value)
    decreases |ms|
  {
    if |ms| > 0 {
      WalkAllSkipped(ms[1..], show, env, log);
      var r := Walk(ms[1..], show, env, log);
      forall i | 0 < i < |ms|
        ensures ([Line(Skipped, show(ms[0]).value)] + r.lines)[i] == Line(Skipped, show(ms[i]).value)
      {
        assert ms[i] == ms[1..][i - 1];
      }
    }
  }

  /** `migrate_all` is idempotent: once it has finished, walking the same
      migrations again appends nothing and only prints skip lines. */
  lemma WalkTwice(ms: seq<Migration>, show: Migration -> Result<string, Error>, env: Env, log: seq<Record>)
    requires Walk(ms, show, env, log).status.Done?
    ensures var once := Walk(ms, show, env, log);
            var twice := Walk(ms, show, env, once.log);
            && twice.log == once.log && twice.status.Done?
            && forall i :: 0 <= i < |twice.lines| ==> twice.lines[i].mark == Skipped
  {
    WalkDone(ms, show, env, log);
    WalkAllSkipped(ms, show, env, Walk(ms, show, env, log).log);
  }

  /** On a store with no records about any of the migrations and no two of them
      sharing a key, the walk runs exactly what `migrate` runs for the whole list:
      each migration once, in order. */
  lemma {:induction false} WalkFreshIsBatch(ms: seq<Migration>, show: Migration -> Result<string, Error>, env: Env, log: seq<Record>)
    requires forall i :: 0 <= i < |ms| ==> !Success(log, ms[i])
    requires forall i, j :: 0 <= i < j < |ms| ==> !Same(ms[i], ms[j])
    ensures Walk(ms, show, env, log) == RunBatch(ms, show, env, log)
    decreases |ms|
  {
    if |ms| > 0 {
      var first := RunOne(ms[0], show, env, log);
      if first.status.Done? {
        var mid := first.log;
        assert mid == log + [mid[|log|]] && About(mid[|log|], ms[0]);
        forall i | 0 <= i < |ms[1..]|
          ensures !Success(mid, ms[1..][i])
        {
          assert ms[1..][i] == ms[i + 1];
          SuccessAppend(log, mid[|log|], ms[i + 1]);
        }
        forall i, j | 0 <= i < j < |ms[1..]|
          ensures !Same(ms[1..][i], ms[1..][j])
        {
          assert ms[1..][i] == ms[i + 1] && ms[1..][j] == ms[j + 1];
        }
        WalkFreshIsBatch(ms[1..], show, env, mid);
      }
    }
  }

  // ---------------------------------------------------------------- which migrations run

  /** `m` has no success in `store`, and no migration of `seen` shares its key. */
  predicate Fresh(store: seq<Record>, seen: seq<Migration>, m: Migration) {
    !Success(store, m) && forall s :: s in seen ==> !Same(s, m)
  }

  /** The migrations of `ms` that `migrate_all` is due to run, read off the store as
      it was before the walk: in list order, each one without a success there that
      is the first of its key after those in `seen`. */
  function DueAfter(ms: seq<Migration>, store: seq<Record>, seen: seq<Migration>): seq<Migration>
    decreases |ms|
  {
    if |ms| == 0 then []
    else (if Fresh(store, seen, ms[0]) then [ms[0]] else []) + DueAfter(ms[1..], store, seen + [ms[0]])
  }

  function Due(ms: seq<Migration>, store: seq<Record>): seq<Migration> {
    DueAfter(ms, store, [])
  }

  /** A migration is due exactly when it occurs in the list with no success in the
      store and no earlier migration of the list, or of `seen`, sharing its key. */
  lemma {:induction false} DueAfterMembers(ms: seq<Migration>, store: seq<Record>, seen: seq<Migration>, m: Migration)
    ensures m in DueAfter(ms, store, seen) <==>
              exists i :: 0 <= i < |ms| && ms[i] == m && Fresh(store, seen + ms[..i], m)
  {
    if m in DueAfter(ms, store, seen) {
      DueHasIndex(ms, store, seen, m);
    }
    if exists i :: 0 <= i < |ms| && ms[i] == m && Fresh(store, seen + ms[..i], m) {
      var i :| 0 <= i < |ms| && ms[i] == m && Fresh(store, seen + ms[..i], m);
      IndexIsDue(ms, store, seen, i);
    }
  }

  lemma {:induction false} DueHasIndex(ms: seq<Migration>, store: seq<Record>, seen: seq<Migration>, m: Migration)
    requires m in DueAfter(ms, store, seen)
    ensures exists i :: 0 <= i < |ms| && ms[i] == m && Fresh(store, seen + ms[..i], m)
    decreases |ms|
  {
    assert ms[..0] == [] && seen + [] == seen;
    if !(ms[0] == m && Fresh(store, seen, m)) {
      var tail := DueAfter(ms[1..], store, seen + [ms[0]]);
      assert m in tail;
      DueHasIndex(ms[1..], store, seen + [ms[0]], m);
      var i :| 0 <= i < |ms[1..]| && ms[1..][i] == m && Fresh(store, seen + [ms[0]] + ms[1..][..i], m);
      assert seen + [ms[0]] + ms[1..][..i] == seen + ms[..i + 1] by {
        assert [ms[0]] + ms[1..][..i] == ms[..i + 1];
      }
      assert ms[i + 1] == m;
    }
  }

  lemma {:induction false} IndexIsDue(ms: seq<Migration>, store: seq<Record>, seen: seq<Migration>, i: nat)
    requires i < |ms| && Fresh(store, seen + ms[..i], ms[i])
    ensures ms[i] in DueAfter(ms, store, seen)
    decreases i
  {
    var tail := DueAfter(ms[1..], store, seen + [ms[0]]);
    if i == 0 {
      assert seen + ms[..0] == seen;
    } else {
      assert seen + [ms[0]] + ms[1..][..i - 1] == seen + ms[..i] by {
        assert [ms[0]] + ms[1..][..i - 1] == ms[..i];
      }
      assert ms[1..][i - 1] == ms[i];
      IndexIsDue(ms[1..], store, seen + [ms[0]], i - 1);
      assert ms[i] in tail;
    }
  }

  /** Due migrations come in list order, and no two share a key. */
  lemma {:induction false} DueAfterShape(ms: seq<Migration>, store: seq<Record>, seen: seq<Migration>)
    ensures Subsequence(DueAfter(ms, store, seen), ms)
    decreases |ms|
  {
    if |ms| > 0 {
      DueAfterShape(ms[1..], store, seen + [ms[0]]);
      var t := DueAfter(ms[1..], store, seen + [ms[0]]);
      if Fresh(store, seen, ms[0]) {
        assert DueAfter(ms, store, seen) == [ms[0]] + t;
        assert ([ms[0]] + t)[1..] == t;
      } else {
        assert DueAfter(ms, store, seen) == t;
      }
    }
  }

  /** The store as the walk reaches a migration answers "has it succeeded?" the way
      the store before the walk does together with the migrations already passed. */
  ghost predicate Tracks(current: seq<Record>, store: seq<Record>, seen: seq<Migration>) {
    forall x :: !Success(current, x) <==> Fresh(store, seen, x)
  }

  /** Passing a migration keeps `Tracks`: it was skipped because it had succeeded,
      or its run succeeded. */
  lemma TracksStep(current: seq<Record>, store: seq<Record>, seen: seq<Migration>, m: Migration, next: seq<Record>, env: Env)
    requires Tracks(current, store, seen)
    requires (Success(current, m) && next == current) ||
             (!Success(current, m) && next == current + [Attempt(m, env, true, |current|)])
    ensures Tracks(next, store, seen + [m])
  {
    forall x
      ensures !Success(next, x) <==> Fresh(store, seen + [m], x)
    {
      assert Fresh(store, seen + [m], x) <==> Fresh(store, seen, x) && !Same(m, x);
      if next == current {
        if Same(m, x) {
          FindSameKey(current, m, x);
        }
      } else {
        SuccessAppend(current, Attempt(m, env, true, |current|), x);
      }
    }
  }

  /** `log` and `status` end a walk that started from `current` and appended one
      attempt per migration of `due`, in order, until it stopped. */
  ghost predicate AttemptsDue(current: seq<Record>, log: seq<Record>, status: Status, due: seq<Migration>, env: Env) {
    && |current| <= |log| <= |current| + |due|
    && log[..|current|] == current
    && (forall k :: |current| <= k < |log| ==> log[k] == Attempt(due[k - |current|], env, log[k].result, k))
    && (status.Done? ==> |log| == |current| + |due|)
    && (status.RunFailed? ==> |log| > |current| && status.failed == due[|log| - |current| - 1])
  }

  /** The walk from a store that `Tracks` the one before it appends one attempt per
      due migration, in order, until it stops. */
  lemma {:induction false} WalkAttemptsDueAfter(ms: seq<Migration>, show: Migration -> Result<string, Error>, env: Env,
                                                current: seq<Record>, store: seq<Record>, seen: seq<Migration>)
    requires Tracks(current, store, seen)
    ensures var r := Walk(ms, show, env, current);
            AttemptsDue(current, r.log, r.status, DueAfter(ms, store, seen), env)
    decreases |ms|
  {
    if |ms| > 0 {
      var m := ms[0];
      var first := Visit(m, show, env, current);
      var due := DueAfter(ms, store, seen);
      var tail := DueAfter(ms[1..], store, seen + [m]);
      assert Fresh(store, seen, m) <==> !Success(current, m);
      if first.status.Done? {
        var mid := first.log;
        TracksStep(current, store, seen, m, mid, env);
        WalkAttemptsDueAfter(ms[1..], show, env, mid, store, seen + [m]);
        var rest := Walk(ms[1..], show, env, mid);
        WalkStep(current, mid, rest.log, rest.status, m, tail, due, env);
      } else if !first.status.Crash? {
        WalkFailsFirst(current, first.log, m, tail, due, env);
      }
    }
  }

  /** A run that fails on the first due migration stops right after recording it. */
  lemma WalkFailsFirst(current: seq<Record>, log: seq<Record>, m: Migration, tail: seq<Migration>, due: seq<Migration>, env: Env)
    requires due == [m] + tail
    requires log == current + [Attempt(m, env, false, |current|)]
    ensures AttemptsDue(current, log, RunFailed(m), due, env)
  {
    assert log[..|current|] == current;
  }

  /** Index bookkeeping for one visit in front of the rest of the walk: the visit
      skipped `m`, or ran it successfully. */
  lemma WalkStep(current: seq<Record>, mid: seq<Record>, final: seq<Record>, status: Status,
                 m: Migration, tail: seq<Migration>, due: seq<Migration>, env: Env)
    requires (mid == current && due == tail) ||
             (mid == current + [Attempt(m, env, true, |current|)] && due == [m] + tail)
    requires AttemptsDue(mid, final, status, tail, env)
    ensures AttemptsDue(current, final, status, due, env)
  {
    if mid != current {
      assert final[..|current|] == mid[..|current|];
      forall k | |current| <= k < |final|
        ensures final[k] == Attempt(due[k - |current|], env, final[k].result, k)
      {
        if k == |current| {
          assert final[k] == mid[k];
        } else {
          assert due[k - |current|] == tail[k - |mid|];
        }
      }
      if status.RunFailed? {
        assert due[|final| - |current| - 1] == tail[|final| - |mid| - 1];
      }
    }
  }

  /** `migrate_all`'s walk runs exactly the due migrations: the k-th record it
      appends is the attempt of the k-th due migration, a finished walk attempted
      every due migration, and a failed run is the last one attempted. Due
      migrations are taken in list order, so in file-name order. */
  lemma WalkAttemptsDue(ms: seq<Migration>, show: Migration -> Result<string, Error>, env: Env, log: seq<Record>)
    ensures var r := Walk(ms, show, env, log);
            var due := Due(ms, log);
            && Subsequence(due, ms)
            && |log| <= |r.log| <= |log| + |due|
            && (forall k :: |log| <= k < |r.log| ==> r.log[k] == Attempt(due[k - |log|], env, r.log[k].result, k))
            && (r.status.Done? ==> |r.log| == |log| + |due|)
            && (r.status.RunFailed? ==> |r.log| > |log| && r.status.failed == due[|r.log| - |log| - 1])
  {
    DueAfterShape(ms, log, []);
    WalkAttemptsDueAfter(ms, show, env, log, log, []);
  }

  /** Which migrations are due: those with no success in the store before the walk
      that are the first of their key in the list. */
  lemma DueMembers(ms: seq<Migration>, store: seq<Record>, m: Migration)
    ensures m in Due(ms, store) <==>
              exists i :: 0 <= i < |ms| && ms[i] == m && !Success(store, m) && forall j :: 0 <= j < i ==> !Same(ms[j], m)
  {
    DueAfterMembers(ms, store, [], m);
    forall i | 0 <= i < |ms|
      ensures Fresh(store, [] + ms[..i], m) <==> !Success(store, m) && forall j :: 0 <= j < i ==> !Same(ms[j], m)
    {
      assert [] + ms[..i] == ms[..i];
      assert forall j :: 0 <= j < i ==> ms[..i][j] == ms[j];
    }
  }
}
