/** The runner (migranite/run.py): `migrate` resolves command-line tokens to
    migrations, admits those not yet successful (or all, with `force`) and runs them
    sorted; `migrate_all` walks every migration in file-name order; each attempt
    appends one record whatever its outcome, and the first failure stops the batch.
    Executing a migration is a collaborator: `Env` gives each file's executed module
    and digest, and the clock reading for each appended record. */
module Orchestrator {
  import opened Results
  import opened Text
  import opened Seqs
  import opened Identity
  import opened Docs
  import opened ResultLog
  import opened Sorting
  import Discovery
  import JsonStore

  /** What the runner cannot see into: the script of each file name, and the time
      `datetime.now()` returns for the record appended at a given log position. */
  datatype Env = Env(script: string -> Script, now: nat -> Timestamp)

  /** How a command ends. */
  datatype Status =
    | Done                        // everything it set out to do was done
    | RunFailed(failed: Migration) // `run()` raised: the failure was recorded, then re-raised
    | NotFound(token: string)     // "Migration ... not found", exit status 1
    | Ambiguous(token: string)    // "More than one migration found ...", exit status 1
    | Crash(error: Error)         // an exception raised before the step that raised it recorded anything

  /** The three kinds of progress line, `[RUN]`, `[SKP]` and `[ERR]`, each followed by `str(m)`. */
  datatype Mark = Running | Skipped | Errored
  datatype Line = Line(mark: Mark, text: string)

  /** The log after a command, the progress lines it printed, and how it ended. */
  datatype Outcome = Outcome(log: seq<Record>, lines: seq<Line>, status: Status)

  // ---------------------------------------------------------------- tokens

  /** A lookup request for `find`: a number, a name, or both. */
  datatype Query = Query(num: Option<nat>, name: Option<string>)

  /** A token `digits-name`: plain digits up to its first '-' reading as `num`, and
      everything after that '-' as `name`. */
  ghost predicate NumberedToken(token: string, num: nat, name: string) {
    var p := |token| - |name| - 1;
    && 0 <= p
    && IsDigits(token[..p])
    && DigitsValue(token[..p]) == num
    && token[p] == '-'
    && token[p + 1..] == name
  }

  /** How `migrate` reads a command-line token: digits before the first '-' give a
      number and the rest a name; otherwise a token of digits gives a number only;
      anything else is a name. */
  function Classify(token: string): (q: Query)
    ensures q.num.Some? || q.name.Some?
    ensures q.num.Some? && q.name.Some? ==> NumberedToken(token, q.num.value, q.name.value)
    ensures q.num.Some? && q.name.None? ==> IsDigits(token) && q.num.value == DigitsValue(token)
    ensures q.num.None? ==> q.name == Some(token)
  {
    var i := FirstIndex(token, '-');
    if i < |token| && IsDigits(token[..i]) then
      Query(Some(DigitsValue(token[..i])), Some(token[i + 1..]))
    else if IsDigits(token) then
      Query(Some(DigitsValue(token)), None)
    else
      Query(None, Some(token))
  }

  /** A token `digits-rest` asks for exactly that number and that name. */
  lemma ClassifyNumbered(digits: string, rest: string)
    requires IsDigits(digits)
    ensures Classify(digits + "-" + rest) == Query(Some(DigitsValue(digits)), Some(rest))
  {
    var t := digits + "-" + rest;
    assert t[|digits|] == '-';
    assert forall k :: 0 <= k < |digits| ==> t[k] == digits[k] && t[k] != '-';
    assert FirstIndex(t, '-') == |digits|;
    assert t[..|digits|] == digits;
    assert t[|digits| + 1..] == rest;
  }

  /** A token of digits alone asks for a number only. */
  lemma ClassifyNumberOnly(digits: string)
    requires IsDigits(digits)
    ensures Classify(digits) == Query(Some(DigitsValue(digits)), None)
  {
    assert forall k :: 0 <= k < |digits| ==> digits[k] != '-';
  }

  /** A token that does not start with a digit asks for a name only, the whole
      token; `-foo` is such a token. */
  lemma ClassifyNameOnly(token: string)
    requires |token| == 0 || !IsDigit(token[0])
    ensures Classify(token) == Query(None, Some(token))
  {
    var i := FirstIndex(token, '-');
    if i < |token| && i > 0 {
      assert !IsDigits(token[..i]) by { assert token[..i][0] == token[0]; }
    }
  }

  /** Zero padding does not matter: `003-foo` asks for what `3-foo` asks for. */
  lemma ClassifyIgnoresPadding(n: nat, width: nat, rest: string)
    ensures Classify(ZFill(NatToString(n), width) + "-" + rest) == Classify(NatToString(n) + "-" + rest)
    ensures Classify(NatToString(n) + "-" + rest) == Query(Some(n), Some(rest))
  {
    ZFillValue(n, width);
    ClassifyNumbered(ZFill(NatToString(n), width), rest);
    ClassifyNumbered(NatToString(n), rest);
  }

  /** A migration's own file stem asks for exactly its key, when the stem's number
      is plain digits (what `isdigit` accepts); `int()` also loads numbers that
      `isdigit` refuses, see `SignedStemNotFound`. */
  lemma ClassifyStem(fileName: string)
    requires Discovery.Get(fileName).Ok?
    requires IsDigits(Stem(fileName)[..FirstIndex(Stem(fileName), '-')])
    ensures var m := Discovery.Get(fileName).value;
            Classify(Stem(fileName)) == Query(Some(m.num), Some(m.name))
  {
    var m := Discovery.Get(fileName).value;
    var stem := Stem(fileName);
    var p := |stem| - |m.name| - 1;
    assert NamesIdentity(stem, m.num, m.name);
    assert FirstIndex(stem, '-') == p;
    PyIntDigits(stem[..p]);
    IdentitySplitsStem(stem, m.name);
    ClassifyNumbered(stem[..p], m.name);
  }

  /** `+1-x.py` loads as migration `(1, "x")`, but its stem `+1-x` as a token is
      a name only (`isdigit` refuses '+'), and no migration is named `+1-x`: a
      migration cannot always be asked for by its own stem. */
  lemma SignedStemNotFound()
    ensures Discovery.Get("+1-x.py") == Ok(Migration("+1-x.py", 1, "x"))
    ensures Classify("+1-x") == Query(None, Some("+1-x"))
    ensures Resolve([Migration("+1-x.py", 1, "x")], "+1-x") == Err(NoMatch)
  {
    SignedStemLoads();
    ClassifyNameOnly("+1-x");
    SignedTokenMisses();
  }

  lemma SignedStemLoads()
    ensures Discovery.Get("+1-x.py") == Ok(Migration("+1-x.py", 1, "x"))
  {
    SplitExtPy("+1-x");
    assert "+1-x" + ".py" == "+1-x.py";
    assert SplitExt("+1-x.py").1 == ".py";
    ParseSignedNumber();
  }

  lemma SignedTokenMisses()
    ensures Resolve([Migration("+1-x.py", 1, "x")], "+1-x") == Err(NoMatch)
  {
    ClassifyNameOnly("+1-x");
    var m := Migration("+1-x.py", 1, "x");
    assert !Answers(m, Query(None, Some("+1-x")));
    ResolveSpec([m], "+1-x");
  }

  // ---------------------------------------------------------------- resolution

  /** Whether `m` answers `q` (`find`'s test). */
  predicate Answers(m: Migration, q: Query) {
    Discovery.Matches(m, q.num, q.name)
  }

  /** No other migration of the list compares equal to `m` under Python's `==`. */
  predicate KeyUnique(objects: seq<Migration>, m: Migration) {
    forall o :: o in objects && Same(o, m) ==> o == m
  }

  /** The matches of `find`, counted: with a number or a name requested, `find`
      returns exactly the answering migrations. */
  lemma FindCounts(objects: seq<Migration>, q: Query)
    requires q.num.Some? || q.name.Some?
    ensures var found := Discovery.Find(objects, q.num, q.name);
            && (forall m :: m in found ==> m in objects && Answers(m, q))
            && (forall m :: m in objects && Answers(m, q) ==> m in found)
            && (forall m :: multiset(found)[m] == if Answers(m, q) then multiset(objects)[m] else 0)
  {
    Discovery.FindSelects(objects, objects, q.num, q.name);
    var found := Discovery.Find(objects, q.num, q.name);
    forall m | m in found
      ensures m in objects && Answers(m, q)
    {
      assert multiset(found)[m] > 0;
    }
    forall m | m in objects && Answers(m, q)
      ensures m in found
    {
      assert multiset(objects)[m] > 0;
    }
  }

  /** Why a token does not pick a migration: `find` gave none, or more than one. */
  datatype Miss = NoMatch | Several

  /** The exit a token that picks no single migration causes. */
  function Exit(token: string, miss: Miss): Status {
    match miss
    case NoMatch => NotFound(token)
    case Several => Ambiguous(token)
  }

  /** One token of `migrate`: `find` on its query must give exactly one migration. */
  function Resolve(objects: seq<Migration>, token: string): (r: Result<Migration, Miss>)
    ensures r.Ok? ==> r.value in objects && KeyUnique(objects, r.value)
  {
    var q := Classify(token);
    var found := Discovery.Find(objects, q.num, q.name);
    if |found| == 0 then
      Err(NoMatch)
    else if |found| > 1 then
      Err(Several)
    else
      FindCounts(objects, q);
      assert found[0] in found;
      Ok(found[0])
  }

  /** What resolution means: no answering migration exits with "not found"; a
      resolved migration is the one answering migration, occurring once. */
  lemma ResolveSpec(objects: seq<Migration>, token: string)
    ensures var r := Resolve(objects, token);
            && (r == Err(NoMatch) <==> forall o :: o in objects ==> !Answers(o, Classify(token)))
            && (r.Ok? ==> && Answers(r.value, Classify(token))
                          && multiset(objects)[r.value] == 1
                          && (forall o :: o in objects && Answers(o, Classify(token)) ==> o == r.value))
  {
    var q := Classify(token);
    var found := Discovery.Find(objects, q.num, q.name);
    FindCounts(objects, q);
    if |found| > 1 {
      assert found[0] in found;
    } else if |found| == 1 {
      var m := found[0];
      assert found == [m];
      assert multiset(found)[m] == 1;
      forall o | o in objects && Answers(o, q)
        ensures o == m
      {
        assert o in found;
      }
    }
  }

  /** Exactly one occurrence of one answering migration resolves; anything else exits. */
  lemma ResolveExactlyOne(objects: seq<Migration>, token: string, m: Migration)
    requires m in objects && Answers(m, Classify(token)) && multiset(objects)[m] == 1
    requires forall o :: o in objects && Answers(o, Classify(token)) ==> o == m
    ensures Resolve(objects, token) == Ok(m)
  {
    var q := Classify(token);
    var found := Discovery.Find(objects, q.num, q.name);
    FindCounts(objects, q);
    assert multiset(found) == multiset{m} by {
      forall x
        ensures multiset(found)[x] == multiset{m}[x]
      {
        if x != m && Answers(x, q) {
          assert x !in objects;
        }
      }
    }
    assert |found| == |multiset(found)| == 1;
    assert found[0] in multiset(found);
  }

  // ---------------------------------------------------------------- planning

  /** The admission test of `migrate`. */
  predicate Admit(log: seq<Record>, force: bool, m: Migration) {
    force || !Success(log, m)
  }

  /** `str(m)` of every migration, as the scripts of `env` give it. */
  function Texts(env: Env): Migration -> Result<string, Error> {
    (m: Migration) => Describe(m, env.script(m.fileName))
  }

  /** What the token loop consults: how a token resolves, whether a resolved
      migration is admitted to run, and `str(m)` for a `[SKP]` line. */
  datatype Rules = Rules(resolve: string -> Result<Migration, Miss>, admit: Migration -> bool, show: Migration -> Result<string, Error>)

  /** The rules `migrate` applies to the loaded migrations. */
  function MigrateRules(objects: seq<Migration>, log: seq<Record>, force: bool, env: Env): Rules {
    Rules((t: string) => Resolve(objects, t), (m: Migration) => Admit(log, force, m), Texts(env))
  }

  /** What one token adds to the list of migrations to run, when it resolves. */
  function AdmittedBy(rules: Rules, token: string): seq<Migration> {
    match rules.resolve(token)
    case Ok(m) => if rules.admit(m) then [m] else []
    case Err(_) => []
  }

  function AdmitEach(rules: Rules): string -> seq<Migration> {
    t => AdmittedBy(rules, t)
  }

  /** The list `found` as a plain filter over the tokens, one token at a time. */
  function Admitted(rules: Rules, tokens: seq<string>): seq<Migration> {
    FlatMap(AdmitEach(rules), tokens)
  }

  /** The token loop's result: the migrations to run, the `[SKP]` lines, and
      whether the loop finished. */
  datatype Plan = Plan(found: seq<Migration>, lines: seq<Line>, status: Status)

  /** The token loop of `migrate`: each token must resolve or the command exits;
      an admitted migration joins `found`, any other prints `[SKP] str(m)`, which
      reads its docstring. Nothing is recorded here. */
  function PlanTokens(rules: Rules, tokens: seq<string>): (p: Plan)
    decreases |tokens|
    ensures p.status.Done? || p.status.NotFound? || p.status.Ambiguous? || p.status.Crash?
    ensures |p.found| <= |tokens|
  {
    if |tokens| == 0 then Plan([], [], Done)
    else
      var init, t := tokens[..|tokens| - 1], tokens[|tokens| - 1];
      var p := PlanTokens(rules, init);
      if !p.status.Done? then p
      else
        match rules.resolve(t)
        case Err(miss) => Plan(p.found, p.lines, Exit(t, miss))
        case Ok(m) =>
          if rules.admit(m) then
            Plan(p.found + [m], p.lines, Done)
          else
            match rules.show(m)
            case Err(e) => Plan(p.found, p.lines, Crash(e))
            case Ok(text) => Plan(p.found, p.lines + [Line(Skipped, text)], Done)
  }

  /** Every migration the loop collects is one the plain filter over the tokens
      admits, whether or not the loop finished. */
  lemma {:induction false} PlanFoundAdmitted(rules: Rules, tokens: seq<string>)
    ensures var found := PlanTokens(rules, tokens).found;
            forall i :: 0 <= i < |found| ==> found[i] in Admitted(rules, tokens)
    decreases |tokens|
  {
    if |tokens| > 0 {
      var init, t := tokens[..|tokens| - 1], tokens[|tokens| - 1];
      PlanFoundAdmitted(rules, init);
      var f := AdmitEach(rules);
      FlatMapConcat(f, init, [t]);
      assert tokens == init + [t];
      assert FlatMap(f, [t]) == AdmittedBy(rules, t) by {
        assert [t][1..] == [];
      }
      var p := PlanTokens(rules, init);
      var found := PlanTokens(rules, tokens).found;
      assert forall j :: 0 <= j < |PlanTokens(rules, init).found| ==>
               PlanTokens(rules, init).found[j] in Admitted(rules, init);
      if !p.status.Done? || rules.resolve(t).Err? || !rules.admit(rules.resolve(t).value) {
        assert found == p.found;
      } else {
        assert found == p.found + AdmittedBy(rules, t);
      }
    }
  }

  /** A finished loop resolved every token. */
  lemma {:induction false} PlanDoneResolves(rules: Rules, tokens: seq<string>)
    requires PlanTokens(rules, tokens).status.Done?
    ensures forall i :: 0 <= i < |tokens| ==> rules.resolve(tokens[i]).Ok?
    decreases |tokens|
  {
    if |tokens| > 0 {
      var init := tokens[..|tokens| - 1];
      PlanStep(rules, tokens);
      PlanDoneResolves(rules, init);
      forall i | 0 <= i < |tokens|
        ensures rules.resolve(tokens[i]).Ok?
      {
        if i < |init| {
          assert tokens[i] == init[i];
        }
      }
    }
  }

  /** A loop that exits on a token names a token it was given, and the exit says
      how that token missed. */
  lemma {:induction false} PlanExits(rules: Rules, tokens: seq<string>)
    ensures var p := PlanTokens(rules, tokens);
            p.status.NotFound? || p.status.Ambiguous? ==>
              && p.status.token in tokens
              && rules.resolve(p.status.token).Err?
              && Exit(p.status.token, rules.resolve(p.status.token).error) == p.status
    decreases |tokens|
  {
    if |tokens| > 0 {
      var init, t := tokens[..|tokens| - 1], tokens[|tokens| - 1];
      PlanExits(rules, init);
      var p := PlanTokens(rules, init);
      var q := PlanTokens(rules, tokens);
      if q.status.NotFound? || q.status.Ambiguous? {
        if !p.status.Done? {
          assert q == p;
        } else {
          assert rules.resolve(t).Err? && q.status == Exit(t, rules.resolve(t).error);
        }
      }
    }
  }

  /** One more token in a finished loop adds what that token admits. */
  lemma PlanStep(rules: Rules, tokens: seq<string>)
    requires |tokens| > 0
    requires PlanTokens(rules, tokens).status.Done?
    ensures var init := tokens[..|tokens| - 1];
            && PlanTokens(rules, init).status.Done?
            && rules.resolve(tokens[|tokens| - 1]).Ok?
            && PlanTokens(rules, tokens).found == PlanTokens(rules, init).found + AdmittedBy(rules, tokens[|tokens| - 1])
  {
  }

  /** A token the loop gets past: it resolves, and its migration is admitted or
      has a readable docstring for the `[SKP]` line. */
  predicate Passes(rules: Rules, token: string) {
    match rules.resolve(token)
    case Err(_) => false
    case Ok(m) => rules.admit(m) || rules.show(m).Ok?
  }

  /** The loop finishes exactly when every token passes. */
  lemma {:induction false} PlanDoneIff(rules: Rules, tokens: seq<string>)
    ensures PlanTokens(rules, tokens).status.Done? <==> forall t :: t in tokens ==> Passes(rules, t)
    decreases |tokens|
  {
    if |tokens| > 0 {
      var init, t := tokens[..|tokens| - 1], tokens[|tokens| - 1];
      PlanDoneIff(rules, init);
      assert tokens == init + [t];
      assert forall x :: x in tokens <==> x in init || x == t;
      assert (forall x :: x in tokens ==> Passes(rules, x)) <==>
             (forall x :: x in init ==> Passes(rules, x)) && Passes(rules, t);
      var p := PlanTokens(rules, init);
      if p.status.Done? {
        match rules.resolve(t)
        case Err(_) =>
        case Ok(m) =>
          if rules.admit(m) {
            assert PlanTokens(rules, tokens).status.Done? && Passes(rules, t);
          } else {
            assert PlanTokens(rules, tokens).status.Done? <==> rules.show(m).Ok?;
          }
      }
    }
  }

  /** A finished token loop admits exactly the plain filter over the tokens. */
  lemma {:induction false} PlanIsAdmitted(rules: Rules, tokens: seq<string>)
    requires PlanTokens(rules, tokens).status.Done?
    ensures PlanTokens(rules, tokens).found == Admitted(rules, tokens)
    decreases |tokens|
  {
    if |tokens| > 0 {
      var init, t := tokens[..|tokens| - 1], tokens[|tokens| - 1];
      PlanStep(rules, tokens);
      PlanIsAdmitted(rules, init);
      var f := AdmitEach(rules);
      FlatMapConcat(f, init, [t]);
      assert tokens == init + [t];
      assert FlatMap(f, [t]) == f(t) by {
        assert [t][1..] == [];
      }
    }
  }

  /** Under the rules of `migrate`, every migration the plain filter admits is one
      of the loaded migrations, passed the admission test, and no other loaded
      migration shares its key. */
  lemma {:induction false} AdmittedValid(objects: seq<Migration>, log: seq<Record>, force: bool, env: Env, tokens: seq<string>)
    ensures forall m :: m in Admitted(MigrateRules(objects, log, force, env), tokens) ==>
              m in objects && Admit(log, force, m) && KeyUnique(objects, m)
    decreases |tokens|
  {
    if |tokens| > 0 {
      var rules := MigrateRules(objects, log, force, env);
      AdmittedValid(objects, log, force, env, tokens[1..]);
      assert Admitted(rules, tokens) == AdmittedBy(rules, tokens[0]) + Admitted(rules, tokens[1..]);
      var r := Resolve(objects, tokens[0]);
      assert rules.resolve(tokens[0]) == r;
    }
  }

  /** Migrations that each are the only one of `objects` with their key never
      share a key unless they are the same migration. */
  lemma UniqueKeysDistinguish(objects: seq<Migration>, s: seq<Migration>)
    requires forall x :: x in s ==> x in objects && KeyUnique(objects, x)
    ensures KeysDistinguish(s)
  {
    forall i, j | 0 <= i < |s| && 0 <= j < |s| && Same(s[i], s[j])
      ensures s[i] == s[j]
    {
      assert s[i] in s && s[j] in s;
    }
  }

  // ---------------------------------------------------------------- running

  /** The record the store appends for an attempt of `m` at log position `at`. */
  function Attempt(m: Migration, env: Env, outcome: bool, at: nat): Record {
    JsonStore.ResultFromMigration(m, env.script(m.fileName), outcome, env.now(at))
  }

  /** `_run_migration`: `[RUN] str(m)` reads the docstring first, so a module that
      does not execute or has no docstring raises before anything is recorded.
      Otherwise `run()` is attempted, the outcome is recorded whether or not it
      raised, and a raising `run()` prints `[ERR] str(m)` and is re-raised. */
  function RunOne(m: Migration, show: Migration -> Result<string, Error>, env: Env, log: seq<Record>): (r: Outcome)
    ensures r.status.Done? || r.status == RunFailed(m) || r.status.Crash?
    ensures r.status.Crash? <==> show(m).Err?
    ensures r.status.Crash? ==> r.log == log && r.status.error == show(m).error
    ensures !r.status.Crash? ==>
              && r.log == log + [Attempt(m, env, r.status.Done?, |log|)]
              && (r.status.Done? <==> RunCompletes(env.script(m.fileName).pymodule))
  {
    var script := env.script(m.fileName);
    match show(m)
    case Err(e) => Outcome(log, [], Crash(e))
    case Ok(text) =>
      var outcome := RunCompletes(script.pymodule);
      var log' := log + [Attempt(m, env, outcome, |log|)];
      if outcome then Outcome(log', [Line(Running, text)], Done)
      else Outcome(log', [Line(Running, text), Line(Errored, text)], RunFailed(m))
  }

  /** The shape of what a batch appends: every record but the last is a success,
      and the last is a failure exactly when the batch stopped on a failing run. */
  predicate FailFast(added: seq<Record>, status: Status) {
    && (forall i :: 0 <= i < |added| - 1 ==> added[i].result)
    && (|added| > 0 && !added[|added| - 1].result <==> status.RunFailed?)
  }

  /** Successes in front of a fail-fast tail keep the shape. */
  lemma FailFastAfterSuccesses(pre: seq<Record>, post: seq<Record>, status: Status)
    requires forall i :: 0 <= i < |pre| ==> pre[i].result
    requires FailFast(post, status)
    ensures FailFast(pre + post, status)
  {
    var s := pre + post;
    forall i | 0 <= i < |s| - 1
      ensures s[i].result
    {
      if i >= |pre| {
        assert s[i] == post[i - |pre|];
      }
    }
    if |post| == 0 {
      assert s == pre;
    } else {
      assert s[|s| - 1] == post[|post| - 1];
    }
  }

  /** `for migration in ...: _run_migration(db, migration)`, stopping at the first
      exception. */
  function RunBatch(ms: seq<Migration>, show: Migration -> Result<string, Error>, env: Env, log: seq<Record>): (r: Outcome)
    decreases |ms|
    ensures r.status.Done? || r.status.RunFailed? || r.status.Crash?
  {
    if |ms| == 0 then Outcome(log, [], Done)
    else
      var first := RunOne(ms[0], show, env, log);
      if !first.status.Done? then first
      else
        var rest := RunBatch(ms[1..], show, env, first.log);
        Outcome(rest.log, first.lines + rest.lines, rest.status)
  }

  /** A batch only appends, at most one record per migration, and appends one
      for every migration when it finishes. */
  lemma {:induction false} RunBatchAppends(ms: seq<Migration>, show: Migration -> Result<string, Error>, env: Env, log: seq<Record>)
    ensures var r := RunBatch(ms, show, env, log);
            && |log| <= |r.log| <= |log| + |ms| && r.log[..|log|] == log
            && (r.status.Done? ==> |r.log| == |log| + |ms|)
    decreases |ms|
  {
    if |ms| > 0 {
      var first := RunOne(ms[0], show, env, log);
      if first.status.Done? {
        RunBatchAppends(ms[1..], show, env, first.log);
        var r := RunBatch(ms[1..], show, env, first.log);
        assert r.log[..|log|] == first.log[..|log|];
      }
    }
  }

  /** What a batch appends: at each new position `k` of the log, the attempt of
      the migration `k - |log|` places into the batch. */
  lemma {:induction false} RunBatchAttempts(ms: seq<Migration>, show: Migration -> Result<string, Error>, env: Env, log: seq<Record>)
    ensures var r := RunBatch(ms, show, env, log);
            && |r.log| <= |log| + |ms|
            && forall k :: |log| <= k < |r.log| ==> r.log[k] == Attempt(ms[k - |log|], env, r.log[k].result, k)
    decreases |ms|
  {
    RunBatchAppends(ms, show, env, log);
    if |ms| > 0 {
      var first := RunOne(ms[0], show, env, log);
      if first.status.Done? {
        var mid := first.log;
        var rest := RunBatch(ms[1..], show, env, mid);
        RunBatchAppends(ms[1..], show, env, mid);
        RunBatchAttempts(ms[1..], show, env, mid);
        assert RunBatch(ms, show, env, log).log == rest.log;
        AttemptsShift(ms, env, log, mid, rest.log);
      }
    }
  }

  /** The attempts appended after one more attempt at the front line up with the
      whole list. */
  lemma AttemptsShift(ms: seq<Migration>, env: Env, log: seq<Record>, mid: seq<Record>, final: seq<Record>)
    requires |ms| > 0
    requires mid == log + [Attempt(ms[0], env, true, |log|)]
    requires |mid| <= |final| && final[..|mid|] == mid
    requires |final| <= |mid| + |ms[1..]|
    requires forall k :: |mid| <= k < |final| ==> final[k] == Attempt(ms[1..][k - |mid|], env, final[k].result, k)
    ensures |final| <= |log| + |ms|
    ensures forall k :: |log| <= k < |final| ==> final[k] == Attempt(ms[k - |log|], env, final[k].result, k)
  {
    forall k | |log| <= k < |final|
      ensures final[k] == Attempt(ms[k - |log|], env, final[k].result, k)
    {
      if k == |log| {
        assert final[k] == final[..|mid|][k] == mid[k];
      } else {
        assert final[k] == Attempt(ms[1..][k - |mid|], env, final[k].result, k);
        assert ms[1..][k - |mid|] == ms[k - |log|];
      }
    }
  }

  /** Every record a batch appends is a success but possibly the last, which is a
      failure exactly when the batch stopped on a failing run. */
  lemma {:induction false} RunBatchFailFast(ms: seq<Migration>, show: Migration -> Result<string, Error>, env: Env, log: seq<Record>)
    ensures var r := RunBatch(ms, show, env, log);
            |log| <= |r.log| && FailFast(r.log[|log|..], r.status)
    decreases |ms|
  {
    RunBatchAppends(ms, show, env, log);
    if |ms| > 0 {
      var first := RunOne(ms[0], show, env, log);
      RunOneFailFast(ms[0], show, env, log);
      if first.status.Done? {
        var mid := first.log;
        var rest := RunBatch(ms[1..], show, env, mid);
        RunBatchAppends(ms[1..], show, env, mid);
        RunBatchFailFast(ms[1..], show, env, mid);
        assert RunBatch(ms, show, env, log).log == rest.log && RunBatch(ms, show, env, log).status == rest.status;
        assert rest.log[|log|..] == mid[|log|..] + rest.log[|mid|..];
        FailFastAfterSuccesses(mid[|log|..], rest.log[|mid|..], rest.status);
      }
    }
  }

  /** One run appends at most one record, a failure exactly when the run failed. */
  lemma RunOneFailFast(m: Migration, show: Migration -> Result<string, Error>, env: Env, log: seq<Record>)
    ensures var r := RunOne(m, show, env, log);
            && |log| <= |r.log| && r.log[..|log|] == log
            && FailFast(r.log[|log|..], r.status)
  {
    var r := RunOne(m, show, env, log);
    if r.log == log {
      assert r.log[|log|..] == [];
    } else {
      assert r.log[|log|..] == [Attempt(m, env, r.status.Done?, |log|)];
    }
  }

  /** A batch that stops names the migration it stopped at: the one whose run
      failed, the last attempted, or the one whose `str(m)` raised, the first not
      attempted. */
  lemma {:induction false} RunBatchStops(ms: seq<Migration>, show: Migration -> Result<string, Error>, env: Env, log: seq<Record>)
    ensures var r := RunBatch(ms, show, env, log);
            && |log| <= |r.log| <= |log| + |ms|
            && (r.status.RunFailed? ==> |r.log| > |log| && r.status.failed == ms[|r.log| - |log| - 1])
            && (r.status.Crash? ==>
                  && |r.log| < |log| + |ms|
                  && show(ms[|r.log| - |log|]) == Err(r.status.error))
    decreases |ms|
  {
    RunBatchAppends(ms, show, env, log);
    if |ms| > 0 {
      var first := RunOne(ms[0], show, env, log);
      if first.status.Done? {
        var mid := first.log;
        var rest := RunBatch(ms[1..], show, env, mid);
        RunBatchStops(ms[1..], show, env, mid);
        if rest.status.RunFailed? {
          assert ms[1..][|rest.log| - |mid| - 1] == ms[|rest.log| - |log| - 1];
        }
        if rest.status.Crash? {
          assert ms[1..][|rest.log| - |mid|] == ms[|rest.log| - |log|];
        }
      }
    }
  }

  /** A batch that finished attempted every migration, in order, and each attempt
      succeeded. */
  lemma RunBatchDone(ms: seq<Migration>, show: Migration -> Result<string, Error>, env: Env, log: seq<Record>)
    requires RunBatch(ms, show, env, log).status.Done?
    ensures var r := RunBatch(ms, show, env, log);
            && |r.log| == |log| + |ms| && r.log[..|log|] == log
            && forall i :: 0 <= i < |ms| ==> r.log[|log| + i] == Attempt(ms[i], env, true, |log| + i)
  {
    var r := RunBatch(ms, show, env, log);
    RunBatchAppends(ms, show, env, log);
    RunBatchAttempts(ms, show, env, log);
    RunBatchFailFast(ms, show, env, log);
    DoneAttempts(ms, env, log, r.log);
  }

  /** Attempts all appended by a batch that finished are successes. */
  lemma DoneAttempts(ms: seq<Migration>, env: Env, log: seq<Record>, final: seq<Record>)
    requires |final| == |log| + |ms|
    requires forall k :: |log| <= k < |final| ==> final[k] == Attempt(ms[k - |log|], env, final[k].result, k)
    requires FailFast(final[|log|..], Done)
    ensures forall i :: 0 <= i < |ms| ==> final[|log| + i] == Attempt(ms[i], env, true, |log| + i)
  {
    var added := final[|log|..];
    forall i | 0 <= i < |ms|
      ensures final[|log| + i] == Attempt(ms[i], env, true, |log| + i)
    {
      var k := |log| + i;
      assert added[i] == final[k];
      assert added[i].result;
      assert final[k] == Attempt(ms[k - |log|], env, final[k].result, k);
    }
  }

  /** A batch records nothing about a migration none of whose key it runs. */
  lemma RunBatchAvoids(ms: seq<Migration>, show: Migration -> Result<string, Error>, env: Env, log: seq<Record>, m: Migration)
    requires forall i :: 0 <= i < |ms| ==> !Same(ms[i], m)
    ensures var r := RunBatch(ms, show, env, log);
            forall k :: |log| <= k < |r.log| ==> !About(r.log[k], m)
  {
    var r := RunBatch(ms, show, env, log);
    RunBatchAppends(ms, show, env, log);
    RunBatchAttempts(ms, show, env, log);
    forall k | |log| <= k < |r.log|
      ensures !About(r.log[k], m)
    {
      assert r.log[k] == Attempt(ms[k - |log|], env, r.log[k].result, k);
    }
  }

  // ---------------------------------------------------------------- migrate

  /** `migrate(config, names, force)`: load every migration (`get_all`), then go on
      with the loaded list. */
  function Migrate(dir: Discovery.Directory, log: seq<Record>, tokens: seq<string>, force: bool, env: Env): (r: Outcome)
    ensures Discovery.GetAll(dir).Err? ==> r == Outcome(log, [], Crash(Discovery.GetAll(dir).error))
    ensures Discovery.GetAll(dir).Ok? ==> r == MigrateLoaded(Discovery.GetAll(dir).value, log, tokens, force, env)
  {
    match Discovery.GetAll(dir)
    case Err(e) => Outcome(log, [], Crash(e))
    case Ok(objects) => MigrateLoaded(objects, log, tokens, force, env)
  }

  /** The rest of `migrate`, on the loaded migrations. */
  function MigrateLoaded(objects: seq<Migration>, log: seq<Record>, tokens: seq<string>, force: bool, env: Env): Outcome {
    MigrateWith(MigrateRules(objects, log, force, env), env, log, tokens)
  }

  /** The rest of `migrate` under given rules: resolve every token (exiting on the
      first that does not resolve, before anything runs), then run the admitted
      migrations sorted by `<`. */
  function MigrateWith(rules: Rules, env: Env, log: seq<Record>, tokens: seq<string>): (r: Outcome)
    ensures r.status.Done? || r.status.RunFailed? || r.status.NotFound? || r.status.Ambiguous? || r.status.Crash?
    ensures r.status.NotFound? || r.status.Ambiguous? ==> r.log == log
  {
    var p := PlanTokens(rules, tokens);
    if !p.status.Done? then Outcome(log, p.lines, p.status)
    else
      var b := RunBatch(Sort(p.found), rules.show, env, log);
      Outcome(b.log, p.lines + b.lines, b.status)
  }

  /** `migrate` only appends to the log, every appended record but the last is a
      success, and the last is a failure exactly when a run failed. */
  lemma MigrateAppends(rules: Rules, env: Env, log: seq<Record>, tokens: seq<string>)
    ensures var r := MigrateWith(rules, env, log, tokens);
            && |log| <= |r.log| && r.log[..|log|] == log
            && FailFast(r.log[|log|..], r.status)
  {
    var r := MigrateWith(rules, env, log, tokens);
    var p := PlanTokens(rules, tokens);
    if p.status.Done? {
      RunBatchAppends(Sort(p.found), rules.show, env, log);
      RunBatchFailFast(Sort(p.found), rules.show, env, log);
    } else {
      assert r.log == log && r.status == p.status;
      assert r.log[|log|..] == [];
    }
  }

  /** A token that does not resolve ends `migrate` before anything is recorded, and
      the exit names a token that was given and says how it missed. */
  lemma MigrateWithExits(rules: Rules, env: Env, log: seq<Record>, tokens: seq<string>)
    requires MigrateWith(rules, env, log, tokens).status.NotFound? || MigrateWith(rules, env, log, tokens).status.Ambiguous?
    ensures var r := MigrateWith(rules, env, log, tokens);
            && r.log == log
            && r.status.token in tokens
            && rules.resolve(r.status.token).Err?
            && Exit(r.status.token, rules.resolve(r.status.token).error) == r.status
  {
    var p := PlanTokens(rules, tokens);
    assert !p.status.Done?;
    PlanExits(rules, tokens);
  }

  /** Under the rules of `migrate`: the token that ends it finds no migration, or
      more than one. */
  lemma MigrateExits(objects: seq<Migration>, log: seq<Record>, tokens: seq<string>, force: bool, env: Env)
    requires MigrateLoaded(objects, log, tokens, force, env).status.NotFound? || MigrateLoaded(objects, log, tokens, force, env).status.Ambiguous?
    ensures var r := MigrateLoaded(objects, log, tokens, force, env);
            && r.log == log
            && r.status.token in tokens
            && Resolve(objects, r.status.token) == Err(if r.status.NotFound? then NoMatch else Several)
  {
    var rules := MigrateRules(objects, log, force, env);
    MigrateWithExits(rules, env, log, tokens);
    var r := MigrateWith(rules, env, log, tokens);
    assert Resolve(objects, r.status.token) == rules.resolve(r.status.token);
  }

  /** A finished `migrate` resolved every token, and attempted, in order, exactly
      the admitted migrations sorted by `<`, each once per token that admitted it;
      every attempt succeeded. */
  lemma MigrateWithDone(rules: Rules, env: Env, log: seq<Record>, tokens: seq<string>)
    requires MigrateWith(rules, env, log, tokens).status.Done?
    ensures forall i :: 0 <= i < |tokens| ==> rules.resolve(tokens[i]).Ok?
    ensures var run := Sort(Admitted(rules, tokens));
            var r := MigrateWith(rules, env, log, tokens);
            && |r.log| == |log| + |run| && r.log[..|log|] == log
            && forall i :: 0 <= i < |run| ==> r.log[|log| + i] == Attempt(run[i], env, true, |log| + i)
  {
    var p := PlanTokens(rules, tokens);
    assert p.status.Done?;
    PlanDoneResolves(rules, tokens);
    PlanIsAdmitted(rules, tokens);
    RunBatchDone(Sort(p.found), rules.show, env, log);
  }

  /** `MigrateWithDone` under the rules of `migrate`. */
  lemma MigrateDone(objects: seq<Migration>, log: seq<Record>, tokens: seq<string>, force: bool, env: Env)
    requires MigrateLoaded(objects, log, tokens, force, env).status.Done?
    ensures forall i :: 0 <= i < |tokens| ==> Resolve(objects, tokens[i]).Ok?
    ensures var run := Sort(Admitted(MigrateRules(objects, log, force, env), tokens));
            var r := MigrateLoaded(objects, log, tokens, force, env);
            && |r.log| == |log| + |run| && r.log[..|log|] == log
            && forall i :: 0 <= i < |run| ==> r.log[|log| + i] == Attempt(run[i], env, true, |log| + i)
  {
    var rules := MigrateRules(objects, log, force, env);
    MigrateWithDone(rules, env, log, tokens);
    forall i | 0 <= i < |tokens|
      ensures Resolve(objects, tokens[i]).Ok?
    {
      assert rules.resolve(tokens[i]).Ok?;
    }
  }

  /** `migrate` records nothing about a migration none of whose key the tokens admit. */
  lemma MigrateWithAvoids(rules: Rules, env: Env, log: seq<Record>, tokens: seq<string>, m: Migration)
    requires forall x :: x in Admitted(rules, tokens) ==> !Same(x, m)
    ensures var r := MigrateWith(rules, env, log, tokens);
            forall k :: |log| <= k < |r.log| ==> !About(r.log[k], m)
  {
    var p := PlanTokens(rules, tokens);
    if p.status.Done? {
      PlanFoundAdmitted(rules, tokens);
      var run := Sort(p.found);
      forall i | 0 <= i < |run|
        ensures !Same(run[i], m)
      {
        assert run[i] in multiset(p.found);
        var j :| 0 <= j < |p.found| && p.found[j] == run[i];
        assert PlanTokens(rules, tokens).found[j] in Admitted(rules, tokens);
      }
      RunBatchAvoids(run, rules.show, env, log, m);
      assert MigrateWith(rules, env, log, tokens).log == RunBatch(run, rules.show, env, log).log;
    } else {
      assert MigrateWith(rules, env, log, tokens).log == log;
    }
  }

  /** Without `force`, a migration that had succeeded gets no new record: it is
      never admitted, and nothing admitted shares its key. */
  lemma MigrateSkipsSucceeded(objects: seq<Migration>, log: seq<Record>, tokens: seq<string>, env: Env, m: Migration)
    requires Success(log, m)
    ensures var r := MigrateLoaded(objects, log, tokens, false, env);
            forall k :: |log| <= k < |r.log| ==> !About(r.log[k], m)
  {
    var rules := MigrateRules(objects, log, false, env);
    AdmittedValid(objects, log, false, env, tokens);
    forall x | x in Admitted(rules, tokens)
      ensures !Same(x, m)
    {
      if Same(x, m) {
        FindSameKey(log, x, m);
      }
    }
    MigrateWithAvoids(rules, env, log, tokens, m);
  }

  /** The order of the tokens does not matter: when one run finishes, a run on a
      rearrangement of its tokens finishes too and appends the same records,
      provided no two different admitted migrations share a key. */
  lemma MigrateWithIgnoresTokenOrder(rules: Rules, env: Env, log: seq<Record>, a: seq<string>, b: seq<string>)
    requires multiset(a) == multiset(b)
    requires KeysDistinguish(Admitted(rules, a))
    requires MigrateWith(rules, env, log, a).status.Done?
    ensures MigrateWith(rules, env, log, b).status.Done?
    ensures MigrateWith(rules, env, log, a).log == MigrateWith(rules, env, log, b).log
  {
    PlanDoneIff(rules, a);
    PlanDoneIff(rules, b);
    assert forall t :: t in a <==> t in b by {
      forall t
        ensures t in a <==> t in b
      {
        assert t in a <==> t in multiset(a);
        assert t in b <==> t in multiset(b);
      }
    }
    PlanIsAdmitted(rules, a);
    PlanIsAdmitted(rules, b);
    FlatMapPermutation(AdmitEach(rules), a, b);
    SortIgnoresOrder(Admitted(rules, a), Admitted(rules, b));
  }

  /** Under the rules of `migrate` the proviso holds, so the order of the tokens
      never matters to a finished `migrate`. */
  lemma MigrateIgnoresTokenOrder(objects: seq<Migration>, log: seq<Record>, a: seq<string>, b: seq<string>, force: bool, env: Env)
    requires multiset(a) == multiset(b)
    requires MigrateLoaded(objects, log, a, force, env).status.Done?
    ensures MigrateLoaded(objects, log, b, force, env).status.Done?
    ensures MigrateLoaded(objects, log, a, force, env).log == MigrateLoaded(objects, log, b, force, env).log
  {
    var rules := MigrateRules(objects, log, force, env);
    AdmittedValid(objects, log, force, env, a);
    UniqueKeysDistinguish(objects, Admitted(rules, a));
    MigrateWithIgnoresTokenOrder(rules, env, log, a, b);
  }

  /** No deduplication: a token given twice admits its migration twice. */
  lemma RepeatedTokenAdmitsTwice(objects: seq<Migration>, log: seq<Record>, token: string, force: bool, env: Env, m: Migration)
    requires Resolve(objects, token) == Ok(m) && Admit(log, force, m)
    ensures Admitted(MigrateRules(objects, log, force, env), [token, token]) == [m, m]
  {
    var rules := MigrateRules(objects, log, force, env);
    var f := AdmitEach(rules);
    assert f(token) == [m];
    assert [token, token][1..] == [token];
    assert [token][1..] == [];
    assert FlatMap(f, [token]) == [m] + FlatMap(f, []);
  }
}
