/** `print_list` (migranite/run.py): one line per candidate file, in file-name
    order, with the migration's standing in the store and `str(m)`; with `--long`,
    the long description (or an empty line) after each. Files are loaded and
    described one at a time, so an error stops the listing after the lines already
    printed. Terminal colour codes are not modelled. */
module MigrationList {
  import opened Results
  import opened Seqs
  import opened Identity
  import opened Docs
  import opened ResultLog
  import opened Orchestrator
  import Discovery
  import RunAll

  /** `PSS`, `ERR` or blank. */
  datatype Standing = Passed | Failing | Unattempted

  /** `success` first; otherwise any record at all means the last attempt failed. */
  function StandingOf(log: seq<Record>, m: Migration): Standing {
    if Success(log, m) then Passed
    else if |Find(log, m)| > 0 then Failing
    else Unattempted
  }

  /** The three-character status label between the brackets. */
  function Label(s: Standing): (r: string)
    ensures |r| == 3
  {
    match s
    case Passed => "PSS"
    case Failing => "ERR"
    case Unattempted => "   "
  }

  /** What is printed for one migration: the standing, `str(m)`, and with `--long`
      its long description. */
  datatype Entry = Entry(standing: Standing, text: string, long: Option<string>)

  /** The first printed line of an entry: `[LBL] str(m)`. */
  function HeaderLine(e: Entry): string {
    "[" + Label(e.standing) + "] " + e.text
  }

  /** The line `--long` adds: the long description between blank lines, or a bare
      `print()` when the description is empty. */
  function LongLine(l: string): (r: string)
    ensures r == "" <==> l == ""
  {
    if l != "" then "\n" + l + "\n" else ""
  }

  /** The printed lines of one entry. */
  function Render(e: Entry): seq<string> {
    [HeaderLine(e)] + match e.long
      case None => []
      case Some(l) => [LongLine(l)]
  }

  /** The header line shows both the standing and `str(m)`: two entries printing
      the same header agree on both. */
  lemma HeaderIdentifies(a: Entry, b: Entry)
    requires HeaderLine(a) == HeaderLine(b)
    ensures a.standing == b.standing && a.text == b.text
  {
    var ha, hb := HeaderLine(a), HeaderLine(b);
    assert Label(a.standing) == ha[1..4] by { assert ha[1..4] == Label(a.standing); }
    assert Label(b.standing) == hb[1..4] by { assert hb[1..4] == Label(b.standing); }
    assert a.text == ha[6..];
    assert b.text == hb[6..];
    assert Label(a.standing) == Label(b.standing);
  }

  /** Without `--long`, each entry prints its header line alone. */
  lemma {:induction false} RenderedShort(es: seq<Entry>)
    requires forall i :: 0 <= i < |es| ==> es[i].long.None?
    ensures |FlatMap(Render, es)| == |es|
    ensures forall i :: 0 <= i < |es| ==> FlatMap(Render, es)[i] == HeaderLine(es[i])
    decreases |es|
  {
    if |es| > 0 {
      RenderedShort(es[1..]);
      forall i | 0 < i < |es|
        ensures FlatMap(Render, es)[i] == HeaderLine(es[i])
      {
        assert es[1..][i - 1] == es[i];
      }
    }
  }

  /** With `--long`, each entry prints its header line, then its long line. */
  lemma {:induction false} RenderedLong(es: seq<Entry>)
    requires forall i :: 0 <= i < |es| ==> es[i].long.Some?
    ensures |FlatMap(Render, es)| == 2 * |es|
    ensures forall i :: 0 <= i < |es| ==>
              && FlatMap(Render, es)[2 * i] == HeaderLine(es[i])
              && FlatMap(Render, es)[2 * i + 1] == LongLine(es[i].long.value)
    decreases |es|
  {
    if |es| > 0 {
      RenderedLong(es[1..]);
      forall i | 0 < i < |es|
        ensures && FlatMap(Render, es)[2 * i] == HeaderLine(es[i])
                && FlatMap(Render, es)[2 * i + 1] == LongLine(es[i].long.value)
      {
        assert es[1..][i - 1] == es[i];
        assert 2 * i == 2 + 2 * (i - 1);
      }
    }
  }

  /** The listing so far, and the error that cut it short, if any. */
  datatype Listed = Listed(entries: seq<Entry>, error: Option<Error>)

  // ---------------------------------------------------------------- standing

  /** Some record about `m` is stored exactly when `find` returns something. */
  lemma FindNonEmpty(log: seq<Record>, m: Migration)
    ensures |Find(log, m)| > 0 <==> exists i :: 0 <= i < |log| && About(log[i], m)
  {
    FindContents(log, m);
    var found := Find(log, m);
    if |found| > 0 {
      assert found[0] in multiset(found);
      assert found[0] in multiset(log);
      var i :| 0 <= i < |log| && log[i] == found[0];
    }
    if exists i :: 0 <= i < |log| && About(log[i], m) {
      var i :| 0 <= i < |log| && About(log[i], m);
      assert log[i] in multiset(log);
      assert log[i] in multiset(found);
    }
  }

  /** `PSS` exactly when the last record about `m` is a success. */
  lemma PassedIsLastWrite(log: seq<Record>, m: Migration)
    ensures StandingOf(log, m) == Passed <==> LastWriteSucceeded(log, m)
  {
    SuccessIsLastWrite(log, m);
  }

  /** `ERR` exactly when some record about `m` is stored but the last one is not a
      success. */
  lemma FailingIsLastWrite(log: seq<Record>, m: Migration)
    ensures StandingOf(log, m) == Failing <==>
              (exists i :: 0 <= i < |log| && About(log[i], m)) && !LastWriteSucceeded(log, m)
  {
    SuccessIsLastWrite(log, m);
    FindNonEmpty(log, m);
  }

  /** Blank exactly when no record about `m` is stored. */
  lemma UnattemptedIsNoRecord(log: seq<Record>, m: Migration)
    ensures StandingOf(log, m) == Unattempted <==> forall i :: 0 <= i < |log| ==> !About(log[i], m)
  {
    FindNonEmpty(log, m);
    if forall i :: 0 <= i < |log| ==> !About(log[i], m) {
      NoRecordsNoSuccess(log, m);
    }
  }

  // ---------------------------------------------------------------- listing

  /** One file: `get` may raise, then `str(m)` reads and caches the docstring
      (and may raise), and `long` is served from that cache. */
  function ListOne(fileName: string, log: seq<Record>, env: Env, long: bool): (r: Result<Entry, Error>)
    ensures Discovery.Get(fileName).Err? ==> r == Err(Discovery.Get(fileName).error)
    ensures Discovery.Get(fileName).Ok? ==>
              var m := Discovery.Get(fileName).value;
              && (r.Ok? <==> Describe(m, env.script(m.fileName)).Ok?)
              && (r.Err? ==> r == Err(Describe(m, env.script(m.fileName)).error))
              && (r.Ok? ==>
                    && r.value.standing == StandingOf(log, m)
                    && r.value.text == Describe(m, env.script(m.fileName)).value
                    && r.value.long == (if long then Some(SplitDoc(env.script(fileName).pymodule.doc.value).1) else None))
    ensures r.Ok? ==> (r.value.long.Some? <==> long)
  {
    var m :- Discovery.Get(fileName);
    var pm := env.script(fileName).pymodule;
    var (short, cache) :- Short(fileName, pm, Unread);
    var extra := if long then Some(Long(fileName, pm, cache).value.0) else None;
    Ok(Entry(StandingOf(log, m), Str(m, short), extra))
  }

  /** The loop over the files, stopping at the first error. */
  function ListEach(files: seq<string>, one: string -> Result<Entry, Error>): (r: Listed)
    decreases |files|
    ensures |r.entries| <= |files|
  {
    if |files| == 0 then Listed([], None)
    else
      match one(files[0])
      case Err(e) => Listed([], Some(e))
      case Ok(entry) =>
        var rest := ListEach(files[1..], one);
        Listed([entry] + rest.entries, rest.error)
  }

  /** The listing holds the entry of each file in order up to the first file that
      raised, and names that file's error; without an error it covers every file. */
  lemma {:induction false} ListEachSpec(files: seq<string>, one: string -> Result<Entry, Error>)
    ensures var r := ListEach(files, one);
            && (forall i :: 0 <= i < |r.entries| ==> one(files[i]) == Ok(r.entries[i]))
            && (r.error.None? ==> |r.entries| == |files|)
            && (r.error.Some? ==> |r.entries| < |files| && one(files[|r.entries|]) == Err(r.error.value))
    decreases |files|
  {
    if |files| > 0 && one(files[0]).Ok? {
      ListEachSpec(files[1..], one);
      var rest := ListEach(files[1..], one);
      forall i | 0 < i < 1 + |rest.entries|
        ensures one(files[i]) == Ok(([one(files[0]).value] + rest.entries)[i])
      {
        assert files[1..][i - 1] == files[i];
      }
      if rest.error.Some? {
        assert files[1..][|rest.entries|] == files[1 + |rest.entries|];
      }
    }
  }

  /** `print_list(config, long)` over the candidate files of the directory. */
  function PrintList(dir: Discovery.Directory, log: seq<Record>, env: Env, long: bool): Listed {
    ListEach(Discovery.Files(dir), (f: string) => ListOne(f, log, env, long))
  }

  /** What `print_list` writes: the lines of each listed entry, in order. */
  function Printed(dir: Discovery.Directory, log: seq<Record>, env: Env, long: bool): seq<string> {
    FlatMap(Render, PrintList(dir, log, env, long).entries)
  }

  /** When every entry `one` gives has a long line exactly when `long` holds, so
      does every entry of the listing. */
  lemma {:induction false} ListEachLong(files: seq<string>, one: string -> Result<Entry, Error>, long: bool)
    requires forall f :: one(f).Ok? ==> (one(f).value.long.Some? <==> long)
    ensures forall e :: e in ListEach(files, one).entries ==> (e.long.Some? <==> long)
    decreases |files|
  {
    if |files| > 0 && one(files[0]).Ok? {
      ListEachLong(files[1..], one, long);
      assert ListEach(files, one).entries == [one(files[0]).value] + ListEach(files[1..], one).entries;
    }
  }

  /** Every listed entry has a long line exactly when `--long` was given. */
  lemma EntriesCarryLong(dir: Discovery.Directory, log: seq<Record>, env: Env, long: bool)
    ensures var es := PrintList(dir, log, env, long).entries;
            forall i :: 0 <= i < |es| ==> (es[i].long.Some? <==> long)
  {
    var one := (f: string) => ListOne(f, log, env, long);
    forall f | one(f).Ok?
      ensures one(f).value.long.Some? <==> long
    {
    }
    ListEachLong(Discovery.Files(dir), one, long);
    assert PrintList(dir, log, env, long) == ListEach(Discovery.Files(dir), one);
    var es := PrintList(dir, log, env, long).entries;
    assert forall i :: 0 <= i < |es| ==> es[i] in es;
  }

  /** Rendering entries that all have, or all lack, a long line. */
  lemma RenderedLines(es: seq<Entry>, long: bool)
    requires forall i :: 0 <= i < |es| ==> (es[i].long.Some? <==> long)
    ensures var out := FlatMap(Render, es);
            && (!long ==> |out| == |es| && forall i :: 0 <= i < |es| ==> out[i] == HeaderLine(es[i]))
            && (long ==> && |out| == 2 * |es|
                         && forall i :: 0 <= i < |es| ==>
                              && es[i].long.Some?
                              && out[2 * i] == HeaderLine(es[i])
                              && out[2 * i + 1] == LongLine(es[i].long.value))
  {
    if long {
      RenderedLong(es);
    } else {
      RenderedShort(es);
    }
  }

  /** The output holds one header line per listed file and, with `--long`, that
      file's long line right after it. */
  lemma PrintedLines(dir: Discovery.Directory, log: seq<Record>, env: Env, long: bool)
    ensures var es := PrintList(dir, log, env, long).entries;
            var out := Printed(dir, log, env, long);
            && (!long ==> |out| == |es| && forall i :: 0 <= i < |es| ==> out[i] == HeaderLine(es[i]))
            && (long ==> && |out| == 2 * |es|
                         && forall i :: 0 <= i < |es| ==>
                              && es[i].long.Some?
                              && out[2 * i] == HeaderLine(es[i])
                              && out[2 * i + 1] == LongLine(es[i].long.value))
  {
    EntriesCarryLong(dir, log, env, long);
    RenderedLines(PrintList(dir, log, env, long).entries, long);
  }

  /** A complete listing loaded every candidate file. */
  lemma CompleteListingLoads(dir: Discovery.Directory, log: seq<Record>, env: Env, long: bool)
    requires PrintList(dir, log, env, long).error.None?
    ensures Discovery.GetAll(dir).Ok?
    ensures var files := Discovery.Files(dir);
            var es := PrintList(dir, log, env, long).entries;
            && |es| == |files|
            && forall i :: 0 <= i < |files| ==> ListOne(files[i], log, env, long) == Ok(es[i])
  {
    var files := Discovery.Files(dir);
    var one := (f: string) => ListOne(f, log, env, long);
    ListEachSpec(files, one);
    forall f | f in files
      ensures Discovery.Get(f).Ok?
    {
      var i :| 0 <= i < |files| && files[i] == f;
      assert one(files[i]).Ok?;
    }
  }

  /** A complete listing loaded every migration `get_all` would, and shows each
      one's standing and `str(m)` in the same order. */
  lemma PrintListMatchesGetAll(dir: Discovery.Directory, log: seq<Record>, env: Env, long: bool)
    requires PrintList(dir, log, env, long).error.None?
    ensures Discovery.GetAll(dir).Ok?
    ensures var ms := Discovery.GetAll(dir).value;
            var es := PrintList(dir, log, env, long).entries;
            && |es| == |ms|
            && forall i :: 0 <= i < |ms| ==>
                 es[i].standing == StandingOf(log, ms[i]) && Texts(env)(ms[i]) == Ok(es[i].text)
  {
    CompleteListingLoads(dir, log, env, long);
    var files := Discovery.Files(dir);
    var es := PrintList(dir, log, env, long).entries;
    var ms := Discovery.GetAll(dir).value;
    forall i | 0 <= i < |ms|
      ensures es[i].standing == StandingOf(log, ms[i]) && Texts(env)(ms[i]) == Ok(es[i].text)
    {
      assert ListOne(files[i], log, env, long) == Ok(es[i]);
      assert Discovery.Get(files[i]) == Ok(ms[i]);
    }
  }

  /** After a finished `migrate_all`, listing the same directory raises nothing
      and shows every migration as `PSS`. */
  lemma ListAfterMigrateAll(dir: Discovery.Directory, log: seq<Record>, env: Env, long: bool)
    requires RunAll.MigrateAll(dir, log, env).status.Done?
    ensures var after := RunAll.MigrateAll(dir, log, env).log;
            && PrintList(dir, after, env, long).error.None?
            && forall i :: 0 <= i < |PrintList(dir, after, env, long).entries| ==>
                 PrintList(dir, after, env, long).entries[i].standing == Passed
  {
    var after := RunAll.MigrateAll(dir, log, env).log;
    var ms := Discovery.GetAll(dir).value;
    RunAll.WalkDone(ms, Texts(env), env, log);
    var files := Discovery.Files(dir);
    var one := (f: string) => ListOne(f, after, env, long);
    ListEachSpec(files, one);
    var r := ListEach(files, one);
    forall i | 0 <= i < |files|
      ensures one(files[i]).Ok? && one(files[i]).value.standing == Passed
    {
      assert Discovery.Get(files[i]) == Ok(ms[i]);
      assert Success(after, ms[i]) && Texts(env)(ms[i]).Ok?;
    }
  }
}
