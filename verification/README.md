# migranite core in Dafny

A model of the core of migranite, a small Python migration runner. A project keeps
numbered migration scripts (`001-create-users.py`, …) in one directory. Each script
has a docstring whose first line is its short description, and a `run()`
function. Every attempt to run a script is appended to a result store: a JSON file
of records `(ts, num, name, source, md5, result)`. A migration has succeeded when
the last record about its `(num, name)` says so.

Modules, in dependency order:

- `Results`: `Option`, `Result` (usable with `:-`) and `Error`, the exceptions the core can raise.
- `Text`: the Python string behaviour the core relies on. This covers ASCII `isdigit`, `int()` on text (whitespace, sign, underscores between digits), `str(n)`, `zfill`, `strip` (on ASCII whitespace), `str.find` and `os.path.splitext`. It also defines string `<` (code-point lexicographic order) with its order laws.
- `Seqs`: subsequences, `FlatMap` and `Filter`, with the multiset facts about them.
- `Identity`: `MigrationBase` (migrations/base.py). Covers parsing the file name into `(num, name)`, `==` and `<`, and `str(m)`.
- `Docs`: `MigrationPy` (migrations/py.py). Covers the module, its docstring split into short and long descriptions, and the docstring cache.
- `Discovery`: `get_files`, `get`, `get_all` and `find` (migrations/__init__.py).
- `ResultLog`: `find` and `success` (db/base.py) over an append-only log.
- `JsonStore`: the JSON backend (db/json.py). Covers the record conversions, load with its cache, and `add`.
- `Sorting`: `sorted()` on migrations, by insertion.
- `Orchestrator`: `migrate` and `_run_migration` (run.py).
- `RunAll`: `migrate_all` (run.py).
- `MigrationList`: `print_list` (run.py).
- `Create`: the numbering and naming done by `create` (run.py).

Everything the Python code takes from its surroundings is a parameter of the model:

- An `Env` gives, for each file name, the script's source text, its md5 digest and what executing its module does. That last part is `ExecFails`, or `Loaded` with the docstring and whether `run()` completes. The `Env` also gives the clock reading for the n-th record.
- A `Directory` is what `os.path.isdir`/`os.listdir` report.
- A `StoreFile` is what `open` and `json.load` find.
- The generic parts of the orchestration take their collaborators as function values. These are `show` (how `str(m)` turns out), `Rules` (how a token resolves and whether a migration is admitted), `get` and `one`. Their laws therefore hold for any such collaborator; `MigrateLoaded` and `MigrateAll` instantiate them with the real ones.

Exceptions become `Err` values; `sys.exit(1)` becomes the `NotFound` or `Ambiguous` status.
Printed output becomes a list of marked lines. The store's state becomes an explicit record log threaded through each operation.

## Model

| member | source | states |
|---|---|---|
| Text.ZFillValue | migranite/run.py:80 | a number written with `str` and padded with `zfill` to any width is still all digits and reads back as the same number |
| Text.StripCharacterized | migranite/migrations/py.py:38 | `strip()` returns exactly the window between the leading and trailing whitespace runs, so any window with whitespace outside and non-whitespace ends is the stripped text |
| Text.StripKeepsNonSpace | migranite/migrations/py.py:38-39 | stripping removes only whitespace: a non-whitespace character is in the stripped text exactly when it is in the original |
| Text.SplitExt | migranite/migrations/base.py:78 | `splitext` cuts the path into two parts that concatenate back to it; the extension is empty or one dot followed by no dot and no '/' |
| Text.SplitExtNonEmpty | migranite/migrations/base.py:78 | the extension is non-empty exactly when, after the last '/', some '.' has a character other than '.' before it; it then starts at the last '.' |
| Text.PyIntDigits | migranite/migrations/base.py:80 | `int()` reads plain digits as their decimal value, leading zeros included |
| Text.UnderscoreIgnored | migranite/migrations/base.py:80 | `int()` accepts one '_' between two digit runs and reads the digits as if it were not there |
| Text.SplitExtPy | migranite/migrations/__init__.py:31-33 | a stem without '/' that does not start with a dot, followed by ".py", splits into exactly that stem and ".py" |
| Text.StrLtIsLexicographic | migranite/migrations/__init__.py:19 | string `<` holds exactly when the first string is a proper prefix of the second or is smaller at the first position where they differ |
| Text.StrLtTransitive | migranite/migrations/__init__.py:19 | string `<` is transitive, so `sorted(os.listdir(...))` has a well-defined order |
| Text.StrLtTotal | migranite/migrations/__init__.py:19 | any two different strings are ordered one way or the other |
| Identity.Parse | migranite/migrations/base.py:73-81 | a parsed migration keeps its file name; its number is what `int()` reads from the text before the first '-' of the stem and its name is everything after, so the file name is that text, '-', the name and the extension; a stem without '-' is rejected and any other rejection is a bad number |
| Identity.ParseAccepts | migranite/migrations/base.py:78-81 | every stem of the form text, '-', rest, where `int()` reads the '-'-free text as n, is accepted and names the migration `(n, rest)` |
| Identity.ParseSignedNumber | migranite/migrations/base.py:80 | a leading '+' on the number still loads: "+1-x.py" is migration `(1, "x")` |
| Identity.ParseUnderscoredNumber | migranite/migrations/base.py:80 | an underscore between digits still loads: "1_0-x.py" is migration `(10, "x")` |
| Identity.LtTrichotomy | migranite/migrations/base.py:115-122 | two migrations that are equal under `==` are not ordered by `<`; two that are not equal are ordered exactly one way |
| Identity.LtTransitive | migranite/migrations/base.py:115-119 | the migration `<` is transitive |
| Identity.StrShowsIdentity | migranite/migrations/base.py:127-128 | `str(m)` begins with the unpadded decimal of the number, then '-', then the name and the short description |
| Docs.SplitDoc | migranite/migrations/py.py:37-43 | the short description has no newline; both parts are already stripped; a docstring with no newline after stripping is all short description and an empty long one |
| Docs.SplitDocAt | migranite/migrations/py.py:38-41 | a stripped docstring that is a first line, a newline and the rest splits into the stripped first line and the stripped rest |
| Docs.DefaultTemplateDoc | migranite/init_data.py:24-33 | the docstring of the default template splits into its short and long placeholders |
| Docs.ReadDoc | migranite/migrations/py.py:27-43 | the docstring is read when the module executes and has one; a module that fails to execute raises, and so does a module without a docstring |
| Docs.ShortThenLong | migranite/migrations/py.py:12-22 | `long` after `short` serves the cached split of the same docstring without reading the module again |
| Docs.Describe | migranite/migrations/base.py:127-128 | `str(m)` succeeds exactly when the docstring can be read, and then shows the identity with the short description |
| Discovery.Files | migranite/migrations/__init__.py:13-25 | the listed files are sorted by name; a file is listed (as often as it occurs) exactly when it does not start with a dot and has an extension; a missing directory lists nothing |
| Discovery.FilesIgnoreListingOrder | migranite/migrations/__init__.py:19 | the order in which the operating system lists a directory does not change the files considered |
| Discovery.Get | migranite/migrations/__init__.py:28-36 | a ".py" file is parsed into a migration, any other extension is an unknown type |
| Discovery.GetAll | migranite/migrations/__init__.py:7-10 | loading succeeds exactly when every listed file loads, and then gives one migration per file, in file order, each carrying its file's name |
| Discovery.GetEachFirstError | migranite/migrations/__init__.py:10 | a failed load reports the error of the first file that fails, every earlier file having loaded |
| Discovery.FindSelects | migranite/migrations/__init__.py:39-57 | with a number or a name requested, `find` keeps exactly the migrations that match, each as often as listed, in list order |
| Discovery.FindUnconstrained | migranite/migrations/__init__.py:54-55 | with neither a number nor a name, `find` repeats the whole list once per element, giving length n·n |
| ResultLog.FindContents | migranite/db/base.py:42-44 | `find` keeps exactly the stored records about the migration's `(num, name)`, each as often as stored, in stored order |
| ResultLog.SuccessIsLastWrite | migranite/db/base.py:46-52 | `success` holds exactly when some record is about the migration and the last such record is a success |
| ResultLog.SuccessAppend | migranite/db/base.py:46-52 | appending a record decides success when it is about the migration and leaves success unchanged otherwise |
| ResultLog.OthersKeepSuccess | migranite/db/base.py:42-52 | records about other migrations never affect a migration's success |
| ResultLog.FindSameKey | migranite/db/base.py:42-44 | two migrations with the same `(num, name)` share their records and their success |
| ResultLog.LastOfTwoWins | migranite/db/base.py:49-52 | of two records about a migration, the later one decides success |
| ResultLog.SuccessKeptBySuccesses | migranite/db/base.py:46-52 | appending only successful records never takes a success away |
| JsonStore.ParseIntToString | migranite/db/json.py:63 | `int()` reads back every integer `str()` writes, negative ones included |
| JsonStore.FromToJson | migranite/db/json.py:59-79 | converting a record to JSON and back gives the same record |
| JsonStore.FromJsonIgnoresExtraKeys | migranite/db/json.py:59-68 | keys beyond the six record keys do not affect reading a record |
| JsonStore.LoadItems | migranite/db/json.py:33-39 | loading succeeds exactly when every item converts, giving the records in order; otherwise it fails at the first item that does not convert |
| JsonStore.Load | migranite/db/json.py:22-41 | a missing file is an empty log, an undecodable one is an error, and an array gives one record per item |
| JsonStore.LoadSave | migranite/db/json.py:81-84 | a saved log loads back unchanged |
| JsonStore.ReadResults | migranite/db/json.py:22-41 | the file is read only while nothing is cached, and the cache then holds what it loaded |
| JsonStore.ResultsKeepsCoherent | migranite/db/json.py:22-41 | once the cache is set it agrees with the file, and reading keeps it that way |
| JsonStore.AddAppends | migranite/db/json.py:43-46 | after `add` the file loads as the old log with the new record at the end, and the cache agrees with it |
| JsonStore.ResultFromMigration | migranite/db/json.py:48-57 | the record stored for an attempt is about that migration and carries its source, digest, outcome and time |
| JsonStore.NamedTupleCall | migranite/db/base.py:5-7 | a `MigrationResult` can be built exactly when the keyword arguments are the eight declared fields |
| Sorting.Sort | migranite/run.py:129 | `sorted()` gives an ascending permutation of its input |
| Sorting.AscendingUnique | migranite/run.py:129 | two ascending orderings of the same migrations, no two sharing a key, are identical |
| Sorting.SortIgnoresOrder | migranite/run.py:129 | sorting migrations with distinct keys gives the same list whatever order they came in |
| Orchestrator.Classify | migranite/run.py:99-109 | a token reads as number and name, as a number alone, or as a name alone; the number is the digits' value |
| Orchestrator.ClassifyIgnoresPadding | migranite/run.py:100-103 | a zero-padded and an unpadded number before the '-' ask for the same migration |
| Orchestrator.ClassifyStem | migranite/run.py:99-104 | the stem of any loadable file whose number part is plain digits, given as a token, asks for exactly that file's number and name |
| Orchestrator.SignedStemNotFound | migranite/run.py:99-111 | "+1-x.py" loads as `(1, "x")`, yet its stem "+1-x" as a token is a name only and finds nothing among that migration |
| Orchestrator.FindCounts | migranite/run.py:111 | the migrations `find` returns for a token are exactly those answering its query, each as often as loaded |
| Orchestrator.ResolveSpec | migranite/run.py:111-122 | a token finds nothing exactly when no migration answers it; when it resolves, the migration answers it, is loaded once and is the only one that answers |
| Orchestrator.ResolveExactlyOne | migranite/run.py:111-122 | a token answered by exactly one migration, loaded once, resolves to it |
| Orchestrator.PlanExits | migranite/run.py:113-120 | the command exits only on a token that does not resolve, with "not found" when nothing matched and the ambiguity exit when several did |
| Orchestrator.PlanIsAdmitted | migranite/run.py:99-127 | a token loop that finishes collects, in token order, the resolved migrations that are forced or not yet successful |
| Orchestrator.AdmittedValid | migranite/run.py:121-124 | every migration collected is loaded, admitted, and the only one with its key |
| Orchestrator.RunOne | migranite/run.py:147-159 | a migration whose `str` raises is not recorded; otherwise exactly one record is appended whose outcome is whether `run()` completed, and a failed run is re-raised |
| Orchestrator.RunBatchAttempts | migranite/run.py:129-130 | the k-th record a batch appends is the attempt of the k-th migration of the batch |
| Orchestrator.RunBatchFailFast | migranite/run.py:129-130 | every appended record but possibly the last is a success, and the last is a failure exactly when a run failed |
| Orchestrator.RunBatchStops | migranite/run.py:129-130 | a failed run stops the batch at the migration whose record was appended last; a crash stops it at the next migration, whose `str` raised |
| Orchestrator.RunBatchDone | migranite/run.py:129-130 | a batch that finishes appends one successful attempt per migration, in batch order |
| Orchestrator.MigrateAppends | migranite/run.py:88-130 | `migrate` only appends to the store, and every appended record but possibly the last is a success |
| Orchestrator.MigrateExits | migranite/run.py:111-120 | an exit leaves the store untouched and names a token of the command that did not resolve to exactly one migration |
| Orchestrator.MigrateDone | migranite/run.py:88-130 | a finished `migrate` resolved every token and appended one successful attempt per admitted migration, in `<` order |
| Orchestrator.MigrateSkipsSucceeded | migranite/run.py:121-127 | without `force`, a migration that already succeeded, or any sharing its key, gets no new record |
| Orchestrator.MigrateIgnoresTokenOrder | migranite/run.py:99-129 | when `migrate` finishes on some tokens, it also finishes on any rearrangement of them and leaves the same store |
| Orchestrator.RepeatedTokenAdmitsTwice | migranite/run.py:121-124 | a token given twice collects its migration twice, so it is run twice |
| Orchestrator.Migrate | migranite/run.py:88-96 | when loading the migrations fails, `migrate` crashes before any token is looked at, printing nothing and leaving the store unchanged; otherwise it is `MigrateLoaded` on the loaded list |
| RunAll.Visit | migranite/run.py:139-144 | a migration with no success is run; one with a success gets a skip line and no record |
| RunAll.MigrateAll | migranite/run.py:133-144 | a load failure raises before anything runs; otherwise the loaded migrations are walked in file order |
| RunAll.WalkAppends | migranite/run.py:139-144 | the walk only appends, and every appended record but possibly the last is a success |
| RunAll.WalkSkipsSucceeded | migranite/run.py:140-144 | a migration that succeeded before the walk, or any sharing its key, gets no new record |
| RunAll.WalkDone | migranite/run.py:139-144 | a finished walk leaves every migration successful |
| RunAll.WalkTwice | migranite/run.py:133-144 | `migrate_all` is idempotent: a second run after a finished one appends nothing and only prints skip lines |
| RunAll.WalkAttemptsDue | migranite/run.py:139-144 | the due migrations are a subsequence of the list; the k-th record the walk appends is the attempt of the k-th due migration; a finished walk attempted every due migration, and a failed run is the last one attempted |
| RunAll.DueMembers | migranite/run.py:140-144 | a migration is due exactly when the store had no success for its key before the walk and it is the first of its key in the list |
| RunAll.DueAfterMembers | migranite/run.py:140-144 | part way through the list, a migration is still due exactly when it has no success in the starting store and no earlier migration of the walk shares its key |
| RunAll.WalkFreshIsBatch | migranite/run.py:139-144 | on a store with no success for any of them and distinct keys, the walk runs exactly the batch `migrate` would run on the same list |
| MigrationList.HeaderIdentifies | migranite/run.py:46-57 | two entries printing the same `[LBL] str(m)` line have the same standing and the same `str(m)` |
| MigrationList.RenderedShort | migranite/run.py:56-57 | without `--long`, the printed lines are the entries' header lines, one each, in order |
| MigrationList.RenderedLong | migranite/run.py:56-63 | with `--long`, entry i prints line 2i, its header, and line 2i+1, its long description between blank lines or an empty line |
| MigrationList.LongLine | migranite/run.py:59-63 | the `--long` line is empty exactly when the long description is empty |
| MigrationList.PrintedLines | migranite/run.py:36-63 | the output of `print_list` is one header line per listed file, each followed with `--long` by that file's long line |
| MigrationList.PassedIsLastWrite | migranite/run.py:46-47 | `PSS` exactly when the last record about the migration is a success |
| MigrationList.FailingIsLastWrite | migranite/run.py:49-51 | `ERR` exactly when some record about the migration exists but the last one is not a success |
| MigrationList.UnattemptedIsNoRecord | migranite/run.py:52-54 | blank exactly when no record about the migration exists |
| MigrationList.ListOne | migranite/run.py:43-63 | one file's entry exists exactly when it loads and its docstring can be read; it shows the standing, `str(m)`, and with `--long` the long description |
| MigrationList.ListEachSpec | migranite/run.py:43-63 | the listing holds the entries of the files in order up to the first that raises, and reports that file's error |
| MigrationList.PrintListMatchesGetAll | migranite/run.py:36-63 | a complete listing covers exactly the migrations `get_all` loads, in the same order, with each one's standing and `str(m)` |
| MigrationList.ListAfterMigrateAll | migranite/run.py:36-63 | after a finished `migrate_all`, listing the same directory raises nothing and shows every migration as `PSS` |
| Create.NextNum | migranite/run.py:78 | the new number is at least 1 and above every existing number |
| Create.NextNumLeast | migranite/run.py:78 | it is the least such number |
| Create.CreateWith | migranite/run.py:75-80 | creating fails exactly when loading the existing migrations fails; otherwise the name is the padded next number, '-', the name and the template's extension |
| Create.CreatedParsesBack | migranite/run.py:76-80 | the created file name parses back as the next number and the given name, so the new migration sorts after every existing one |
| Create.ConfiguredWidth | migranite/run.py:75-80 | with the configured `digits`, the number part is at least that wide and reads back as the next number |
| Create.AsWrittenIgnoresDigits | migranite/run.py:75 | as written, a configured width of 5 still names the first migration "001-init.py" |
| Create.FileOrderPastWidth | migranite/run.py:80 | past the padding width, file-name order differs from migration order: "1000-x.py" lists before "999-x.py" although 999 < 1000 |

## Left out

- The command-line front end (`__main__.py`), `utils.py`, the MongoDB backend, backend selection (`db/__init__.py`) and packaging (`setup.py`) are not part of this model.
- `init` is not modelled. It only writes configuration and template files.
- Reading files, executing modules, `hashlib.md5` and `datetime.now()` are not modelled as computations. Their results come from `Env`: the source text, its digest, the module's docstring, whether `run()` completes, and the clock readings.
- JSON text encoding and decoding (`json.load`/`json.dump`, indentation) are not modelled. The store file holds the decoded value. Floating-point JSON numbers are not modelled either.
- JsonStore.FromJson: a record field of an unexpected JSON type (such as a number where text is expected) is treated as a conversion failure. `dateutil` parsing of `ts` is not modelled: the timestamp is kept as its text.
- Text.PyInt: `int()` is modelled on ASCII text only: ASCII whitespace, an optional sign, ASCII digits and single underscores between digits. Non-ASCII digits and whitespace are not modelled, and neither are the Unicode `isdigit` forms in token classification. The `strip()` inside `int()` removes ASCII whitespace only.
- Text.Strip: `strip()` is modelled on ASCII whitespace only. Python also strips Unicode whitespace, so `Docs.SplitDoc` and `Docs.SplitDocAt` keep such characters at the ends of a docstring where Python would remove them.
- Orchestrator.Migrate, RunAll.MigrateAll, MigrationList.PrintList: a failure to load the store inside `db.success`, `db.find` or `db.add` is not modelled. The store is passed in as an already loaded log.
- Create.CreateWith: reading the template and writing the new file are not modelled, and neither are their I/O errors. The model produces the file name.
- Orchestrator.ClassifyStem: holds only for stems whose number part is plain digits. A number that `int()` accepts but `isdigit` refuses ("+1", " 1", "1_0") cannot be asked for by its file's stem, as Orchestrator.SignedStemNotFound shows.
- Sorting.Sort: stability of `sorted()` is not proved. It is not needed: a token given twice admits the same migration twice (Orchestrator.RepeatedTokenAdmitsTwice), but admitted migrations that share a key are the same migration, so all ascending orders of them are the same sequence (Sorting.AscendingUnique).
- Terminal colour codes and the `verbose` flag are not modelled. Neither is the "not exists" message `get_files` prints for a missing directory: that case yields the empty listing.
- Docs.ReadDoc: a module without a docstring makes `_read_doc` call `None.strip()`, which raises; the model returns that error.

## Findings

| source | as written | input that shows it | evidently intended | confidence | as-written member | corrected member |
|---|---|---|---|---|---|---|
| migranite/db/json.py:48-68 | `MigrationResult(...)` is called with six keyword arguments, but the namedtuple in migranite/db/base.py:5-7 declares eight fields without defaults (`short` and `long` are also declared) | any `add` of a migration, or loading a store whose first record converts: the call lacks `short` and `long` | records built from the six fields the JSON file stores | high, not executed | JsonStore.AsWrittenNeverBuildsRecord | JsonStore.FromToJson |
| migranite/run.py:75 | `config.get('digits', 3)` looks in the top level of the configuration, but the configuration keeps `digits` in its `[migrations]` section | `create` with `digits = 5` in `[migrations]` in an empty directory names the file "001-init.py" | "00001-init.py", padded to the configured width | medium, not executed | Create.AsWrittenIgnoresDigits | Create.ConfiguredWidth |
