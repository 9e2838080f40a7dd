/** The JSON file backend (migranite/db/json.py): the log is a JSON array of objects
    with the keys `ts`, `num`, `name`, `source`, `md5`, `result`, loaded on first use,
    cached, and rewritten whole after every append. Turning text into a JSON value and
    back (`json.load`, `json.dump`) is not modelled: the file holds the decoded value,
    or is missing, or does not decode. */
module JsonStore {
  import opened Results
  import opened Text
  import opened Identity
  import opened Docs
  import opened ResultLog

  /** Decoded JSON, without floating-point numbers. */
  datatype Json =
    | JNull
    | JBool(b: bool)
    | JInt(i: int)
    | JStr(s: string)
    | JArr(items: seq<Json>)
    | JObj(fields: map<string, Json>)

  /** The store file as `open` and `json.load` find it. */
  datatype StoreFile = Missing | Malformed | Document(value: Json)

  /** The keys every stored object must have. */
  const RecordKeys: set<string> := {"ts", "num", "name", "source", "md5", "result"}

  /** `str(n)` for any integer. */
  function IntToString(n: int): string {
    if n < 0 then "-" + NatToString(-n) else NatToString(n)
  }

  /** `int()` reads back what `str()` writes, for every integer. */
  lemma ParseIntToString(n: int)
    ensures PyInt(IntToString(n)) == Some(n)
  {
    var s := IntToString(n);
    var d := if n < 0 then NatToString(-n) else NatToString(n);
    assert !IsSpace(d[0]) && !IsSpace(d[|d| - 1]);
    if n < 0 {
      assert s == "-" + d;
      assert s[1..] == d;
      assert s[|s| - 1] == d[|d| - 1];
      StripFixed(s);
      PlainDigitsAccepted(d);
    } else {
      assert s == d;
      PyIntDigits(d);
    }
  }

  /** `int(raw['num'])`: numbers as they are, booleans as 0 and 1, strings parsed. */
  function NumFromJson(j: Json): (r: Option<int>)
    ensures j.JInt? ==> r == Some(j.i)
    ensures j.JBool? ==> r == Some(if j.b then 1 else 0)
    ensures r.Some? ==> j.JInt? || j.JBool? || j.JStr?
  {
    match j
    case JInt(n) => Some(n)
    case JBool(b) => Some(if b then 1 else 0)
    case JStr(s) => PyInt(s)
    case _ => None
  }

  /** `_result_to_json`. */
  function ToJson(r: Record): (j: Json)
    ensures j.JObj? && j.fields.Keys == RecordKeys
  {
    JObj(map[
      "ts" := JStr(r.ts.iso),
      "num" := JInt(r.num),
      "name" := JStr(r.name),
      "source" := JStr(r.source),
      "md5" := JStr(r.md5),
      "result" := JBool(r.result)])
  }

  /** `_result_from_json` with the record the six keys describe: a missing key, or
      an item that is not an object, fails; `ts` must be text and `num` must
      convert with `int()`. */
  function FromJson(j: Json): (r: Option<Record>)
    ensures r.Some? ==> j.JObj? && RecordKeys <= j.fields.Keys
    ensures r.Some? ==> NumFromJson(j.fields["num"]) == Some(r.value.num)
  {
    if !j.JObj? || !(RecordKeys <= j.fields.Keys) then None
    else
      var f := j.fields;
      match (f["ts"], NumFromJson(f["num"]), f["name"], f["source"], f["md5"], f["result"])
      case (JStr(ts), Some(num), JStr(name), JStr(source), JStr(md5), JBool(result)) =>
        Some(Record(Timestamp(ts), num, name, source, md5, result))
      case _ => None
  }

  /** Reading a record back gives the record that was written. */
  lemma FromToJson(r: Record)
    ensures FromJson(ToJson(r)) == Some(r)
  {
    assert RecordKeys <= ToJson(r).fields.Keys;
  }

  /** Keys beyond the six are ignored. */
  lemma FromJsonIgnoresExtraKeys(r: Record, extra: map<string, Json>)
    requires extra.Keys !! RecordKeys
    ensures FromJson(JObj(ToJson(r).fields + extra)) == Some(r)
  {
    var f := ToJson(r).fields + extra;
    assert forall k :: k in RecordKeys ==> f[k] == ToJson(r).fields[k];
    assert RecordKeys <= f.Keys;
  }

  /** The loop over the decoded array: every item converted in order, the first
      item that does not convert failing the whole load. */
  function LoadItems(items: seq<Json>): (r: Result<seq<Record>, Error>)
    ensures r.Ok? <==> forall i :: 0 <= i < |items| ==> FromJson(items[i]).Some?
    ensures r.Ok? ==> |r.value| == |items|
    ensures r.Ok? ==> forall i :: 0 <= i < |items| ==> FromJson(items[i]) == Some(r.value[i])
    ensures r.Err? ==> && r.error.BadRecord?
                       && r.error.index < |items|
                       && FromJson(items[r.error.index]).None?
                       && forall i :: 0 <= i < r.error.index ==> FromJson(items[i]).Some?
  {
    if |items| == 0 then Ok([])
    else
      var init := items[..|items| - 1];
      var loaded :- LoadItems(init);
      match FromJson(items[|items| - 1])
      case None => Err(BadRecord(|items| - 1))
      case Some(r) => Ok(loaded + [r])
  }

  /** The `results` property's load: a missing file is an empty log, a file that does
      not decode is an error, and the decoded value is iterated. Iterating an object
      yields its keys and a string its characters, neither of which is a record;
      null, booleans and numbers cannot be iterated. */
  function Load(file: StoreFile): (r: Result<seq<Record>, Error>)
    ensures file == Missing ==> r == Ok([])
    ensures file == Malformed ==> r == Err(CorruptStore)
    ensures r.Ok? && file.Document? && file.value.JArr? ==> |r.value| == |file.value.items|
    ensures r.Ok? && file.Document? && !file.value.JArr? ==> r.value == []
  {
    match file
    case Missing => Ok([])
    case Malformed => Err(CorruptStore)
    case Document(v) =>
      match v
      case JArr(items) => LoadItems(items)
      case JObj(f) => if |f| == 0 then Ok([]) else Err(BadRecord(0))
      case JStr(s) => if |s| == 0 then Ok([]) else Err(BadRecord(0))
      case _ => Err(NotIterable)
  }

  /** `_save_results`: the whole log as an array of objects. */
  function Save(log: seq<Record>): Json {
    JArr(seq(|log|, i requires 0 <= i < |log| => ToJson(log[i])))
  }

  /** What is saved loads back unchanged. */
  lemma LoadSave(log: seq<Record>)
    ensures Load(Document(Save(log))) == Ok(log)
  {
    var items := Save(log).items;
    forall i | 0 <= i < |items|
      ensures FromJson(items[i]) == Some(log[i])
    {
      FromToJson(log[i]);
    }
    var r := LoadItems(items);
    assert r.Ok?;
    assert |r.value| == |log|;
    assert forall i :: 0 <= i < |log| ==> r.value[i] == log[i];
    assert r.value == log;
    assert Load(Document(Save(log))) == r;
  }

  /** The backend object: the file and the `_results` cache, unset until first read. */
  datatype JsonDb = JsonDb(file: StoreFile, cache: Option<seq<Record>>)

  /** The `results` property: load once, then serve the cache. */
  function ReadResults(db: JsonDb): (r: Result<(seq<Record>, JsonDb), Error>)
    ensures db.cache.Some? ==> r == Ok((db.cache.value, db))
    ensures db.cache.None? ==> (r.Ok? <==> Load(db.file).Ok?)
    ensures db.cache.None? && r.Ok? ==>
              r.value.0 == Load(db.file).value && r.value.1 == JsonDb(db.file, Some(r.value.0))
  {
    match db.cache
    case Some(log) => Ok((log, db))
    case None =>
      var log :- Load(db.file);
      Ok((log, JsonDb(db.file, Some(log))))
  }

  /** `add`: append to the cached log and rewrite the file with all of it. */
  function Add(db: JsonDb, r: Record): (res: Result<JsonDb, Error>)
    ensures res.Ok? <==> ReadResults(db).Ok?
    ensures res.Ok? ==> res.value.cache == Some(ReadResults(db).value.0 + [r])
  {
    var (log, _) :- ReadResults(db);
    var log' := log + [r];
    Ok(JsonDb(Document(Save(log')), Some(log')))
  }

  /** The cache, once set, is what the file holds. */
  predicate Coherent(db: JsonDb) {
    db.cache.Some? ==> Load(db.file) == Ok(db.cache.value)
  }

  /** A freshly opened store is coherent, and reading it keeps it coherent. */
  lemma ResultsKeepsCoherent(db: JsonDb)
    requires Coherent(db)
    ensures ReadResults(db).Ok? ==> Coherent(ReadResults(db).value.1)
    ensures ReadResults(db).Ok? ==> ReadResults(db).value.0 == Load(db.file).value
  {
  }

  /** After `add`, the file loads as the old log with the new record at the end,
      and the cache agrees with it. */
  lemma AddAppends(db: JsonDb, r: Record)
    requires Coherent(db)
    ensures Add(db, r).Ok? <==> Load(db.file).Ok?
    ensures Add(db, r).Ok? ==>
              && Load(Add(db, r).value.file) == Ok(Load(db.file).value + [r])
              && Coherent(Add(db, r).value)
  {
    if Add(db, r).Ok? {
      LoadSave(Load(db.file).value + [r]);
    }
  }

  /** `_result_from_migration` with the record the store writes: the migration's
      identity, the source and digest it was run from, the outcome and the time. */
  function ResultFromMigration(m: Migration, script: Script, outcome: bool, ts: Timestamp): (r: Record)
    ensures About(r, m) && r.result == outcome
    ensures r.source == script.source && r.md5 == script.md5 && r.ts == ts
  {
    Record(ts, m.num, m.name, script.source, script.md5, outcome)
  }

  /** The fields `MigrationResult` declares (migranite/db/base.py), none with a default. */
  const NamedTupleFields: set<string> := {"ts", "num", "name", "short", "long", "source", "md5", "result"}

  /** Calling the namedtuple with keyword arguments: unknown names are rejected,
      then every declared field must be given. */
  function NamedTupleCall(given: set<string>): (r: Result<(), Error>)
    ensures r.Ok? <==> given == NamedTupleFields
  {
    if given - NamedTupleFields != {} then Err(UnexpectedFields(given - NamedTupleFields))
    else if NamedTupleFields - given != {} then Err(MissingFields(NamedTupleFields - given))
    else Ok(())
  }

  /** `_result_from_migration` as written: it passes the six keys the JSON objects have. */
  function ResultFromMigrationAsWritten(m: Migration, script: Script, outcome: bool, ts: Timestamp): Result<Record, Error> {
    var _ :- NamedTupleCall(RecordKeys);
    Ok(ResultFromMigration(m, script, outcome, ts))
  }

  /** `_result_from_json` as written: the argument expressions are evaluated first
      (a missing key or a bad `ts` or `num` raises there), then the namedtuple is
      called with the same six keyword arguments. */
  function FromJsonAsWritten(j: Json): Result<Record, Error> {
    match FromJson(j)
    case None => Err(BadRecord(0))
    case Some(r) =>
      var _ :- NamedTupleCall(RecordKeys);
      Ok(r)
  }

  /** As written, no record is ever built: `short` and `long` are always missing,
      so every `add` raises and every non-empty store fails to load, on the
      namedtuple call for a well-formed stored object and earlier otherwise. */
  lemma AsWrittenNeverBuildsRecord(m: Migration, script: Script, outcome: bool, ts: Timestamp, j: Json)
    ensures ResultFromMigrationAsWritten(m, script, outcome, ts) == Err(MissingFields({"short", "long"}))
    ensures FromJson(j).Some? ==> FromJsonAsWritten(j) == Err(MissingFields({"short", "long"}))
    ensures FromJson(j).None? ==> FromJsonAsWritten(j) == Err(BadRecord(0))
  {
    assert RecordKeys - NamedTupleFields == {};
    assert "short" !in RecordKeys && "long" !in RecordKeys;
    assert NamedTupleFields - RecordKeys == {"short", "long"};
  }
}
