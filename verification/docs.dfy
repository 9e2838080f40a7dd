/** Python migrations (migranite/migrations/py.py): the module docstring split into
    a one-line `short` and a `long` description, read once and cached. Executing the
    module source is a collaborator: its outcome is given as a `PyModule` value. */
module Docs {
  import opened Results
  import opened Text
  import opened Identity

  /** What executing a migration file's source produces: either the module body
      raises, or the module exists with its `__doc__` and the fate of its `run()`. */
  datatype PyModule = ExecFails | Loaded(doc: Option<string>, runCompletes: bool)

  /** One migration file as its collaborators present it: the text, its md5 digest
      (computed elsewhere), and the executed module. */
  datatype Script = Script(source: string, md5: string, pymodule: PyModule)

  /** No leading and no trailing whitespace. */
  predicate Stripped(s: string) {
    |s| == 0 || (!IsSpace(s[0]) && !IsSpace(s[|s| - 1]))
  }

  /** A character missing from `s` is missing from `Strip(s)`. */
  lemma StripAddsNothing(s: string, c: char)
    requires c !in s
    ensures c !in Strip(s)
  {
    var r := Strip(s);
    var k := StripStart(s);
    forall i | 0 <= i < |r|
      ensures r[i] != c
    {
      assert r[i] == s[k + i];
    }
  }

  /** `_read_doc` on a present docstring: strip it; if a newline remains, `short`
      is the stripped text before the first newline and `long` the stripped rest;
      otherwise `short` is the whole stripped text and `long` is empty. */
  function SplitDoc(doc: string): (r: (string, string))
    ensures '\n' !in r.0
    ensures Stripped(r.0) && Stripped(r.1)
    ensures '\n' !in Strip(doc) ==> r == (Strip(doc), "")
  {
    var raw := Strip(doc);
    var i := FirstIndex(raw, '\n');
    if i < |raw| then
      StripAddsNothing(raw[..i], '\n');
      (Strip(raw[..i]), Strip(raw[i + 1..]))
    else
      (raw, "")
  }

  /** The newline case from the outside: whenever the stripped doc is `a + "\n" + b`
      with no newline in `a`, the descriptions are `a` and `b`, each stripped. */
  lemma SplitDocAt(doc: string, a: string, b: string)
    requires Strip(doc) == a + "\n" + b
    requires '\n' !in a
    ensures SplitDoc(doc) == (Strip(a), Strip(b))
  {
    var raw := Strip(doc);
    assert raw[|a|] == '\n';
    forall k | 0 <= k < |a|
      ensures raw[k] != '\n'
    {
      assert raw[k] == a[k];
    }
    FirstIndexAt(raw, '\n', |a|);
    assert raw[..|a|] == a && raw[|a| + 1..] == b;
  }

  /** The first occurrence is the one with no earlier occurrence. */
  lemma FirstIndexAt(s: string, c: char, i: nat)
    requires i < |s| && s[i] == c
    requires forall k :: 0 <= k < i ==> s[k] != c
    ensures FirstIndex(s, c) == i
  {
  }

  /** Text that neither starts nor ends with whitespace is its own strip. */
  lemma StripFixed(s: string)
    requires Stripped(s)
    ensures Strip(s) == s
  {
    StripCharacterized(s, 0, |s|);
    assert s[0..|s|] == s;
  }

  /** A whitespace character at either end is dropped by stripping. */
  lemma StripDropsEnds(x: string, c: char, d: char)
    requires IsSpace(c) && IsSpace(d)
    ensures Strip([c] + x + [d]) == Strip(x)
  {
    var k := StripStart(x);
    var e := k + |Strip(x)|;
    SurroundWindow(x, c, d, k, e);
  }

  /** Surrounding `x` with whitespace shifts a window between whitespace by one. */
  lemma SurroundWindow(x: string, c: char, d: char, k: nat, e: nat)
    requires IsSpace(c) && IsSpace(d)
    requires k <= e <= |x|
    requires forall i :: 0 <= i < k ==> IsSpace(x[i])
    requires forall i :: e <= i < |x| ==> IsSpace(x[i])
    requires k == e || (!IsSpace(x[k]) && !IsSpace(x[e - 1]))
    ensures var s := [c] + x + [d];
            && (forall i :: 0 <= i < k + 1 ==> IsSpace(s[i]))
            && (forall i :: e + 1 <= i < |s| ==> IsSpace(s[i]))
            && (k == e || (!IsSpace(s[k + 1]) && !IsSpace(s[e])))
            && Strip(s) == x[k..e]
  {
    var s := [c] + x + [d];
    forall i | 0 <= i < k + 1
      ensures IsSpace(s[i])
    {
      if i > 0 {
        assert s[i] == x[i - 1];
      }
    }
    forall i | e + 1 <= i < |s|
      ensures IsSpace(s[i])
    {
      if i < |s| - 1 {
        assert s[i] == x[i - 1];
      }
    }
    if k < e {
      assert s[k + 1] == x[k] && s[e] == x[e - 1];
    }
    assert s[k + 1..e + 1] == x[k..e];
    StripCharacterized(s, k + 1, e + 1);
  }

  /** A leading newline is dropped by stripping. */
  lemma StripNewlineFront(x: string)
    requires Stripped(x)
    ensures Strip("\n" + x) == x
  {
    var s := "\n" + x;
    assert IsSpace(s[0]);
    if |x| > 0 {
      assert s[1] == x[0] && s[|s| - 1] == x[|x| - 1];
    }
    StripCharacterized(s, 1, |s|);
    assert s[1..] == x;
  }

  /** The placeholders of the default migration template (migranite/init_data.py). */
  const ShortPlaceholder: string := "<EMPTY DESCRIPTION>"
  const LongPlaceholder: string := "<EMPTY LONG DESCRIPTION>"

  /** The default template's docstring: a space, the short placeholder, an empty
      line, the long placeholder, and a final newline. */
  const TemplateDoc: string := " " + ShortPlaceholder + "\n\n" + LongPlaceholder + "\n"

  /** A docstring laid out like the template's, a space, the short text, an empty
      line, the long text and a final newline, splits back into the two texts. */
  lemma {:induction false} TemplateShapedDoc(a: string, l: string)
    requires |a| > 0 && |l| > 0 && Stripped(a) && Stripped(l)
    requires '\n' !in a
    ensures SplitDoc(" " + a + "\n\n" + l + "\n") == (a, l)
  {
    var b := "\n" + l;
    StripNewlineFront(l);
    var body := a + "\n" + b;
    assert " " + a + "\n\n" + l + "\n" == [' '] + body + ['\n'];
    StripDropsEnds(body, ' ', '\n');
    StripFixed(body);
    StripFixed(a);
    SplitDocAt(" " + a + "\n\n" + l + "\n", a, b);
  }

  /** The docstring of the default migration template gives its two placeholders. */
  lemma DefaultTemplateDoc()
    ensures SplitDoc(TemplateDoc) == (ShortPlaceholder, LongPlaceholder)
  {
    TemplateShapedDoc(ShortPlaceholder, LongPlaceholder);
  }

  /** `_read_doc` on a module: executing the source may raise, and a module without
      a docstring has `__doc__ = None`, whose `.strip()` raises. */
  function ReadDoc(fileName: string, pm: PyModule): (r: Result<(string, string), Error>)
    ensures r.Ok? <==> pm.Loaded? && pm.doc.Some?
    ensures r.Ok? ==> r.value == SplitDoc(pm.doc.value)
    ensures pm.Loaded? && pm.doc.None? ==> r == Err(MissingDoc(fileName))
    ensures pm == ExecFails ==> r == Err(ExecFailed(fileName))
  {
    match pm
    case ExecFails => Err(ExecFailed(fileName))
    case Loaded(None, _) => Err(MissingDoc(fileName))
    case Loaded(Some(doc), _) => Ok(SplitDoc(doc))
  }

  /** The `_short`/`_long` attributes: unset until the first read, then both set. */
  datatype DocCache = Unread | Cached(short: string, long: string)

  /** The `short` property: read the docstring on first access, then serve the cache. */
  function Short(fileName: string, pm: PyModule, cache: DocCache): (r: Result<(string, DocCache), Error>)
    ensures cache.Cached? ==> r == Ok((cache.short, cache))
    ensures cache.Unread? && r.Ok? ==>
              ReadDoc(fileName, pm).Ok? && r.value.1 == Cached(r.value.0, ReadDoc(fileName, pm).value.1)
    ensures cache.Unread? ==> (r.Ok? <==> ReadDoc(fileName, pm).Ok?)
  {
    match cache
    case Cached(s, _) => Ok((s, cache))
    case Unread =>
      var (s, l) :- ReadDoc(fileName, pm);
      Ok((s, Cached(s, l)))
  }

  /** The `long` property, sharing the cache with `short`. */
  function Long(fileName: string, pm: PyModule, cache: DocCache): (r: Result<(string, DocCache), Error>)
    ensures cache.Cached? ==> r == Ok((cache.long, cache))
    ensures cache.Unread? && r.Ok? ==>
              ReadDoc(fileName, pm).Ok? && r.value.1 == Cached(ReadDoc(fileName, pm).value.0, r.value.0)
    ensures cache.Unread? ==> (r.Ok? <==> ReadDoc(fileName, pm).Ok?)
  {
    match cache
    case Cached(_, l) => Ok((l, cache))
    case Unread =>
      var (s, l) :- ReadDoc(fileName, pm);
      Ok((l, Cached(s, l)))
  }

  /** Reading `short` and then `long` from a fresh object gives exactly the pair
      `_read_doc` computes, and the second read leaves the cache as the first set
      it, whatever module it is handed: the docstring is read once. */
  lemma {:induction false} ShortThenLong(fileName: string, pm: PyModule, other: PyModule)
    requires ReadDoc(fileName, pm).Ok?
    ensures var (s, c1) := Short(fileName, pm, Unread).value;
            var (l, c2) := Long(fileName, other, c1).value;
            && (s, l) == SplitDoc(pm.doc.value)
            && c2 == c1
  {
  }

  /** Whether the module's `run()` returns normally; a module whose body raised has
      no usable `run`. */
  predicate RunCompletes(pm: PyModule) {
    pm.Loaded? && pm.runCompletes
  }

  /** `str(m)` for a Python migration: reading `short` may raise. */
  function Describe(m: Migration, script: Script): (r: Result<string, Error>)
    ensures r.Ok? <==> ReadDoc(m.fileName, script.pymodule).Ok?
    ensures r.Ok? ==> r.value == Str(m, SplitDoc(script.pymodule.doc.value).0)
  {
    var (short, _) :- Short(m.fileName, script.pymodule, Unread);
    Ok(Str(m, short))
  }
}
