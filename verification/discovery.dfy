/** Discovery of migrations (migranite/migrations/__init__.py): the directory listing
    filtered and sorted into candidate file names, each name turned into a migration,
    and the lookup of migrations by number and/or name. */
module Discovery {
  import opened Results
  import opened Text
  import opened Seqs
  import opened Identity

  /** What `os.path.isdir` and `os.listdir` report for the migrations path. */
  datatype Directory = NotADirectory | Listing(names: seq<string>)

  // ---------------------------------------------------------------- sorting names

  /** Ascending in Python's string order (equal neighbours allowed). */
  predicate SortedNames(s: seq<string>) {
    forall i, j :: 0 <= i < j < |s| ==> !StrLt(s[j], s[i])
  }

  lemma SortedNamesTail(s: seq<string>)
    requires |s| > 0 && SortedNames(s)
    ensures SortedNames(s[1..])
  {
    forall i, j | 0 <= i < j < |s| - 1
      ensures !StrLt(s[1..][j], s[1..][i])
    {
      assert s[1..][i] == s[i + 1] && s[1..][j] == s[j + 1];
    }
  }

  /** "Not greater" is transitive for Python's string order. */
  lemma StrLeTransitive(a: string, b: string, c: string)
    requires !StrLt(b, a) && !StrLt(c, b)
    ensures !StrLt(c, a)
  {
    if StrLt(c, a) {
      if a == b {
      } else {
        StrLtTotal(a, b);
        StrLtTransitive(c, a, b);
      }
    }
  }

  /** Putting in front an element not greater than any of `t` keeps `t` sorted. */
  lemma SortedNamesCons(x: string, t: seq<string>)
    requires SortedNames(t)
    requires forall j :: 0 <= j < |t| ==> !StrLt(t[j], x)
    ensures SortedNames([x] + t)
  {
    var r := [x] + t;
    forall i, j | 0 <= i < j < |r|
      ensures !StrLt(r[j], r[i])
    {
      assert r[j] == t[j - 1];
      if i > 0 {
        assert r[i] == t[i - 1];
      }
    }
  }

  /** Insert `x` into a sorted sequence before the first element not smaller than it. */
  function InsertName(x: string, s: seq<string>): (r: seq<string>)
    requires SortedNames(s)
    ensures SortedNames(r)
    ensures multiset(r) == multiset(s) + multiset{x}
  {
    if |s| == 0 then [x]
    else if StrLt(s[0], x) then
      var t := InsertName(x, s[1..]);
      InsertAfterHead(x, s, t);
      [s[0]] + t
    else
      InsertBeforeHead(x, s);
      [x] + s
  }

  lemma InsertAfterHead(x: string, s: seq<string>, t: seq<string>)
    requires |s| > 0 && SortedNames(s) && StrLt(s[0], x)
    requires SortedNames(t) && multiset(t) == multiset(s[1..]) + multiset{x}
    ensures SortedNames([s[0]] + t)
    ensures multiset([s[0]] + t) == multiset(s) + multiset{x}
  {
    forall j | 0 <= j < |t|
      ensures !StrLt(t[j], s[0])
    {
      var y := t[j];
      assert y in multiset(t);
      if y == x {
        StrLtAsymmetric(s[0], x);
      } else {
        assert y in multiset(s[1..]);
        var k :| 0 <= k < |s[1..]| && s[1..][k] == y;
        assert s[k + 1] == y;
      }
    }
    SortedNamesCons(s[0], t);
    assert s == [s[0]] + s[1..];
  }

  lemma InsertBeforeHead(x: string, s: seq<string>)
    requires |s| > 0 && SortedNames(s) && !StrLt(s[0], x)
    ensures SortedNames([x] + s)
  {
    forall j | 0 <= j < |s|
      ensures !StrLt(s[j], x)
    {
      if j > 0 {
        StrLeTransitive(x, s[0], s[j]);
      }
    }
    SortedNamesCons(x, s);
  }

  /** `sorted(names)`: insertion sort in Python's string order. */
  function SortNames(s: seq<string>): (r: seq<string>)
    ensures SortedNames(r)
    ensures multiset(r) == multiset(s)
  {
    if |s| == 0 then []
    else
      assert s == [s[0]] + s[1..];
      InsertName(s[0], SortNames(s[1..]))
  }

  /** Two sorted arrangements of the same names start with the same name. */
  lemma SortedNamesHead(a: seq<string>, b: seq<string>)
    requires SortedNames(a) && SortedNames(b)
    requires multiset(a) == multiset(b) && |a| > 0
    ensures |b| > 0 && a[0] == b[0]
  {
    assert a[0] in multiset(b) && b[0] in multiset(a);
    var i :| 0 <= i < |b| && b[i] == a[0];
    var j :| 0 <= j < |a| && a[j] == b[0];
    if a[0] != b[0] {
      assert i > 0 && j > 0;
      assert !StrLt(a[0], b[0]) && !StrLt(b[0], a[0]);
      StrLtTotal(a[0], b[0]);
      assert false;
    }
  }

  /** Two sorted arrangements of the same names are the same sequence. */
  lemma {:induction false} SortedNamesUnique(a: seq<string>, b: seq<string>)
    requires SortedNames(a) && SortedNames(b)
    requires multiset(a) == multiset(b)
    ensures a == b
    decreases |a|
  {
    assert |a| == |multiset(a)| == |b|;
    if |a| > 0 {
      SortedNamesHead(a, b);
      TailMultiset(a);
      TailMultiset(b);
      SortedNamesTail(a);
      SortedNamesTail(b);
      SortedNamesUnique(a[1..], b[1..]);
      assert a == [a[0]] + a[1..] && b == [b[0]] + b[1..];
    }
  }

  // ---------------------------------------------------------------- candidate files

  /** `get_files` keeps a name unless it starts with '.' or has an empty extension. */
  predicate Candidate(fileName: string) {
    && !(|fileName| > 0 && fileName[0] == '.')
    && SplitExt(fileName).1 != ""
  }

  /** The loop of `get_files`: the candidates of `s`, order kept. */
  function Candidates(s: seq<string>): (r: seq<string>)
    ensures forall i :: 0 <= i < |r| ==> Candidate(r[i])
    ensures forall x :: multiset(r)[x] == if Candidate(x) then multiset(s)[x] else 0
    ensures Subsequence(r, s)
  {
    FilterSatisfies(Candidate, s);
    FilterCounts(Candidate, s);
    FilterSubsequence(Candidate, s);
    Filter(Candidate, s)
  }

  /** Filtering keeps a sorted listing sorted. */
  lemma {:induction false} CandidatesSorted(s: seq<string>)
    requires SortedNames(s)
    ensures SortedNames(Candidates(s))
    decreases |s|
  {
    if |s| > 0 {
      var t := Candidates(s[1..]);
      SortedNamesTail(s);
      CandidatesSorted(s[1..]);
      if Candidate(s[0]) {
        CandidatesKeepHead(s, t);
      }
    }
  }

  lemma CandidatesKeepHead(s: seq<string>, t: seq<string>)
    requires |s| > 0
    requires Subsequence(t, s[1..])
    requires forall x :: multiset(t)[x] == if Candidate(x) then multiset(s[1..])[x] else 0
    ensures Subsequence([s[0]] + t, s)
    ensures SortedNames(s) && SortedNames(t) ==> SortedNames([s[0]] + t)
  {
    assert ([s[0]] + t)[1..] == t;
    if SortedNames(s) && SortedNames(t) {
      forall j | 0 <= j < |t|
        ensures !StrLt(t[j], s[0])
      {
        assert multiset(t)[t[j]] > 0;
        assert t[j] in multiset(s[1..]);
        var k :| 0 <= k < |s[1..]| && s[1..][k] == t[j];
        assert s[k + 1] == t[j];
      }
      SortedNamesCons(s[0], t);
    }
  }

  /** `get_files`: a path that is not a directory yields nothing; otherwise the
      listing, sorted, with hidden and extension-less names left out. */
  function Files(dir: Directory): (r: seq<string>)
    ensures dir.NotADirectory? ==> r == []
    ensures forall i :: 0 <= i < |r| ==> Candidate(r[i])
    ensures SortedNames(r)
    ensures dir.Listing? ==>
              forall x :: multiset(r)[x] == if Candidate(x) then multiset(dir.names)[x] else 0
  {
    match dir
    case NotADirectory => []
    case Listing(names) =>
      CandidatesSorted(SortNames(names));
      Candidates(SortNames(names))
  }

  /** The order in which the operating system lists the names does not matter. */
  lemma FilesIgnoreListingOrder(a: seq<string>, b: seq<string>)
    requires multiset(a) == multiset(b)
    ensures Files(Listing(a)) == Files(Listing(b))
  {
    var fa, fb := Files(Listing(a)), Files(Listing(b));
    assert forall x :: multiset(fa)[x] == multiset(fb)[x];
    assert multiset(fa) == multiset(fb);
    SortedNamesUnique(fa, fb);
  }

  // ---------------------------------------------------------------- migrations

  /** `get`: only ".py" files are migrations; their name is parsed by `MigrationPy`. */
  function Get(fileName: string): (r: Result<Migration, Error>)
    ensures SplitExt(fileName).1 != ".py" ==> r == Err(UnknownType(fileName))
    ensures SplitExt(fileName).1 == ".py" ==> r == Parse(fileName)
  {
    var (_, ext) := SplitExt(fileName);
    if ext == ".py" then Parse(fileName) else Err(UnknownType(fileName))
  }

  /** `[get(fn) for fn in files]`: one migration per file in the same order, or the
      error of the first file that is not a migration. */
  function GetEach(files: seq<string>, get: string -> Result<Migration, Error>): (r: Result<seq<Migration>, Error>)
    ensures r.Ok? <==> forall i :: 0 <= i < |files| ==> get(files[i]).Ok?
    ensures r.Ok? ==> |r.value| == |files| && forall i :: 0 <= i < |files| ==> get(files[i]) == Ok(r.value[i])
  {
    if |files| == 0 then Ok([])
    else
      var m :- get(files[0]);
      var rest :- GetEach(files[1..], get);
      assert forall i :: 1 <= i < |files| ==> files[i] == files[1..][i - 1];
      Ok([m] + rest)
  }

  /** The error `[get(fn) for fn in files]` raises is that of the first file `get`
      rejects. */
  lemma {:induction false} GetEachFirstError(files: seq<string>, get: string -> Result<Migration, Error>)
    requires GetEach(files, get).Err?
    ensures exists i :: 0 <= i < |files| && get(files[i]) == Err(GetEach(files, get).error)
                        && forall j :: 0 <= j < i ==> get(files[j]).Ok?
    decreases |files|
  {
    if get(files[0]).Ok? {
      GetEachFirstError(files[1..], get);
      var i :| 0 <= i < |files[1..]| && get(files[1..][i]) == Err(GetEach(files[1..], get).error)
               && forall j :: 0 <= j < i ==> get(files[1..][j]).Ok?;
      assert files[1..][i] == files[i + 1];
      assert forall j :: 1 <= j < i + 1 ==> files[j] == files[1..][j - 1];
    }
  }

  /** `get_all`: the migrations of the candidate files, in file-name order. */
  function GetAll(dir: Directory): (r: Result<seq<Migration>, Error>)
    ensures r.Ok? <==> forall f :: f in Files(dir) ==> Get(f).Ok?
    ensures r.Ok? ==> |r.value| == |Files(dir)|
    ensures r.Ok? ==> forall i :: 0 <= i < |r.value| ==> Get(Files(dir)[i]) == Ok(r.value[i])
    ensures r.Ok? ==> forall i :: 0 <= i < |r.value| ==> r.value[i].fileName == Files(dir)[i]
  {
    GetEach(Files(dir), Get)
  }

  // ---------------------------------------------------------------- lookup

  /** Whether `m` has the requested number and name, an absent request matching anything. */
  predicate Matches(m: Migration, num: Option<nat>, name: Option<string>) {
    && (num.None? || m.num == num.value)
    && (name.None? || m.name == name.value)
  }

  /** What one element contributes in the loop of `find`: itself when it matches
      the requested field(s), and, when nothing is requested, the whole list. */
  function FindStep(all: seq<Migration>, m: Migration, num: Option<nat>, name: Option<string>): seq<Migration> {
    if num.Some? && name.Some? then
      if m.num == num.value && m.name == name.value then [m] else []
    else if num.Some? then
      if m.num == num.value then [m] else []
    else if name.Some? then
      if m.name == name.value then [m] else []
    else
      all
  }

  function FindLoop(all: seq<Migration>, rest: seq<Migration>, num: Option<nat>, name: Option<string>): seq<Migration> {
    if |rest| == 0 then [] else FindStep(all, rest[0], num, name) + FindLoop(all, rest[1..], num, name)
  }

  /** `find(migrations, num, name)`. */
  function Find(ms: seq<Migration>, num: Option<nat>, name: Option<string>): seq<Migration> {
    FindLoop(ms, ms, num, name)
  }

  /** With a number or a name requested, one element contributes itself exactly when it matches. */
  lemma FindStepMatches(all: seq<Migration>, m: Migration, num: Option<nat>, name: Option<string>)
    requires num.Some? || name.Some?
    ensures FindStep(all, m, num, name) == if Matches(m, num, name) then [m] else []
  {
  }

  /** `Matches` as a test on migrations. */
  function MatchesOf(num: Option<nat>, name: Option<string>): Migration -> bool {
    m => Matches(m, num, name)
  }

  /** With a number or a name requested, `find` is a filter over the list. */
  lemma {:induction false} FindIsFilter(all: seq<Migration>, rest: seq<Migration>, num: Option<nat>, name: Option<string>)
    requires num.Some? || name.Some?
    ensures FindLoop(all, rest, num, name) == Filter(MatchesOf(num, name), rest)
    decreases |rest|
  {
    if |rest| > 0 {
      FindIsFilter(all, rest[1..], num, name);
      FindStepMatches(all, rest[0], num, name);
    }
  }

  /** With a number or a name requested, `find` keeps exactly the matching
      migrations, each as often as it occurs, in their original order. */
  lemma FindSelects(all: seq<Migration>, rest: seq<Migration>, num: Option<nat>, name: Option<string>)
    requires num.Some? || name.Some?
    ensures var r := FindLoop(all, rest, num, name);
            && Subsequence(r, rest)
            && forall m :: multiset(r)[m] == if Matches(m, num, name) then multiset(rest)[m] else 0
  {
    FindIsFilter(all, rest, num, name);
    FilterSubsequence(MatchesOf(num, name), rest);
    FilterCounts(MatchesOf(num, name), rest);
  }

  /** `k` copies of `all`, one after another. */
  function Repeat(all: seq<Migration>, k: nat): (r: seq<Migration>)
    ensures |r| == k * |all|
  {
    if k == 0 then [] else all + Repeat(all, k - 1)
  }

  /** With nothing requested, `find` appends the whole list once per element:
      `n * n` results for `n` migrations, the list repeated `n` times. */
  lemma {:induction false} FindUnconstrained(all: seq<Migration>, rest: seq<Migration>)
    ensures FindLoop(all, rest, None, None) == Repeat(all, |rest|)
    ensures |FindLoop(all, rest, None, None)| == |rest| * |all|
    decreases |rest|
  {
    if |rest| > 0 {
      FindUnconstrained(all, rest[1..]);
    }
  }
}
