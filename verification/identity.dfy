/** Migration identity (migranite/migrations/base.py): a file name `NNN-name.ext`
    parsed into `(num, name)`, Python's `<` and `==` on migrations, and `str(m)`. */
module Identity {
  import opened Results
  import opened Text

  /** A discovered migration. Only `num` and `name` take part in comparisons;
      the file name is kept for reading the script and for messages. */
  datatype Migration = Migration(fileName: string, num: nat, name: string)

  /** `os.path.splitext(file_name)[0]`. */
  function Stem(fileName: string): string {
    SplitExt(fileName).0
  }

  /** The stem `d-rest` read as the identity `(int(d), rest)`: `d` is the text
      before the first '-', and `rest` is everything after it. */
  ghost predicate NamesIdentity(stem: string, num: nat, name: string) {
    var p := |stem| - |name| - 1;
    && EndsWithName(stem, name)
    && '-' !in stem[..p]
    && PyInt(stem[..p]) == Some(num)
  }

  /** `stem` ends with '-' and `name`. */
  ghost predicate EndsWithName(stem: string, name: string) {
    var p := |stem| - |name| - 1;
    0 <= p && stem[p] == '-' && stem[p + 1..] == name
  }

  /** `MigrationBase.__init__`: drop the extension, split the stem at the first '-',
      and read the left part with `int()`. A stem without '-' fails the two-way
      unpacking; a left part `int()` rejects raises. The left part holds no '-',
      so the number read is never negative. */
  function Parse(fileName: string): (r: Result<Migration, Error>)
    ensures r.Ok? ==> r.value.fileName == fileName
    ensures r.Ok? ==> NamesIdentity(Stem(fileName), r.value.num, r.value.name)
    ensures r.Ok? ==> var p := |Stem(fileName)| - |r.value.name| - 1;
                      fileName == Stem(fileName)[..p] + "-" + r.value.name + SplitExt(fileName).1
    ensures r == Err(NoDash(fileName)) <==> '-' !in Stem(fileName)
    ensures r.Err? ==> r.error == NoDash(fileName) || r.error == BadNumber(fileName)
  {
    var stem := Stem(fileName);
    var i := FirstIndex(stem, '-');
    if i == |stem| then
      Err(NoDash(fileName))
    else
      assert '-' !in stem[..i];
      match PyInt(stem[..i])
      case None => Err(BadNumber(fileName))
      case Some(n) =>
        FileNameSplits(fileName, stem[i + 1..]);
        Ok(Migration(fileName, n, stem[i + 1..]))
  }

  /** Conversely, every stem of the form `text-rest`, where `text` holds no '-' and
      `int()` reads it as `n`, parses as `(n, rest)`, with `rest` kept whole even
      when it contains further '-' characters. */
  lemma ParseAccepts(fileName: string, text: string, n: nat, rest: string)
    requires '-' !in text && PyInt(text) == Some(n)
    requires Stem(fileName) == text + "-" + rest
    ensures Parse(fileName) == Ok(Migration(fileName, n, rest))
  {
    var stem := Stem(fileName);
    assert stem[|text|] == '-';
    assert forall k :: 0 <= k < |text| ==> stem[k] == text[k] && stem[k] != '-';
    assert FirstIndex(stem, '-') == |text|;
    assert stem[..|text|] == text;
    assert stem[|text| + 1..] == rest;
  }

  /** `int()` is more lenient than plain digits: a leading sign in the number
      part still loads. */
  lemma ParseSignedNumber()
    ensures Parse("+1-x.py") == Ok(Migration("+1-x.py", 1, "x"))
  {
    SplitExtPy("+1-x");
    assert "+1-x" + ".py" == "+1-x.py";
    assert "+1-x" == "+1" + "-" + "x";
    PlusOne();
    ParseAccepts("+1-x.py", "+1", 1, "x");
  }

  /** ... and so do underscores between its digits. */
  lemma ParseUnderscoredNumber()
    ensures Parse("1_0-x.py") == Ok(Migration("1_0-x.py", 10, "x"))
  {
    SplitExtPy("1_0-x");
    assert "1_0-x" + ".py" == "1_0-x.py";
    OneUnderscoreZero();
    assert "1_0-x" == "1_0" + "-" + "x";
    ParseAccepts("1_0-x.py", "1_0", 10, "x");
  }

  lemma OneUnderscoreZero()
    ensures PyInt("1_0") == Some(10)
  {
    UnderscoreIgnored("1", "0");
    assert "1" + "_" + "0" == "1_0" && "1" + "0" == "10";
    assert DigitsValue("10") == 10 by { assert "10"[..1] == "1"; }
  }

  lemma PlusOne()
    ensures PyInt("+1") == Some(1)
  {
    var s := "+1";
    assert !IsSpace(s[0]) && !IsSpace(s[1]);
    StripCharacterized(s, 0, 2);
    assert s[0..2] == s;
    assert s[1..] == "1";
    PlainDigitsAccepted("1");
  }

  /** The file name is the text before the stem's first '-', that '-', the name
      and the extension, in that order: the extension never reaches the name. */
  lemma FileNameSplits(fileName: string, name: string)
    requires EndsWithName(Stem(fileName), name)
    ensures var p := |Stem(fileName)| - |name| - 1;
            fileName == Stem(fileName)[..p] + "-" + name + SplitExt(fileName).1
  {
    var stem := Stem(fileName);
    var p := |stem| - |name| - 1;
    IdentitySplitsStem(stem, name);
    assert fileName == stem + SplitExt(fileName).1;
  }

  /** A stem naming an identity is its digit text, '-' and the name. */
  lemma IdentitySplitsStem(stem: string, name: string)
    requires EndsWithName(stem, name)
    ensures stem == stem[..|stem| - |name| - 1] + "-" + name
  {
    var p := |stem| - |name| - 1;
    assert stem[..p + 1] == stem[..p] + "-";
    assert stem == stem[..p + 1] + stem[p + 1..];
  }

  /** Python `==` on migrations: equal `num` and equal `name`; the file name is ignored. */
  predicate Same(a: Migration, b: Migration) {
    a.num == b.num && a.name == b.name
  }

  /** Python `<` on migrations: by `num`, ties broken by `name` in string order. */
  predicate Lt(a: Migration, b: Migration) {
    if a.num == b.num then StrLt(a.name, b.name) else a.num < b.num
  }

  lemma LtIrreflexive(a: Migration)
    ensures !Lt(a, a)
  {
    StrLtIrreflexive(a.name);
  }

  lemma LtTransitive(a: Migration, b: Migration, c: Migration)
    requires Lt(a, b) && Lt(b, c)
    ensures Lt(a, c)
  {
    if a.num == b.num == c.num {
      StrLtTransitive(a.name, b.name, c.name);
    }
  }

  /** Exactly one of `a < b`, `b < a`, `a == b` holds (Python's operators). */
  lemma LtTrichotomy(a: Migration, b: Migration)
    ensures Same(a, b) ==> !Lt(a, b) && !Lt(b, a)
    ensures !Same(a, b) ==> (Lt(a, b) <==> !Lt(b, a))
  {
    if a.num == b.num {
      if a.name == b.name {
        StrLtIrreflexive(a.name);
      } else {
        StrLtTotal(a.name, b.name);
        if StrLt(a.name, b.name) {
          StrLtAsymmetric(a.name, b.name);
        }
      }
    }
  }

  /** `str(m)`: `"{num}-{name}: {short}"` with `num` unpadded. */
  function Str(m: Migration, short: string): string {
    NatToString(m.num) + "-" + m.name + ": " + short
  }

  /** The text of `str(m)` before its first '-' is the unpadded decimal of `num`,
      and what follows it starts with `name`. */
  lemma StrShowsIdentity(m: Migration, short: string)
    ensures var s := Str(m, short);
            var i := FirstIndex(s, '-');
            && i < |s|
            && IsDigits(s[..i])
            && DigitsValue(s[..i]) == m.num
            && (s[0] == '0' ==> i == 1)
            && s[i + 1..] == m.name + ": " + short
  {
    var d := NatToString(m.num);
    var s := Str(m, short);
    assert s == d + "-" + (m.name + ": " + short);
    assert s[|d|] == '-';
    assert forall k :: 0 <= k < |d| ==> s[k] == d[k] && s[k] != '-';
    assert FirstIndex(s, '-') == |d|;
    assert s[..|d|] == d;
  }
}
