/** `create(config, template, name)` (migranite/run.py): the new migration takes
    the next number after the largest existing one, zero-padded, followed by '-',
    the given name and the template's extension. Reading the template and writing
    the new file are left to the caller; what is modelled is the file name. */
module Create {
  import opened Results
  import opened Text
  import opened Identity
  import Discovery

  /** The default `digits` of the `[migrations]` section. */
  const DefaultDigits: nat := 3

  /** The loaded configuration as far as `create` is concerned: `digits` lives in
      the `[migrations]` section, already converted with `int()`; the top-level
      dictionary never has a `digits` key. */
  datatype Config = Config(migrationsDigits: int)

  /** The largest number among the migrations, and 0 when there is none. */
  function MaxNum(objects: seq<Migration>): (n: nat)
    ensures forall i :: 0 <= i < |objects| ==> objects[i].num <= n
    ensures n == 0 || exists i :: 0 <= i < |objects| && objects[i].num == n
  {
    if |objects| == 0 then 0
    else
      var rest := MaxNum(objects[1..]);
      assert forall i :: 1 <= i < |objects| ==> objects[i] == objects[1..][i - 1];
      if objects[0].num >= rest then objects[0].num else rest
  }

  /** `max([m.num for m in ...] + [0]) + 1`. */
  function NextNum(objects: seq<Migration>): (n: nat)
    ensures n >= 1
    ensures forall i :: 0 <= i < |objects| ==> objects[i].num < n
  {
    MaxNum(objects) + 1
  }

  /** The next number is the least one above every existing number. */
  lemma NextNumLeast(objects: seq<Migration>, k: nat)
    requires k >= 1
    requires forall i :: 0 <= i < |objects| ==> objects[i].num < k
    ensures NextNum(objects) <= k
  {
  }

  /** The width `zfill` gets: a negative `digits` pads nothing. */
  function Width(digits: int): nat {
    if digits < 0 then 0 else digits
  }

  /** `'{}-{}{}'.format(str(num).zfill(width), name, ext)`. */
  function NewFileName(num: nat, width: nat, name: string, ext: string): (r: string)
    ensures |r| == |ZFill(NatToString(num), width)| + 1 + |name| + |ext|
  {
    ZFill(NatToString(num), width) + "-" + name + ext
  }

  /** `create` with a given padding width: the existing migrations are loaded (which
      may raise), the extension is taken from the template path. */
  function CreateWith(dir: Discovery.Directory, templatePath: string, name: string, width: nat): (r: Result<string, Error>)
    ensures r.Err? <==> Discovery.GetAll(dir).Err?
    ensures r.Ok? ==> r.value == NewFileName(NextNum(Discovery.GetAll(dir).value), width, name, SplitExt(templatePath).1)
  {
    var objects :- Discovery.GetAll(dir);
    Ok(NewFileName(NextNum(objects), width, name, SplitExt(templatePath).1))
  }

  /** `create` as written: `config.get('digits', 3)` looks in the top-level
      dictionary, where `digits` never is, so the width is always 3. */
  function CreateAsWritten(config: Config, dir: Discovery.Directory, templatePath: string, name: string): Result<string, Error> {
    CreateWith(dir, templatePath, name, DefaultDigits)
  }

  /** `create` reading the configured `digits` of the `[migrations]` section. */
  function CreateConfigured(config: Config, dir: Discovery.Directory, templatePath: string, name: string): Result<string, Error> {
    CreateWith(dir, templatePath, name, Width(config.migrationsDigits))
  }

  lemma EmptyDirectory()
    ensures Discovery.GetAll(Discovery.Listing([])) == Ok([])
  {
    assert Discovery.Files(Discovery.Listing([])) == [];
  }

  lemma DefaultTemplateExt()
    ensures SplitExt("templates/default.py").1 == ".py"
  {
    var p := "templates/default.py";
    assert LastIndex(p, '/') == 9 by {
      assert p[9] == '/';
      assert forall k :: 9 < k < |p| ==> p[k] != '/';
    }
    assert LastIndex(p, '.') == 17 by {
      assert p[17] == '.';
      assert forall k :: 17 < k < |p| ==> p[k] != '.';
    }
    assert p[10] != '.';
  }

  lemma OneText()
    ensures NatToString(1) == "1"
  {
  }

  lemma FirstFileNames()
    ensures NewFileName(1, 3, "init", ".py") == "001-init.py"
    ensures NewFileName(1, 5, "init", ".py") == "00001-init.py"
  {
    OneText();
    assert ZFill("1", 3) == "001";
    assert ZFill("1", 5) == "00001";
  }

  /** In an empty directory the first migration gets number 1. */
  lemma CreateInEmpty(templatePath: string, name: string, width: nat)
    ensures CreateWith(Discovery.Listing([]), templatePath, name, width) == Ok(NewFileName(1, width, name, SplitExt(templatePath).1))
  {
    EmptyDirectory();
    assert NextNum([]) == 1;
  }

  /** As written, the configured width is ignored: in an empty directory a
      configured width of 5 still names the first migration "001-init.py". */
  lemma AsWrittenIgnoresDigits()
    ensures CreateAsWritten(Config(5), Discovery.Listing([]), "templates/default.py", "init") == Ok("001-init.py")
    ensures CreateConfigured(Config(5), Discovery.Listing([]), "templates/default.py", "init") == Ok("00001-init.py")
  {
    DefaultTemplateExt();
    CreateInEmpty("templates/default.py", "init", 3);
    CreateInEmpty("templates/default.py", "init", 5);
    FirstFileNames();
  }

  /** The number part of a new file name is `str(num)` padded to the width, and
      reads back as the number. */
  lemma NewFileNameWidth(num: nat, width: nat, name: string, ext: string)
    ensures var digits := ZFill(NatToString(num), width);
            && |digits| >= width
            && IsDigits(digits) && DigitsValue(digits) == num
            && NewFileName(num, width, name, ext)[..|digits|] == digits
  {
    ZFillValue(num, width);
  }

  /** The number part of the configured name has at least the configured width
      and reads back as the next number. */
  lemma ConfiguredWidth(config: Config, dir: Discovery.Directory, templatePath: string, name: string)
    ensures CreateConfigured(config, dir, templatePath, name).Ok? ==>
              var num := NextNum(Discovery.GetAll(dir).value);
              var digits := ZFill(NatToString(num), Width(config.migrationsDigits));
              && |digits| >= Width(config.migrationsDigits)
              && IsDigits(digits) && DigitsValue(digits) == num
              && CreateConfigured(config, dir, templatePath, name).value[..|digits|] == digits
  {
    if Discovery.GetAll(dir).Ok? {
      var num := NextNum(Discovery.GetAll(dir).value);
      NewFileNameWidth(num, Width(config.migrationsDigits), name, SplitExt(templatePath).1);
    }
  }

  /** A template extension `splitext` produced comes back from the new file name
      when the stem starts with a digit and holds no '/'. */
  lemma SplitExtAppend(stem: string, ext: string)
    requires |stem| > 0 && IsDigit(stem[0]) && '/' !in stem
    requires |ext| > 0 && ext[0] == '.' && '.' !in ext[1..] && '/' !in ext
    ensures SplitExt(stem + ext) == (stem, ext)
  {
    var p := stem + ext;
    assert p[|stem|] == '.';
    assert forall k :: |stem| < k < |p| ==> p[k] == ext[k - |stem|] && p[k] != '.';
    assert forall k :: 0 <= k < |p| ==> p[k] != '/' by {
      forall k | 0 <= k < |p|
        ensures p[k] != '/'
      {
        if k < |stem| {
          assert p[k] == stem[k];
        } else {
          assert p[k] == ext[k - |stem|];
        }
      }
    }
    assert LastIndex(p, '.') == |stem|;
    assert LastIndex(p, '/') == -1;
    assert p[0] == stem[0] && p[0] != '.';
    assert p[..|stem|] == stem && p[|stem|..] == ext;
  }

  /** A new file name parses back as its number and name, provided the name holds
      no '/' and the extension is one `splitext` produces. */
  lemma NewFileNameParses(num: nat, width: nat, name: string, ext: string)
    requires '/' !in name
    requires |ext| > 0 && ext[0] == '.' && '.' !in ext[1..] && '/' !in ext
    ensures var fileName := NewFileName(num, width, name, ext);
            Parse(fileName) == Ok(Migration(fileName, num, name))
  {
    var digits := ZFill(NatToString(num), width);
    ZFillValue(num, width);
    var stem := digits + "-" + name;
    assert '/' !in stem by {
      forall k | 0 <= k < |stem|
        ensures stem[k] != '/'
      {
        if k < |digits| {
          assert IsDigit(digits[k]);
        } else if k > |digits| {
          assert stem[k] == name[k - |digits| - 1];
        }
      }
    }
    assert IsDigit(stem[0]);
    SplitExtAppend(stem, ext);
    assert NewFileName(num, width, name, ext) == stem + ext;
    PyIntDigits(digits);
    assert '-' !in digits by {
      forall k | 0 <= k < |digits|
        ensures digits[k] != '-'
      {
        assert IsDigit(digits[k]);
      }
    }
    ParseAccepts(stem + ext, digits, num, name);
  }

  /** The created name parses back as the next number and the given name, so the
      new migration is later than every existing one; this needs the name to hold
      no '/' and the template to have an extension, the case `get_files` lists. */
  lemma CreatedParsesBack(dir: Discovery.Directory, templatePath: string, name: string, width: nat)
    requires '/' !in name && SplitExt(templatePath).1 != ""
    ensures CreateWith(dir, templatePath, name, width).Ok? ==>
              var fileName := CreateWith(dir, templatePath, name, width).value;
              var num := NextNum(Discovery.GetAll(dir).value);
              && Parse(fileName) == Ok(Migration(fileName, num, name))
              && forall i :: 0 <= i < |Discovery.GetAll(dir).value| ==>
                   Lt(Discovery.GetAll(dir).value[i], Migration(fileName, num, name))
  {
    if Discovery.GetAll(dir).Ok? {
      NewFileNameParses(NextNum(Discovery.GetAll(dir).value), width, name, SplitExt(templatePath).1);
    }
  }

  lemma ThousandText()
    ensures NatToString(1000) == "1000"
  {
    assert NatToString(10) == "10";
    assert NatToString(100) == "100";
  }

  lemma NineNineNineText()
    ensures NatToString(999) == "999"
  {
    assert NatToString(99) == "99";
  }

  /** File-name order is not migration order once a number outgrows the padding:
      "1000-x.py" lists before "999-x.py", so `migrate_all`, which walks files in
      name order, runs 1000 before 999 although `<` puts 999 first. */
  lemma FileOrderPastWidth()
    ensures NewFileName(1000, DefaultDigits, "x", ".py") == "1000-x.py"
    ensures NewFileName(999, DefaultDigits, "x", ".py") == "999-x.py"
    ensures StrLt("1000-x.py", "999-x.py")
    ensures Lt(Migration("999-x.py", 999, "x"), Migration("1000-x.py", 1000, "x"))
  {
    ThousandText();
    NineNineNineText();
    ThousandSortsFirst();
  }

  lemma ThousandSortsFirst()
    ensures StrLt("1000-x.py", "999-x.py")
  {
    assert "1000-x.py"[0] == '1' && "999-x.py"[0] == '9';
  }
}
