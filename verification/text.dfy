/** The Python `str` operations the migration runner relies on: `isdigit`/`int` on
    ASCII digits, `str(n)`, `zfill`, `strip` on ASCII whitespace, `os.path.splitext`,
    first/last occurrence of a character, and `<` on strings (code-point order). */
module Text {
  import opened Results

  // ---------------------------------------------------------------- digits

  predicate IsDigit(c: char) {
    '0' <= c <= '9'
  }

  predicate AllDigits(s: string) {
    forall i :: 0 <= i < |s| ==> IsDigit(s[i])
  }

  /** `s.isdigit()`: non-empty and made of digits only. */
  predicate IsDigits(s: string) {
    |s| > 0 && AllDigits(s)
  }

  /** `int(s)` for a string of ASCII digits (the empty string reads as 0). */
  function DigitsValue(s: string): nat
    requires AllDigits(s)
  {
    if |s| == 0 then 0 else 10 * DigitsValue(s[..|s| - 1]) + (s[|s| - 1] as int - '0' as int)
  }

  function DigitChar(d: nat): (c: char)
    requires d < 10
    ensures IsDigit(c) && c as int - '0' as int == d
  {
    ('0' as int + d) as char
  }

  /** `str(n)`: the decimal text of `n`, without padding. */
  function NatToString(n: nat): (s: string)
    ensures IsDigits(s)
    ensures DigitsValue(s) == n
    ensures s[0] == '0' ==> n == 0 && s == "0"
  {
    if n < 10 then [DigitChar(n)]
    else
      var p := NatToString(n / 10);
      var s := p + [DigitChar(n % 10)];
      assert s[..|s| - 1] == p;
      s
  }

  /** `s.zfill(width)` for an unsigned digit string: left-pad with '0' up to `width`. */
  function ZFill(s: string, width: nat): (r: string)
    ensures |r| == if |s| >= width then |s| else width
    ensures r[|r| - |s|..] == s
    ensures forall i :: 0 <= i < |r| - |s| ==> r[i] == '0'
  {
    if |s| >= width then s else seq(width - |s|, _ => '0') + s
  }

  /** Leading zeros do not change the value `int()` reads. */
  lemma {:induction false} LeadingZerosKeepValue(z: string, s: string)
    requires forall i :: 0 <= i < |z| ==> z[i] == '0'
    requires AllDigits(s)
    ensures AllDigits(z + s)
    ensures DigitsValue(z + s) == DigitsValue(s)
    decreases |s|
  {
    if |s| == 0 {
      assert z + s == z;
      ZerosValue(z);
    } else {
      var t := s[..|s| - 1];
      LeadingZerosKeepValue(z, t);
      assert (z + s)[..|z + s| - 1] == z + t;
    }
  }

  lemma {:induction false} ZerosValue(z: string)
    requires forall i :: 0 <= i < |z| ==> z[i] == '0'
    ensures AllDigits(z) && DigitsValue(z) == 0
    decreases |z|
  {
    if |z| > 0 {
      ZerosValue(z[..|z| - 1]);
    }
  }

  /** `int(str(n).zfill(width)) == n` for every width. */
  lemma ZFillValue(n: nat, width: nat)
    ensures IsDigits(ZFill(NatToString(n), width))
    ensures DigitsValue(ZFill(NatToString(n), width)) == n
  {
    var s := NatToString(n);
    var r := ZFill(s, width);
    var z := r[..|r| - |s|];
    assert r == z + s;
    LeadingZerosKeepValue(z, s);
  }

  // ---------------------------------------------------------------- whitespace

  /** `c.isspace()` restricted to ASCII: tab, newline, vertical tab, form feed,
      carriage return, the four separators 0x1C-0x1F, and space. */
  predicate IsSpace(c: char) {
    (9 <= c as int <= 13) || (28 <= c as int <= 31) || c == ' '
  }

  /** The first index at or after `i` whose character is not whitespace, or `|s|`. */
  function SkipSpace(s: string, i: nat): (k: nat)
    requires i <= |s|
    decreases |s| - i
    ensures i <= k <= |s|
    ensures forall j :: i <= j < k ==> IsSpace(s[j])
    ensures k < |s| ==> !IsSpace(s[k])
  {
    if i == |s| || !IsSpace(s[i]) then i else SkipSpace(s, i + 1)
  }

  /** One past the last index below `hi`, and not below `lo`, whose character is
      not whitespace, or `lo`. */
  function SkipSpaceBack(s: string, lo: nat, hi: nat): (e: nat)
    requires lo <= hi <= |s|
    decreases hi
    ensures lo <= e <= hi
    ensures forall j :: e <= j < hi ==> IsSpace(s[j])
    ensures e > lo ==> !IsSpace(s[e - 1])
  {
    if hi == lo || !IsSpace(s[hi - 1]) then hi else SkipSpaceBack(s, lo, hi - 1)
  }

  /** Where `s.strip()` starts and ends in `s`. */
  function StripStart(s: string): nat {
    SkipSpace(s, 0)
  }

  function StripEnd(s: string): (e: nat)
    ensures StripStart(s) <= e <= |s|
  {
    SkipSpaceBack(s, StripStart(s), |s|)
  }

  /** `s.strip()`: a slice of `s` outside which every character is whitespace and
      which neither starts nor ends with whitespace. */
  function Strip(s: string): (r: string)
    ensures StripStart(s) + |r| <= |s| && r == s[StripStart(s)..StripStart(s) + |r|]
    ensures forall i :: 0 <= i < StripStart(s) ==> IsSpace(s[i])
    ensures forall i :: StripStart(s) + |r| <= i < |s| ==> IsSpace(s[i])
    ensures |r| == 0 || (!IsSpace(r[0]) && !IsSpace(r[|r| - 1]))
  {
    s[StripStart(s)..StripEnd(s)]
  }

  /** Conversely, any window of `s` with whitespace all around it and no whitespace
      at its two ends is what `strip` returns. */
  lemma StripCharacterized(s: string, k: nat, e: nat)
    requires k <= e <= |s|
    requires forall i :: 0 <= i < k ==> IsSpace(s[i])
    requires forall i :: e <= i < |s| ==> IsSpace(s[i])
    requires k == e || (!IsSpace(s[k]) && !IsSpace(s[e - 1]))
    ensures Strip(s) == s[k..e]
  {
    var k0, e0 := StripStart(s), StripEnd(s);
    if k < e {
      assert k0 == k;
      assert e0 == e;
    }
  }

  /** Stripping drops no character other than whitespace, so a character `c` that
      is not whitespace is in `Strip(s)` exactly when it is in `s`. */
  lemma StripKeepsNonSpace(s: string, c: char)
    requires !IsSpace(c)
    ensures c in Strip(s) <==> c in s
  {
    var r := Strip(s);
    var k := StripStart(s);
    if c in s {
      var i :| 0 <= i < |s| && s[i] == c;
      assert r[i - k] == c;
    }
    if c in r {
      var j :| 0 <= j < |r| && r[j] == c;
      assert s[k + j] == c;
    }
  }

  // ---------------------------------------------------------------- int()

  /** The digit text `int()` accepts in base 10: ASCII digits, where a single '_'
      may stand between two digits. */
  predicate IsUnderscoredDigits(s: string) {
    && |s| > 0
    && IsDigit(s[0])
    && IsDigit(s[|s| - 1])
    && (forall i :: 0 <= i < |s| ==> IsDigit(s[i]) || s[i] == '_')
    && (forall i, j :: 0 <= i < |s| && 0 <= j < |s| && j == i + 1 && s[i] == '_' ==> s[j] != '_')
  }

  /** The characters of `s` other than '_', in order. */
  function DropUnderscores(s: string): (r: string)
    ensures (forall i :: 0 <= i < |s| ==> IsDigit(s[i]) || s[i] == '_') ==> AllDigits(r)
    ensures '_' !in s ==> r == s
  {
    if |s| == 0 then []
    else (if s[0] == '_' then [] else [s[0]]) + DropUnderscores(s[1..])
  }

  /** What `int()` reads from accepted digit text: the digits, underscores ignored. */
  function UnderscoredValue(s: string): nat
    requires IsUnderscoredDigits(s)
  {
    DigitsValue(DropUnderscores(s))
  }

  /** Python `int(s)` in base 10: surrounding whitespace is ignored, then an
      optional '+' or '-', then digit text as `IsUnderscoredDigits` accepts it;
      anything else raises (`None`). */
  function PyInt(s: string): (r: Option<int>)
    ensures r.Some? ==> |Strip(s)| > 0
    ensures r.Some? && r.value < 0 ==> '-' in s
  {
    var t := Strip(s);
    StripKeepsNonSpace(s, '-');
    if |t| > 0 && (t[0] == '+' || t[0] == '-') then
      if IsUnderscoredDigits(t[1..]) then
        Some(if t[0] == '-' then 0 - UnderscoredValue(t[1..]) else UnderscoredValue(t[1..]))
      else None
    else if IsUnderscoredDigits(t) then Some(UnderscoredValue(t))
    else None
  }

  /** Plain digit text is accepted digit text with nothing to drop. */
  lemma PlainDigitsAccepted(s: string)
    requires IsDigits(s)
    ensures IsUnderscoredDigits(s) && DropUnderscores(s) == s
  {
    assert '_' !in s by {
      forall i | 0 <= i < |s|
        ensures s[i] != '_'
      {
        assert IsDigit(s[i]);
      }
    }
  }

  /** A string of ASCII digits reads as its decimal value. */
  lemma PyIntDigits(s: string)
    requires IsDigits(s)
    ensures PyInt(s) == Some(DigitsValue(s))
  {
    assert !IsSpace(s[0]) && !IsSpace(s[|s| - 1]);
    StripCharacterized(s, 0, |s|);
    assert s[0..|s|] == s;
    assert Strip(s) == s;
    PlainDigitsAccepted(s);
    assert s[0] != '+' && s[0] != '-' by { assert IsDigit(s[0]); }
    assert PyInt(s) == Some(UnderscoredValue(s));
  }

  /** `DropUnderscores` works piecewise. */
  lemma {:induction false} DropUnderscoresConcat(a: string, b: string)
    ensures DropUnderscores(a + b) == DropUnderscores(a) + DropUnderscores(b)
    decreases |a|
  {
    if |a| > 0 {
      var head := if a[0] == '_' then [] else [a[0]];
      assert (a + b)[0] == a[0] && (a + b)[1..] == a[1..] + b;
      assert DropUnderscores(a + b) == head + DropUnderscores(a[1..] + b);
      DropUnderscoresConcat(a[1..], b);
      assert DropUnderscores(a) == head + DropUnderscores(a[1..]);
    } else {
      assert a + b == b;
    }
  }

  /** An underscore between two digit strings does not change what `int()` reads:
      `int("1_0")` is `int("10")`. */
  lemma UnderscoreIgnored(a: string, b: string)
    requires IsDigits(a) && IsDigits(b)
    ensures IsDigits(a + b)
    ensures PyInt(a + "_" + b) == Some(DigitsValue(a + b))
  {
    var s := a + "_" + b;
    JoinedDigits(a, b);
    JoinedAccepted(a, b);
    assert !IsSpace(s[0]) && !IsSpace(s[|s| - 1]);
    StripCharacterized(s, 0, |s|);
    assert s[0..|s|] == s;
    assert Strip(s) == s;
    assert s[0] != '+' && s[0] != '-' by { assert IsDigit(s[0]); }
    assert PyInt(s) == Some(UnderscoredValue(s));
  }

  /** Two digit strings side by side are a digit string. */
  lemma JoinedDigits(a: string, b: string)
    requires IsDigits(a) && IsDigits(b)
    ensures IsDigits(a + b)
  {
    forall i | 0 <= i < |a + b|
      ensures IsDigit((a + b)[i])
    {
      if i < |a| { assert (a + b)[i] == a[i]; } else { assert (a + b)[i] == b[i - |a|]; }
    }
  }

  /** Two digit strings joined by '_' are accepted, and the '_' is dropped. */
  lemma JoinedAccepted(a: string, b: string)
    requires IsDigits(a) && IsDigits(b)
    ensures var s := a + "_" + b;
            && IsUnderscoredDigits(s)
            && DropUnderscores(s) == a + b
  {
    JoinedShape(a, b);
    JoinedDrop(a, b);
  }

  lemma JoinedShape(a: string, b: string)
    requires IsDigits(a) && IsDigits(b)
    ensures IsUnderscoredDigits(a + "_" + b)
  {
    var s := a + "_" + b;
    assert s[0] == a[0] && s[|s| - 1] == b[|b| - 1];
    forall i | 0 <= i < |s|
      ensures i != |a| ==> IsDigit(s[i])
    {
      if i < |a| {
        assert s[i] == a[i];
      } else if i > |a| {
        assert s[i] == b[i - |a| - 1];
      }
    }
    forall i, j | 0 <= i < |s| && 0 <= j < |s| && j == i + 1 && s[i] == '_'
      ensures s[j] != '_'
    {
      assert i == |a|;
      assert s[j] == b[0];
    }
  }

  lemma JoinedDrop(a: string, b: string)
    requires IsDigits(a) && IsDigits(b)
    ensures DropUnderscores(a + "_" + b) == a + b
  {
    var t := "_" + b;
    assert a + "_" + b == a + t;
    assert t[0] == '_' && t[1..] == b;
    assert DropUnderscores(t) == DropUnderscores(b);
    PlainDigitsAccepted(a);
    PlainDigitsAccepted(b);
    DropUnderscoresConcat(a, t);
  }

  // ---------------------------------------------------------------- searching

  /** `s.find(c)`, with "not found" as `|s|`. */
  function FirstIndex(s: string, c: char): (i: nat)
    ensures i <= |s|
    ensures forall k :: 0 <= k < i ==> s[k] != c
    ensures i < |s| ==> s[i] == c
  {
    if |s| == 0 then 0
    else if s[0] == c then 0
    else 1 + FirstIndex(s[1..], c)
  }

  /** `s.rfind(c)`: the last index holding `c`, or -1. */
  function LastIndex(s: string, c: char): (i: int)
    ensures -1 <= i < |s|
    ensures i >= 0 ==> s[i] == c
    ensures forall k :: i < k < |s| ==> s[k] != c
  {
    if |s| == 0 then -1
    else if s[|s| - 1] == c then |s| - 1
    else LastIndex(s[..|s| - 1], c)
  }

  // ---------------------------------------------------------------- os.path.splitext

  /** Whether `p[from..to]` holds a character other than '.'. */
  predicate HasNonDot(p: string, from: int, to: int)
    requires 0 <= from && to <= |p|
  {
    exists k :: from <= k < to && p[k] != '.'
  }

  /** POSIX `os.path.splitext(p)`: the extension runs from the last '.' to the end,
      provided that dot comes after the last '/' and the base name has a character
      other than '.' before it; otherwise the extension is empty. */
  function SplitExt(p: string): (r: (string, string))
    ensures r.0 + r.1 == p
    ensures r.1 == "" || (r.1[0] == '.' && '.' !in r.1[1..] && '/' !in r.1)
  {
    var sep := LastIndex(p, '/');
    var dot := LastIndex(p, '.');
    if dot > sep && HasNonDot(p, sep + 1, dot) then
      assert p[dot..][1..] == p[dot + 1..];
      (p[..dot], p[dot..])
    else
      (p, "")
  }

  /** The extension is non-empty exactly when the base name (the part after the
      last '/') has a '.' that is preceded by a character other than '.'; it is
      then the text from the last '.' on, as `SplitExt`'s contract says. */
  lemma SplitExtNonEmpty(p: string)
    ensures SplitExt(p).1 != "" <==>
              exists k, d :: 0 <= k < d < |p| && p[k] != '.' && p[d] == '.' && '.' !in p[d + 1..] && '/' !in p[k..]
  {
    var sep := LastIndex(p, '/');
    var dot := LastIndex(p, '.');
    if SplitExt(p).1 != "" {
      assert dot > sep && HasNonDot(p, sep + 1, dot);
      var k :| sep + 1 <= k < dot && p[k] != '.';
      assert '.' !in p[dot + 1..];
      assert '/' !in p[k..];
    }
    if exists k, d :: 0 <= k < d < |p| && p[k] != '.' && p[d] == '.' && '.' !in p[d + 1..] && '/' !in p[k..] {
      var k, d :| 0 <= k < d < |p| && p[k] != '.' && p[d] == '.' && '.' !in p[d + 1..] && '/' !in p[k..];
      assert dot == d;
      assert sep < k;
      assert HasNonDot(p, sep + 1, dot);
    }
  }

  /** A stem that starts with neither '.' nor '/' and holds no '/' keeps ".py" as
      its extension and comes back unchanged as the root. */
  lemma SplitExtPy(stem: string)
    requires |stem| > 0 && stem[0] != '.'
    requires '/' !in stem
    ensures SplitExt(stem + ".py") == (stem, ".py")
  {
    var p := stem + ".py";
    assert p[|stem|] == '.' && p[|stem| + 1..] == "py";
    assert '/' !in p;
    assert LastIndex(p, '.') == |stem|;
    assert p[0] != '.';
    assert HasNonDot(p, 0, |stem|);
    assert p[..|stem|] == stem;
  }

  // ---------------------------------------------------------------- ordering

  /** Python's `a < b` on `str`: lexicographic by code point; a proper prefix comes first. */
  predicate StrLt(a: string, b: string) {
    if |b| == 0 then false
    else if |a| == 0 then true
    else if a[0] != b[0] then a[0] < b[0]
    else StrLt(a[1..], b[1..])
  }

  /** The independent description of the same order: `a` is a proper prefix of `b`,
      or they first differ at some index `k` where `a` holds the smaller character. */
  ghost predicate Lexicographic(a: string, b: string) {
    (|a| < |b| && a == b[..|a|])
    || exists k :: 0 <= k < |a| && k < |b| && a[..k] == b[..k] && a[k] < b[k]
  }

  /** `<` on strings is the lexicographic order, in both directions. */
  lemma StrLtIsLexicographic(a: string, b: string)
    ensures StrLt(a, b) <==> Lexicographic(a, b)
  {
    if StrLt(a, b) {
      StrLtLexicographic(a, b);
    }
    if Lexicographic(a, b) {
      LexicographicStrLt(a, b);
    }
  }

  lemma {:induction false} StrLtLexicographic(a: string, b: string)
    requires StrLt(a, b)
    ensures Lexicographic(a, b)
    decreases |a|
  {
    if |a| == 0 {
      assert a == b[..0];
    } else if a[0] != b[0] {
      assert a[..0] == b[..0];
    } else {
      var a', b' := a[1..], b[1..];
      StrLtLexicographic(a', b');
      if |a'| < |b'| && a' == b'[..|a'|] {
        assert a == [a[0]] + a' && b[..|a|] == [b[0]] + b'[..|a'|];
      } else {
        var k :| 0 <= k < |a'| && k < |b'| && a'[..k] == b'[..k] && a'[k] < b'[k];
        assert a[..k + 1] == [a[0]] + a'[..k] && b[..k + 1] == [b[0]] + b'[..k];
        assert a[k + 1] == a'[k] && b[k + 1] == b'[k];
      }
    }
  }

  lemma {:induction false} LexicographicStrLt(a: string, b: string)
    requires Lexicographic(a, b)
    ensures StrLt(a, b)
    decreases |a|
  {
    if |a| > 0 {
      var a', b' := a[1..], b[1..];
      if |a| < |b| && a == b[..|a|] {
        assert a[0] == b[0];
        assert a' == b'[..|a'|];
        LexicographicStrLt(a', b');
      } else {
        var k :| 0 <= k < |a| && k < |b| && a[..k] == b[..k] && a[k] < b[k];
        CommonPrefixStart(a, b, k);
        if k > 0 {
          assert a'[..k - 1] == a[..k][1..] && b'[..k - 1] == b[..k][1..];
          assert a'[k - 1] == a[k] && b'[k - 1] == b[k];
          LexicographicStrLt(a', b');
        }
      }
    }
  }

  lemma CommonPrefixStart(a: string, b: string, k: nat)
    requires 0 < |a| && 0 < |b| && k <= |a| && k <= |b| && a[..k] == b[..k]
    ensures k == 0 || a[0] == b[0]
  {
    if k > 0 {
      assert a[..k][0] == a[0] && b[..k][0] == b[0];
    }
  }

  lemma {:induction false} StrLtIrreflexive(a: string)
    ensures !StrLt(a, a)
    decreases |a|
  {
    if |a| > 0 {
      StrLtIrreflexive(a[1..]);
    }
  }

  lemma {:induction false} StrLtTransitive(a: string, b: string, c: string)
    requires StrLt(a, b) && StrLt(b, c)
    ensures StrLt(a, c)
    decreases |a|
  {
    if |a| > 0 && a[0] == b[0] && b[0] == c[0] {
      StrLtTransitive(a[1..], b[1..], c[1..]);
    }
  }

  lemma {:induction false} StrLtTotal(a: string, b: string)
    requires a != b
    ensures StrLt(a, b) || StrLt(b, a)
    decreases |a|
  {
    if |a| > 0 && |b| > 0 && a[0] == b[0] {
      assert a == [a[0]] + a[1..] && b == [b[0]] + b[1..];
      StrLtTotal(a[1..], b[1..]);
    }
  }

  lemma StrLtAsymmetric(a: string, b: string)
    requires StrLt(a, b)
    ensures !StrLt(b, a)
  {
    if StrLt(b, a) {
      StrLtTransitive(a, b, a);
      StrLtIrreflexive(a);
    }
  }
}
