/** `sorted(found)` on migrations (migranite/run.py): ascending by Python's `<` on
    migrations, which compares `(num, name)`. Stability is not stated: migrations
    that `migrate` admits and that share a key are equal (`AscendingUnique`). */
module Sorting {
  import opened Text
  import opened Seqs
  import opened Identity

  /** Ascending by `<` (neighbours with equal keys allowed). */
  predicate Ascending(s: seq<Migration>) {
    forall i, j :: 0 <= i < j < |s| ==> !Lt(s[j], s[i])
  }

  /** "Not greater" is transitive for `<` on migrations. */
  lemma LeTransitive(a: Migration, b: Migration, c: Migration)
    requires !Lt(b, a) && !Lt(c, b)
    ensures !Lt(c, a)
  {
    if Lt(c, a) {
      LtTrichotomy(a, b);
      if !Same(a, b) {
        LtTransitive(c, a, b);
      }
    }
  }

  lemma AscendingCons(x: Migration, t: seq<Migration>)
    requires Ascending(t)
    requires forall j :: 0 <= j < |t| ==> !Lt(t[j], x)
    ensures Ascending([x] + t)
  {
    var r := [x] + t;
    forall i, j | 0 <= i < j < |r|
      ensures !Lt(r[j], r[i])
    {
      assert r[j] == t[j - 1];
      if i > 0 {
        assert r[i] == t[i - 1];
      }
    }
  }

  /** Insert `x` before the first element that is not smaller than it. */
  function Insert(x: Migration, s: seq<Migration>): (r: seq<Migration>)
    requires Ascending(s)
    ensures Ascending(r)
    ensures multiset(r) == multiset(s) + multiset{x}
  {
    if |s| == 0 then [x]
    else if Lt(s[0], x) then
      var t := Insert(x, s[1..]);
      InsertAfterHead(x, s, t);
      [s[0]] + t
    else
      InsertBeforeHead(x, s);
      [x] + s
  }

  lemma InsertAfterHead(x: Migration, s: seq<Migration>, t: seq<Migration>)
    requires |s| > 0 && Ascending(s) && Lt(s[0], x)
    requires Ascending(t) && multiset(t) == multiset(s[1..]) + multiset{x}
    ensures Ascending([s[0]] + t)
    ensures multiset([s[0]] + t) == multiset(s) + multiset{x}
  {
    forall j | 0 <= j < |t|
      ensures !Lt(t[j], s[0])
    {
      var y := t[j];
      assert y in multiset(t);
      if y == x {
        LtTrichotomy(s[0], x);
      } else {
        assert y in multiset(s[1..]);
        var k :| 0 <= k < |s[1..]| && s[1..][k] == y;
        assert s[k + 1] == y;
      }
    }
    AscendingCons(s[0], t);
    assert s == [s[0]] + s[1..];
  }

  lemma InsertBeforeHead(x: Migration, s: seq<Migration>)
    requires |s| > 0 && Ascending(s) && !Lt(s[0], x)
    ensures Ascending([x] + s)
  {
    forall j | 0 <= j < |s|
      ensures !Lt(s[j], x)
    {
      if j > 0 {
        LeTransitive(x, s[0], s[j]);
      }
    }
    AscendingCons(x, s);
  }

  /** `sorted(found)`: an insertion sort. */
  function Sort(s: seq<Migration>): (r: seq<Migration>)
    ensures Ascending(r)
    ensures multiset(r) == multiset(s)
  {
    if |s| == 0 then []
    else
      assert s == [s[0]] + s[1..];
      Insert(s[0], Sort(s[1..]))
  }

  /** No two different elements share a key. */
  predicate KeysDistinguish(s: seq<Migration>) {
    forall i, j :: 0 <= i < |s| && 0 <= j < |s| && Same(s[i], s[j]) ==> s[i] == s[j]
  }

  lemma AscendingHead(a: seq<Migration>, b: seq<Migration>)
    requires Ascending(a) && Ascending(b) && KeysDistinguish(a)
    requires multiset(a) == multiset(b) && |a| > 0
    ensures |b| > 0 && a[0] == b[0]
  {
    assert a[0] in multiset(b) && b[0] in multiset(a);
    var i :| 0 <= i < |b| && b[i] == a[0];
    var j :| 0 <= j < |a| && a[j] == b[0];
    if a[0] != b[0] {
      assert i > 0 && j > 0;
      assert !Lt(a[0], b[0]) && !Lt(b[0], a[0]);
      LtTrichotomy(a[0], b[0]);
      assert false;
    }
  }

  lemma KeysDistinguishTail(a: seq<Migration>)
    requires |a| > 0 && KeysDistinguish(a)
    ensures KeysDistinguish(a[1..])
  {
    forall i, j | 0 <= i < |a[1..]| && 0 <= j < |a[1..]| && Same(a[1..][i], a[1..][j])
      ensures a[1..][i] == a[1..][j]
    {
      assert a[1..][i] == a[i + 1] && a[1..][j] == a[j + 1];
    }
  }

  lemma AscendingTail(a: seq<Migration>)
    requires |a| > 0 && Ascending(a)
    ensures Ascending(a[1..])
  {
    forall i, j | 0 <= i < j < |a[1..]|
      ensures !Lt(a[1..][j], a[1..][i])
    {
      assert a[1..][i] == a[i + 1] && a[1..][j] == a[j + 1];
    }
  }

  /** Two ascending arrangements of the same migrations are the same sequence,
      provided no two different migrations among them share a key. */
  lemma {:induction false} AscendingUnique(a: seq<Migration>, b: seq<Migration>)
    requires Ascending(a) && Ascending(b) && KeysDistinguish(a)
    requires multiset(a) == multiset(b)
    ensures a == b
    decreases |a|
  {
    assert |a| == |multiset(a)| == |b|;
    if |a| > 0 {
      AscendingHead(a, b);
      TailMultiset(a);
      TailMultiset(b);
      KeysDistinguishTail(a);
      AscendingTail(a);
      AscendingTail(b);
      AscendingUnique(a[1..], b[1..]);
      assert a == [a[0]] + a[1..] && b == [b[0]] + b[1..];
    }
  }

  /** Sorting arrangements of the same migrations gives one result when no two
      different migrations share a key. */
  lemma SortIgnoresOrder(a: seq<Migration>, b: seq<Migration>)
    requires multiset(a) == multiset(b) && KeysDistinguish(a)
    ensures Sort(a) == Sort(b)
  {
    var sa := Sort(a);
    forall i, j | 0 <= i < |sa| && 0 <= j < |sa| && Same(sa[i], sa[j])
      ensures sa[i] == sa[j]
    {
      assert sa[i] in multiset(a) && sa[j] in multiset(a);
      var p :| 0 <= p < |a| && a[p] == sa[i];
      var q :| 0 <= q < |a| && a[q] == sa[j];
    }
    AscendingUnique(sa, Sort(b));
  }
}
