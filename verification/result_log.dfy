/** The result store's shared logic (migranite/db/base.py): an append-only sequence of
    attempt records, looked up by `(num, name)`, with the last attempt deciding success. */
module ResultLog {
  import opened Seqs
  import opened Identity

  /** An instant, carried as the text `datetime.isoformat(sep='T')` writes for it. */
  datatype Timestamp = Timestamp(iso: string)

  /** One attempt, with the six fields the JSON store writes and reads back
      (`MigrationResult` also declares `short` and `long`; see `JsonStore`). */
  datatype Record = Record(ts: Timestamp, num: int, name: string, source: string, md5: string, result: bool)

  /** Whether record `r` is about migration `m`: same `num` and same `name`. */
  predicate About(r: Record, m: Migration) {
    r.num == m.num && r.name == m.name
  }

  /** `DBSimpleBase.find`: the records about `m`, in stored order. */
  function Find(log: seq<Record>, m: Migration): (r: seq<Record>)
    ensures forall i :: 0 <= i < |r| ==> About(r[i], m)
    ensures |r| <= |log|
  {
    if |log| == 0 then []
    else if About(log[0], m) then [log[0]] + Find(log[1..], m)
    else Find(log[1..], m)
  }

  /** `find` keeps exactly the records about `m`, each as often as stored, in
      stored order. */
  lemma {:induction false} FindContents(log: seq<Record>, m: Migration)
    ensures forall x :: multiset(Find(log, m))[x] == if About(x, m) then multiset(log)[x] else 0
    ensures Subsequence(Find(log, m), log)
    decreases |log|
  {
    if |log| > 0 {
      var t := Find(log[1..], m);
      FindContents(log[1..], m);
      assert log == [log[0]] + log[1..];
      if About(log[0], m) {
        assert ([log[0]] + t)[1..] == t;
      }
    }
  }

  /** `DBSimpleBase.success`: false without records, otherwise the outcome of the last one. */
  function Success(log: seq<Record>, m: Migration): bool {
    var found := Find(log, m);
    if |found| == 0 then false else found[|found| - 1].result
  }

  /** Appending a record extends `find` by that record exactly when it is about `m`. */
  lemma {:induction false} FindAppend(log: seq<Record>, r: Record, m: Migration)
    ensures Find(log + [r], m) == Find(log, m) + (if About(r, m) then [r] else [])
    decreases |log|
  {
    if |log| == 0 {
      assert log + [r] == [r];
      assert [r][1..] == [];
    } else {
      assert (log + [r])[1..] == log[1..] + [r];
      FindAppend(log[1..], r, m);
    }
  }

  /** Appending a record about `m` makes its outcome the answer of `success`;
      appending a record about another migration leaves `success` alone. */
  lemma SuccessAppend(log: seq<Record>, r: Record, m: Migration)
    ensures Success(log + [r], m) == if About(r, m) then r.result else Success(log, m)
    ensures |Find(log + [r], m)| == |Find(log, m)| + (if About(r, m) then 1 else 0)
  {
    FindAppend(log, r, m);
  }

  /** Records about other migrations do not change `find`. */
  lemma {:induction false} OthersIrrelevant(log: seq<Record>, extra: seq<Record>, m: Migration)
    requires forall i :: 0 <= i < |extra| ==> !About(extra[i], m)
    ensures Find(log + extra, m) == Find(log, m)
    decreases |extra|
  {
    if |extra| == 0 {
      assert log + extra == log;
    } else {
      var init, e := extra[..|extra| - 1], extra[|extra| - 1];
      OthersIrrelevant(log, init, m);
      AppendOther(log + init, e, m);
      ConcatSplitLast(log, extra);
    }
  }

  /** Records about other migrations do not change `success`. */
  lemma OthersKeepSuccess(log: seq<Record>, extra: seq<Record>, m: Migration)
    requires forall i :: 0 <= i < |extra| ==> !About(extra[i], m)
    ensures Success(log + extra, m) == Success(log, m)
  {
    OthersIrrelevant(log, extra, m);
  }

  lemma AppendOther(log: seq<Record>, r: Record, m: Migration)
    requires !About(r, m)
    ensures Find(log + [r], m) == Find(log, m)
  {
    FindAppend(log, r, m);
    assert Find(log, m) + [] == Find(log, m);
  }

  /** Last write wins, stated without `find`: some record about `m` succeeded
      and no record about `m` comes after it. */
  ghost predicate LastWriteSucceeded(log: seq<Record>, m: Migration) {
    exists i :: 0 <= i < |log| && About(log[i], m) && log[i].result
                && forall j :: i < j < |log| ==> !About(log[j], m)
  }

  lemma LastWriteAppendAbout(p: seq<Record>, r: Record, m: Migration)
    requires About(r, m)
    ensures LastWriteSucceeded(p + [r], m) <==> r.result
  {
    var log := p + [r];
    if LastWriteSucceeded(log, m) {
      var i :| 0 <= i < |log| && About(log[i], m) && log[i].result
               && forall j :: i < j < |log| ==> !About(log[j], m);
      assert log[|log| - 1] == r;
      assert i == |log| - 1;
    }
    if r.result {
      assert About(log[|log| - 1], m) && log[|log| - 1].result;
    }
  }

  lemma LastWriteAppendOther(p: seq<Record>, r: Record, m: Migration)
    requires !About(r, m)
    ensures LastWriteSucceeded(p + [r], m) <==> LastWriteSucceeded(p, m)
  {
    var log := p + [r];
    if LastWriteSucceeded(log, m) {
      var i :| 0 <= i < |log| && About(log[i], m) && log[i].result
               && forall j :: i < j < |log| ==> !About(log[j], m);
      assert i < |p| && p[i] == log[i];
      assert forall j :: i < j < |p| ==> p[j] == log[j];
    }
    if LastWriteSucceeded(p, m) {
      var i :| 0 <= i < |p| && About(p[i], m) && p[i].result
               && forall j :: i < j < |p| ==> !About(p[j], m);
      assert log[i] == p[i];
      assert forall j :: i < j < |log| ==> j == |p| || log[j] == p[j];
    }
  }

  /** `success` agrees with the last-write-wins reading of the log. */
  lemma {:induction false} SuccessIsLastWrite(log: seq<Record>, m: Migration)
    ensures Success(log, m) <==> LastWriteSucceeded(log, m)
    decreases |log|
  {
    if |log| > 0 {
      var p, r := log[..|log| - 1], log[|log| - 1];
      assert log == p + [r];
      SuccessAppend(p, r, m);
      SuccessIsLastWrite(p, m);
      if About(r, m) {
        LastWriteAppendAbout(p, r, m);
      } else {
        LastWriteAppendOther(p, r, m);
      }
    }
  }

  /** `success` is false for a migration that has no records. */
  lemma NoRecordsNoSuccess(log: seq<Record>, m: Migration)
    requires forall i :: 0 <= i < |log| ==> !About(log[i], m)
    ensures !Success(log, m) && Find(log, m) == []
  {
    FindContents(log, m);
    assert forall x :: multiset(Find(log, m))[x] == 0 by {
      forall x ensures multiset(Find(log, m))[x] == 0 {
        if About(x, m) {
          assert x !in log;
        }
      }
    }
    assert multiset(Find(log, m)) == multiset{};
  }

  /** Two attempts in a row: the second one decides (`[false, true]` succeeds,
      `[true, false]` does not). */
  lemma LastOfTwoWins(first: Record, second: Record, m: Migration)
    requires About(first, m) && About(second, m)
    ensures Success([first, second], m) == second.result
  {
    assert [first, second] == [first] + [second];
    SuccessAppend([first], second, m);
  }

  /** `find` and `success` read only the migration's key. */
  lemma {:induction false} FindSameKey(log: seq<Record>, a: Migration, b: Migration)
    requires Same(a, b)
    ensures Find(log, a) == Find(log, b)
    ensures Success(log, a) == Success(log, b)
    decreases |log|
  {
    if |log| > 0 {
      FindSameKey(log[1..], a, b);
    }
  }

  /** Successful attempts never take success away. */
  lemma {:induction false} SuccessKeptBySuccesses(log: seq<Record>, added: seq<Record>, m: Migration)
    requires forall i :: 0 <= i < |added| ==> added[i].result
    requires Success(log, m)
    ensures Success(log + added, m)
    decreases |added|
  {
    if |added| == 0 {
      assert log + added == log;
    } else {
      var init, e := added[..|added| - 1], added[|added| - 1];
      assert forall i :: 0 <= i < |init| ==> init[i] == added[i];
      SuccessKeptBySuccesses(log, init, m);
      SuccessAppend(log + init, e, m);
      ConcatSplitLast(log, added);
    }
  }
}
