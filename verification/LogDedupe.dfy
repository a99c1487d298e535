/** Merging overlapping scans: the deduplication of research/rh-chain-stock-tokens/capture_snapshot.py
    turns the scans of two filters into one list of the logs that either selects, each once, in chain order. */
module LogDedupe {
  import opened Sorting
  import opened LogScan

  function KeyOf(log: ChainLog): (string, nat) {
    (log.transactionHash, log.logIndex)
  }

  function PlaceOf(log: ChainLog): seq<nat> {
    [log.blockNumber, log.transactionIndex, log.logIndex]
  }

  const chainOrder: (ChainLog, ChainLog) -> bool := (a, b) => PlaceLeq(PlaceOf(a), PlaceOf(b))

  /** A dictionary assignment: the value of a key already present is overwritten where it stands. */
  function Put(entries: seq<ChainLog>, log: ChainLog): seq<ChainLog> {
    if entries == [] then [log]
    else if KeyOf(entries[0]) == KeyOf(log) then [log] + entries[1..]
    else [entries[0]] + Put(entries[1..], log)
  }

  function ByKey(logs: seq<ChainLog>): seq<ChainLog> {
    if logs == [] then [] else Put(ByKey(logs[..|logs| - 1]), logs[|logs| - 1])
  }

  function Deduped(logs: seq<ChainLog>): seq<ChainLog> {
    Sort(chainOrder, ByKey(logs))
  }

  method DedupeLogs(logs: seq<ChainLog>) returns (r: seq<ChainLog>)
    ensures r == Deduped(logs)
  {
    var byKey: seq<ChainLog> := [];
    for i := 0 to |logs|
      invariant byKey == ByKey(logs[..i])
    {
      assert logs[..i + 1][..i] == logs[..i];
      byKey := Put(byKey, logs[i]);
    }
    assert logs[..|logs|] == logs;
    return Sort(chainOrder, byKey);
  }

  ghost predicate KeysDistinct(entries: seq<ChainLog>) {
    forall i, j :: 0 <= i < j < |entries| ==> KeyOf(entries[i]) != KeyOf(entries[j])
  }

  /** Transaction hash and log index identify logs within the list. */
  ghost predicate KeysIdentify(logs: seq<ChainLog>) {
    forall x, y :: x in logs && y in logs && x.transactionHash == y.transactionHash && x.logIndex == y.logIndex ==> x == y
  }

  /** `a` was logged before `b`: by block, then transaction, then position in the transaction. */
  ghost predicate Before(a: ChainLog, b: ChainLog) {
    || a.blockNumber < b.blockNumber
    || (a.blockNumber == b.blockNumber && a.transactionIndex < b.transactionIndex)
    || (a.blockNumber == b.blockNumber && a.transactionIndex == b.transactionIndex && a.logIndex < b.logIndex)
  }

  lemma BeforeIsOrdered(a: ChainLog, b: ChainLog)
    ensures Before(a, b) <==> chainOrder(a, b) && !chainOrder(b, a)
    ensures !Before(b, a) <==> chainOrder(a, b)
  {
  }

  lemma {:induction false} PutSpec(entries: seq<ChainLog>, log: ChainLog)
    requires KeysDistinct(entries)
    ensures KeysDistinct(Put(entries, log))
    ensures forall x :: x in Put(entries, log) <==> x == log || (x in entries && KeyOf(x) != KeyOf(log))
  {
    if entries != [] {
      var rest := entries[1..];
      assert entries == [entries[0]] + rest;
      if KeyOf(entries[0]) == KeyOf(log) {
        assert forall x :: x in rest ==> KeyOf(x) != KeyOf(log);
      } else {
        PutSpec(rest, log);
        var after := Put(rest, log);
        forall k | 0 <= k < |after|
          ensures KeyOf(after[k]) != KeyOf(entries[0])
        {
          assert after[k] in after;
        }
      }
    }
  }

  lemma {:induction false} ByKeySpec(logs: seq<ChainLog>)
    requires KeysIdentify(logs)
    ensures KeysDistinct(ByKey(logs)) && forall x :: x in ByKey(logs) <==> x in logs
  {
    if logs != [] {
      var before, last := logs[..|logs| - 1], logs[|logs| - 1];
      assert logs == before + [last];
      ByKeySpec(before);
      PutSpec(ByKey(before), last);
    }
  }

  ghost predicate Strictly(s: seq<ChainLog>) {
    forall i, j :: 0 <= i < j < |s| ==> Before(s[i], s[j])
  }

  lemma {:induction false} NoRepeats(s: seq<ChainLog>)
    requires forall i, j :: 0 <= i < j < |s| ==> s[i] != s[j]
    ensures forall x :: multiset(s)[x] == if x in s then 1 else 0
  {
    if s != [] {
      var rest := s[1..];
      assert s == [s[0]] + rest;
      assert forall k :: 0 <= k < |rest| ==> rest[k] == s[k + 1];
      NoRepeats(rest);
      assert s[0] !in rest;
      forall x
        ensures multiset(s)[x] == if x in s then 1 else 0
      {
        assert multiset(s)[x] == multiset{s[0]}[x] + multiset(rest)[x];
      }
    }
  }

  /** Whatever repeats and whatever order a list has, deduplicating it gives the one strictly ordered list
      of the same logs. */
  lemma DedupeRestores(logs: seq<ChainLog>, ordered: seq<ChainLog>)
    requires Strictly(ordered) && KeysIdentify(ordered)
    requires forall x :: x in logs <==> x in ordered
    ensures Deduped(logs) == ordered
  {
    ByKeySpec(logs);
    var entries := ByKey(logs);
    NoRepeats(entries);
    assert forall i, j :: 0 <= i < j < |ordered| ==> ordered[i] != ordered[j];
    NoRepeats(ordered);
    forall x
      ensures multiset(entries)[x] == multiset(ordered)[x]
    {
    }
    assert multiset(entries) == multiset(ordered);
    OrderRestores(ordered, entries);
  }

  lemma OrderRestores(ordered: seq<ChainLog>, entries: seq<ChainLog>)
    requires Strictly(ordered) && multiset(entries) == multiset(ordered)
    ensures Sort(chainOrder, entries) == ordered
  {
    assert TotalOrder(chainOrder);
    forall i, j | 0 <= i < j < |ordered|
      ensures chainOrder(ordered[i], ordered[j]) && !chainOrder(ordered[j], ordered[i])
    {
      BeforeIsOrdered(ordered[i], ordered[j]);
    }
    hide Before;
    assert SortedBy(chainOrder, ordered);
    forall x, y | x in ordered && y in ordered && chainOrder(x, y) && chainOrder(y, x)
      ensures x == y
    {
      var i :| 0 <= i < |ordered| && ordered[i] == x;
      var j :| 0 <= j < |ordered| && ordered[j] == y;
    }
    SortRestores(chainOrder, ordered, entries);
  }

  /** `x` is the last of the list under its transaction hash and log index. */
  ghost predicate LastOfItsKey(logs: seq<ChainLog>, x: ChainLog) {
    exists k :: && 0 <= k < |logs| && logs[k] == x
                && forall j :: k < j < |logs| ==> logs[j].transactionHash != x.transactionHash || logs[j].logIndex != x.logIndex
  }

  lemma {:induction false} ByKeyKeepsLast(logs: seq<ChainLog>)
    ensures KeysDistinct(ByKey(logs)) && forall x :: x in ByKey(logs) <==> LastOfItsKey(logs, x)
  {
    if logs != [] {
      var before, last := logs[..|logs| - 1], logs[|logs| - 1];
      ByKeyKeepsLast(before);
      PutSpec(ByKey(before), last);
      forall x
        ensures LastOfItsKey(logs, x) <==> x == last || (LastOfItsKey(before, x) && KeyOf(x) != KeyOf(last))
      {
        LastGrows(before, last, x);
        assert logs == before + [last];
      }
      hide LastOfItsKey, KeyOf;
    }
  }

  lemma LastGrows(before: seq<ChainLog>, last: ChainLog, x: ChainLog)
    ensures LastOfItsKey(before + [last], x) <==> x == last || (LastOfItsKey(before, x) && KeyOf(x) != KeyOf(last))
  {
    var logs, n := before + [last], |before|;
    if x == last {
      assert logs[n] == x;
    } else {
      if LastOfItsKey(logs, x) {
        var k :| && 0 <= k < |logs| && logs[k] == x
                 && forall j :: k < j < |logs| ==> logs[j].transactionHash != x.transactionHash || logs[j].logIndex != x.logIndex;
        assert logs[n] == last && k < n;
        assert forall j :: k < j < n ==> logs[j] == before[j];
      }
      if LastOfItsKey(before, x) && KeyOf(x) != KeyOf(last) {
        var k :| && 0 <= k < |before| && before[k] == x
                 && forall j :: k < j < |before| ==> before[j].transactionHash != x.transactionHash || before[j].logIndex != x.logIndex;
        assert logs[k] == x;
      }
    }
  }

  /** Of any list whatever, deduplicating keeps the last log of each transaction hash and log index, each once,
      none before an earlier one. */
  lemma DedupeKeepsLast(logs: seq<ChainLog>)
    ensures
      var r := Deduped(logs);
      && (forall x :: x in r <==> LastOfItsKey(logs, x))
      && (forall i, j :: 0 <= i < j < |r| ==> !Before(r[j], r[i]) && r[i] != r[j])
  {
    var entries, r := ByKey(logs), Deduped(logs);
    ByKeyKeepsLast(logs);
    SortedEntries(entries);
    hide LastOfItsKey, ByKey, KeysDistinct;
    forall i, j | 0 <= i < j < |r|
      ensures !Before(r[j], r[i])
    {
      BeforeIsOrdered(r[i], r[j]);
    }
  }

  lemma SortedEntries(entries: seq<ChainLog>)
    requires KeysDistinct(entries)
    ensures
      var r := Sort(chainOrder, entries);
      && SortedBy(chainOrder, r) && (forall x :: x in r <==> x in entries)
      && forall i, j :: 0 <= i < j < |r| ==> r[i] != r[j]
  {
    var r := Sort(chainOrder, entries);
    assert TotalOrder(chainOrder);
    SortSorts(chainOrder, entries);
    hide TotalOrder, SortedBy;
    forall x
      ensures x in r <==> x in entries
    {
      assert x in r <==> x in multiset(r);
      assert x in entries <==> x in multiset(entries);
    }
    NoRepeats(entries);
    forall i, j | 0 <= i < j < |r|
      ensures r[i] != r[j]
    {
      OccursTwice(r, i, j);
    }
  }

  lemma OccursTwice(s: seq<ChainLog>, i: int, j: int)
    requires 0 <= i < j < |s|
    ensures s[i] == s[j] ==> 2 <= multiset(s)[s[i]]
  {
    assert s == s[..j] + [s[j]] + s[j + 1..];
    assert s[i] in s[..j];
  }

  // ---------------------------------------------------------------- two filters over one chain

  /** A view lists each block's own logs, strictly in order. */
  ghost predicate Chronological(view: View) {
    forall b :: Strictly(view(b)) && forall x :: x in view(b) ==> x.blockNumber == b
  }

  lemma {:induction false} LogsInMembers(view: View, from: int, upTo: int, x: ChainLog)
    ensures x in LogsIn(view, from, upTo) <==> exists b :: from <= b <= upTo && x in view(b)
    decreases upTo - from + 1
  {
    if from <= upTo {
      LogsInMembers(view, from + 1, upTo, x);
    }
  }

  lemma {:induction false} LogsInStrict(view: View, from: int, upTo: int)
    requires Chronological(view)
    ensures Strictly(LogsIn(view, from, upTo))
    decreases upTo - from + 1
  {
    if from <= upTo {
      LogsInStrict(view, from + 1, upTo);
      var first, rest := view(from), LogsIn(view, from + 1, upTo);
      forall i, j | 0 <= i < |first| && 0 <= j < |rest|
        ensures Before(first[i], rest[j])
      {
        LogsInMembers(view, from + 1, upTo, rest[j]);
        assert first[i] in first && rest[j] in rest;
      }
    }
  }

  /** Scanning with each of two filters and merging gives exactly the logs that either filter selects, each
      once and in chain order, however much the two overlap. */
  lemma MergedScansAreExact(first: View, second: View, either: View, from: int, upTo: int)
    requires Chronological(either) && KeysIdentify(LogsIn(either, from, upTo))
    requires forall b, x :: x in either(b) <==> x in first(b) || x in second(b)
    ensures Deduped(LogsIn(first, from, upTo) + LogsIn(second, from, upTo)) == LogsIn(either, from, upTo)
  {
    LogsInStrict(either, from, upTo);
    forall x
      ensures x in LogsIn(first, from, upTo) + LogsIn(second, from, upTo) <==> x in LogsIn(either, from, upTo)
    {
      LogsInMembers(first, from, upTo, x);
      LogsInMembers(second, from, upTo, x);
      LogsInMembers(either, from, upTo, x);
    }
    DedupeRestores(LogsIn(first, from, upTo) + LogsIn(second, from, upTo), LogsIn(either, from, upTo));
  }
}
