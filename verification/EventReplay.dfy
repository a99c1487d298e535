/** The AccessManager audit of deployments/src/v1/preflight.ts: sort the logs, fold them into tables,
    and compare the rendered tables. Against a model of the manager that emitted the logs, the folded
    table is the live one, and the comparison passes exactly when the tables are equal. */
module EventReplay {
  import opened Results
  import opened Sorting
  import opened Text

  datatype Event =
    | TargetFunctionRoleUpdated(target: string, selector: string, roleId: nat)
    | RoleGranted(roleId: nat, account: string, delay: nat)
    | RoleRevoked(roleId: nat, account: string)

  /** A log as the node returns it; an absent position part counts as zero, and no event is a malformed log. */
  datatype Log = Log(blockNumber: Option<nat>, transactionIndex: Option<nat>, logIndex: Option<nat>, event: Option<Event>)

  function PartOr0(part: Option<nat>): nat {
    match part
    case None => 0
    case Some(n) => n
  }

  function Place(log: Log): seq<nat> {
    [PartOr0(log.blockNumber), PartOr0(log.transactionIndex), PartOr0(log.logIndex)]
  }

  const logOrder: (Log, Log) -> bool := (a, b) => PlaceLeq(Place(a), Place(b))

  function SortedLogs(logs: seq<Log>): seq<Log> {
    Sort(logOrder, logs)
  }

  // ---------------------------------------------------------------- folding

  /** What one event does to a folded table: set a key, or delete it. */
  datatype Update = Update(key: string, value: Option<nat>)

  function SelectorUpdate(e: Option<Event>): Option<Update> {
    match e
    case Some(TargetFunctionRoleUpdated(target, selector, roleId)) =>
      Some(Update(Joined(target, selector), if roleId == 0 then None else Some(roleId)))
    case _ => None
  }

  function MemberUpdate(e: Option<Event>): Option<Update> {
    match e
    case Some(RoleGranted(roleId, account, delay)) => Some(Update(Joined(Decimal(roleId), account), Some(delay)))
    case Some(RoleRevoked(roleId, account)) => Some(Update(Joined(Decimal(roleId), account), None))
    case _ => None
  }

  function Updated(m: map<string, nat>, u: Update): map<string, nat> {
    match u.value
    case None => m - {u.key}
    case Some(v) => m[u.key := v]
  }

  /** The table after all the logs, or the index of the first log that is not of the expected kind. */
  function Folded(decode: Option<Event> -> Option<Update>, logs: seq<Log>): Result<map<string, nat>, nat> {
    if logs == [] then Ok(map[])
    else
      var last := |logs| - 1;
      var before :- Folded(decode, logs[..last]);
      match decode(logs[last].event)
      case None => Err(last)
      case Some(u) => Ok(Updated(before, u))
  }

  method ReplaySelectors(rawLogs: seq<Log>) returns (r: Result<map<string, nat>, nat>)
    ensures r == Folded(SelectorUpdate, SortedLogs(rawLogs))
  {
    var logs := SortedLogs(rawLogs);
    var actualAssignments: map<string, nat> := map[];
    for index := 0 to |logs|
      invariant Folded(SelectorUpdate, logs[..index]) == Ok(actualAssignments)
    {
      assert logs[..index + 1][..index] == logs[..index];
      match logs[index].event {
        case Some(TargetFunctionRoleUpdated(target, selector, roleId)) =>
          var key := Joined(target, selector);
          if roleId == 0 {
            actualAssignments := actualAssignments - {key};
          } else {
            actualAssignments := actualAssignments[key := roleId];
          }
        case _ =>
          FoldStops(SelectorUpdate, logs, index + 1);
          return Err(index);
      }
    }
    assert logs[..|logs|] == logs;
    return Ok(actualAssignments);
  }

  method ReplayMembers(rawLogs: seq<Log>) returns (r: Result<map<string, nat>, nat>)
    ensures r == Folded(MemberUpdate, SortedLogs(rawLogs))
  {
    var logs := SortedLogs(rawLogs);
    var actualMembers: map<string, nat> := map[];
    for index := 0 to |logs|
      invariant Folded(MemberUpdate, logs[..index]) == Ok(actualMembers)
    {
      assert logs[..index + 1][..index] == logs[..index];
      match logs[index].event {
        case Some(RoleGranted(roleId, account, delay)) =>
          actualMembers := actualMembers[Joined(Decimal(roleId), account) := delay];
        case Some(RoleRevoked(roleId, account)) =>
          actualMembers := actualMembers - {Joined(Decimal(roleId), account)};
        case _ =>
          FoldStops(MemberUpdate, logs, index + 1);
          return Err(index);
      }
    }
    assert logs[..|logs|] == logs;
    return Ok(actualMembers);
  }

  /** A fold that has failed stays failed. */
  lemma {:induction false} FoldStops(decode: Option<Event> -> Option<Update>, logs: seq<Log>, n: nat)
    requires n <= |logs| && Folded(decode, logs[..n]).Err?
    ensures Folded(decode, logs) == Folded(decode, logs[..n])
    decreases |logs| - n
  {
    if n == |logs| {
      assert logs[..n] == logs;
    } else {
      assert logs[..n + 1][..n] == logs[..n];
      FoldStops(decode, logs, n + 1);
    }
  }

  // ---------------------------------------------------------------- the manager that emits the logs

  datatype Tables = Tables(selectors: map<(string, string), nat>, members: map<(nat, string), nat>)

  /** A selector never configured answers to role 0. */
  function SelectorRole(t: Tables, target: string, selector: string): nat {
    if (target, selector) in t.selectors then t.selectors[(target, selector)] else 0
  }

  function Applied(t: Tables, e: Event): Tables {
    match e
    case TargetFunctionRoleUpdated(target, selector, roleId) => t.(selectors := t.selectors[(target, selector) := roleId])
    case RoleGranted(roleId, account, delay) => t.(members := t.members[(roleId, account) := delay])
    case RoleRevoked(roleId, account) => t.(members := t.members - {(roleId, account)})
  }

  /** The manager's live tables after a chain of logged events. */
  function Live(chain: seq<Log>): Tables
    requires Emitted(chain)
  {
    if chain == [] then Tables(map[], map[])
    else Applied(Live(chain[..|chain| - 1]), chain[|chain| - 1].event.value)
  }

  /** Every log carries an event, and its target address has no colon in it. */
  predicate Emitted(chain: seq<Log>) {
    forall k :: 0 <= k < |chain| ==>
                  && chain[k].event.Some?
                  && (chain[k].event.value.TargetFunctionRoleUpdated? ==> ':' !in chain[k].event.value.target)
  }

  /** `a` was logged before `b`: in an earlier block, or in an earlier transaction of the same block, or earlier
      in the same transaction. A part the node leaves out counts as 0. */
  ghost predicate Earlier(a: Log, b: Log) {
    var blockA, blockB := if a.blockNumber == None then 0 else a.blockNumber.value, if b.blockNumber == None then 0 else b.blockNumber.value;
    var txA, txB := if a.transactionIndex == None then 0 else a.transactionIndex.value,
                    if b.transactionIndex == None then 0 else b.transactionIndex.value;
    var logA, logB := if a.logIndex == None then 0 else a.logIndex.value, if b.logIndex == None then 0 else b.logIndex.value;
    blockA < blockB || (blockA == blockB && (txA < txB || (txA == txB && logA < logB)))
  }

  /** Every log of the chain is earlier than those after it. */
  ghost predicate InOrder(chain: seq<Log>) {
    forall i, j :: 0 <= i < j < |chain| ==> Earlier(chain[i], chain[j])
  }

  /** The comparison of the sort tells earlier logs from later ones. */
  lemma EarlierIsOrdered(a: Log, b: Log)
    ensures Earlier(a, b) <==> logOrder(a, b) && !logOrder(b, a)
  {
  }

  /** The two questions the audit asks the node: by the topics of the events. */
  datatype Topic = SelectorTopic | MemberTopic

  predicate OfTopic(topic: Topic, e: Option<Event>) {
    e.Some? && if topic == SelectorTopic then e.value.TargetFunctionRoleUpdated? else e.value.RoleGranted? || e.value.RoleRevoked?
  }

  /** The logs a topic filter selects. */
  function Filtered(topic: Topic, chain: seq<Log>): seq<Log> {
    if chain == [] then []
    else
      var last := |chain| - 1;
      var before := Filtered(topic, chain[..last]);
      if OfTopic(topic, chain[last].event) then before + [chain[last]] else before
  }

  function Decoder(topic: Topic): Option<Event> -> Option<Update> {
    if topic == SelectorTopic then SelectorUpdate else MemberUpdate
  }

  /** Replaying a list fails exactly when some log is of another kind, and names the first such log. */
  lemma {:induction false} ReplayFailsAtFirst(topic: Topic, logs: seq<Log>)
    ensures
      var r := Folded(Decoder(topic), logs);
      && (r.Ok? <==> forall k :: 0 <= k < |logs| ==> OfTopic(topic, logs[k].event))
      && (r.Err? ==> r.error < |logs| && !OfTopic(topic, logs[r.error].event)
                     && forall k :: 0 <= k < r.error ==> OfTopic(topic, logs[k].event))
  {
    if logs != [] {
      var last := |logs| - 1;
      ReplayFailsAtFirst(topic, logs[..last]);
      assert forall k :: 0 <= k < last ==> logs[..last][k] == logs[k];
    }
  }

  lemma {:induction false} FilteredInOrder(topic: Topic, chain: seq<Log>)
    requires InOrder(chain)
    ensures InOrder(Filtered(topic, chain))
    ensures forall log :: log in Filtered(topic, chain) ==> log in chain
  {
    if chain != [] {
      var last := |chain| - 1;
      hide Earlier;
      FilteredInOrder(topic, chain[..last]);
      var before := Filtered(topic, chain[..last]);
      forall i | 0 <= i < |before|
        ensures Earlier(before[i], chain[last])
      {
        assert before[i] in chain[..last];
        var k :| 0 <= k < last && chain[..last][k] == before[i];
        assert chain[k] == before[i];
      }
    }
  }

  /** Sorting any shuffle of a filtered chain restores it. */
  lemma ShuffleSorts(chain: seq<Log>, shuffled: seq<Log>)
    requires InOrder(chain) && multiset(shuffled) == multiset(chain)
    ensures SortedLogs(shuffled) == chain
  {
    assert TotalOrder(logOrder);
    forall i, j | 0 <= i < j < |chain|
      ensures logOrder(chain[i], chain[j]) && !logOrder(chain[j], chain[i])
    {
      EarlierIsOrdered(chain[i], chain[j]);
    }
    hide Earlier;
    assert SortedBy(logOrder, chain);
    forall x, y | x in chain && y in chain && logOrder(x, y) && logOrder(y, x)
      ensures x == y
    {
      var i :| 0 <= i < |chain| && chain[i] == x;
      var j :| 0 <= j < |chain| && chain[j] == y;
    }
    SortRestores(logOrder, chain, shuffled);
  }

  /** The folded selector table holds exactly the live assignments to roles other than 0. */
  ghost predicate AgreesOnSelectors(m: map<string, nat>, t: Tables) {
    && (forall target: string, selector: string {:trigger Joined(target, selector)} :: ':' !in target ==>
          (if SelectorRole(t, target, selector) == 0 then Joined(target, selector) !in m
           else Joined(target, selector) in m && m[Joined(target, selector)] == SelectorRole(t, target, selector)))
    && (forall key :: key in m ==> exists target: string, selector: string :: ':' !in target && key == Joined(target, selector))
  }

  lemma {:induction false} FoldFollowsSelectors(chain: seq<Log>)
    requires Emitted(chain)
    ensures Folded(SelectorUpdate, Filtered(SelectorTopic, chain)).Ok?
    ensures AgreesOnSelectors(Folded(SelectorUpdate, Filtered(SelectorTopic, chain)).value, Live(chain))
  {
    if chain != [] {
      var last := |chain| - 1;
      FoldFollowsSelectors(chain[..last]);
      var before := Filtered(SelectorTopic, chain[..last]);
      var log := chain[last];
      match log.event.value
      case TargetFunctionRoleUpdated(target, selector, roleId) =>
        assert (before + [log])[..|before|] == before;
        SelectorStep(Folded(SelectorUpdate, before).value, Live(chain[..last]), target, selector, roleId);
      case RoleGranted(_, _, _) =>
      case RoleRevoked(_, _) =>
    }
  }

  lemma SelectorStep(m: map<string, nat>, t: Tables, target: string, selector: string, roleId: nat)
    requires AgreesOnSelectors(m, t) && ':' !in target
    ensures AgreesOnSelectors(Updated(m, SelectorUpdate(Some(TargetFunctionRoleUpdated(target, selector, roleId))).value),
                              Applied(t, TargetFunctionRoleUpdated(target, selector, roleId)))
  {
    forall a: string, b: string | ':' !in a && Joined(a, b) == Joined(target, selector)
      ensures a == target && b == selector
    {
      JoinedInjective(a, b, target, selector);
    }
  }

  ghost predicate AgreesOnMembers(m: map<string, nat>, t: Tables) {
    && (forall roleId: nat, account: string {:trigger (roleId, account) in t.members} ::
          (if (roleId, account) in t.members
           then Joined(Decimal(roleId), account) in m && m[Joined(Decimal(roleId), account)] == t.members[(roleId, account)]
           else Joined(Decimal(roleId), account) !in m))
    && (forall key :: key in m ==> exists roleId: nat, account: string :: key == Joined(Decimal(roleId), account))
  }

  lemma {:induction false} FoldFollowsMembers(chain: seq<Log>)
    requires Emitted(chain)
    ensures Folded(MemberUpdate, Filtered(MemberTopic, chain)).Ok?
    ensures AgreesOnMembers(Folded(MemberUpdate, Filtered(MemberTopic, chain)).value, Live(chain))
  {
    if chain != [] {
      var last := |chain| - 1;
      FoldFollowsMembers(chain[..last]);
      var before := Filtered(MemberTopic, chain[..last]);
      var log := chain[last];
      assert (before + [log])[..|before|] == before;
      if !log.event.value.TargetFunctionRoleUpdated? {
        MemberStep(Folded(MemberUpdate, before).value, Live(chain[..last]), log.event.value);
      }
    }
  }

  lemma MemberStep(m: map<string, nat>, t: Tables, e: Event)
    requires AgreesOnMembers(m, t) && !e.TargetFunctionRoleUpdated?
    ensures AgreesOnMembers(Updated(m, MemberUpdate(Some(e)).value), Applied(t, e))
  {
    forall r: nat, a: string | Joined(Decimal(r), a) == Joined(Decimal(e.roleId), e.account)
      ensures r == e.roleId && a == e.account
    {
      DecimalHasNoColon(r);
      DecimalHasNoColon(e.roleId);
      JoinedInjective(Decimal(r), a, Decimal(e.roleId), e.account);
      DecimalInjective(r, e.roleId);
    }
  }

  /** Whatever order the node returns them in, the selector logs of any history replay to the live table. */
  lemma SelectorReplayIsLive(chain: seq<Log>, shuffled: seq<Log>)
    requires Emitted(chain) && InOrder(chain) && multiset(shuffled) == multiset(Filtered(SelectorTopic, chain))
    ensures Folded(SelectorUpdate, SortedLogs(shuffled)).Ok?
    ensures AgreesOnSelectors(Folded(SelectorUpdate, SortedLogs(shuffled)).value, Live(chain))
  {
    FilteredInOrder(SelectorTopic, chain);
    ShuffleSorts(Filtered(SelectorTopic, chain), shuffled);
    FoldFollowsSelectors(chain);
  }

  /** And the membership logs replay to exactly the live members with their execution delays. */
  lemma MemberReplayIsLive(chain: seq<Log>, shuffled: seq<Log>)
    requires Emitted(chain) && InOrder(chain) && multiset(shuffled) == multiset(Filtered(MemberTopic, chain))
    ensures Folded(MemberUpdate, SortedLogs(shuffled)).Ok?
    ensures AgreesOnMembers(Folded(MemberUpdate, SortedLogs(shuffled)).value, Live(chain))
  {
    FilteredInOrder(MemberTopic, chain);
    ShuffleSorts(Filtered(MemberTopic, chain), shuffled);
    FoldFollowsMembers(chain);
  }

  // ---------------------------------------------------------------- the exact comparison

  /** A table as a JavaScript map lists it: its entries, in some insertion order, each key once. */
  ghost predicate Lists(entries: seq<(string, nat)>, m: map<string, nat>) {
    && (forall i, j :: 0 <= i < j < |entries| ==> entries[i].0 != entries[j].0)
    && (forall k :: 0 <= k < |entries| ==> entries[k].0 in m && m[entries[k].0] == entries[k].1)
    && (forall key :: key in m ==> exists k :: 0 <= k < |entries| && entries[k].0 == key)
  }

  function RenderedEntry(e: (string, nat)): string {
    Joined(e.0, Decimal(e.1))
  }

  function Rendered(entries: seq<(string, nat)>): seq<string> {
    Sort(textOrder, seq(|entries|, i requires 0 <= i < |entries| => RenderedEntry(entries[i])))
  }

  lemma RenderedInjective(a: (string, nat), b: (string, nat))
    requires RenderedEntry(a) == RenderedEntry(b)
    ensures a == b
  {
    DecimalHasNoColon(a.1);
    DecimalHasNoColon(b.1);
    JoinedInjective(a.0, Decimal(a.1), b.0, Decimal(b.1));
    DecimalInjective(a.1, b.1);
  }

  /** The rendered lines are those of the entries, and no others. */
  lemma RenderedLines(entries: seq<(string, nat)>, line: string)
    ensures line in Rendered(entries) <==> exists k :: 0 <= k < |entries| && line == RenderedEntry(entries[k])
  {
    var lines := seq(|entries|, i requires 0 <= i < |entries| => RenderedEntry(entries[i]));
    TextOrderIsTotal(lines);
    SortSorts(textOrder, lines);
    assert line in Rendered(entries) <==> line in multiset(Rendered(entries));
    assert line in lines <==> line in multiset(lines);
    if k :| 0 <= k < |entries| && line == RenderedEntry(entries[k]) {
      assert lines[k] == line;
    }
  }

  /** Equal renderings have equal entries. */
  lemma RenderedSubset(a: seq<(string, nat)>, b: seq<(string, nat)>, i: nat)
    requires Rendered(a) == Rendered(b) && i < |a|
    ensures a[i] in b
  {
    RenderedLines(a, RenderedEntry(a[i]));
    RenderedLines(b, RenderedEntry(a[i]));
    var k :| 0 <= k < |b| && RenderedEntry(a[i]) == RenderedEntry(b[k]);
    RenderedInjective(a[i], b[k]);
  }

  /** Listing without repetition makes the rendering depend on the table alone. */
  lemma SameTableSameLines(a: seq<(string, nat)>, b: seq<(string, nat)>, m: map<string, nat>)
    requires Lists(a, m) && Lists(b, m)
    ensures Rendered(a) == Rendered(b)
  {
    var la := seq(|a|, i requires 0 <= i < |a| => RenderedEntry(a[i]));
    var lb := seq(|b|, i requires 0 <= i < |b| => RenderedEntry(b[i]));
    LinesOnce(a, m);
    LinesOnce(b, m);
    forall line: string
      ensures multiset(la)[line] == multiset(lb)[line]
    {
      LineOccurs(a, b, m, line);
      LineOccurs(b, a, m, line);
    }
    assert multiset(la) == multiset(lb);
    TextOrderIsTotal(la);
    TextOrderIsTotal(lb);
    SortSorts(textOrder, la);
    SortSorts(textOrder, lb);
    TextOrderIsTotal(Sort(textOrder, la));
    SortedIsUnique(textOrder, Sort(textOrder, la), Sort(textOrder, lb));
  }

  lemma LinesOnce(a: seq<(string, nat)>, m: map<string, nat>)
    requires Lists(a, m)
    ensures
      var lines := seq(|a|, i requires 0 <= i < |a| => RenderedEntry(a[i]));
      forall line :: multiset(lines)[line] <= 1
  {
    var lines := seq(|a|, i requires 0 <= i < |a| => RenderedEntry(a[i]));
    forall i, j | 0 <= i < j < |lines|
      ensures lines[i] != lines[j]
    {
      if lines[i] == lines[j] {
        RenderedInjective(a[i], a[j]);
      }
    }
    DistinctOccurOnce(lines);
  }

  lemma {:induction false} DistinctOccurOnce(s: seq<string>)
    requires forall i, j :: 0 <= i < j < |s| ==> s[i] != s[j]
    ensures forall x :: multiset(s)[x] <= 1
  {
    if s != [] {
      assert s == [s[0]] + s[1..];
      DistinctOccurOnce(s[1..]);
      assert s[0] !in s[1..];
    }
  }

  lemma LineOccurs(a: seq<(string, nat)>, b: seq<(string, nat)>, m: map<string, nat>, line: string)
    requires Lists(a, m) && Lists(b, m)
    ensures
      var la := seq(|a|, i requires 0 <= i < |a| => RenderedEntry(a[i]));
      var lb := seq(|b|, i requires 0 <= i < |b| => RenderedEntry(b[i]));
      line in multiset(la) ==> line in multiset(lb)
  {
    var la := seq(|a|, i requires 0 <= i < |a| => RenderedEntry(a[i]));
    var lb := seq(|b|, i requires 0 <= i < |b| => RenderedEntry(b[i]));
    if line in multiset(la) {
      assert line in la;
      var i :| 0 <= i < |la| && la[i] == line;
      assert a[i].0 in m;
      var k :| 0 <= k < |b| && b[k].0 == a[i].0;
      assert lb[k] == line;
    }
  }

  /** The exact-diff check passes if and only if the two tables are equal, whatever the insertion orders. */
  lemma DiffPassesIffEqual(expected: seq<(string, nat)>, actual: seq<(string, nat)>, e: map<string, nat>, a: map<string, nat>)
    requires Lists(expected, e) && Lists(actual, a)
    ensures Rendered(expected) == Rendered(actual) <==> e == a
  {
    if e == a {
      SameTableSameLines(expected, actual, e);
    }
    if Rendered(expected) == Rendered(actual) {
      SubTable(expected, actual, e, a);
      SubTable(actual, expected, a, e);
    }
  }

  lemma SubTable(expected: seq<(string, nat)>, actual: seq<(string, nat)>, e: map<string, nat>, a: map<string, nat>)
    requires Lists(expected, e) && Lists(actual, a) && Rendered(expected) == Rendered(actual)
    ensures forall key :: key in e ==> key in a && a[key] == e[key]
  {
    forall key | key in e
      ensures key in a && a[key] == e[key]
    {
      var k :| 0 <= k < |expected| && expected[k].0 == key;
      RenderedSubset(expected, actual, k);
      var j :| 0 <= j < |actual| && actual[j] == expected[k];
    }
  }

  // ---------------------------------------------------------------- the whole audit

  lemma SelectorTableUnique(m: map<string, nat>, e: map<string, nat>, t: Tables)
    requires AgreesOnSelectors(m, t) && AgreesOnSelectors(e, t)
    ensures m == e
  {
    forall key | key in m
      ensures key in e && e[key] == m[key]
    {
      var target: string, selector: string :| ':' !in target && key == Joined(target, selector);
    }
    forall key | key in e
      ensures key in m
    {
      var target: string, selector: string :| ':' !in target && key == Joined(target, selector);
    }
  }

  lemma MemberTableUnique(m: map<string, nat>, e: map<string, nat>, t: Tables)
    requires AgreesOnMembers(m, t) && AgreesOnMembers(e, t)
    ensures m == e
  {
    forall key | key in m
      ensures key in e && e[key] == m[key]
    {
      var roleId: nat, account: string :| key == Joined(Decimal(roleId), account);
      assert (roleId, account) in t.members;
    }
    forall key | key in e
      ensures key in m
    {
      var roleId: nat, account: string :| key == Joined(Decimal(roleId), account);
      assert (roleId, account) in t.members;
    }
  }

  /** End to end: for any history and any order of its logs, the selector comparison passes if and only if
      the expected table is the manager's live one. */
  lemma SelectorAuditIsExact(chain: seq<Log>, shuffled: seq<Log>, expected: seq<(string, nat)>, e: map<string, nat>,
                             actual: seq<(string, nat)>)
    requires Emitted(chain) && InOrder(chain) && multiset(shuffled) == multiset(Filtered(SelectorTopic, chain))
    requires Lists(expected, e)
    ensures
      var folded := Folded(SelectorUpdate, SortedLogs(shuffled));
      folded.Ok? && (Lists(actual, folded.value) ==>
                       (Rendered(expected) == Rendered(actual) <==> AgreesOnSelectors(e, Live(chain))))
  {
    SelectorReplayIsLive(chain, shuffled);
    var m := Folded(SelectorUpdate, SortedLogs(shuffled)).value;
    if Lists(actual, m) {
      DiffPassesIffEqual(expected, actual, e, m);
      if AgreesOnSelectors(e, Live(chain)) {
        SelectorTableUnique(m, e, Live(chain));
      }
    }
  }

  /** And so does the membership comparison. */
  lemma MemberAuditIsExact(chain: seq<Log>, shuffled: seq<Log>, expected: seq<(string, nat)>, e: map<string, nat>,
                           actual: seq<(string, nat)>)
    requires Emitted(chain) && InOrder(chain) && multiset(shuffled) == multiset(Filtered(MemberTopic, chain))
    requires Lists(expected, e)
    ensures
      var folded := Folded(MemberUpdate, SortedLogs(shuffled));
      folded.Ok? && (Lists(actual, folded.value) ==>
                       (Rendered(expected) == Rendered(actual) <==> AgreesOnMembers(e, Live(chain))))
  {
    MemberReplayIsLive(chain, shuffled);
    var m := Folded(MemberUpdate, SortedLogs(shuffled)).value;
    if Lists(actual, m) {
      DiffPassesIffEqual(expected, actual, e, m);
      if AgreesOnMembers(e, Live(chain)) {
        MemberTableUnique(m, e, Live(chain));
      }
    }
  }
}
