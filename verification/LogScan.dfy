/** The adaptive log scanner of research/rh-chain-stock-tokens/capture_snapshot.py: chunks, retries and
    bisection against a node that may fail in any pattern. */
module LogScan {
  import opened Results

  datatype ChainLog = ChainLog(blockNumber: nat, transactionIndex: nat, logIndex: nat, transactionHash: string, data: string)

  /** How a node answers one query: logs, something that is not a list, an RPC error, or a failure of the
      connection itself. */
  datatype Answer = Logs(logs: seq<ChainLog>) | NotAList | RpcError(message: string) | Unreachable(reason: string)

  datatype ScanError = Rpc(message: string) | BadResult | Transport(reason: string)

  datatype Stats = Stats(segments: nat, retries: nat, splits: nat)

  /** A node: its answer to the n-th query, over the blocks from `start` to `end`. */
  type Node = (nat, int, int) -> Answer

  predicate Contains(text: string, marker: string) {
    marker <= text || (text != [] && Contains(text[1..], marker))
  }

  /** Classification of an error message, already in lower case. */
  predicate ShouldSplit(message: string) {
    Contains(message, "timeout") || Contains(message, "timed out") || Contains(message, "exceeds limit")
    || Contains(message, "too many")
  }

  predicate Transient(message: string) {
    Contains(message, "eof") || Contains(message, "temporarily unavailable") || Contains(message, "connection reset")
    || Contains(message, "internal error") || Contains(message, "context deadline")
  }

  datatype Scanned = Scanned(stats: Stats, result: Result<seq<ChainLog>, ScanError>)

  /** What scanning from `start` to `end` does from its given attempt on, with `output` gathered before. */
  function Attempts(node: Node, stats: Stats, start: int, end: int, attempt: nat, output: seq<ChainLog>): Scanned
    decreases if start <= end then end - start else 0, 3 - attempt
  {
    var counted := stats.(segments := stats.segments + 1);
    match node(stats.segments, start, end)
    case Logs(logs) => Scanned(counted, Ok(output + logs))
    case NotAList => Scanned(counted, Err(BadResult))
    case Unreachable(reason) => Scanned(counted, Err(Transport(reason)))
    case RpcError(message) =>
      if Transient(message) && !ShouldSplit(message) && attempt < 2 then
        Attempts(node, counted.(retries := counted.retries + 1), start, end, attempt + 1, output)
      else if (ShouldSplit(message) || Transient(message)) && start < end then
        var middle := (start + end) / 2;
        var left := Attempts(node, counted.(splits := counted.splits + 1), start, middle, 0, output);
        if left.result.Err? then left else Attempts(node, left.stats, middle + 1, end, 0, left.result.value)
      else Scanned(counted, Err(Rpc(message)))
  }

  /** The chunks from `cursor` on. */
  function Chunks(node: Node, stats: Stats, cursor: int, upTo: int, chunkBlocks: int, output: seq<ChainLog>): Scanned
    requires 0 < chunkBlocks
    decreases upTo - cursor + 1
  {
    if cursor > upTo then Scanned(stats, Ok(output))
    else
      var end := if cursor + chunkBlocks - 1 <= upTo then cursor + chunkBlocks - 1 else upTo;
      var chunk := Attempts(node, stats, cursor, end, 0, output);
      if chunk.result.Err? then chunk else Chunks(node, chunk.stats, end + 1, upTo, chunkBlocks, chunk.result.value)
  }

  /** The client keeps the counters that every query bumps. */
  class RpcClient {
    const node: Node
    var stats: Stats

    constructor (node: Node)
      ensures this.node == node && stats == Stats(0, 0, 0)
    {
      this.node := node;
      stats := Stats(0, 0, 0);
    }

    /** The inner `scan`: up to three attempts, then two halves. */
    method Scan(start: int, end: int, gathered: seq<ChainLog>) returns (r: Result<seq<ChainLog>, ScanError>)
      modifies this`stats
      ensures Scanned(stats, r) == Attempts(node, old(stats), start, end, 0, gathered)
      decreases if start <= end then end - start else 0
    {
      var attempt := 0;
      while attempt < 3
        invariant 0 <= attempt <= 2
        invariant Attempts(node, stats, start, end, attempt, gathered) == Attempts(node, old(stats), start, end, 0, gathered)
        decreases 3 - attempt
      {
        var answer := node(stats.segments, start, end);
        stats := stats.(segments := stats.segments + 1);
        match answer {
          case Logs(logs) => return Ok(gathered + logs);
          case NotAList => return Err(BadResult);
          case Unreachable(reason) => return Err(Transport(reason));
          case RpcError(message) =>
            if Transient(message) && !ShouldSplit(message) && attempt < 2 {
              stats := stats.(retries := stats.retries + 1);
              attempt := attempt + 1;
              continue;
            }
            if (ShouldSplit(message) || Transient(message)) && start < end {
              var middle := (start + end) / 2;
              stats := stats.(splits := stats.splits + 1);
              var left := Scan(start, middle, gathered);
              if left.Err? {
                return left;
              }
              r := Scan(middle + 1, end, left.value);
              return;
            }
            return Err(Rpc(message));
        }
      }
    }

    method ScanLogs(fromBlock: int, toBlock: int, chunkBlocks: int) returns (r: Result<seq<ChainLog>, ScanError>)
      requires 0 < chunkBlocks
      modifies this`stats
      ensures Scanned(stats, r) == Chunks(node, old(stats), fromBlock, toBlock, chunkBlocks, [])
    {
      var output: seq<ChainLog> := [];
      var cursor := fromBlock;
      while cursor <= toBlock
        invariant Chunks(node, stats, cursor, toBlock, chunkBlocks, output) == Chunks(node, old(stats), fromBlock, toBlock, chunkBlocks, [])
        decreases toBlock - cursor + 1
      {
        var end := if cursor + chunkBlocks - 1 <= toBlock then cursor + chunkBlocks - 1 else toBlock;
        var scanned := Scan(cursor, end, output);
        if scanned.Err? {
          return scanned;
        }
        output := scanned.value;
        cursor := end + 1;
      }
      return Ok(output);
    }
  }

  // ---------------------------------------------------------------- exactness

  /** The logs of the chain that a filter selects, block by block. */
  type View = int -> seq<ChainLog>

  function LogsIn(view: View, from: int, upTo: int): seq<ChainLog>
    decreases upTo - from + 1
  {
    if from > upTo then [] else view(from) + LogsIn(view, from + 1, upTo)
  }

  /** A successful answer is exact; anything may fail, at any time. */
  ghost predicate Exact(node: Node, view: View) {
    forall n, a, b :: a <= b && node(n, a, b).Logs? ==> node(n, a, b).logs == LogsIn(view, a, b)
  }

  lemma {:induction false} LogsInSplit(view: View, from: int, middle: int, upTo: int)
    requires from <= middle + 1 <= upTo + 1
    ensures LogsIn(view, from, upTo) == LogsIn(view, from, middle) + LogsIn(view, middle + 1, upTo)
    decreases upTo - from + 1
  {
    if from == middle + 1 {
      assert LogsIn(view, from, middle) == [];
    } else {
      LogsInSplit(view, from + 1, middle, upTo);
    }
  }

  lemma MiddleIsBetween(start: int, end: int)
    requires start < end
    ensures start <= (start + end) / 2 < end
  {
  }

  /** A scan that returns has gathered all the logs of its range, in block order, whatever failed on the way. */
  lemma {:induction false} AttemptsExact(node: Node, view: View, stats: Stats, start: int, end: int, attempt: nat, output: seq<ChainLog>)
    requires Exact(node, view) && start <= end
    ensures
      var r := Attempts(node, stats, start, end, attempt, output).result;
      r.Ok? ==> r.value == output + LogsIn(view, start, end)
    decreases end - start, 3 - attempt
  {
    hide Contains, ShouldSplit, Transient, LogsIn;
    var counted := stats.(segments := stats.segments + 1);
    match node(stats.segments, start, end)
    case RpcError(message) =>
      if Transient(message) && !ShouldSplit(message) && attempt < 2 {
        AttemptsExact(node, view, counted.(retries := counted.retries + 1), start, end, attempt + 1, output);
      } else if (ShouldSplit(message) || Transient(message)) && start < end {
        var middle := (start + end) / 2;
        MiddleIsBetween(start, end);
        var begun := counted.(splits := counted.splits + 1);
        AttemptsExact(node, view, begun, start, middle, 0, output);
        var left := Attempts(node, begun, start, middle, 0, output);
        if left.result.Ok? {
          AttemptsExact(node, view, left.stats, middle + 1, end, 0, left.result.value);
          LogsInSplit(view, start, middle, end);
          assert output + LogsIn(view, start, end) == output + LogsIn(view, start, middle) + LogsIn(view, middle + 1, end);
        }
      }
    case _ =>
  }

  /** The queries and splits one chunk of n blocks can cost: 3 * (2n - 1) and n - 1. */
  lemma {:induction false} AttemptsBounded(node: Node, stats: Stats, start: int, end: int, attempt: nat, output: seq<ChainLog>)
    requires start <= end && attempt <= 2
    ensures
      var t, n := Attempts(node, stats, start, end, attempt, output).stats, end - start + 1;
      && stats.segments < t.segments <= stats.segments + 3 * (2 * n - 1) - attempt
      && stats.splits <= t.splits <= stats.splits + n - 1
      && stats.retries <= t.retries <= stats.retries + 2 * (2 * n - 1) - attempt
    decreases end - start, 3 - attempt
  {
    hide Contains, ShouldSplit, Transient;
    var counted := stats.(segments := stats.segments + 1);
    match node(stats.segments, start, end)
    case RpcError(message) =>
      if Transient(message) && !ShouldSplit(message) && attempt < 2 {
        AttemptsBounded(node, counted.(retries := counted.retries + 1), start, end, attempt + 1, output);
      } else if (ShouldSplit(message) || Transient(message)) && start < end {
        var middle := (start + end) / 2;
        MiddleIsBetween(start, end);
        var begun := counted.(splits := counted.splits + 1);
        AttemptsBounded(node, begun, start, middle, 0, output);
        var left := Attempts(node, begun, start, middle, 0, output);
        if left.result.Ok? {
          AttemptsBounded(node, left.stats, middle + 1, end, 0, left.result.value);
        }
      }
    case _ =>
  }

  // ---------------------------------------------------------------- failure

  datatype Query = Query(number: nat, start: int, end: int)

  /** The queries that scanning issues from its given attempt on. */
  function Queries(node: Node, stats: Stats, start: int, end: int, attempt: nat, output: seq<ChainLog>): seq<Query>
    decreases if start <= end then end - start else 0, 3 - attempt
  {
    [Query(stats.segments, start, end)] +
    var counted := stats.(segments := stats.segments + 1);
    match node(stats.segments, start, end)
    case RpcError(message) =>
      if Transient(message) && !ShouldSplit(message) && attempt < 2 then
        Queries(node, counted.(retries := counted.retries + 1), start, end, attempt + 1, output)
      else if (ShouldSplit(message) || Transient(message)) && start < end then
        var middle := (start + end) / 2;
        var begun := counted.(splits := counted.splits + 1);
        var left := Attempts(node, begun, start, middle, 0, output);
        Queries(node, begun, start, middle, 0, output)
        + if left.result.Err? then [] else Queries(node, left.stats, middle + 1, end, 0, left.result.value)
      else []
    case _ => []
  }

  /** The queries of the chunks from `cursor` on. */
  function ChunkQueries(node: Node, stats: Stats, cursor: int, upTo: int, chunkBlocks: int, output: seq<ChainLog>): seq<Query>
    requires 0 < chunkBlocks
    decreases upTo - cursor + 1
  {
    if cursor > upTo then []
    else
      var end := if cursor + chunkBlocks - 1 <= upTo then cursor + chunkBlocks - 1 else upTo;
      var chunk := Attempts(node, stats, cursor, end, 0, output);
      Queries(node, stats, cursor, end, 0, output)
      + if chunk.result.Err? then [] else ChunkQueries(node, chunk.stats, end + 1, upTo, chunkBlocks, chunk.result.value)
  }

  ghost predicate StandsAt(message: string, marker: string, i: int) {
    0 <= i && i + |marker| <= |message| && message[i..i + |marker|] == marker
  }

  /** The marker stands somewhere in the message. */
  ghost predicate Mentions(message: string, marker: string) {
    exists i :: StandsAt(message, marker, i)
  }

  /** The node says that the query asks for too much. */
  ghost predicate AsksTooMuch(message: string) {
    || Mentions(message, "timeout") || Mentions(message, "timed out")
    || Mentions(message, "exceeds limit") || Mentions(message, "too many")
  }

  /** The node says that something passing went wrong. */
  ghost predicate Passing(message: string) {
    || Mentions(message, "eof") || Mentions(message, "temporarily unavailable") || Mentions(message, "connection reset")
    || Mentions(message, "internal error") || Mentions(message, "context deadline")
  }

  lemma StandsOneOn(text: string, marker: string, i: nat)
    requires text != ""
    ensures StandsAt(text, marker, i + 1) <==> StandsAt(text[1..], marker, i)
  {
    if i + 1 + |marker| <= |text| {
      assert text[i + 1..i + 1 + |marker|] == text[1..][i..i + |marker|];
    }
  }

  lemma StandsFirst(text: string, marker: string)
    ensures StandsAt(text, marker, 0) <==> marker <= text
  {
  }

  lemma {:induction false} ContainsMeans(text: string, marker: string)
    ensures Contains(text, marker) <==> Mentions(text, marker)
  {
    StandsFirst(text, marker);
    if text == "" {
      assert forall i :: StandsAt(text, marker, i) ==> i == 0;
    } else {
      ContainsMeans(text[1..], marker);
      MentionsOneOn(text, marker);
    }
    hide StandsAt, Mentions;
  }

  lemma MentionsOneOn(text: string, marker: string)
    requires text != ""
    ensures Mentions(text, marker) <==> StandsAt(text, marker, 0) || Mentions(text[1..], marker)
  {
    assert forall i :: StandsAt(text, marker, i) ==> 0 <= i;
    assert forall i :: StandsAt(text[1..], marker, i) ==> 0 <= i;
    hide StandsAt;
    if i :| StandsAt(text, marker, i) {
      if 0 < i {
        StandsOneOn(text, marker, i - 1);
      }
    }
    if i :| StandsAt(text[1..], marker, i) {
      StandsOneOn(text, marker, i);
    }
  }

  lemma Classified(message: string)
    ensures ShouldSplit(message) <==> AsksTooMuch(message)
    ensures Transient(message) <==> Passing(message)
  {
    forall marker: string
      ensures Contains(message, marker) <==> Mentions(message, marker)
    {
      ContainsMeans(message, marker);
    }
    hide Contains, Mentions;
  }

  /** The scanner's classification is by these nine markers. */
  lemma ClassifiedByMarkers()
    ensures forall message {:trigger ShouldSplit(message)} {:trigger AsksTooMuch(message)} :: ShouldSplit(message) <==> AsksTooMuch(message)
    ensures forall message {:trigger Transient(message)} {:trigger Passing(message)} :: Transient(message) <==> Passing(message)
  {
    forall message: string
      ensures (ShouldSplit(message) <==> AsksTooMuch(message)) && (Transient(message) <==> Passing(message))
    {
      Classified(message);
    }
    hide ShouldSplit, Transient, AsksTooMuch, Passing;
  }

  /** A transient error, the only answer that is asked again. */
  ghost predicate Fleeting(node: Node, n: nat, a: int, b: int) {
    match node(n, a, b)
    case RpcError(message) => Passing(message) && !AsksTooMuch(message)
    case _ => false
  }

  /** An answer no retry and no smaller query helps against: the connection fails, the result is no list, the
      error is of no known kind, or a single block answers a size limit, or three transient errors in a row. */
  ghost predicate Hopeless(node: Node, n: nat, a: int, b: int) {
    match node(n, a, b)
    case Logs(_) => false
    case RpcError(message) =>
      if AsksTooMuch(message) then a >= b
      else if Passing(message) then a >= b && Fleeting(node, n + 1, a, b) && Fleeting(node, n + 2, a, b)
      else true
    case _ => true
  }

  ghost predicate MeetsHopeless(node: Node, queries: seq<Query>) {
    exists q :: q in queries && Hopeless(node, q.number, q.start, q.end)
  }

  lemma MeetsEither(node: Node, a: seq<Query>, b: seq<Query>)
    ensures MeetsHopeless(node, a + b) <==> MeetsHopeless(node, a) || MeetsHopeless(node, b)
    ensures !MeetsHopeless(node, [])
  {
    hide Hopeless;
    assert forall q :: q in a + b <==> q in a || q in b;
  }

  lemma MeetsFirst(node: Node, q: Query, rest: seq<Query>)
    ensures MeetsHopeless(node, [q] + rest) <==> Hopeless(node, q.number, q.start, q.end) || MeetsHopeless(node, rest)
  {
    hide Hopeless;
    MeetsEither(node, [q], rest);
    assert q in [q] && forall x :: x in [q] ==> x == q;
  }

  /** A single block whose remaining attempts all meet transient errors. */
  ghost predicate Wearing(node: Node, n: nat, a: int, b: int, attempt: nat) {
    a == b && Fleeting(node, n, a, b) && (attempt < 2 ==> Fleeting(node, n + 1, a, b)) && (attempt < 1 ==> Fleeting(node, n + 2, a, b))
  }

  lemma {:induction false} WearingFails(node: Node, stats: Stats, start: int, end: int, attempt: nat, output: seq<ChainLog>)
    requires attempt <= 2 && Wearing(node, stats.segments, start, end, attempt)
    ensures Attempts(node, stats, start, end, attempt, output).result.Err?
    decreases 3 - attempt
  {
    ClassifiedByMarkers();
    hide ShouldSplit, Transient, AsksTooMuch, Passing;
    if attempt < 2 {
      var counted := stats.(segments := stats.segments + 1);
      WearingFails(node, counted.(retries := counted.retries + 1), start, end, attempt + 1, output);
    }
  }

  /** Scanning fails exactly when one of its queries is hopeless; begun after its first attempt, also when the
      attempts left all meet transient errors on a single block. */
  lemma {:induction false} AttemptsFailExactly(node: Node, stats: Stats, start: int, end: int, attempt: nat, output: seq<ChainLog>)
    requires start <= end && attempt <= 2
    ensures Attempts(node, stats, start, end, attempt, output).result.Err? <==>
              || MeetsHopeless(node, Queries(node, stats, start, end, attempt, output))
              || Wearing(node, stats.segments, start, end, attempt)
    decreases end - start, 3 - attempt
  {
    ClassifiedByMarkers();
    hide ShouldSplit, Transient, AsksTooMuch, Passing, MeetsHopeless;
    var counted := stats.(segments := stats.segments + 1);
    var first, all := Query(stats.segments, start, end), Queries(node, stats, start, end, attempt, output);
    if Wearing(node, stats.segments, start, end, attempt) {
      WearingFails(node, stats, start, end, attempt, output);
    }
    match node(stats.segments, start, end)
    case RpcError(message) =>
      if Transient(message) && !ShouldSplit(message) && attempt < 2 {
        var again := counted.(retries := counted.retries + 1);
        AttemptsFailExactly(node, again, start, end, attempt + 1, output);
        MeetsFirst(node, first, Queries(node, again, start, end, attempt + 1, output));
        assert all == [first] + Queries(node, again, start, end, attempt + 1, output);
      } else if (ShouldSplit(message) || Transient(message)) && start < end {
        SplitFailsExactly(node, counted.(splits := counted.splits + 1), start, end, output);
        MeetsFirst(node, first, HalvesQueries(node, counted.(splits := counted.splits + 1), start, end, output));
        assert all == [first] + HalvesQueries(node, counted.(splits := counted.splits + 1), start, end, output);
      } else {
        MeetsFirst(node, first, []);
        MeetsEither(node, [], []);
        assert all == [first] + [];
      }
    case _ =>
      MeetsFirst(node, first, []);
      MeetsEither(node, [], []);
      assert all == [first] + [];
  }

  /** The two halves of a split, and their queries. */
  function Halves(node: Node, begun: Stats, start: int, end: int, output: seq<ChainLog>): Scanned
    requires start < end
  {
    var middle := (start + end) / 2;
    var left := Attempts(node, begun, start, middle, 0, output);
    if left.result.Err? then left else Attempts(node, left.stats, middle + 1, end, 0, left.result.value)
  }

  function HalvesQueries(node: Node, begun: Stats, start: int, end: int, output: seq<ChainLog>): seq<Query>
    requires start < end
  {
    var middle := (start + end) / 2;
    var left := Attempts(node, begun, start, middle, 0, output);
    Queries(node, begun, start, middle, 0, output)
    + if left.result.Err? then [] else Queries(node, left.stats, middle + 1, end, 0, left.result.value)
  }

  lemma {:induction false} SplitFailsExactly(node: Node, begun: Stats, start: int, end: int, output: seq<ChainLog>)
    requires start < end
    ensures Halves(node, begun, start, end, output).result.Err? <==> MeetsHopeless(node, HalvesQueries(node, begun, start, end, output))
    decreases end - start, 0
  {
    hide MeetsHopeless, Attempts, Queries;
    var middle := (start + end) / 2;
    MiddleIsBetween(start, end);
    FreshFailsExactly(node, begun, start, middle, output);
    var left := Attempts(node, begun, start, middle, 0, output);
    if left.result.Ok? {
      FreshFailsExactly(node, left.stats, middle + 1, end, left.result.value);
      MeetsEither(node, Queries(node, begun, start, middle, 0, output), Queries(node, left.stats, middle + 1, end, 0, left.result.value));
    } else {
      MeetsEither(node, Queries(node, begun, start, middle, 0, output), []);
    }
  }

  lemma {:induction false} FreshFailsExactly(node: Node, stats: Stats, start: int, end: int, output: seq<ChainLog>)
    requires start <= end
    ensures Attempts(node, stats, start, end, 0, output).result.Err? <==> MeetsHopeless(node, Queries(node, stats, start, end, 0, output))
    decreases end - start, 4
  {
    AttemptsFailExactly(node, stats, start, end, 0, output);
    if Wearing(node, stats.segments, start, end, 0) {
      WornOutIsHopeless(node, stats, start, end, output);
    }
  }

  lemma WornOutIsHopeless(node: Node, stats: Stats, start: int, end: int, output: seq<ChainLog>)
    requires Wearing(node, stats.segments, start, end, 0)
    ensures MeetsHopeless(node, Queries(node, stats, start, end, 0, output))
  {
    ClassifiedByMarkers();
    hide ShouldSplit, Transient, AsksTooMuch, Passing;
    assert Query(stats.segments, start, end) in Queries(node, stats, start, end, 0, output);
  }

  /** Queries numbered one by one from `number` on, inside a range. */
  ghost predicate Numbered(queries: seq<Query>, number: nat, start: int, end: int) {
    forall i :: 0 <= i < |queries| ==> queries[i].number == number + i && start <= queries[i].start <= queries[i].end <= end
  }

  lemma NumberedOn(a: seq<Query>, b: seq<Query>, number: nat, start: int, end: int, from: int, upTo: int)
    requires Numbered(a, number, start, end) && Numbered(b, number + |a|, from, upTo)
    ensures
      var least, most := if start <= from then start else from, if end <= upTo then upTo else end;
      Numbered(a + b, number, least, most)
  {
  }

  /** The first query is asked again. */
  ghost predicate Retries(node: Node, n: nat, a: int, b: int, attempt: nat) {
    Fleeting(node, n, a, b) && attempt < 2
  }

  /** The first query is split in two. */
  ghost predicate Splits(node: Node, n: nat, a: int, b: int, attempt: nat) {
    && !Retries(node, n, a, b, attempt) && a < b
    && match node(n, a, b)
       case RpcError(message) => AsksTooMuch(message) || Passing(message)
       case _ => false
  }

  lemma AttemptUnfolds(node: Node, stats: Stats, start: int, end: int, attempt: nat, output: seq<ChainLog>)
    ensures
      var n, counted := stats.segments, stats.(segments := stats.segments + 1);
      var first := [Query(n, start, end)];
      var scanned, queries := Attempts(node, stats, start, end, attempt, output), Queries(node, stats, start, end, attempt, output);
      if Retries(node, n, start, end, attempt) then
        var again := counted.(retries := counted.retries + 1);
        && scanned == Attempts(node, again, start, end, attempt + 1, output)
        && queries == first + Queries(node, again, start, end, attempt + 1, output)
      else if Splits(node, n, start, end, attempt) then
        var begun := counted.(splits := counted.splits + 1);
        && scanned == Halves(node, begun, start, end, output)
        && queries == first + HalvesQueries(node, begun, start, end, output)
      else
        scanned.stats == counted && queries == first
  {
    ClassifiedByMarkers();
    hide ShouldSplit, Transient, AsksTooMuch, Passing;
    assert [Query(stats.segments, start, end)] + [] == [Query(stats.segments, start, end)];
  }

  /** The queries issued are numbered one by one, as many as were counted, and stay in the range. */
  lemma {:induction false} QueriesAreCounted(node: Node, stats: Stats, start: int, end: int, attempt: nat, output: seq<ChainLog>)
    requires start <= end && attempt <= 2
    ensures
      var all := Queries(node, stats, start, end, attempt, output);
      && stats.segments + |all| == Attempts(node, stats, start, end, attempt, output).stats.segments
      && Numbered(all, stats.segments, start, end)
    decreases end - start, 3 - attempt
  {
    AttemptUnfolds(node, stats, start, end, attempt, output);
    hide Attempts, Queries, Halves, HalvesQueries, Fleeting;
    var n, counted := stats.segments, stats.(segments := stats.segments + 1);
    var first := [Query(n, start, end)];
    assert Numbered(first, n, start, end);
    hide Numbered;
    if Retries(node, n, start, end, attempt) {
      var again := counted.(retries := counted.retries + 1);
      QueriesAreCounted(node, again, start, end, attempt + 1, output);
      NumberedOn(first, Queries(node, again, start, end, attempt + 1, output), n, start, end, start, end);
    } else if Splits(node, n, start, end, attempt) {
      var begun := counted.(splits := counted.splits + 1);
      HalvesAreCounted(node, begun, start, end, output);
      NumberedOn(first, HalvesQueries(node, begun, start, end, output), n, start, end, start, end);
    }
  }

  lemma {:induction false} HalvesAreCounted(node: Node, begun: Stats, start: int, end: int, output: seq<ChainLog>)
    requires start < end
    ensures
      var all := HalvesQueries(node, begun, start, end, output);
      && begun.segments + |all| == Halves(node, begun, start, end, output).stats.segments
      && Numbered(all, begun.segments, start, end)
    decreases end - start, 0
  {
    hide Attempts, Queries;
    var middle := (start + end) / 2;
    MiddleIsBetween(start, end);
    QueriesAreCounted(node, begun, start, middle, 0, output);
    var left := Attempts(node, begun, start, middle, 0, output);
    if left.result.Ok? {
      QueriesAreCounted(node, left.stats, middle + 1, end, 0, left.result.value);
      NumberedOn(Queries(node, begun, start, middle, 0, output), Queries(node, left.stats, middle + 1, end, 0, left.result.value),
                 begun.segments, start, middle, middle + 1, end);
    }
  }

  lemma {:induction false} ChunksExact(node: Node, view: View, stats: Stats, cursor: int, upTo: int, chunkBlocks: int, output: seq<ChainLog>)
    requires Exact(node, view) && 0 < chunkBlocks
    ensures
      var r := Chunks(node, stats, cursor, upTo, chunkBlocks, output).result;
      r.Ok? ==> r.value == output + LogsIn(view, cursor, upTo)
    decreases upTo - cursor + 1
  {
    hide Attempts;
    if cursor <= upTo {
      var end := if cursor + chunkBlocks - 1 <= upTo then cursor + chunkBlocks - 1 else upTo;
      var chunk := Attempts(node, stats, cursor, end, 0, output);
      AttemptsExact(node, view, stats, cursor, end, 0, output);
      if chunk.result.Ok? {
        ChunksExact(node, view, chunk.stats, end + 1, upTo, chunkBlocks, chunk.result.value);
        LogsInSplit(view, cursor, end, upTo);
        hide LogsIn, Chunks;
        assert output + LogsIn(view, cursor, upTo) == output + LogsIn(view, cursor, end) + LogsIn(view, end + 1, upTo);
      }
    }
  }

  // ---------------------------------------------------------------- main results

  /** For every chunk size and every pattern of failures, a scan that returns normally returns exactly the
      logs of [from, to] in block order. */
  lemma ScanIsExact(node: Node, view: View, stats: Stats, from: int, upTo: int, chunkBlocks: int)
    requires Exact(node, view) && 0 < chunkBlocks
    ensures
      var r := Chunks(node, stats, from, upTo, chunkBlocks, []).result;
      r.Ok? ==> r.value == LogsIn(view, from, upTo)
  {
    ChunksExact(node, view, stats, from, upTo, chunkBlocks, []);
  }

  /** All the chunks of n blocks together cost at most 3 * (2n - 1) queries and n - 1 splits. */
  lemma {:induction false} ScanIsBounded(node: Node, stats: Stats, cursor: int, upTo: int, chunkBlocks: int, output: seq<ChainLog>)
    requires 0 < chunkBlocks && cursor <= upTo
    ensures
      var t, n := Chunks(node, stats, cursor, upTo, chunkBlocks, output).stats, upTo - cursor + 1;
      && t.segments <= stats.segments + 3 * (2 * n - 1)
      && t.splits <= stats.splits + n - 1
    decreases upTo - cursor + 1
  {
    var end := if cursor + chunkBlocks - 1 <= upTo then cursor + chunkBlocks - 1 else upTo;
    var chunk := Attempts(node, stats, cursor, end, 0, output);
    AttemptsBounded(node, stats, cursor, end, 0, output);
    if chunk.result.Ok? && end < upTo {
      ScanIsBounded(node, chunk.stats, end + 1, upTo, chunkBlocks, chunk.result.value);
    }
  }

  /** A scan fails if and only if one of the queries it issues is hopeless: neither a size limit on more than
      one block nor fewer than three transient errors in a row loses it. */
  lemma {:induction false} ScanFailsExactly(node: Node, stats: Stats, cursor: int, upTo: int, chunkBlocks: int, output: seq<ChainLog>)
    requires 0 < chunkBlocks
    ensures Chunks(node, stats, cursor, upTo, chunkBlocks, output).result.Err? <==>
            MeetsHopeless(node, ChunkQueries(node, stats, cursor, upTo, chunkBlocks, output))
    decreases upTo - cursor + 1
  {
    hide MeetsHopeless, Attempts, Queries;
    if cursor <= upTo {
      var end := if cursor + chunkBlocks - 1 <= upTo then cursor + chunkBlocks - 1 else upTo;
      FreshFailsExactly(node, stats, cursor, end, output);
      var chunk := Attempts(node, stats, cursor, end, 0, output);
      var first := Queries(node, stats, cursor, end, 0, output);
      if chunk.result.Ok? {
        ScanFailsExactly(node, chunk.stats, end + 1, upTo, chunkBlocks, chunk.result.value);
        MeetsEither(node, first, ChunkQueries(node, chunk.stats, end + 1, upTo, chunkBlocks, chunk.result.value));
      } else {
        MeetsEither(node, first, []);
      }
    } else {
      MeetsEither(node, [], []);
    }
  }

  /** The scan's queries are numbered one by one, as many as it counts, and stay in its range. */
  lemma {:induction false} ScanQueriesAreCounted(node: Node, stats: Stats, cursor: int, upTo: int, chunkBlocks: int, output: seq<ChainLog>)
    requires 0 < chunkBlocks
    ensures
      var all := ChunkQueries(node, stats, cursor, upTo, chunkBlocks, output);
      && stats.segments + |all| == Chunks(node, stats, cursor, upTo, chunkBlocks, output).stats.segments
      && Numbered(all, stats.segments, cursor, upTo)
    decreases upTo - cursor + 1
  {
    hide Attempts, Queries;
    if cursor <= upTo {
      var end := if cursor + chunkBlocks - 1 <= upTo then cursor + chunkBlocks - 1 else upTo;
      var chunk := Attempts(node, stats, cursor, end, 0, output);
      QueriesAreCounted(node, stats, cursor, end, 0, output);
      if chunk.result.Ok? {
        ScanQueriesAreCounted(node, chunk.stats, end + 1, upTo, chunkBlocks, chunk.result.value);
        NumberedOn(Queries(node, stats, cursor, end, 0, output), ChunkQueries(node, chunk.stats, end + 1, upTo, chunkBlocks, chunk.result.value),
                   stats.segments, cursor, end, end + 1, upTo);
      }
    }
  }

  ghost predicate AtMostLong(queries: seq<Query>, blocks: int) {
    forall i :: 0 <= i < |queries| ==> queries[i].end - queries[i].start < blocks
  }

  lemma WithinIsAtMostLong(queries: seq<Query>, number: nat, start: int, end: int, blocks: int)
    requires Numbered(queries, number, start, end) && end - start < blocks
    ensures AtMostLong(queries, blocks)
  {
  }

  lemma BothAtMostLong(a: seq<Query>, b: seq<Query>, blocks: int)
    requires AtMostLong(a, blocks) && AtMostLong(b, blocks)
    ensures AtMostLong(a + b, blocks)
  {
  }

  /** No query of a scan asks for more blocks than a chunk has. */
  lemma {:induction false} QueriesFitChunks(node: Node, stats: Stats, cursor: int, upTo: int, chunkBlocks: int, output: seq<ChainLog>)
    requires 0 < chunkBlocks
    ensures AtMostLong(ChunkQueries(node, stats, cursor, upTo, chunkBlocks, output), chunkBlocks)
    decreases upTo - cursor + 1
  {
    hide Attempts, Queries, Numbered;
    if cursor <= upTo {
      var end := if cursor + chunkBlocks - 1 <= upTo then cursor + chunkBlocks - 1 else upTo;
      var chunk := Attempts(node, stats, cursor, end, 0, output);
      QueriesAreCounted(node, stats, cursor, end, 0, output);
      WithinIsAtMostLong(Queries(node, stats, cursor, end, 0, output), stats.segments, cursor, end, chunkBlocks);
      if chunk.result.Ok? {
        QueriesFitChunks(node, chunk.stats, end + 1, upTo, chunkBlocks, chunk.result.value);
        BothAtMostLong(Queries(node, stats, cursor, end, 0, output),
                       ChunkQueries(node, chunk.stats, end + 1, upTo, chunkBlocks, chunk.result.value), chunkBlocks);
      } else {
        BothAtMostLong(Queries(node, stats, cursor, end, 0, output), [], chunkBlocks);
      }
    }
  }

  /** A node that never fails is asked once for each chunk, from the first block on. */
  lemma {:induction false} SmoothScanAsksOncePerChunk(node: Node, stats: Stats, cursor: int, upTo: int, chunkBlocks: int, output: seq<ChainLog>)
    requires 0 < chunkBlocks && cursor <= upTo + 1
    requires forall n, a, b :: node(n, a, b).Logs?
    ensures
      var all := ChunkQueries(node, stats, cursor, upTo, chunkBlocks, output);
      && (forall i :: 0 <= i < |all| ==> all[i].start == cursor + i * chunkBlocks)
      && (forall i :: 0 <= i < |all| - 1 ==> all[i].end == all[i].start + chunkBlocks - 1)
      && (cursor <= upTo ==> all != [] && all[|all| - 1].end == upTo)
    decreases upTo - cursor + 1
  {
    if cursor <= upTo {
      var end := if cursor + chunkBlocks - 1 <= upTo then cursor + chunkBlocks - 1 else upTo;
      var chunk := Attempts(node, stats, cursor, end, 0, output);
      assert Queries(node, stats, cursor, end, 0, output) == [Query(stats.segments, cursor, end)];
      var rest := ChunkQueries(node, chunk.stats, end + 1, upTo, chunkBlocks, chunk.result.value);
      var all := ChunkQueries(node, stats, cursor, upTo, chunkBlocks, output);
      assert all == [Query(stats.segments, cursor, end)] + rest;
      SmoothScanAsksOncePerChunk(node, chunk.stats, end + 1, upTo, chunkBlocks, chunk.result.value);
      hide Attempts, Queries, ChunkQueries;
      forall i | 0 < i < |all|
        ensures all[i].start == cursor + i * chunkBlocks
      {
        assert all[i] == rest[i - 1] && (i - 1) * chunkBlocks == i * chunkBlocks - chunkBlocks;
        assert end == cursor + chunkBlocks - 1;
      }
    }
  }

  /** Whatever it is asked, a node that is never hopeless within the range never loses a scan of it. */
  lemma ScanSucceedsUnlessHopeless(node: Node, stats: Stats, cursor: int, upTo: int, chunkBlocks: int, output: seq<ChainLog>)
    requires 0 < chunkBlocks
    requires forall n: nat, a, b :: cursor <= a <= b <= upTo ==> !Hopeless(node, n, a, b)
    ensures Chunks(node, stats, cursor, upTo, chunkBlocks, output).result.Ok?
  {
    hide Hopeless, Chunks, ChunkQueries;
    ScanFailsExactly(node, stats, cursor, upTo, chunkBlocks, output);
    ScanQueriesAreCounted(node, stats, cursor, upTo, chunkBlocks, output);
  }
}
