/** What the request buckets guarantee over every run, for any number of clients, as time moves on. */
module RateLimit {
  import opened RpcProxy

  datatype Admitted = Admitted(time: int, ip: string, cost: nat)

  datatype Request = Request(now: int, ip: string, cost: nat)

  /** What a limit applies to: one client, or everybody together. */
  datatype Scope = Client(ip: string) | Everybody

  function KeyOf(scope: Scope): string {
    match scope
    case Client(ip) => ip
    case Everybody => "*"
  }

  function LimitOf(scope: Scope): nat {
    match scope
    case Client(_) => 120
    case Everybody => 600
  }

  predicate Covers(scope: Scope, ip: string) {
    scope == Everybody || scope == Client(ip)
  }

  /** The buckets, and the record of what they have let through. */
  datatype State = State(buckets: map<string, Bucket>, log: seq<Admitted>, clock: int)

  function Step(s: State, r: Request): State {
    var (ok, buckets) := Admission(s.buckets, r.now, r.ip, r.cost);
    State(buckets, if ok then s.log + [Admitted(r.now, r.ip, r.cost)] else s.log, r.now)
  }

  function Run(s: State, requests: seq<Request>): State
    decreases |requests|
  {
    if requests == [] then s else Run(Step(s, requests[0]), requests[1..])
  }

  /** Time never goes back. */
  ghost predicate Forward(clock: int, requests: seq<Request>)
    decreases |requests|
  {
    requests != [] ==> clock <= requests[0].now && Forward(requests[0].now, requests[1..])
  }

  function Initial(clock: int): State {
    State(map[], [], clock)
  }

  /** The cost admitted within a scope from time `from` on. */
  function Since(log: seq<Admitted>, scope: Scope, from: int): nat {
    if log == [] then 0
    else
      var last := log[|log| - 1];
      Since(log[..|log| - 1], scope, from) + if Covers(scope, last.ip) && from <= last.time then last.cost else 0
  }

  /** The cost admitted within a scope in the half-open interval from `from` to `to`. */
  function Between(log: seq<Admitted>, scope: Scope, from: int, to: int): nat {
    if log == [] then 0
    else
      var last := log[|log| - 1];
      Between(log[..|log| - 1], scope, from, to)
      + if Covers(scope, last.ip) && from <= last.time < to then last.cost else 0
  }

  /** The cost admitted within a scope in the ten seconds from `t` on. */
  function Window(log: seq<Admitted>, scope: Scope, t: int): nat {
    Between(log, scope, t, t + 10_000)
  }

  lemma {:induction false} SplitAt(log: seq<Admitted>, scope: Scope, from: int, middle: int)
    requires from <= middle
    ensures Since(log, scope, from) == Between(log, scope, from, middle) + Since(log, scope, middle)
  {
    if log != [] {
      SplitAt(log[..|log| - 1], scope, from, middle);
    }
  }

  lemma {:induction false} BetweenWithin(log: seq<Admitted>, scope: Scope, from: int, middle: int, to: int)
    requires from <= middle
    ensures Between(log, scope, from, to) <= Between(log, scope, from, middle) + Since(log, scope, middle)
  {
    if log != [] {
      BetweenWithin(log[..|log| - 1], scope, from, middle, to);
    }
  }

  lemma {:induction false} NothingLater(log: seq<Admitted>, scope: Scope, clock: int, from: int)
    requires clock < from && forall k :: 0 <= k < |log| ==> log[k].time <= clock
    ensures Since(log, scope, from) == 0
  {
    if log != [] {
      NothingLater(log[..|log| - 1], scope, clock, from);
    }
  }

  lemma Append(log: seq<Admitted>, scope: Scope, a: Admitted, from: int, to: int)
    ensures Since(log + [a], scope, from) == Since(log, scope, from) + if Covers(scope, a.ip) && from <= a.time then a.cost else 0
    ensures Between(log + [a], scope, from, to)
         == Between(log, scope, from, to) + if Covers(scope, a.ip) && from <= a.time < to then a.cost else 0
  {
    assert (log + [a])[..|log|] == log;
  }

  // ---------------------------------------------------------------- the invariant of one scope

  /** The window before a bucket's opening held at most one limit, less the cost that opened the bucket before;
      what has been charged since covers everything admitted since. */
  ghost predicate OpenBefore(log: seq<Admitted>, scope: Scope, b: Bucket, least: nat) {
    && Since(log, scope, b.at) <= b.count && Since(log, scope, b.at) <= LimitOf(scope)
    && forall t :: b.at - WINDOW < t ==> Between(log, scope, t, b.at) + least <= LimitOf(scope)
  }

  /** And what opened it, `least` or more, leaves that much less for later. */
  ghost predicate OpenSound(log: seq<Admitted>, scope: Scope, b: Bucket, least: nat) {
    && OpenBefore(log, scope, b, least)
    && Since(log, scope, b.at + 1) + least <= b.count && Since(log, scope, b.at + 1) + least <= LimitOf(scope)
  }

  /** While no bucket is open, the last window held at most one limit, less the cost that opened the last bucket,
      and nothing has been admitted just now. */
  ghost predicate ClosedSound(log: seq<Admitted>, scope: Scope, clock: int, least: nat) {
    && Since(log, scope, clock) == 0
    && forall t :: clock - WINDOW < t ==> Since(log, scope, t) + least <= LimitOf(scope)
  }

  ghost predicate Bounded(log: seq<Admitted>, scope: Scope, least: nat) {
    forall t :: Window(log, scope, t) + least <= 2 * LimitOf(scope)
  }

  ghost predicate Timely(s: State) {
    && (forall k :: 0 <= k < |s.log| ==> s.log[k].time <= s.clock)
    && (forall key :: key in s.buckets ==> s.buckets[key].at <= s.clock < s.buckets[key].at + WINDOW)
  }

  ghost predicate Sound(s: State, scope: Scope, least: nat) {
    && Timely(s) && Bounded(s.log, scope, least)
    && if KeyOf(scope) in s.buckets then OpenSound(s.log, scope, s.buckets[KeyOf(scope)], least)
       else ClosedSound(s.log, scope, s.clock, least)
  }

  /** A bucket that expires leaves its scope closed. */
  lemma ClosingIsSound(log: seq<Admitted>, scope: Scope, b: Bucket, now: int, least: nat)
    requires OpenSound(log, scope, b, least) && b.at + WINDOW <= now && Since(log, scope, now) == 0
    ensures ClosedSound(log, scope, now, least)
  {
    forall t | now - WINDOW < t
      ensures Since(log, scope, t) + least <= LimitOf(scope)
    {
      SplitAt(log, scope, b.at + 1, t);
    }
  }

  /** Letting time pass, and dropping the expired buckets, keeps a scope sound. */
  lemma ExpiryKeepsSound(s: State, scope: Scope, now: int, least: nat)
    requires Sound(s, scope, least) && s.clock <= now
    ensures Sound(State(Unexpired(s.buckets, now), s.log, now), scope, least)
  {
    var key := KeyOf(scope);
    if s.clock < now {
      NothingLater(s.log, scope, s.clock, now);
    }
    if key in s.buckets && key !in Unexpired(s.buckets, now) {
      hide OpenSound;
      ClosingIsSound(s.log, scope, s.buckets[key], now, least);
    }
  }

  /** Admitting a cost that fits the bucket keeps what was before it. */
  lemma ChargeKeepsOpen(log: seq<Admitted>, scope: Scope, b: Bucket, a: Admitted, count: nat, least: nat)
    requires OpenBefore(log, scope, b, least) && Covers(scope, a.ip)
    requires b.at <= a.time && b.count + a.cost <= LimitOf(scope) && b.count + a.cost <= count
    ensures OpenBefore(log + [a], scope, Bucket(b.at, count), least)
  {
    Append(log, scope, a, b.at, b.at);
    forall t | b.at - WINDOW < t
      ensures Between(log + [a], scope, t, b.at) + least <= LimitOf(scope)
    {
      Append(log, scope, a, t, b.at);
    }
  }

  /** A window that an admission into an open bucket falls into. */
  lemma ChargedWindow(log: seq<Admitted>, scope: Scope, b: Bucket, a: Admitted, count: nat, least: nat, t: int)
    requires OpenBefore(log, scope, b, least) && OpenBefore(log + [a], scope, Bucket(b.at, count), least)
    requires b.at <= a.time < t + WINDOW && least <= LimitOf(scope)
    ensures Window(log + [a], scope, t) + least <= 2 * LimitOf(scope)
  {
    if t <= b.at {
      BetweenWithin(log + [a], scope, t, b.at, t + WINDOW);
    } else {
      SplitAt(log + [a], scope, b.at, t);
      BetweenWithin(log + [a], scope, t, t, t + WINDOW);
      NoneBetween(log + [a], scope, t, t);
    }
  }

  /** An admission that falls into a bucket whose past is in order keeps every window bounded. */
  lemma ChargeKeepsBounded(log: seq<Admitted>, scope: Scope, b: Bucket, a: Admitted, count: nat, least: nat)
    requires OpenBefore(log, scope, b, least) && Bounded(log, scope, least) && Covers(scope, a.ip)
    requires b.at <= a.time && b.count + a.cost <= LimitOf(scope) && b.count + a.cost <= count && least <= LimitOf(scope)
    ensures OpenBefore(log + [a], scope, Bucket(b.at, count), least) && Bounded(log + [a], scope, least)
  {
    ChargeKeepsOpen(log, scope, b, a, count, least);
    hide OpenBefore;
    forall t
      ensures Window(log + [a], scope, t) + least <= 2 * LimitOf(scope)
    {
      Append(log, scope, a, t, t + WINDOW);
      if t <= a.time < t + WINDOW {
        ChargedWindow(log, scope, b, a, count, least, t);
      } else {
        assert Window(log + [a], scope, t) == Window(log, scope, t);
      }
    }
  }

  /** Charging an open bucket keeps its covered scope sound. */
  lemma ChargeKeepsSound(log: seq<Admitted>, scope: Scope, b: Bucket, a: Admitted, count: nat, least: nat)
    requires OpenSound(log, scope, b, least) && Bounded(log, scope, least) && Covers(scope, a.ip)
    requires b.at <= a.time && b.count + a.cost <= LimitOf(scope) && b.count + a.cost <= count && least <= LimitOf(scope)
    ensures OpenSound(log + [a], scope, Bucket(b.at, count), least) && Bounded(log + [a], scope, least)
  {
    ChargeKeepsBounded(log, scope, b, a, count, least);
    Append(log, scope, a, b.at + 1, b.at + 1);
    hide OpenBefore, Bounded;
  }

  /** Opening a bucket with a first charge of at least `least` makes its covered scope sound. */
  lemma FirstChargeIsSound(log: seq<Admitted>, scope: Scope, a: Admitted, count: nat, least: nat)
    requires ClosedSound(log, scope, a.time, least) && Bounded(log, scope, least) && Covers(scope, a.ip)
    requires least <= a.cost <= LimitOf(scope) && a.cost <= count
    ensures OpenSound(log + [a], scope, Bucket(a.time, count), least) && Bounded(log + [a], scope, least)
  {
    OpeningIsSound(log, scope, a.time, least);
    SplitAt(log, scope, a.time, a.time + 1);
    ChargeKeepsBounded(log, scope, Bucket(a.time, 0), a, count, least);
    Append(log, scope, a, a.time + 1, a.time + 1);
    hide OpenBefore, Bounded;
  }

  /** A client that shares its key with everybody finds its bucket opened by others; that is sound for it. */
  lemma OthersOpenSound(log: seq<Admitted>, scope: Scope, a: Admitted, count: nat, least: nat)
    requires ClosedSound(log, scope, a.time, least) && !Covers(scope, a.ip)
    requires least <= count && least <= LimitOf(scope)
    ensures OpenSound(log, scope, Bucket(a.time, count), least)
  {
    OpeningIsSound(log, scope, a.time, least);
    SplitAt(log, scope, a.time, a.time + 1);
  }

  lemma {:induction false} NoneBetween(log: seq<Admitted>, scope: Scope, from: int, to: int)
    requires to <= from
    ensures Between(log, scope, from, to) == 0
  {
    if log != [] {
      NoneBetween(log[..|log| - 1], scope, from, to);
    }
  }

  /** A bucket opened now over a closed scope has everything before it in order. */
  lemma OpeningIsSound(log: seq<Admitted>, scope: Scope, clock: int, least: nat)
    requires ClosedSound(log, scope, clock, least)
    ensures OpenBefore(log, scope, Bucket(clock, 0), least)
  {
    forall t | clock - WINDOW < t
      ensures Between(log, scope, t, clock) + least <= LimitOf(scope)
    {
      if t <= clock {
        SplitAt(log, scope, t, clock);
      } else {
        NoneBetween(log, scope, t, clock);
        SplitAt(log, scope, clock, clock);
      }
    }
  }

  /** An admission outside a scope does not concern it. */
  lemma OthersKeepSound(log: seq<Admitted>, scope: Scope, a: Admitted, clock: int, b: Bucket, count: nat, least: nat)
    requires !Covers(scope, a.ip) && Bounded(log, scope, least)
    ensures Bounded(log + [a], scope, least)
    ensures OpenSound(log, scope, b, least) && b.count <= count ==> OpenSound(log + [a], scope, Bucket(b.at, count), least)
    ensures ClosedSound(log, scope, clock, least) ==> ClosedSound(log + [a], scope, clock, least)
  {
    forall t
      ensures Window(log + [a], scope, t) == Window(log, scope, t)
      ensures Since(log + [a], scope, t) == Since(log, scope, t)
      ensures Between(log + [a], scope, t, b.at) == Between(log, scope, t, b.at)
    {
      Append(log, scope, a, t, t + WINDOW);
      Append(log, scope, a, t, b.at);
    }
  }

  /** What an admission does to the bucket of one scope. */
  lemma ScopeCharged(live: map<string, Bucket>, now: int, ip: string, cost: nat, scope: Scope)
    requires Admits(live, now, ip, cost)
    ensures
      var after, key := Charged(Charged(live, ip, now, cost), GLOBAL, now, cost), KeyOf(scope);
      var b := BucketFor(live, key, now);
      && (Covers(scope, ip) ==> key in after && b.count + cost <= LimitOf(scope) && b.count + cost <= after[key].count)
      && (key in live ==> key in after)
      && (key in after ==> after[key].at == b.at && b.count <= after[key].count && (key !in live ==> cost <= after[key].count))
  {
  }

  lemma StepKeepsTimely(s: State, scope: Scope, r: Request, least: nat)
    requires Sound(s, scope, least) && s.clock <= r.now
    ensures Timely(Step(s, r))
  {
    hide OpenSound, ClosedSound, Bounded;
  }

  lemma StepKeepsSound(s: State, scope: Scope, r: Request, least: nat)
    requires Sound(s, scope, least) && s.clock <= r.now && least <= r.cost && least <= LimitOf(scope)
    ensures Sound(Step(s, r), scope, least)
  {
    StepKeepsTimely(s, scope, r, least);
    var live := Unexpired(s.buckets, r.now);
    ExpiryKeepsSound(s, scope, r.now, least);
    hide OpenBefore, OpenSound, ClosedSound, Bounded, Unexpired, Timely;
    if Admits(live, r.now, r.ip, r.cost) {
      var a, key := Admitted(r.now, r.ip, r.cost), KeyOf(scope);
      var after := Step(s, r).buckets;
      var b := BucketFor(live, key, r.now);
      ScopeCharged(live, r.now, r.ip, r.cost, scope);
      assert Step(s, r) == State(after, s.log + [a], r.now);
      assert after == Charged(Charged(live, r.ip, r.now, r.cost), GLOBAL, r.now, r.cost);
      assert if key in live then OpenSound(s.log, scope, b, least) else ClosedSound(s.log, scope, r.now, least);
      if key in live {
        OpenedBefore(s, r, key);
      }
      hide Charged, Admits, Step;
      ScopeStays(s.log, scope, a, live, after, least);
    }
  }

  lemma OpenedBefore(s: State, r: Request, key: string)
    requires Timely(s) && s.clock <= r.now && key in Unexpired(s.buckets, r.now)
    ensures Unexpired(s.buckets, r.now)[key].at <= r.now
  {
  }

  /** An admission keeps a scope sound, covered or not, open or not. */
  lemma ScopeStays(log: seq<Admitted>, scope: Scope, a: Admitted, live: map<string, Bucket>, after: map<string, Bucket>, least: nat)
    requires Bounded(log, scope, least) && least <= a.cost && least <= LimitOf(scope)
    requires var key := KeyOf(scope);
             var b := BucketFor(live, key, a.time);
             && (if key in live then OpenSound(log, scope, b, least) else ClosedSound(log, scope, a.time, least))
             && b.at <= a.time
             && (Covers(scope, a.ip) ==> key in after && b.count + a.cost <= LimitOf(scope) && b.count + a.cost <= after[key].count)
             && (key in live ==> key in after)
             && (key in after ==> after[key].at == b.at && b.count <= after[key].count && (key !in live ==> a.cost <= after[key].count))
    ensures Bounded(log + [a], scope, least)
    ensures if KeyOf(scope) in after then OpenSound(log + [a], scope, after[KeyOf(scope)], least)
            else ClosedSound(log + [a], scope, a.time, least)
  {
    var key := KeyOf(scope);
    var b := BucketFor(live, key, a.time);
    hide OpenSound, ClosedSound, Bounded;
    if Covers(scope, a.ip) {
      if key in live {
        ChargeKeepsSound(log, scope, b, a, after[key].count, least);
      } else {
        FirstChargeIsSound(log, scope, a, after[key].count, least);
      }
      assert after[key] == Bucket(b.at, after[key].count);
    } else {
      if key in after {
        if key !in live {
          OthersOpenSound(log, scope, a, after[key].count, least);
        }
        OthersKeepSound(log, scope, a, a.time, if key in live then b else after[key], after[key].count, least);
        assert after[key] == Bucket(b.at, after[key].count);
      } else {
        OthersKeepSound(log, scope, a, a.time, b, 0, least);
      }
    }
  }

  ghost predicate CostAtLeast(requests: seq<Request>, least: nat) {
    forall k :: 0 <= k < |requests| ==> least <= requests[k].cost
  }

  lemma {:induction false} RunKeepsSound(s: State, scope: Scope, requests: seq<Request>, least: nat)
    requires Sound(s, scope, least) && Forward(s.clock, requests) && CostAtLeast(requests, least) && least <= LimitOf(scope)
    ensures Sound(Run(s, requests), scope, least)
    decreases |requests|
  {
    hide Sound;
    if requests != [] {
      StepKeepsSound(s, scope, requests[0], least);
      RunKeepsSound(Step(s, requests[0]), scope, requests[1..], least);
    }
  }

  // ---------------------------------------------------------------- the table itself

  ghost predicate WithinLimits(buckets: map<string, Bucket>) {
    CountsWithin(buckets) && |buckets.Keys - {GLOBAL}| <= MAX_BUCKETS
  }

  lemma SubsetSize(a: set<string>, b: set<string>)
    requires a <= b
    ensures |a| <= |b|
  {
    assert b == a + (b - a);
  }

  ghost predicate CountsWithin(buckets: map<string, Bucket>) {
    && (forall key :: key in buckets && key != GLOBAL ==> buckets[key].count <= IP_LIMIT)
    && (GLOBAL in buckets ==> buckets[GLOBAL].count <= GLOBAL_LIMIT)
  }

  lemma AdmissionKeepsCounts(buckets: map<string, Bucket>, now: int, ip: string, cost: nat)
    requires CountsWithin(buckets)
    ensures CountsWithin(Admission(buckets, now, ip, cost).1)
  {
    assert CountsWithin(Unexpired(buckets, now));
  }

  lemma ChargedKeys(buckets: map<string, Bucket>, key: string, now: int, cost: nat)
    ensures Charged(buckets, key, now, cost).Keys == buckets.Keys + {key}
  {
  }

  lemma UnexpiredKeys(buckets: map<string, Bucket>, now: int)
    ensures Unexpired(buckets, now).Keys <= buckets.Keys
  {
  }

  lemma AdmissionKeys(buckets: map<string, Bucket>, now: int, ip: string, cost: nat)
    ensures
      var live := Unexpired(buckets, now);
      Admission(buckets, now, ip, cost).1.Keys == if Admits(live, now, ip, cost) then live.Keys + {ip, GLOBAL} else live.Keys
  {
    var live := Unexpired(buckets, now);
    ChargedKeys(live, ip, now, cost);
    ChargedKeys(Charged(live, ip, now, cost), GLOBAL, now, cost);
    hide Charged, Unexpired, BucketFor, Admits;
  }

  /** Only a client already in the table, or one finding it short of full, is let in. */
  lemma AdmissionKeepsSize(buckets: map<string, Bucket>, now: int, ip: string, cost: nat)
    requires |buckets.Keys - {GLOBAL}| <= MAX_BUCKETS
    ensures |Admission(buckets, now, ip, cost).1.Keys - {GLOBAL}| <= MAX_BUCKETS
  {
    var live := Unexpired(buckets, now);
    AdmissionKeys(buckets, now, ip, cost);
    UnexpiredKeys(buckets, now);
    hide Charged, Unexpired, BucketFor, Admission;
    SubsetSize(live.Keys - {GLOBAL}, buckets.Keys - {GLOBAL});
    if Admits(live, now, ip, cost) {
      AddClient(live.Keys, ip, Admission(buckets, now, ip, cost).1.Keys);
    }
  }

  lemma AddClient(live: set<string>, ip: string, after: set<string>)
    requires after == live + {ip, GLOBAL} && |live - {GLOBAL}| <= MAX_BUCKETS && (|live| < MAX_BUCKETS || ip in live)
    ensures |after - {GLOBAL}| <= MAX_BUCKETS
  {
    if ip in live {
      assert after - {GLOBAL} == live - {GLOBAL};
    } else {
      SubsetSize(after - {GLOBAL}, live + {ip});
    }
  }

  lemma AdmissionWithinLimits(buckets: map<string, Bucket>, now: int, ip: string, cost: nat)
    requires WithinLimits(buckets)
    ensures WithinLimits(Admission(buckets, now, ip, cost).1)
  {
    hide Admission;
    AdmissionKeepsCounts(buckets, now, ip, cost);
    AdmissionKeepsSize(buckets, now, ip, cost);
  }

  lemma {:induction false} RunWithinLimits(s: State, requests: seq<Request>)
    requires WithinLimits(s.buckets)
    ensures WithinLimits(Run(s, requests).buckets)
    decreases |requests|
  {
    hide WithinLimits;
    if requests != [] {
      AdmissionWithinLimits(s.buckets, requests[0].now, requests[0].ip, requests[0].cost);
      RunWithinLimits(Step(s, requests[0]), requests[1..]);
    }
  }

  // ---------------------------------------------------------------- main results

  /** Over every run with time that does not go back, whose requests cost at least `least` each, any half-open
      interval of ten seconds admits at most twice the limit of a scope, less `least`: the request that opened a
      bucket is never in one window with the next bucket. */
  lemma AnyWindowIsBounded(clock: int, requests: seq<Request>, scope: Scope, t: int, least: nat)
    requires Forward(clock, requests) && CostAtLeast(requests, least) && least <= LimitOf(scope)
    ensures Window(Run(Initial(clock), requests).log, scope, t) + least <= 2 * LimitOf(scope)
  {
    hide Run;
    assert Sound(Initial(clock), scope, least);
    RunKeepsSound(Initial(clock), scope, requests, least);
  }

  /** So any ten seconds admit at most twice the limit of a client, and at most twice the global limit; and at
      most one less for requests as the proxy makes them, of one call or more. */
  lemma AnyWindowAdmitsTwiceTheLimit(clock: int, requests: seq<Request>, scope: Scope, t: int)
    requires Forward(clock, requests)
    ensures Window(Run(Initial(clock), requests).log, scope, t) <= 2 * LimitOf(scope)
    ensures CostAtLeast(requests, 1) ==> Window(Run(Initial(clock), requests).log, scope, t) <= 2 * LimitOf(scope) - 1
  {
    hide Run;
    AnyWindowIsBounded(clock, requests, scope, t, 0);
    if CostAtLeast(requests, 1) {
      AnyWindowIsBounded(clock, requests, scope, t, 1);
    }
  }

  /** At every moment no bucket is over its limit and the table holds at most 2049 keys. */
  lemma TableStaysSmall(clock: int, requests: seq<Request>)
    ensures
      var buckets := Run(Initial(clock), requests).buckets;
      && |buckets| <= 2049
      && (forall key :: key in buckets ==> buckets[key].count <= if key == "*" then 600 else 120)
  {
    RunWithinLimits(Initial(clock), requests);
    var keys := Run(Initial(clock), requests).buckets.Keys;
    assert keys <= (keys - {GLOBAL}) + {GLOBAL};
    SubsetSize(keys, (keys - {GLOBAL}) + {GLOBAL});
  }

  /** The buckets opened less than ten seconds ago. */
  function Open(s: State, now: int): map<string, Bucket> {
    map key | key in s.buckets && now - s.buckets[key].at < 10_000 :: s.buckets[key]
  }

  function CountIn(buckets: map<string, Bucket>, key: string): nat {
    if key in buckets then buckets[key].count else 0
  }

  /** The table has room for the client, and neither its limit nor everybody's would be passed. */
  predicate HasRoom(s: State, r: Request) {
    var open := Open(s, r.now);
    (|open| < 2048 || r.ip in open) && CountIn(open, r.ip) + r.cost <= 120 && CountIn(open, "*") + r.cost <= 600
  }

  lemma OpenIsUnexpired(s: State, r: Request)
    ensures Open(s, r.now) == Unexpired(s.buckets, r.now)
    ensures Admission(s.buckets, r.now, r.ip, r.cost).0 <==> HasRoom(s, r)
  {
  }

  /** A request is refused exactly when there is no room for it, and then nobody is charged: every bucket still
      open keeps its count and opening time. */
  lemma RefusalChargesNobody(s: State, r: Request)
    ensures !HasRoom(s, r) <==> Step(s, r) == State(Open(s, r.now), s.log, r.now)
  {
    OpenIsUnexpired(s, r);
    hide HasRoom, Open, Unexpired, Charged, BucketFor, Admits;
    if HasRoom(s, r) {
      assert |Step(s, r).log| == |s.log| + 1;
    }
  }

  /** An admitted request is charged once to its own bucket and once to everybody's, in buckets that are open
      now; no other bucket that is still open changes. */
  lemma AdmissionChargesBoth(s: State, r: Request)
    requires HasRoom(s, r) && r.ip != "*"
    ensures Step(s, r).log == s.log + [Admitted(r.now, r.ip, r.cost)]
    ensures
      var open, after := Open(s, r.now), Step(s, r).buckets;
      && after.Keys == open.Keys + {r.ip, "*"}
      && (forall key :: key in after ==>
            && after[key].at == (if key in open then open[key].at else r.now)
            && after[key].count == CountIn(open, key) + (if key == r.ip || key == "*" then r.cost else 0))
  {
    OpenIsUnexpired(s, r);
    AdmissionKeys(s.buckets, r.now, r.ip, r.cost);
  }

  // ---------------------------------------------------------------- the bound is attained

  const FIRST: Request := Request(0, "a", 1)
  const SECOND: Request := Request(9999, "a", 119)
  const THIRD: Request := Request(10000, "a", 120)

  lemma FirstStep(s: State)
    requires s.buckets == map[] && s.log == []
    ensures
      var t := Step(s, FIRST);
      && t.buckets.Keys == {"a", GLOBAL} && t.buckets["a"] == t.buckets[GLOBAL] == Bucket(0, 1)
      && t.log == [Admitted(0, "a", 1)]
  {
    assert Unexpired(s.buckets, 0) == map[];
  }

  lemma SecondStep(s: State)
    requires s.buckets.Keys == {"a", GLOBAL} && s.buckets["a"] == s.buckets[GLOBAL] == Bucket(0, 1)
    ensures
      var t := Step(s, SECOND);
      && t.buckets.Keys == {"a", GLOBAL} && t.buckets["a"] == t.buckets[GLOBAL] == Bucket(0, 120)
      && t.log == s.log + [Admitted(9999, "a", 119)]
  {
    assert forall key :: key in s.buckets ==> key == "a" || key == GLOBAL;
    assert Unexpired(s.buckets, 9999) == s.buckets;
  }

  lemma ThirdStep(s: State)
    requires s.buckets.Keys == {"a", GLOBAL} && s.buckets["a"] == s.buckets[GLOBAL] == Bucket(0, 120)
    ensures Step(s, THIRD).log == s.log + [Admitted(10000, "a", 120)]
  {
    assert forall key :: key in s.buckets ==> key == "a" || key == GLOBAL;
    assert Unexpired(s.buckets, 10000) == map[];
  }

  lemma ThreeWindow()
    ensures Window([Admitted(0, "a", 1)] + [Admitted(9999, "a", 119)] + [Admitted(10000, "a", 120)], Client("a"), 9999) == 239
  {
    var scope, x, y, z := Client("a"), Admitted(0, "a", 1), Admitted(9999, "a", 119), Admitted(10000, "a", 120);
    Append([], scope, x, 9999, 19999);
    Append([x], scope, y, 9999, 19999);
    Append([x] + [y], scope, z, 9999, 19999);
    assert [] + [x] == [x];
  }

  lemma ThreeForward()
    ensures Forward(0, [FIRST, SECOND, THIRD]) && CostAtLeast([FIRST, SECOND, THIRD], 1)
  {
    assert [FIRST, SECOND, THIRD][1..] == [SECOND, THIRD] && [SECOND, THIRD][1..] == [THIRD] && [THIRD][1..] == [];
    assert Forward(10000, []);
    assert Forward(9999, [THIRD]);
    assert Forward(0, [SECOND, THIRD]);
  }

  lemma ThreeSteps()
    ensures
      var s1 := Step(Initial(0), FIRST);
      Step(Step(s1, SECOND), THIRD).log == [Admitted(0, "a", 1)] + [Admitted(9999, "a", 119)] + [Admitted(10000, "a", 120)]
  {
    hide Step;
    var s1 := Step(Initial(0), FIRST);
    FirstStep(Initial(0));
    SecondStep(s1);
    ThirdStep(Step(s1, SECOND));
  }

  /** A client spends one call to open its bucket, the rest of the limit as the bucket ends, and a whole limit
      as the next one opens: the last two are in one window. */
  lemma ClientWindowAttained()
    ensures Forward(0, [FIRST, SECOND, THIRD]) && CostAtLeast([FIRST, SECOND, THIRD], 1)
    ensures Window(Run(Initial(0), [FIRST, SECOND, THIRD]).log, Client("a"), 9999) == 239
  {
    hide Step, Window, Forward, CostAtLeast;
    ThreeForward();
    ThreeSteps();
    ThreeWindow();
    RunsThrough(Initial(0), FIRST, SECOND, THIRD);
  }

  lemma RunsThrough(s: State, a: Request, b: Request, c: Request)
    ensures Run(s, [a, b, c]) == Step(Step(Step(s, a), b), c)
  {
    hide Step;
    assert [a, b, c][1..] == [b, c] && [b, c][1..] == [c] && [c][1..] == [];
    assert Run(Step(Step(s, a), b), [c]) == Step(Step(Step(s, a), b), c);
    assert Run(Step(s, a), [b, c]) == Step(Step(Step(s, a), b), c);
  }
}
