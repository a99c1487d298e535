/** The bound on what ten seconds admit is attained globally too. */
module RateLimitTight {
  import opened RpcProxy
  import opened RateLimit

  /** One request of the same cost by each of some clients. */
  function Calls(now: int, ips: seq<string>, cost: nat): seq<Request> {
    if ips == [] then [] else [Request(now, ips[0], cost)] + Calls(now, ips[1..], cost)
  }

  function Grants(now: int, ips: seq<string>, cost: nat): seq<Admitted> {
    if ips == [] then [] else [Admitted(now, ips[0], cost)] + Grants(now, ips[1..], cost)
  }

  /** `count` times `cost`. */
  function Sum(cost: nat, count: nat): nat {
    if count == 0 then 0 else cost + Sum(cost, count - 1)
  }

  /** The clients are new, different, and none of them is named like everybody. */
  ghost predicate Fresh(s: State, ips: seq<string>) {
    && (forall i :: 0 <= i < |ips| ==> ips[i] !in s.buckets && ips[i] != GLOBAL)
    && (forall i, j :: 0 <= i < j < |ips| ==> ips[i] != ips[j])
  }

  /** What everybody's bucket shows at `now`. */
  function Shared(s: State, now: int): Bucket {
    BucketFor(Unexpired(s.buckets, now), GLOBAL, now)
  }

  /** The buckets of `t` are those of `s`, everybody's, and those of the clients. */
  ghost predicate GrownBy(s: State, t: State, ips: seq<string>) {
    forall key :: key in t.buckets ==> key in s.buckets || key == GLOBAL || key in ips
  }

  /** A new client is let in while the table and both limits leave room. */
  lemma FreshCall(s: State, now: int, ip: string, cost: nat)
    requires ip !in s.buckets && ip != GLOBAL && |s.buckets| + 2 <= MAX_BUCKETS
    requires cost <= IP_LIMIT && Shared(s, now).count + cost <= GLOBAL_LIMIT
    ensures
      var t := Step(s, Request(now, ip, cost));
      && t.log == s.log + [Admitted(now, ip, cost)]
      && GrownBy(s, t, [ip]) && |t.buckets| <= |s.buckets| + 2
      && GLOBAL in t.buckets && t.buckets[GLOBAL] == Bucket(Shared(s, now).at, Shared(s, now).count + cost)
  {
    UnexpiredKeys(s.buckets, now);
    SubsetSize(Unexpired(s.buckets, now).Keys, s.buckets.Keys);
    AdmissionKeys(s.buckets, now, ip, cost);
    var t := Step(s, Request(now, ip, cost));
    SubsetSize(t.buckets.Keys, s.buckets.Keys + {ip, GLOBAL});
    assert |s.buckets.Keys + {ip, GLOBAL}| <= |s.buckets.Keys| + 2 by { TwoMore(s.buckets.Keys, ip, GLOBAL); }
  }

  lemma TwoMore(keys: set<string>, a: string, b: string)
    ensures |keys + {a, b}| <= |keys| + 2
  {
    assert keys + {a, b} == keys + {a} + {b};
    assert |keys + {a}| <= |keys| + 1;
  }

  lemma OneFewer(s: State, t: State, ips: seq<string>)
    requires Fresh(s, ips) && ips != [] && GrownBy(s, t, [ips[0]])
    ensures Fresh(t, ips[1..])
  {
  }

  lemma GrowsOn(s: State, t: State, u: State, ips: seq<string>)
    requires ips != [] && GrownBy(s, t, [ips[0]]) && GrownBy(t, u, ips[1..])
    ensures GrownBy(s, u, ips)
  {
    assert ips == [ips[0]] + ips[1..];
  }

  lemma CallsUnfold(s: State, now: int, ips: seq<string>, cost: nat)
    requires ips != []
    ensures Run(s, Calls(now, ips, cost)) == Run(Step(s, Request(now, ips[0], cost)), Calls(now, ips[1..], cost))
    ensures Grants(now, ips, cost) == [Admitted(now, ips[0], cost)] + Grants(now, ips[1..], cost)
  {
    hide Step;
    assert Calls(now, ips, cost)[1..] == Calls(now, ips[1..], cost);
  }

  lemma FirstFits(s: State, now: int, ips: seq<string>, cost: nat)
    requires Fresh(s, ips) && ips != [] && Shared(s, now).count + Sum(cost, |ips|) <= GLOBAL_LIMIT
    ensures ips[0] !in s.buckets && ips[0] != GLOBAL
    ensures Sum(cost, |ips|) == cost + Sum(cost, |ips[1..]|) && Shared(s, now).count + cost <= GLOBAL_LIMIT
  {
    hide Shared;
  }

  lemma Reassociate(a: seq<Admitted>, b: seq<Admitted>, c: seq<Admitted>)
    ensures a + b + c == a + (b + c)
  {
  }

  /** New clients are let in one after another, as long as both limits leave room for all of them. */
  lemma {:induction false} FreshCalls(s: State, now: int, ips: seq<string>, cost: nat)
    requires Fresh(s, ips) && |s.buckets| + 2 * |ips| <= MAX_BUCKETS
    requires cost <= IP_LIMIT && Shared(s, now).count + Sum(cost, |ips|) <= GLOBAL_LIMIT
    requires now - WINDOW < Shared(s, now).at
    ensures
      var t := Run(s, Calls(now, ips, cost));
      && t.log == s.log + Grants(now, ips, cost)
      && GrownBy(s, t, ips) && |t.buckets| <= |s.buckets| + 2 * |ips|
      && Shared(t, now) == Bucket(Shared(s, now).at, Shared(s, now).count + Sum(cost, |ips|))
    decreases |ips|
  {
    if ips == [] {
      assert s.log + [] == s.log;
    } else {
      hide Step, Calls, Grants, Fresh, GrownBy, Run, Shared, Sum;
      var t := Step(s, Request(now, ips[0], cost));
      FirstFits(s, now, ips, cost);
      FreshCall(s, now, ips[0], cost);
      SharedIsOpen(t, now);
      CallsUnfold(s, now, ips, cost);
      OneFewer(s, t, ips);
      FreshCalls(t, now, ips[1..], cost);
      GrowsOn(s, t, Run(t, Calls(now, ips[1..], cost)), ips);
      Reassociate(s.log, [Admitted(now, ips[0], cost)], Grants(now, ips[1..], cost));
    }
  }

  lemma SharedIsOpen(t: State, now: int)
    requires GLOBAL in t.buckets && now - WINDOW < t.buckets[GLOBAL].at
    ensures Shared(t, now) == t.buckets[GLOBAL]
  {
  }

  lemma {:induction false} GrantsBetween(log: seq<Admitted>, now: int, ips: seq<string>, cost: nat, from: int, to: int)
    ensures Between(log + Grants(now, ips, cost), Everybody, from, to)
         == Between(log, Everybody, from, to) + if from <= now < to then Sum(cost, |ips|) else 0
    decreases |ips|
  {
    if ips == [] {
      assert log + Grants(now, ips, cost) == log;
    } else {
      var a, rest := Admitted(now, ips[0], cost), Grants(now, ips[1..], cost);
      Append(log, Everybody, a, from, to);
      GrantsBetween(log + [a], now, ips[1..], cost, from, to);
      hide Between;
      assert log + [a] + rest == log + ([a] + rest);
    }
  }

  lemma {:induction false} RunConcat(s: State, first: seq<Request>, second: seq<Request>)
    ensures Run(s, first + second) == Run(Run(s, first), second)
    decreases |first|
  {
    hide Step;
    if first == [] {
      assert first + second == second;
    } else {
      assert (first + second)[1..] == first[1..] + second;
      RunConcat(Step(s, first[0]), first[1..], second);
    }
  }

  /** One call, the rest of the global limit as that bucket ends, and a whole limit as the next one opens. */
  function Busy(): seq<Request> {
    Calls(0, ONE, 1) + Calls(9999, TWO, 119) + Calls(9999, FOUR, 120) + Calls(10000, FIVE, 120)
  }

  /** Clients new to one state and not among those let in since are new to the next. */
  lemma StaysFresh(s: State, t: State, ips: seq<string>, more: seq<string>)
    requires GrownBy(s, t, ips) && Fresh(s, more) && forall x :: x in more ==> x !in ips
    ensures Fresh(t, more)
  {
  }

  const ONE: seq<string> := ["a"]
  const TWO: seq<string> := ["b"]
  const FOUR: seq<string> := ["c", "d", "e", "f"]
  const FIVE: seq<string> := ["g", "h", "i", "j", "k"]

  lemma Different()
    ensures forall s: State :: s.buckets == map[] ==> Fresh(s, ONE) && Fresh(s, TWO) && Fresh(s, FOUR) && Fresh(s, FIVE)
    ensures (forall x :: x in TWO ==> x !in ONE) && (forall x :: x in FOUR ==> x !in ONE && x !in TWO)
    ensures forall x :: x in FIVE ==> x !in ONE && x !in TWO && x !in FOUR
  {
    assert forall x :: x in ONE ==> x == "a";
    assert forall x :: x in TWO ==> x == "b";
    assert forall x :: x in FOUR ==> x == "c" || x == "d" || x == "e" || x == "f";
    assert forall x :: x in FIVE ==> x == "g" || x == "h" || x == "i" || x == "j" || x == "k";
  }

  /** The first bucket of everybody is used up as it ends. */
  lemma FirstBucket(s0: State)
    requires s0 == Initial(0)
    ensures
      var s1 := Run(s0, Calls(0, ONE, 1));
      var s2 := Run(s1, Calls(9999, TWO, 119));
      var s3 := Run(s2, Calls(9999, FOUR, 120));
      && s3.log == Grants(0, ONE, 1) + Grants(9999, TWO, 119) + Grants(9999, FOUR, 120)
      && Fresh(s3, FIVE) && |s3.buckets| <= 12 && Shared(s3, 9999) == Bucket(0, 600)
  {
    hide Calls, Grants, Run, Step, Fresh, GrownBy, Sum, ONE, TWO, FOUR, FIVE;
    Different();
    Sums();
    Sizes();
    assert Shared(s0, 0) == Bucket(0, 0);
    hide Shared;
    var s1 := Run(s0, Calls(0, ONE, 1));
    FreshCalls(s0, 0, ONE, 1);
    SharedAt(s1, 0, 9999);
    StaysFresh(s0, s1, ONE, TWO);
    StaysFresh(s0, s1, ONE, FOUR);
    StaysFresh(s0, s1, ONE, FIVE);
    var s2 := Run(s1, Calls(9999, TWO, 119));
    FreshCalls(s1, 9999, TWO, 119);
    StaysFresh(s1, s2, TWO, FOUR);
    StaysFresh(s1, s2, TWO, FIVE);
    var s3 := Run(s2, Calls(9999, FOUR, 120));
    FreshCalls(s2, 9999, FOUR, 120);
    StaysFresh(s2, s3, FOUR, FIVE);
    assert s0.log + Grants(0, ONE, 1) == Grants(0, ONE, 1);
  }

  lemma Sizes()
    ensures |ONE| == 1 && |TWO| == 1 && |FOUR| == 4 && |FIVE| == 5
  {
  }

  lemma BusyGrants()
    ensures Run(Initial(0), Busy()).log
         == Grants(0, ONE, 1) + Grants(9999, TWO, 119) + Grants(9999, FOUR, 120) + Grants(10000, FIVE, 120)
  {
    hide Calls, Grants, Run, Step, Fresh, GrownBy, Sum, Shared, ONE, TWO, FOUR, FIVE;
    var s0, c0, c1, c2, c3 := Initial(0), Calls(0, ONE, 1), Calls(9999, TWO, 119), Calls(9999, FOUR, 120), Calls(10000, FIVE, 120);
    RunConcat(s0, c0 + c1 + c2, c3);
    RunConcat(s0, c0 + c1, c2);
    RunConcat(s0, c0, c1);
    FirstBucket(s0);
    Sums();
    Sizes();
    var s3 := Run(Run(Run(s0, c0), c1), c2);
    SharedReopens(s3, 9999, 10000);
    FreshCalls(s3, 10000, FIVE, 120);
  }

  lemma Sums()
    ensures Sum(1, 1) == 1 && Sum(119, 1) == 119 && Sum(120, 4) == 480 && Sum(120, 5) == 600
  {
    assert Sum(120, 2) == 240;
    assert Sum(120, 3) == 360;
  }

  /** A bucket that has not expired shows the same a little later. */
  lemma SharedAt(s: State, now: int, later: int)
    requires Shared(s, now).at == 0 && 0 < Shared(s, now).count && 0 <= now <= later < WINDOW
    ensures Shared(s, later) == Shared(s, now)
  {
  }

  lemma SharedReopens(s: State, now: int, later: int)
    requires Shared(s, now).at == 0 && 0 < now < later && WINDOW <= later
    ensures Shared(s, later) == Bucket(later, 0)
  {
  }

  lemma BusyIsForward()
    ensures Forward(0, Busy()) && CostAtLeast(Busy(), 1)
  {
    var c0, c1, c2, c3 := Calls(0, ONE, 1), Calls(9999, TWO, 119), Calls(9999, FOUR, 120), Calls(10000, FIVE, 120);
    hide Calls, Forward, CostAtLeast, ONE, TWO, FOUR, FIVE;
    Sequenced(c0, c1, c2, c3);
    NothingIsForward(10000);
    CallsForward(9999, 10000, FIVE, 120, []);
    CallsForward(9999, 9999, FOUR, 120, c3);
    CallsForward(0, 9999, TWO, 119, c2 + c3);
    CallsForward(0, 0, ONE, 1, c1 + (c2 + c3));
  }

  lemma Sequenced(a: seq<Request>, b: seq<Request>, c: seq<Request>, d: seq<Request>)
    ensures d + [] == d && a + (b + (c + d)) == a + b + c + d
  {
  }

  lemma NothingIsForward(clock: int)
    ensures Forward(clock, []) && CostAtLeast([], 1)
  {
  }

  lemma OneMoreForward(clock: int, r: Request, rest: seq<Request>)
    requires clock <= r.now && 1 <= r.cost && Forward(r.now, rest) && CostAtLeast(rest, 1)
    ensures Forward(clock, [r] + rest) && CostAtLeast([r] + rest, 1)
  {
    assert ([r] + rest)[1..] == rest;
  }

  lemma {:induction false} CallsForward(clock: int, now: int, ips: seq<string>, cost: nat, rest: seq<Request>)
    requires clock <= now && 1 <= cost && CostAtLeast(rest, 1) && Forward(now, rest)
    ensures Forward(clock, Calls(now, ips, cost) + rest) && CostAtLeast(Calls(now, ips, cost) + rest, 1)
    decreases |ips|
  {
    if ips == [] {
      assert Calls(now, ips, cost) + rest == rest;
      StartSooner(clock, now, rest);
    } else {
      hide Forward, CostAtLeast;
      CallsForward(now, now, ips[1..], cost, rest);
      var more := Calls(now, ips[1..], cost) + rest;
      OneMoreForward(clock, Request(now, ips[0], cost), more);
      assert Calls(now, ips, cost) + rest == [Request(now, ips[0], cost)] + more;
    }
  }

  lemma StartSooner(clock: int, now: int, rest: seq<Request>)
    requires clock <= now && Forward(now, rest)
    ensures Forward(clock, rest)
  {
  }

  /** Everybody together can be let in for 1199 calls in ten seconds. */
  lemma GlobalWindowAttained()
    ensures Forward(0, Busy()) && CostAtLeast(Busy(), 1)
    ensures Window(Run(Initial(0), Busy()).log, Everybody, 9999) == 1199
  {
    hide Run, Grants, Busy, Sum, Forward, CostAtLeast, ONE, TWO, FOUR, FIVE;
    BusyIsForward();
    BusyGrants();
    Sums();
    Sizes();
    var g0, g1, g2 := Grants(0, ONE, 1), Grants(9999, TWO, 119), Grants(9999, FOUR, 120);
    assert [] + g0 == g0;
    GrantsBetween([], 0, ONE, 1, 9999, 19999);
    GrantsBetween(g0, 9999, TWO, 119, 9999, 19999);
    GrantsBetween(g0 + g1, 9999, FOUR, 120, 9999, 19999);
    GrantsBetween(g0 + g1 + g2, 10000, FIVE, 120, 9999, 19999);
  }
}
