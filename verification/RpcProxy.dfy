/** The mutable state of the read proxy in apps/web/api/rpc.ts: request buckets, the reads in flight,
    and the count of active reads. */
module RpcProxy {
  const WINDOW: int := 10000
  const IP_LIMIT: nat := 120
  const GLOBAL_LIMIT: nat := 600
  const MAX_BUCKETS: nat := 2048
  const MAX_ACTIVE: nat := 32
  const GLOBAL: string := "*"

  datatype Bucket = Bucket(at: int, count: nat)

  // ---------------------------------------------------------------- admission

  function Unexpired(buckets: map<string, Bucket>, now: int): map<string, Bucket> {
    map key | key in buckets && now - buckets[key].at < WINDOW :: buckets[key]
  }

  /** The bucket of a key, or the one that would be opened for it now. */
  function BucketFor(buckets: map<string, Bucket>, key: string, now: int): Bucket {
    if key in buckets then buckets[key] else Bucket(now, 0)
  }

  function Charged(buckets: map<string, Bucket>, key: string, now: int, cost: nat): map<string, Bucket> {
    var b := BucketFor(buckets, key, now);
    buckets[key := b.(count := b.count + cost)]
  }

  predicate Admits(live: map<string, Bucket>, now: int, ip: string, cost: nat) {
    && (|live| < MAX_BUCKETS || ip in live)
    && BucketFor(live, ip, now).count + cost <= IP_LIMIT
    && BucketFor(live, GLOBAL, now).count + cost <= GLOBAL_LIMIT
  }

  function Admission(buckets: map<string, Bucket>, now: int, ip: string, cost: nat): (bool, map<string, Bucket>) {
    var live := Unexpired(buckets, now);
    if Admits(live, now, ip, cost) then (true, Charged(Charged(live, ip, now, cost), GLOBAL, now, cost)) else (false, live)
  }

  // ---------------------------------------------------------------- single flight

  datatype Entry = Join(read: nat) | Refused | Start

  /** What a call for `key` meets. */
  function Entered(pending: map<string, nat>, active: int, key: string): Entry {
    if key in pending then Join(pending[key])
    else if active >= MAX_ACTIVE then Refused
    else Start
  }

  /** The reads in flight, by key, and the count of active ones. */
  datatype Flights = Flights(pending: map<string, nat>, active: int)

  /** What a call for `key` leaves, when a read it starts is numbered `read`. */
  function AfterEnter(f: Flights, key: string, read: nat): Flights {
    if Entered(f.pending, f.active, key).Start? then Flights(f.pending[key := read], f.active + 1) else f
  }

  /** What the clean-up of the read of `key` leaves. */
  function AfterLeave(f: Flights, key: string): Flights {
    Flights(f.pending - {key}, f.active - 1)
  }

  class ProxyState {
    var buckets: map<string, Bucket>
    var pending: map<string, nat>
    var active: int

    constructor ()
      ensures buckets == map[] && pending == map[] && active == 0
    {
      buckets, pending, active := map[], map[], 0;
    }

    method Admit(now: int, ip: string, cost: nat) returns (admitted: bool)
      modifies this`buckets
      ensures (admitted, buckets) == Admission(old(buckets), now, ip, cost)
    {
      var keys := buckets.Keys;
      while keys != {}
        invariant keys <= buckets.Keys <= old(buckets).Keys
        invariant forall key :: key in buckets ==> buckets[key] == old(buckets)[key]
        invariant forall key :: key in old(buckets) && key !in keys ==> (key in buckets <==> now - old(buckets)[key].at < WINDOW)
        decreases |keys|
      {
        var key :| key in keys;
        keys := keys - {key};
        if now - buckets[key].at >= WINDOW {
          buckets := buckets - {key};
        }
      }
      assert buckets == Unexpired(old(buckets), now);
      if |buckets| >= MAX_BUCKETS && ip !in buckets {
        return false;
      }
      if BucketFor(buckets, ip, now).count + cost > IP_LIMIT {
        return false;
      }
      if BucketFor(buckets, GLOBAL, now).count + cost > GLOBAL_LIMIT {
        return false;
      }
      buckets := Charged(buckets, ip, now, cost);
      buckets := Charged(buckets, GLOBAL, now, cost);
      return true;
    }

    /** The part of `share` that runs before its read settles: join, refuse, or register a new read. */
    method Enter(key: string, read: nat) returns (entry: Entry)
      modifies this`pending, this`active
      ensures entry == Entered(old(pending), old(active), key)
      ensures Flights(pending, active) == AfterEnter(Flights(old(pending), old(active)), key, read)
    {
      if key in pending {
        return Join(pending[key]);
      }
      if active >= MAX_ACTIVE {
        return Refused;
      }
      active := active + 1;
      pending := pending[key := read];
      return Start;
    }

    /** The `finally` part, run by the owner once its read has settled either way. */
    method Leave(key: string)
      modifies this`pending, this`active
      ensures Flights(pending, active) == AfterLeave(Flights(old(pending), old(active)), key)
    {
      active := active - 1;
      pending := pending - {key};
    }
  }
}
