/** The Redis counter store: string keys with an optional deadline, the commands the
    scripts use, and the three scripts, each one atomic step.

    A key is expired when the clock has passed its deadline; an expired key counts as absent.
    Values are unbounded integers. */
module CounterStore {
  import opened Prelude
  import opened Windows

  datatype Entry = Entry(value: int, deadline: Option<int>)

  type Keyspace = map<string, Entry>

  predicate Expired(e: Entry, now: Instant) {
    e.deadline.Some? && now > e.deadline.value
  }

  function Lookup(ks: Keyspace, key: string, now: Instant): Option<Entry> {
    if key in ks && !Expired(ks[key], now) then Some(ks[key]) else None
  }

  /** What a read at `now` sees; a missing key reads as 0. */
  function Consumed(ks: Keyspace, key: string, now: Instant): int {
    match Lookup(ks, key, now)
    case Some(e) => e.value
    case None => 0
  }

  function DeadlineOf(ks: Keyspace, key: string, now: Instant): Option<int> {
    match Lookup(ks, key, now)
    case Some(e) => e.deadline
    case None => None
  }

  /** The keyspace after a charge: the deadline is set once, by the first charge of the key's life. */
  function Charged(ks: Keyspace, key: string, cost: int, ttlSecs: int, now: Instant): Keyspace {
    var value := Consumed(ks, key, now) + cost;
    var deadline := DeadlineOf(ks, key, now);
    if deadline.Some? then ks[key := Entry(value, deadline)]
    else if ttlSecs <= 0 then ks - {key}
    else ks[key := Entry(value, Some(now + ttlSecs * 1000))]
  }

  /** The keyspace after a refund: floored at 0, and whatever deadline there was is kept. */
  function Refunded(ks: Keyspace, key: string, amount: int, now: Instant): Keyspace {
    ks[key := Entry(Max(Consumed(ks, key, now) - amount, 0), DeadlineOf(ks, key, now))]
  }

  class Redis {
    var data: Keyspace

    constructor ()
      ensures data == map[]
    {
      data := map[];
    }

    // ---------- commands ----------

    method IncrBy(key: string, delta: int, now: Instant) returns (value: int)
      modifies this
      ensures value == old(Consumed(data, key, now)) + delta
      ensures data == old(data)[key := Entry(value, old(DeadlineOf(data, key, now)))]
    {
      var entry := Entry(0, None);
      if key in data && !Expired(data[key], now) {
        entry := data[key];
      }
      value := entry.value + delta;
      data := data[key := entry.(value := value)];
    }

    method DecrBy(key: string, delta: int, now: Instant) returns (value: int)
      modifies this
      ensures value == old(Consumed(data, key, now)) - delta
      ensures data == old(data)[key := Entry(value, old(DeadlineOf(data, key, now)))]
    {
      value := IncrBy(key, -delta, now);
    }

    /** Seconds to live, rounded; -1 for a key without a deadline, -2 for an absent key. */
    method Ttl(key: string, now: Instant) returns (secs: int)
      ensures secs == -2 <==> Lookup(data, key, now) == None
      ensures secs == -1 <==> Lookup(data, key, now).Some? && DeadlineOf(data, key, now) == None
      ensures secs >= -2
    {
      if key !in data || Expired(data[key], now) {
        return -2;
      }
      match data[key].deadline
      case None => return -1;
      case Some(d) => return (d - now + 500) / 1000;
    }

    /** Gives a live key a deadline; one that is already past deletes the key. */
    method Expire(key: string, secs: int, now: Instant)
      modifies this
      ensures Lookup(old(data), key, now) == None ==> data == old(data)
      ensures Lookup(old(data), key, now).Some? && secs <= 0 ==> data == old(data) - {key}
      ensures Lookup(old(data), key, now).Some? && secs > 0 ==>
                data == old(data)[key := Entry(old(Consumed(data, key, now)), Some(now + secs * 1000))]
    {
      if key in data && !Expired(data[key], now) {
        if secs <= 0 {
          data := data - {key};
        } else {
          data := data[key := data[key].(deadline := Some(now + secs * 1000))];
        }
      }
    }

    method Get(key: string, now: Instant) returns (value: Option<int>)
      ensures value.Some? <==> Lookup(data, key, now).Some?
      ensures value.Some? ==> value.value == Consumed(data, key, now)
    {
      if key in data && !Expired(data[key], now) {
        return Some(data[key].value);
      }
      return None;
    }

    // ---------- scripts ----------

    /** CHARGE: always applies, so what remains may be negative. */
    method Charge(key: string, cost: int, limit: int, ttlSecs: int, now: Instant) returns (remaining: int)
      modifies this
      ensures data == Charged(old(data), key, cost, ttlSecs, now)
      ensures remaining == limit - old(Consumed(data, key, now)) - cost
    {
      var consumed := IncrBy(key, cost, now);
      var ttl := Ttl(key, now);
      if ttl < 0 {
        Expire(key, ttlSecs, now);
      }
      remaining := limit - consumed;
    }

    /** REFUND: floored at 0 by adding back the deficit, which keeps the deadline. */
    method Refund(key: string, amount: int, limit: int, now: Instant) returns (remaining: int)
      modifies this
      ensures data == Refunded(old(data), key, amount, now)
      ensures remaining == limit - Max(old(Consumed(data, key, now)) - amount, 0)
    {
      var consumed := DecrBy(key, amount, now);
      if consumed < 0 {
        var _ := IncrBy(key, -consumed, now);
        consumed := 0;
      }
      remaining := limit - consumed;
    }

    /** CHECK: reads only. */
    method Check(key: string, limit: int, cost: int, now: Instant) returns (allowed: bool, remaining: int)
      ensures remaining == limit - Consumed(data, key, now)
      ensures allowed <==> Consumed(data, key, now) + cost <= limit
    {
      var value := Get(key, now);
      var consumed := if value.Some? then value.value else 0;
      remaining := limit - consumed;
      allowed := remaining >= cost;
    }

    /** The raw counter, for the usage endpoint. */
    method ConsumedNow(key: string, now: Instant) returns (consumed: int)
      ensures consumed == Consumed(data, key, now)
    {
      var value := Get(key, now);
      consumed := if value.Some? then value.value else 0;
    }
  }
}
