/** The request handlers over the counter store, and the theorem that they behave as
    if the store were a ledger that never expires anything.

    A request resolves a cap, reads the clock, names a counter, and runs one script at
    a later instant. The service reads its clock in nanoseconds; Redis reads its own in
    milliseconds. The resolved cap, the two instants, the random draw and whether the call
    gets through are inputs. */
module DataPlane {
  import opened Prelude
  import opened Windows
  import opened CounterKey
  import opened CounterStore

  datatype Cap = Cap(limitValue: int, timeUnit: TimeUnit)

  datatype Resolved = Configured(cap: Cap) | Unconfigured

  datatype Op = Check(cost: int) | Charge(cost: int) | Refund(amount: int) | Usage

  /** What becomes of the call to Redis; a call whose reply is lost has still run its script. */
  datatype Link = Reached | NotReached | ReplyLost

  datatype Request = Request(
    key: Option<LimitKey>,
    op: Op,
    resolved: Resolved,
    clock: Nanos,  // when the handler read the wall clock
    at: Nanos,     // when its script ran
    random: nat,
    link: Link)

  datatype Response =
    | CheckResponse(allowed: bool, remaining: int, limit: int, resetAt: Option<Instant>)
    | ChargeResponse(remaining: int, limit: int, resetAt: Option<Instant>)
    | RefundResponse(remaining: int, limit: int, resetAt: Option<Instant>)
    | UsageResponse(consumed: int, remaining: int, limit: int, resetAt: Option<Instant>, configured: bool)

  const GRACE_SECS: int := 5

  // ---------- what a handler decides before it touches the store ----------

  predicate KeyPresent(key: Option<LimitKey>) {
    key.Some? && key.value.service != "" && key.value.customer != "" && key.value.rateLimitId != ""
  }

  /** A cost of 0 means 1; a negative cost is refused. */
  function NormalizeCost(cost: int): Result<int> {
    if cost == 0 then Ok(1) else if cost < 0 then Err(InvalidArgument) else Ok(cost)
  }

  function ValidateAmount(amount: int): Result<int> {
    if amount < 0 then Err(InvalidArgument) else Ok(amount)
  }

  datatype Effect = Read | Add(amount: nat) | Sub(amount: nat)

  function EffectOf(op: Op): Result<Effect> {
    match op
    case Check(cost) => (match NormalizeCost(cost) case Ok(_) => Ok(Read) case Err(e) => Err(e))
    case Charge(cost) => (match NormalizeCost(cost) case Ok(c) => Ok(Add(c)) case Err(e) => Err(e))
    case Refund(amount) => (match ValidateAmount(amount) case Ok(a) => Ok(Sub(a)) case Err(e) => Err(e))
    case Usage => Ok(Read)
  }

  /** The answer for a key without a cap: allow, with zero sentinels. */
  function Unlimited(op: Op): Response {
    match op
    case Check(_) => CheckResponse(true, 0, 0, None)
    case Charge(_) => ChargeResponse(0, 0, None)
    case Refund(_) => RefundResponse(0, 0, None)
    case Usage => UsageResponse(0, 0, 0, None, false)
  }

  /** The answer once the counter stands at `consumed`. */
  function Respond(op: Op, consumed: int, limit: int, resetAt: Instant): Response {
    match op
    case Check(cost) => CheckResponse(limit - consumed >= (if cost == 0 then 1 else cost), limit - consumed, limit, Some(resetAt))
    case Charge(_) => ChargeResponse(limit - consumed, limit, Some(resetAt))
    case Refund(_) => RefundResponse(limit - consumed, limit, Some(resetAt))
    case Usage => UsageResponse(consumed, limit - consumed, limit, Some(resetAt), true)
  }

  /** Either an answer that touches no counter, or one effect on one counter. */
  datatype Plan =
    | Answer(result: Result<Response>)
    | Touch(counter: Counter, name: string, effect: Effect, limit: int, resetAt: Instant, ttlSecs: int, lost: bool)

  function PlanOf(req: Request): Plan {
    if !KeyPresent(req.key) then Answer(Err(InvalidArgument))
    else
      match EffectOf(req.op)
      case Err(e) => Answer(Err(e))
      case Ok(effect) =>
        match req.resolved
        case Unconfigured => Answer(Ok(Unlimited(req.op)))
        case Configured(cap) =>
          match ComputeWindow(req.clock, cap.timeUnit)
          case None => Answer(if req.op.Usage? then Err(Internal) else Ok(Unlimited(req.op)))
          case Some(window) =>
            if req.link.NotReached? then Answer(Err(Unavailable))
            else
              Touch(
                CounterAt(req.key.value, cap.timeUnit, Ms(req.clock)),
                Name(req.key.value, window.windowId),
                effect, cap.limitValue, window.resetAt,
                JitteredTtl(window.remainingSecs, GRACE_SECS, JitterCapSecs(cap.timeUnit), req.random),
                req.link.ReplyLost?)
  }

  // ---------- serving a request from the store, and from a ledger ----------

  function ApplyToStore(ks: Keyspace, name: string, effect: Effect, ttlSecs: int, at: Instant): Keyspace {
    match effect
    case Read => ks
    case Add(amount) => Charged(ks, name, amount, ttlSecs, at)
    case Sub(amount) => Refunded(ks, name, amount, at)
  }

  function StoreExec(ks: Keyspace, plan: Plan, op: Op, at: Instant): (Keyspace, Result<Response>) {
    match plan
    case Answer(result) => (ks, result)
    case Touch(_, name, effect, limit, resetAt, ttlSecs, lost) =>
      var ks' := ApplyToStore(ks, name, effect, ttlSecs, at);
      (ks', if lost then Err(Unavailable) else Ok(Respond(op, Consumed(ks', name, at), limit, resetAt)))
  }

  function ServeStore(ks: Keyspace, req: Request): (Keyspace, Result<Response>) {
    StoreExec(ks, PlanOf(req), req.op, Ms(req.at))
  }

  /** The reference: what each (limit, window) has consumed, with no deadlines and no key names. */
  type Ledger = map<Counter, nat>

  function Balance(ledger: Ledger, c: Counter): nat {
    if c in ledger then ledger[c] else 0
  }

  /** One counter under one effect: refunds are floored at 0. */
  function Moved(consumed: nat, effect: Effect): nat {
    match effect
    case Read => consumed
    case Add(amount) => consumed + amount
    case Sub(amount) => Max(consumed - amount, 0)
  }

  function ApplyToLedger(ledger: Ledger, c: Counter, effect: Effect): Ledger {
    if effect.Read? then ledger else ledger[c := Moved(Balance(ledger, c), effect)]
  }

  function LedgerExec(ledger: Ledger, plan: Plan, op: Op): (Ledger, Result<Response>) {
    match plan
    case Answer(result) => (ledger, result)
    case Touch(c, _, effect, limit, resetAt, _, lost) =>
      var ledger' := ApplyToLedger(ledger, c, effect);
      (ledger', if lost then Err(Unavailable) else Ok(Respond(op, Balance(ledger', c), limit, resetAt)))
  }

  function ServeLedger(ledger: Ledger, req: Request): (Ledger, Result<Response>) {
    LedgerExec(ledger, PlanOf(req), req.op)
  }

  // ---------- the handlers ----------

  class RateLimiterService {
    const store: Redis
    const maxBatchSize: nat

    constructor (store: Redis, maxBatchSize: nat)
      ensures this.store == store && this.maxBatchSize == maxBatchSize
    {
      this.store := store;
      this.maxBatchSize := maxBatchSize;
    }

    method CheckOne(req: Request) returns (result: Result<Response>)
      requires req.op.Check?
      ensures (store.data, result) == ServeStore(store.data, req)
    {
      hide CivilOf, ResetAt, WindowId;
      if !KeyPresent(req.key) { return Err(InvalidArgument); }
      var cost := NormalizeCost(req.op.cost);
      if cost.Err? { return Err(cost.error); }
      if req.resolved.Unconfigured? { return Ok(Unlimited(req.op)); }
      var cap := req.resolved.cap;
      var window := ComputeWindow(req.clock, cap.timeUnit);
      if window.None? { return Ok(Unlimited(req.op)); }
      if req.link.NotReached? { return Err(Unavailable); }
      var name := Name(req.key.value, window.value.windowId);
      var allowed, remaining := store.Check(name, cap.limitValue, cost.value, Ms(req.at));
      if req.link.ReplyLost? { return Err(Unavailable); }
      return Ok(CheckResponse(allowed, remaining, cap.limitValue, Some(window.value.resetAt)));
    }

    method ChargeOne(req: Request) returns (result: Result<Response>)
      requires req.op.Charge?
      modifies store
      ensures (store.data, result) == ServeStore(old(store.data), req)
    {
      hide CivilOf, ResetAt, WindowId;
      if !KeyPresent(req.key) { return Err(InvalidArgument); }
      var cost := NormalizeCost(req.op.cost);
      if cost.Err? { return Err(cost.error); }
      if req.resolved.Unconfigured? { return Ok(Unlimited(req.op)); }
      var cap := req.resolved.cap;
      var window := ComputeWindow(req.clock, cap.timeUnit);
      if window.None? { return Ok(Unlimited(req.op)); }
      if req.link.NotReached? { return Err(Unavailable); }
      var ttl := JitteredTtl(window.value.remainingSecs, GRACE_SECS, JitterCapSecs(cap.timeUnit), req.random);
      var name := Name(req.key.value, window.value.windowId);
      var remaining := store.Charge(name, cost.value, cap.limitValue, ttl, Ms(req.at));
      if req.link.ReplyLost? { return Err(Unavailable); }
      return Ok(ChargeResponse(remaining, cap.limitValue, Some(window.value.resetAt)));
    }

    method RefundOne(req: Request) returns (result: Result<Response>)
      requires req.op.Refund?
      modifies store
      ensures (store.data, result) == ServeStore(old(store.data), req)
    {
      hide CivilOf, ResetAt, WindowId;
      if !KeyPresent(req.key) { return Err(InvalidArgument); }
      var amount := ValidateAmount(req.op.amount);
      if amount.Err? { return Err(amount.error); }
      if req.resolved.Unconfigured? { return Ok(Unlimited(req.op)); }
      var cap := req.resolved.cap;
      var window := ComputeWindow(req.clock, cap.timeUnit);
      if window.None? { return Ok(Unlimited(req.op)); }
      if req.link.NotReached? { return Err(Unavailable); }
      var name := Name(req.key.value, window.value.windowId);
      var remaining := store.Refund(name, amount.value, cap.limitValue, Ms(req.at));
      if req.link.ReplyLost? { return Err(Unavailable); }
      return Ok(RefundResponse(remaining, cap.limitValue, Some(window.value.resetAt)));
    }

    method GetUsage(req: Request) returns (result: Result<Response>)
      requires req.op.Usage?
      ensures (store.data, result) == ServeStore(store.data, req)
    {
      hide CivilOf, ResetAt, WindowId;
      if !KeyPresent(req.key) { return Err(InvalidArgument); }
      if req.resolved.Unconfigured? { return Ok(Unlimited(req.op)); }
      var cap := req.resolved.cap;
      var window := ComputeWindow(req.clock, cap.timeUnit);
      if window.None? { return Err(Internal); }
      if req.link.NotReached? { return Err(Unavailable); }
      var name := Name(req.key.value, window.value.windowId);
      var consumed := store.ConsumedNow(name, Ms(req.at));
      if req.link.ReplyLost? { return Err(Unavailable); }
      return Ok(UsageResponse(consumed, cap.limitValue - consumed, cap.limitValue, Some(window.value.resetAt), true));
    }

    method Serve(req: Request) returns (result: Result<Response>)
      modifies store
      ensures (store.data, result) == ServeStore(old(store.data), req)
    {
      match req.op
      case Check(_) => result := CheckOne(req);
      case Charge(_) => result := ChargeOne(req);
      case Refund(_) => result := RefundOne(req);
      case Usage => result := GetUsage(req);
    }

    method ServeAll(reqs: seq<Request>)
      modifies store
      ensures store.data == ServedAll(old(store.data), reqs)
    {
      for i := 0 to |reqs|
        invariant store.data == ServedAll(old(store.data), reqs[..i])
      {
        assert reqs[..i + 1][..i] == reqs[..i];
        var _ := Serve(reqs[i]);
      }
      assert reqs[..|reqs|] == reqs;
    }

    /** A batch is refused when too large, fails as its first failing member does, and otherwise answers
        every member as the single call would at that moment: `meanwhile[i]` is what other callers had the
        store serve while the batch waited before its member `i`. The batch itself changes no counter. */
    method CheckQuotaBatch(reqs: seq<Request>, meanwhile: seq<seq<Request>>) returns (result: Result<seq<Response>>)
      requires forall i :: 0 <= i < |reqs| ==> reqs[i].op.Check?
      requires |meanwhile| == |reqs|
      modifies store
      ensures |reqs| > maxBatchSize ==> result == Err(InvalidArgument) && store.data == old(store.data)
      ensures result.Ok? ==>
                && |result.value| == |reqs| <= maxBatchSize
                && store.data == Meanwhile(old(store.data), meanwhile)
                && forall i :: 0 <= i < |reqs| ==>
                     ServeStore(Meanwhile(old(store.data), meanwhile[..i + 1]), reqs[i]).1 == Ok(result.value[i])
      ensures result.Err? && |reqs| <= maxBatchSize ==>
                exists i :: 0 <= i < |reqs|
                            && store.data == Meanwhile(old(store.data), meanwhile[..i + 1])
                            && ServeStore(store.data, reqs[i]).1 == Err(result.error)
                            && forall j :: 0 <= j < i ==> ServeStore(Meanwhile(old(store.data), meanwhile[..j + 1]), reqs[j]).1.Ok?
    {
      if |reqs| > maxBatchSize { return Err(InvalidArgument); }
      var results: seq<Response> := [];
      for i := 0 to |reqs|
        invariant |results| == i
        invariant store.data == Meanwhile(old(store.data), meanwhile[..i])
        invariant forall j :: 0 <= j < i ==>
                    ServeStore(Meanwhile(old(store.data), meanwhile[..j + 1]), reqs[j]).1 == Ok(results[j])
      {
        ServeAll(meanwhile[i]);
        assert meanwhile[..i + 1][..i] == meanwhile[..i];
        assert store.data == Meanwhile(old(store.data), meanwhile[..i + 1]);
        var one := CheckOne(reqs[i]);
        if one.Err? { return Err(one.error); }
        results := results + [one.value];
      }
      assert meanwhile[..|reqs|] == meanwhile;
      return Ok(results);
    }
  }

  function ServedAll(ks: Keyspace, reqs: seq<Request>): Keyspace {
    if reqs == [] then ks else ServeStore(ServedAll(ks, reqs[..|reqs| - 1]), reqs[|reqs| - 1]).0
  }

  function Meanwhile(ks: Keyspace, traffic: seq<seq<Request>>): Keyspace {
    if traffic == [] then ks else ServedAll(Meanwhile(ks, traffic[..|traffic| - 1]), traffic[|traffic| - 1])
  }

  // ---------- runs ----------

  function StoreRun(reqs: seq<Request>): (Keyspace, seq<Result<Response>>) {
    if reqs == [] then (map[], [])
    else
      var (ks, rs) := StoreRun(reqs[..|reqs| - 1]);
      var (ks', r) := ServeStore(ks, reqs[|reqs| - 1]);
      (ks', rs + [r])
  }

  function LedgerRun(reqs: seq<Request>): (Ledger, seq<Result<Response>>) {
    if reqs == [] then (map[], [])
    else
      var (ledger, rs) := LedgerRun(reqs[..|reqs| - 1]);
      var (ledger', r) := ServeLedger(ledger, reqs[|reqs| - 1]);
      (ledger', rs + [r])
  }

  /** A cap is only resolved through a row whose service and rate limit id passed validation. */
  predicate WellNamed(req: Request) {
    req.key.Some? && req.resolved.Configured? ==>
      ValidServiceName(req.key.value.service) && ValidRateLimitId(req.key.value.rateLimitId)
  }

  /** Scripts run in the order of the run, each at most `delay` ns after its request read the clock. */
  predicate Timely(reqs: seq<Request>, delay: nat) {
    && (forall i :: 0 <= i < |reqs| ==>
          && WellNamed(reqs[i]) && FourDigitYear(Ms(reqs[i].clock))
          && reqs[i].clock <= reqs[i].at <= reqs[i].clock + delay)
    && (forall i, j :: 0 <= i < j < |reqs| ==> reqs[i].at <= reqs[j].at)
  }

  // ---------- the store invariant ----------

  function ResetOf(c: Counter): Instant {
    WindowReset(c.start, c.unit)
  }

  /** The longest, in ns, that a counter may linger past its window's reset. */
  function Linger(unit: TimeUnit, delay: nat): nat {
    (GRACE_SECS + JitterCapSecs(unit)) * 1_000_000_000 + delay
  }

  /** The grace period, in ms, less the second that truncating seconds may lose. */
  const SAFE_LINGER: int := GRACE_SECS * 1000 - 1000

  predicate GoodEntry(c: Counter, e: Entry, delay: nat) {
    && e.value >= 0
    && match e.deadline
       case None => e.value == 0
       case Some(d) => ResetOf(c) + SAFE_LINGER <= d && d * 1_000_000 <= ResetOf(c) * 1_000_000 + Linger(c.unit, delay)
  }

  /** Every key names a counter. */
  ghost predicate OnlyCounters(ks: Keyspace) {
    forall name :: name in ks ==> exists c :: Nameable(c) && CounterName(c) == name
  }

  /** The store holds counters only, and every one of them is sound. */
  ghost predicate GoodStore(ks: Keyspace, delay: nat) {
    && OnlyCounters(ks)
    && forall c :: Nameable(c) && CounterName(c) in ks ==> GoodEntry(c, ks[CounterName(c)], delay)
  }

  lemma TouchedCounter(req: Request)
    requires PlanOf(req).Touch? && WellNamed(req) && FourDigitYear(Ms(req.clock))
    ensures
      var p := PlanOf(req);
      && Nameable(p.counter) && p.name == CounterName(p.counter)
      && p.resetAt == ResetOf(p.counter) > Ms(req.clock)
  {
    var unit := req.resolved.cap.timeUnit;
    StartHasTheSameId(Ms(req.clock), unit);
    WindowContains(Ms(req.clock), unit);
  }

  lemma TtlBounds(req: Request)
    requires PlanOf(req).Touch? && WellNamed(req) && FourDigitYear(Ms(req.clock))
    ensures
      var p := PlanOf(req);
      && TtlInBounds(p.counter, p.ttlSecs, req.clock)
  {
    hide CivilOf, WindowId, ResetAt, WindowReset, Nameable, CounterName;
    TouchedCounter(req);
    ComputedFields(req.clock, req.resolved.cap.timeUnit);
    assert PlanOf(req).resetAt * 1_000_000 > req.clock;
  }

  /** A time to live that covers the rest of the window, the grace and no more than the jitter. */
  predicate TtlInBounds(c: Counter, ttlSecs: int, clock: Nanos) {
    && ttlSecs >= 1
    && ResetOf(c) * 1_000_000 + GRACE_SECS * 1_000_000_000 < clock + (ttlSecs + 1) * 1_000_000_000
    && clock + ttlSecs * 1_000_000_000 <= ResetOf(c) * 1_000_000 + (GRACE_SECS + JitterCapSecs(c.unit)) * 1_000_000_000
  }

  lemma GoodStoreStep(ks: Keyspace, req: Request, delay: nat)
    requires GoodStore(ks, delay)
    requires WellNamed(req) && FourDigitYear(Ms(req.clock)) && req.clock <= req.at <= req.clock + delay
    ensures GoodStore(ServeStore(ks, req).0, delay)
  {
    hide PlanOf, Nameable, CounterName, ResetOf;
    var p := PlanOf(req);
    if p.Touch? {
      TouchedCounter(req);
      TtlBounds(req);
      GoodEffect(ks, p.counter, p.effect, p.ttlSecs, req.clock, req.at, delay);
    }
  }

  lemma GoodEffect(ks: Keyspace, t: Counter, effect: Effect, ttlSecs: int, clock: Nanos, at: Nanos, delay: nat)
    requires GoodStore(ks, delay) && Nameable(t)
    requires TtlInBounds(t, ttlSecs, clock) && clock <= at <= clock + delay
    ensures GoodStore(ApplyToStore(ks, CounterName(t), effect, ttlSecs, Ms(at)), delay)
  {
    hide Nameable, CounterName, ResetOf, Ms;
    var ks' := ApplyToStore(ks, CounterName(t), effect, ttlSecs, Ms(at));
    assert effect != Read ==> GoodEntry(t, ks'[CounterName(t)], delay);
    forall c | Nameable(c) && CounterName(c) in ks' ensures GoodEntry(c, ks'[CounterName(c)], delay) {
      CounterNameInjective(c, t);
    }
  }

  /** In every reachable state every key names a counter, every value is non-negative, one without a deadline
      is 0, and a deadline lies after the window's reset and within the grace, the jitter cap and the delay. */
  lemma {:induction false} StoreInvariant(reqs: seq<Request>, delay: nat)
    requires Timely(reqs, delay)
    ensures GoodStore(StoreRun(reqs).0, delay)
  {
    if reqs != [] {
      var init := reqs[..|reqs| - 1];
      StoreInvariant(init, delay);
      GoodStoreStep(StoreRun(init).0, reqs[|reqs| - 1], delay);
    }
  }

  /** No non-zero counter outlives its window by more than its linger. */
  lemma NothingOutlivesItsWindow(reqs: seq<Request>, delay: nat, c: Counter, now: Instant)
    requires Timely(reqs, delay) && Nameable(c)
    requires now * 1_000_000 > ResetOf(c) * 1_000_000 + Linger(c.unit, delay)
    ensures Consumed(StoreRun(reqs).0, CounterName(c), now) == 0
  {
    StoreInvariant(reqs, delay);
  }

  /** In seconds: a minute counter is gone 35 s and the delay after its window's reset, any other 305 s. */
  lemma GoneAfterSeconds(reqs: seq<Request>, delay: nat, c: Counter, now: Instant)
    requires Timely(reqs, delay) && Nameable(c)
    requires now * 1_000_000 > (ResetOf(c) + (if c.unit == Minute then 35_000 else 305_000)) * 1_000_000 + delay
    ensures Consumed(StoreRun(reqs).0, CounterName(c), now) == 0
  {
    hide StoreRun, Timely, CounterName, ResetOf, WindowStart;
    NothingOutlivesItsWindow(reqs, delay, c, now);
  }

  // ---------- deadlines are set once ----------

  /** No request moves, drops or prolongs a live deadline, its own key's or another's. */
  lemma DeadlineIsKept(ks: Keyspace, req: Request, name: string)
    requires DeadlineOf(ks, name, Ms(req.at)).Some?
    ensures DeadlineOf(ServeStore(ks, req).0, name, Ms(req.at)) == DeadlineOf(ks, name, Ms(req.at))
  {
    hide PlanOf;
  }

  /** Only a charge gives a key a deadline, and only a key that has none: the time to live of that charge. */
  lemma OnlyChargesSetDeadlines(ks: Keyspace, req: Request, name: string)
    requires DeadlineOf(ks, name, Ms(req.at)) == None
    ensures
      var p, after := PlanOf(req), DeadlineOf(ServeStore(ks, req).0, name, Ms(req.at));
      if p.Touch? && p.name == name && p.effect.Add? && p.ttlSecs > 0
      then after == Some(Ms(req.at) + p.ttlSecs * 1000)
      else after == None
  {
    hide PlanOf;
  }

  /** Over whole runs: a deadline, once set, stands until the key expires, whatever is charged or refunded. */
  lemma {:induction false} DeadlineStands(reqs: seq<Request>, n: nat, name: string, deadline: int)
    requires 0 < n <= |reqs|
    requires forall i, j :: 0 <= i < j < |reqs| ==> reqs[i].at <= reqs[j].at
    requires DeadlineOf(StoreRun(reqs[..n]).0, name, Ms(reqs[n - 1].at)) == Some(deadline)
    ensures Ms(reqs[|reqs| - 1].at) <= deadline ==>
              DeadlineOf(StoreRun(reqs).0, name, Ms(reqs[|reqs| - 1].at)) == Some(deadline)
    decreases |reqs|
  {
    hide PlanOf, ServeStore;
    var m := |reqs|;
    if n == m {
      assert reqs[..n] == reqs;
    } else if Ms(reqs[m - 1].at) <= deadline {
      var init := reqs[..m - 1];
      assert init[..n] == reqs[..n];
      assert reqs[m - 2].at <= reqs[m - 1].at;
      DeadlineStands(init, n, name, deadline);
      DeadlineIsKept(StoreRun(init).0, reqs[m - 1], name);
    }
  }

  // ---------- the store refines the ledger ----------

  /** The largest delay, in ns, under which no request can meet a counter that has already expired. */
  const SAFE_DELAY: int := (SAFE_LINGER + 1) * 1_000_000

  function Stored(ks: Keyspace, name: string): int {
    if name in ks then ks[name].value else 0
  }

  /** The store agrees with the ledger on every counter that a timely request could still touch. */
  ghost predicate Agrees(ks: Keyspace, ledger: Ledger, now: Instant) {
    forall c :: Nameable(c) && now <= ResetOf(c) + SAFE_LINGER ==>
      Stored(ks, CounterName(c)) == Balance(ledger, c)
  }

  lemma RefinementStep(ks: Keyspace, ledger: Ledger, req: Request, delay: nat)
    requires delay <= SAFE_DELAY
    requires GoodStore(ks, delay) && Agrees(ks, ledger, Ms(req.at))
    requires WellNamed(req) && FourDigitYear(Ms(req.clock)) && req.clock <= req.at <= req.clock + delay
    ensures Agrees(ServeStore(ks, req).0, ServeLedger(ledger, req).0, Ms(req.at))
    ensures ServeStore(ks, req).1 == ServeLedger(ledger, req).1
  {
    hide PlanOf, Nameable, CounterName, ResetOf, Ms;
    var p := PlanOf(req);
    var at := Ms(req.at);
    if p.Touch? {
      TouchedCounter(req);
      TtlBounds(req);
      assert at <= ResetOf(p.counter) + SAFE_LINGER;
      assert Consumed(ks, p.name, at) == Stored(ks, p.name) == Balance(ledger, p.counter);
      var ks', ledger' := ServeStore(ks, req).0, ServeLedger(ledger, req).0;
      assert Consumed(ks', p.name, at) == Stored(ks', p.name) == Balance(ledger', p.counter);
      forall c | Nameable(c) && at <= ResetOf(c) + SAFE_LINGER
        ensures Stored(ks', CounterName(c)) == Balance(ledger', c)
      {
        CounterNameInjective(c, p.counter);
      }
    }
  }

  lemma {:induction false} Refinement(reqs: seq<Request>, delay: nat)
    requires Timely(reqs, delay) && delay <= SAFE_DELAY
    ensures StoreRun(reqs).1 == LedgerRun(reqs).1
    ensures reqs != [] ==> Agrees(StoreRun(reqs).0, LedgerRun(reqs).0, Ms(reqs[|reqs| - 1].at))
  {
    if reqs != [] {
      var init, last := reqs[..|reqs| - 1], reqs[|reqs| - 1];
      Refinement(init, delay);
      StoreInvariant(init, delay);
      if init != [] { assert init[|init| - 1].at <= last.at; }
      assert Agrees(StoreRun(init).0, LedgerRun(init).0, Ms(last.at));
      RefinementStep(StoreRun(init).0, LedgerRun(init).0, last, delay);
    }
  }

  /** Reading the store at the end of a timely run reads the ledger, for every counter still within reach. */
  lemma StoreReadsTheLedger(reqs: seq<Request>, delay: nat, c: Counter)
    requires Timely(reqs, delay) && delay <= SAFE_DELAY && reqs != [] && Nameable(c)
    requires Ms(reqs[|reqs| - 1].at) <= ResetOf(c) + SAFE_LINGER
    ensures Consumed(StoreRun(reqs).0, CounterName(c), Ms(reqs[|reqs| - 1].at)) == Balance(LedgerRun(reqs).0, c)
  {
    hide StoreRun, LedgerRun, Nameable, CounterName, ResetOf;
    Refinement(reqs, delay);
    StoreInvariant(reqs, delay);
  }

  // ---------- the delay bound is exact ----------

  /** In any minute: a charge in the first millisecond of the minute's last second, but past its first
      nanosecond, gets the shortest deadline there is, and a check that read the clock one nanosecond
      before the reset runs `late` ns after that. */
  function LateCheck(key: LimitKey, reset: Instant, late: nat): seq<Request>
    requires reset >= 60_000
  {
    var cap := Configured(Cap(10, Minute));
    var first, second := (reset - 1000) * 1_000_000 + 1, reset * 1_000_000 - 1;
    [ Request(Some(key), Charge(1), cap, first, first, 0, Reached),
      Request(Some(key), Check(1), cap, second, second + late, 0, Reached) ]
  }

  lemma LastSecond(t: Instant, clock: Instant)
    requires FourDigitYear(t)
    requires WindowReset(t, Minute) - 1000 <= clock < WindowReset(t, Minute)
    ensures FourDigitYear(clock)
    ensures WindowReset(clock, Minute) == WindowReset(t, Minute)
    ensures WindowStart(clock, Minute) == WindowStart(t, Minute)
    ensures WindowId(CivilOf(clock), Minute) == WindowId(CivilOf(t), Minute)
  {
    hide CivilOf, WindowId, AtTime;
    AlignedStart(t);
    SameWindow(t, clock, Minute);
    IdsNameWindows(t, clock, Minute);
  }

  lemma LastSecondPlan(t: Instant, req: Request, effect: Effect)
    requires FourDigitYear(t)
    requires WindowReset(t, Minute) - 1000 <= Ms(req.clock) < WindowReset(t, Minute)
    requires req.clock > (WindowReset(t, Minute) - 1000) * 1_000_000
    requires req.key.Some? && ValidKey(req.key.value) && req.resolved == Configured(Cap(10, Minute))
    requires req.random == 0 && req.link == Reached
    requires EffectOf(req.op) == Ok(effect)
    ensures PlanOf(req) == Touch(Counter(req.key.value, Minute, WindowStart(t, Minute)),
                                 Name(req.key.value, WindowId(CivilOf(t), Minute)),
                                 effect, 10, WindowReset(t, Minute), GRACE_SECS, false)
  {
    hide CivilOf, WindowId, WindowReset, WindowStart, ResetAt, Ms;
    LastSecond(t, Ms(req.clock));
    ComputedFields(req.clock, Minute);
    assert ComputeWindow(req.clock, Minute).value.remainingSecs == 0;
  }

  lemma LateCheckIsTimely(key: LimitKey, t: Instant, late: nat)
    requires ValidKey(key) && FourDigitYear(t) && WindowReset(t, Minute) >= 60_000
    ensures Timely(LateCheck(key, WindowReset(t, Minute), late), late)
  {
    hide WindowReset, CivilOf, ValidServiceName, ValidRateLimitId;
    var reset := WindowReset(t, Minute);
    var reqs := LateCheck(key, reset, late);
    assert Ms(reqs[0].clock) == reset - 1000 && Ms(reqs[1].clock) == reset - 1;
    LastSecond(t, reset - 1000);
    LastSecond(t, reset - 1);
  }

  lemma LateCheckDiverges(key: LimitKey, t: Instant, late: nat)
    requires ValidKey(key) && FourDigitYear(t) && WindowReset(t, Minute) >= 60_000 && late > SAFE_DELAY
    ensures Timely(LateCheck(key, WindowReset(t, Minute), late), late)
    ensures StoreRun(LateCheck(key, WindowReset(t, Minute), late)).1 != LedgerRun(LateCheck(key, WindowReset(t, Minute), late)).1
  {
    hide PlanOf, StoreRun, LedgerRun, WindowReset, CivilOf, Timely, ValidKey;
    var reset := WindowReset(t, Minute);
    var reqs := LateCheck(key, reset, late);
    var charge, check := reqs[0], reqs[1];
    LateCheckIsTimely(key, t, late);
    assert Ms(charge.clock) == reset - 1000 && Ms(check.clock) == reset - 1;
    LastSecondPlan(t, charge, Add(1));
    LastSecondPlan(t, check, Read);
    TwoSteps(charge, check);
    assert reqs == [charge, check];
    assert Ms(check.at) > reset - 1000 + GRACE_SECS * 1000;
    ExpiredBetween(PlanOf(charge), PlanOf(check), Ms(charge.at), Ms(check.at));
  }

  lemma ExpiredBetween(charge: Plan, check: Plan, first: Instant, second: Instant)
    requires charge.Touch? && charge.effect == Add(1) && charge.limit == 10 && charge.ttlSecs == GRACE_SECS && !charge.lost
    requires check == charge.(effect := Read)
    requires second > first + GRACE_SECS * 1000
    ensures StoreExec(StoreExec(map[], charge, Charge(1), first).0, check, Check(1), second).1
            != LedgerExec(LedgerExec(map[], charge, Charge(1)).0, check, Check(1)).1
  {
    var name := charge.name;
    var ks := StoreExec(map[], charge, Charge(1), first).0;
    assert ks == map[name := Entry(1, Some(first + GRACE_SECS * 1000))];
    assert Consumed(ks, name, second) == 0;
    assert Balance(map[charge.counter := 1], charge.counter) == 1;
  }

  lemma TwoSteps(a: Request, b: Request)
    ensures |StoreRun([a, b]).1| == |LedgerRun([a, b]).1| == 2
    ensures StoreRun([a, b]).1[1] == ServeStore(ServeStore(map[], a).0, b).1
    ensures LedgerRun([a, b]).1[1] == ServeLedger(ServeLedger(map[], a).0, b).1
  {
    assert [a, b][..1] == [a] && [a][..0] == [];
    assert StoreRun([a]).0 == ServeStore(map[], a).0;
    assert LedgerRun([a]).0 == ServeLedger(map[], a).0;
  }

  /** Every run with scripts at most `delay` ns behind their clock reads answers as the ledger does,
      exactly when `delay` is at most 4001 ms. */
  lemma RefinementExactly(delay: nat)
    ensures (forall reqs :: Timely(reqs, delay) ==> StoreRun(reqs).1 == LedgerRun(reqs).1) <==> delay <= 4001 * 1_000_000
  {
    if delay <= 4001 * 1_000_000 {
      forall reqs | Timely(reqs, delay) ensures StoreRun(reqs).1 == LedgerRun(reqs).1 {
        Refinement(reqs, delay);
      }
    } else {
      var t: Instant :| t < 86_400_000;
      AlignedStart(t);
      LateCheckDiverges(LimitKey("s", "c", "r"), t, delay);
    }
  }
}
