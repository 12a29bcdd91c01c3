/** The check-then-charge protocol: how far concurrent clients can drive a counter past its cap.

    Checks do not reserve, so several clients may pass a check before any of them charges.
    Reading the clock and running the script are separate steps, and other requests, refunds
    and window rollovers may fall between them. Calls may fail: a check whose answer does not
    arrive does not pass, and a charge may or may not have run. */
module Overshoot {
  import opened Prelude
  import opened Windows
  import opened CounterKey
  import opened CounterStore
  import opened DataPlane

  /** What is fixed for a run: one limit and its unit, the clients, and bounds on caps, costs and delay. */
  datatype Setting = Setting(
    key: LimitKey,
    unit: TimeUnit,
    clients: nat,
    maxCap: nat,    // the largest cap any node served
    maxCost: nat,
    delay: nat)     // from a clock read to its script, in ns

  predicate ValidSetting(w: Setting) {
    && w.unit != Unspecified && w.clients >= 1 && w.maxCost >= 1
    && ValidServiceName(w.key.service) && w.key.customer != "" && ValidRateLimitId(w.key.rateLimitId)
  }

  datatype Client =
    | Idle
    | Checking(cost: nat, cap: nat, clock: Nanos)  // clock read, script not yet run
    | Passed(cost: nat, checked: Nanos)            // allowed, not yet charging
    | Charging(cost: nat, clock: Nanos)            // clock read, script not yet run

  datatype State = State(now: Nanos, clients: seq<Client>, log: seq<Request>)

  datatype Step =
    | Tick(to: Nanos)
    | BeginCheck(i: nat, cost: nat, cap: nat)
    | RunCheck(i: nat, link: Link)
    | BeginCharge(i: nat)
    | RunCharge(i: nat, cap: nat, random: nat, link: Link)
    | Other(req: Request)

  function CheckRequest(w: Setting, c: Client, now: Nanos, link: Link): Request
    requires c.Checking?
  {
    Request(Some(w.key), Check(c.cost), Configured(Cap(c.cap, w.unit)), c.clock, now, 0, link)
  }

  function ChargeRequest(w: Setting, c: Client, cap: nat, now: Nanos, random: nat, link: Link): Request
    requires c.Charging?
  {
    Request(Some(w.key), Charge(c.cost), Configured(Cap(cap, w.unit)), c.clock, now, random, link)
  }

  /** Whether a request charges a counter of this limit. */
  predicate ChargesLimit(w: Setting, req: Request) {
    var p := PlanOf(req);
    p.Touch? && p.effect.Add? && p.counter.key == w.key && p.counter.unit == w.unit
  }

  /** Other traffic: refunds and checks of this limit, and anything at all on other limits. */
  predicate Enabled(w: Setting, s: State, step: Step) {
    match step
    case Tick(to) => s.now <= to
    case BeginCheck(i, cost, cap) =>
      i < |s.clients| && s.clients[i].Idle? && 1 <= cost <= w.maxCost && cap <= w.maxCap && FourDigitYear(Ms(s.now))
    case RunCheck(i, _) =>
      i < |s.clients| && s.clients[i].Checking? && s.now <= s.clients[i].clock + w.delay
    case BeginCharge(i) =>
      i < |s.clients| && s.clients[i].Passed? && FourDigitYear(Ms(s.now))
    case RunCharge(i, _, _, _) =>
      i < |s.clients| && s.clients[i].Charging? && s.now <= s.clients[i].clock + w.delay
    case Other(req) =>
      && !ChargesLimit(w, req)
      && WellNamed(req) && FourDigitYear(Ms(req.clock)) && req.at == s.now && req.clock <= s.now <= req.clock + w.delay
  }

  function Do(w: Setting, s: State, step: Step): State
    requires Enabled(w, s, step)
  {
    match step
    case Tick(to) => s.(now := to)
    case BeginCheck(i, cost, cap) => s.(clients := s.clients[i := Checking(cost, cap, s.now)])
    case RunCheck(i, link) =>
      var c := s.clients[i];
      var req := CheckRequest(w, c, s.now, link);
      var response := ServeLedger(LedgerRun(s.log).0, req).1;
      var passed := response.Ok? && response.value.CheckResponse? && response.value.allowed;
      s.(clients := s.clients[i := if passed then Passed(c.cost, c.clock) else Idle], log := s.log + [req])
    case BeginCharge(i) => s.(clients := s.clients[i := Charging(s.clients[i].cost, s.now)])
    case RunCharge(i, cap, random, link) =>
      s.(clients := s.clients[i := Idle], log := s.log + [ChargeRequest(w, s.clients[i], cap, s.now, random, link)])
    case Other(req) => s.(log := s.log + [req])
  }

  /** Everyone idle and nothing charged, at any instant. */
  predicate Initial(w: Setting, s: State) {
    |s.clients| == w.clients && s.log == [] && forall i :: 0 <= i < |s.clients| ==> s.clients[i] == Idle
  }

  /** `trace` is a run of `steps` from an initial state. */
  predicate IsRun(w: Setting, trace: seq<State>, steps: seq<Step>) {
    && |trace| == |steps| + 1
    && Initial(w, trace[0])
    && forall k :: 0 <= k < |steps| ==> Enabled(w, trace[k], steps[k]) && trace[k + 1] == Do(w, trace[k], steps[k])
  }

  // ---------- what each client can still add to one window ----------

  function Counted(w: Setting, start: Instant): Counter {
    Counter(w.key, w.unit, start)
  }

  function ConsumedIn(w: Setting, s: State, start: Instant): nat {
    Balance(LedgerRun(s.log).0, Counted(w, start))
  }

  /** The most a client can still add to the window starting at `start` without passing a check against it. */
  function Exposure(w: Setting, c: Client, start: Instant): nat {
    match c
    case Idle => 0
    case Checking(cost, _, clock) => if WindowStart(Ms(clock), w.unit) < start then Min(cost, w.maxCap) else 0
    case Passed(cost, checked) => if WindowStart(Ms(checked), w.unit) <= start then cost else 0
    case Charging(cost, clock) => if WindowStart(Ms(clock), w.unit) <= start then cost else 0
  }

  function TotalExposure(w: Setting, clients: seq<Client>, start: Instant): nat {
    if clients == [] then 0
    else TotalExposure(w, clients[..|clients| - 1], start) + Exposure(w, clients[|clients| - 1], start)
  }

  lemma {:induction false} ExposureUpdate(w: Setting, clients: seq<Client>, i: nat, c: Client, start: Instant)
    requires i < |clients|
    ensures TotalExposure(w, clients[i := c], start)
            == TotalExposure(w, clients, start) - Exposure(w, clients[i], start) + Exposure(w, c, start)
  {
    hide Exposure;
    var n := |clients|;
    if i == n - 1 {
      assert clients[i := c][..n - 1] == clients[..n - 1];
    } else {
      assert clients[i := c][..n - 1] == clients[..n - 1][i := c];
      ExposureUpdate(w, clients[..n - 1], i, c, start);
    }
  }

  predicate GoodClient(w: Setting, c: Client, now: Nanos) {
    match c
    case Idle => true
    case Checking(cost, cap, clock) => 1 <= cost <= w.maxCost && cap <= w.maxCap && clock <= now && FourDigitYear(Ms(clock))
    case Passed(cost, checked) => 1 <= cost <= w.maxCost && cost <= w.maxCap && checked <= now
    case Charging(cost, clock) => 1 <= cost <= w.maxCost && cost <= w.maxCap && clock <= now && FourDigitYear(Ms(clock))
  }

  lemma ExposureIsSmall(w: Setting, c: Client, now: Nanos, start: Instant)
    requires GoodClient(w, c, now)
    ensures Exposure(w, c, start) <= LargestPass(w)
  {
    hide WindowStart;
  }

  lemma {:induction false} ExposureIsBounded(w: Setting, clients: seq<Client>, now: Nanos, start: Instant)
    requires forall i :: 0 <= i < |clients| ==> GoodClient(w, clients[i], now)
    ensures TotalExposure(w, clients, start) <= |clients| * LargestPass(w)
  {
    hide Exposure, GoodClient;
    if clients != [] {
      var n := |clients|;
      ExposureIsBounded(w, clients[..n - 1], now, start);
      ExposureIsSmall(w, clients[n - 1], now, start);
      assert n * LargestPass(w) == (n - 1) * LargestPass(w) + LargestPass(w);
    }
  }

  /** The largest cost that can ever pass a check. */
  function LargestPass(w: Setting): nat {
    Min(w.maxCost, w.maxCap)
  }

  /** The bound: the largest cap, and one largest passing cost for every client but one. */
  function Bound(w: Setting): int {
    w.maxCap + (w.clients - 1) * LargestPass(w)
  }

  predicate GoodClients(w: Setting, s: State) {
    && |s.clients| == w.clients
    && forall i :: 0 <= i < |s.clients| ==> GoodClient(w, s.clients[i], s.now)
  }

  /** The invariant of one window: what it holds plus what can still land in it is within the bound,
      and nothing has landed before the window opens. */
  ghost predicate WindowInv(w: Setting, s: State, start: Instant) {
    && ConsumedIn(w, s, start) + TotalExposure(w, s.clients, start) <= Bound(w)
    && (Ms(s.now) < start ==> ConsumedIn(w, s, start) == 0)
  }

  lemma BeforeTheWindow(w: Setting, s: State, start: Instant)
    requires ValidSetting(w) && GoodClients(w, s) && ConsumedIn(w, s, start) == 0
    ensures ConsumedIn(w, s, start) + TotalExposure(w, s.clients, start) <= Bound(w)
  {
    hide GoodClient, TotalExposure, ConsumedIn;
    ExposureIsBounded(w, s.clients, s.now, start);
    var least := LargestPass(w);
    assert w.clients * least == least + (w.clients - 1) * least;
  }

  /** All other clients together add at most one largest passing cost each. */
  lemma OthersAreBounded(w: Setting, s: State, i: nat, start: Instant)
    requires ValidSetting(w) && GoodClients(w, s) && i < |s.clients|
    ensures TotalExposure(w, s.clients, start) - Exposure(w, s.clients[i], start) <= (w.clients - 1) * LargestPass(w)
  {
    hide GoodClient, Exposure, TotalExposure;
    var alone := s.clients[i := Idle];
    ExposureUpdate(w, s.clients, i, Idle, start);
    assert Exposure(w, Idle, start) == 0 by { IdleAddsNothing(w, start); }
    var others := s.clients[..i] + s.clients[i + 1..];
    RemoveIdle(w, alone, i, start);
    assert alone[..i] + alone[i + 1..] == others;
    assert forall j :: 0 <= j < |others| ==> others[j] == s.clients[if j < i then j else j + 1];
    ExposureIsBounded(w, others, s.now, start);
  }

  lemma IdleAddsNothing(w: Setting, start: Instant)
    ensures Exposure(w, Idle, start) == 0
  {}

  lemma {:induction false} RemoveIdle(w: Setting, clients: seq<Client>, i: nat, start: Instant)
    requires i < |clients| && clients[i] == Idle
    ensures TotalExposure(w, clients[..i] + clients[i + 1..], start) == TotalExposure(w, clients, start)
  {
    hide Exposure;
    IdleAddsNothing(w, start);
    var n := |clients|;
    var rest := clients[..i] + clients[i + 1..];
    if i == n - 1 {
      assert rest == clients[..n - 1];
    } else {
      var init := clients[..n - 1];
      RemoveIdle(w, init, i, start);
      assert rest[..n - 2] == init[..i] + init[i + 1..];
    }
  }

  // ---------- each step keeps the invariant ----------

  lemma LedgerStep(w: Setting, s: State, req: Request, start: Instant)
    ensures
      var p := PlanOf(req);
      ConsumedIn(w, s.(log := s.log + [req]), start)
      == if p.Touch? && p.counter == Counted(w, start) then Moved(ConsumedIn(w, s, start), p.effect)
         else ConsumedIn(w, s, start)
  {
    hide PlanOf;
    assert (s.log + [req])[..|s.log|] == s.log;
  }

  lemma PlanOfProtocol(w: Setting, req: Request)
    requires ValidSetting(w) && req.key == Some(w.key)
    requires req.resolved.Configured? && req.resolved.cap.timeUnit == w.unit
    requires req.op.Check? || req.op.Charge?
    requires req.op.cost >= 1
    ensures
      var p := PlanOf(req);
      && (p.Touch? <==> req.link != NotReached)
      && (p.Touch? ==>
            && p.counter == Counted(w, WindowStart(Ms(req.clock), w.unit))
            && p.limit == req.resolved.cap.limitValue
            && p.effect == (if req.op.Check? then Read else Add(req.op.cost))
            && p.lost == req.link.ReplyLost?)
      && (p.Answer? ==> p.result == Err(Unavailable))
  {
    hide CivilOf, ResetAt, WindowId, WindowStart, Ms;
  }

  /** A check passes exactly when its answer arrives and the cost still fits. */
  lemma CheckOutcome(w: Setting, s: State, c: Client, link: Link)
    requires ValidSetting(w) && c.Checking? && c.cost >= 1
    ensures
      var response := ServeLedger(LedgerRun(s.log).0, CheckRequest(w, c, s.now, link)).1;
      && (response.Ok? <==> link == Reached)
      && (response.Ok? ==>
            && response.value.CheckResponse?
            && (response.value.allowed <==> ConsumedIn(w, s, WindowStart(Ms(c.clock), w.unit)) + c.cost <= c.cap))
  {
    hide PlanOf, LedgerRun, WindowStart, Ms;
    PlanOfProtocol(w, CheckRequest(w, c, s.now, link));
  }

  lemma KeepsGoodClients(w: Setting, s: State, step: Step)
    requires ValidSetting(w) && GoodClients(w, s) && Enabled(w, s, step)
    ensures GoodClients(w, Do(w, s, step))
  {
    hide PlanOf, LedgerRun, ServeLedger, FourDigitYear, ChargesLimit;
    if step.RunCheck? {
      CheckOutcome(w, s, s.clients[step.i], step.link);
    }
  }

  lemma KeepsWindow(w: Setting, s: State, step: Step, start: Instant)
    requires ValidSetting(w) && GoodClients(w, s) && Enabled(w, s, step)
    requires WindowStart(start, w.unit) == start
    requires WindowInv(w, s, start)
    ensures WindowInv(w, Do(w, s, step), start)
  {
    match step
    case Tick(to) =>
    case BeginCheck(i, cost, cap) => KeepsWindowBeginCheck(w, s, i, cost, cap, start);
    case RunCheck(i, link) => KeepsWindowRunCheck(w, s, i, link, start);
    case BeginCharge(i) => KeepsWindowBeginCharge(w, s, i, start);
    case RunCharge(i, cap, random, link) => KeepsWindowRunCharge(w, s, i, cap, random, link, start);
    case Other(req) => KeepsWindowOther(w, s, req, start);
  }

  lemma KeepsWindowBeginCheck(w: Setting, s: State, i: nat, cost: nat, cap: nat, start: Instant)
    requires ValidSetting(w) && GoodClients(w, s) && Enabled(w, s, BeginCheck(i, cost, cap))
    requires WindowStart(start, w.unit) == start && WindowInv(w, s, start)
    ensures WindowInv(w, Do(w, s, BeginCheck(i, cost, cap)), start)
  {
    hide TotalExposure, LedgerRun, WindowStart;
    var s' := Do(w, s, BeginCheck(i, cost, cap));
    ExposureUpdate(w, s.clients, i, s'.clients[i], start);
    if WindowStart(Ms(s.now), w.unit) < start {
      WindowOrder(start, Ms(s.now), w.unit);
      KeepsGoodClients(w, s, BeginCheck(i, cost, cap));
      BeforeTheWindow(w, s', start);
    }
  }

  lemma KeepsWindowRunCheck(w: Setting, s: State, i: nat, link: Link, start: Instant)
    requires ValidSetting(w) && GoodClients(w, s) && Enabled(w, s, RunCheck(i, link))
    requires WindowInv(w, s, start)
    ensures WindowInv(w, Do(w, s, RunCheck(i, link)), start)
  {
    hide TotalExposure, LedgerRun, WindowStart, PlanOf, ServeLedger;
    var s', c := Do(w, s, RunCheck(i, link)), s.clients[i];
    ExposureUpdate(w, s.clients, i, s'.clients[i], start);
    var req := CheckRequest(w, c, s.now, link);
    LedgerStep(w, s, req, start);
    PlanOfProtocol(w, req);
    CheckOutcome(w, s, c, link);
    assert ConsumedIn(w, s', start) == ConsumedIn(w, s, start) by {
      assert s'.log == s.log + [req];
    }
    OthersAreBounded(w, s, i, start);
  }

  lemma KeepsWindowBeginCharge(w: Setting, s: State, i: nat, start: Instant)
    requires ValidSetting(w) && GoodClients(w, s) && Enabled(w, s, BeginCharge(i))
    requires WindowInv(w, s, start)
    ensures WindowInv(w, Do(w, s, BeginCharge(i)), start)
  {
    hide TotalExposure, LedgerRun, WindowStart;
    var s', c := Do(w, s, BeginCharge(i)), s.clients[i];
    ExposureUpdate(w, s.clients, i, s'.clients[i], start);
    WindowOrder(Ms(c.checked), Ms(s.now), w.unit);
  }

  lemma KeepsWindowRunCharge(w: Setting, s: State, i: nat, cap: nat, random: nat, link: Link, start: Instant)
    requires ValidSetting(w) && GoodClients(w, s) && Enabled(w, s, RunCharge(i, cap, random, link))
    requires WindowInv(w, s, start)
    ensures WindowInv(w, Do(w, s, RunCharge(i, cap, random, link)), start)
  {
    hide TotalExposure, LedgerRun, WindowStart, PlanOf;
    var s', c := Do(w, s, RunCharge(i, cap, random, link)), s.clients[i];
    ExposureUpdate(w, s.clients, i, Idle, start);
    var req := ChargeRequest(w, c, cap, s.now, random, link);
    LedgerStep(w, s, req, start);
    PlanOfProtocol(w, req);
    WindowContains(Ms(c.clock), w.unit);
    assert s'.log == s.log + [req];
  }

  lemma KeepsWindowOther(w: Setting, s: State, req: Request, start: Instant)
    requires Enabled(w, s, Other(req)) && WindowInv(w, s, start)
    ensures WindowInv(w, Do(w, s, Other(req)), start)
  {
    hide TotalExposure, LedgerRun, WindowStart, PlanOf;
    LedgerStep(w, s, req, start);
  }

  // ---------- the bound over whole runs ----------

  lemma {:induction false} RunKeepsWindow(w: Setting, trace: seq<State>, steps: seq<Step>, k: nat, start: Instant)
    requires ValidSetting(w) && IsRun(w, trace, steps) && k < |trace|
    requires WindowStart(start, w.unit) == start
    ensures GoodClients(w, trace[k]) && WindowInv(w, trace[k], start)
  {
    hide Enabled, Do, WindowStart;
    if k == 0 {
      assert GoodClients(w, trace[0]);
      assert ConsumedIn(w, trace[0], start) == 0;
      BeforeTheWindow(w, trace[0], start);
    } else {
      RunKeepsWindow(w, trace, steps, k - 1, start);
      assert Enabled(w, trace[k - 1], steps[k - 1]) && trace[k - 1 + 1] == Do(w, trace[k - 1], steps[k - 1]);
      KeepsGoodClients(w, trace[k - 1], steps[k - 1]);
      KeepsWindow(w, trace[k - 1], steps[k - 1], start);
    }
  }

  /** Costs that passed a check and are still to be charged. */
  function PassedCosts(clients: seq<Client>): nat {
    if clients == [] then 0
    else
      var c := clients[|clients| - 1];
      PassedCosts(clients[..|clients| - 1]) + (if c.Passed? || c.Charging? then c.cost else 0)
  }

  lemma {:induction false} PassedCostsAreExposed(w: Setting, clients: seq<Client>, now: Nanos)
    requires w.unit != Unspecified
    requires forall i :: 0 <= i < |clients| ==> GoodClient(w, clients[i], now)
    ensures PassedCosts(clients) <= TotalExposure(w, clients, WindowStart(Ms(now), w.unit))
  {
    hide WindowStart, FourDigitYear;
    if clients != [] {
      var c := clients[|clients| - 1];
      PassedCostsAreExposed(w, clients[..|clients| - 1], now);
      if c.Passed? { WindowOrder(Ms(c.checked), Ms(now), w.unit); }
      if c.Charging? { WindowOrder(Ms(c.clock), Ms(now), w.unit); }
    }
  }

  /** In every reachable state, in every window, at most the largest cap and one largest passing cost for
      each client but one is consumed; in the current window the same bounds consumed and everything
      passed but not yet charged together, whichever window it will land in. */
  lemma BoundedOvershoot(w: Setting, trace: seq<State>, steps: seq<Step>, k: nat, start: Instant)
    requires ValidSetting(w) && IsRun(w, trace, steps) && k < |trace|
    requires WindowStart(start, w.unit) == start
    ensures ConsumedIn(w, trace[k], start) <= w.maxCap + (w.clients - 1) * Min(w.maxCost, w.maxCap)
    ensures start == WindowStart(Ms(trace[k].now), w.unit) ==>
              ConsumedIn(w, trace[k], start) + PassedCosts(trace[k].clients)
              <= w.maxCap + (w.clients - 1) * Min(w.maxCost, w.maxCap)
  {
    hide WindowStart, IsRun, ConsumedIn, TotalExposure, GoodClient;
    RunKeepsWindow(w, trace, steps, k, start);
    PassedCostsAreExposed(w, trace[k].clients, trace[k].now);
  }

  // ---------- the same bound for the store ----------

  ghost predicate GoodLog(w: Setting, s: State) {
    && Timely(s.log, w.delay)
    && forall i :: 0 <= i < |s.log| ==> s.log[i].at <= s.now
  }

  lemma AppendTimely(log: seq<Request>, req: Request, delay: nat)
    requires Timely(log, delay)
    requires WellNamed(req) && FourDigitYear(Ms(req.clock)) && req.clock <= req.at <= req.clock + delay
    requires forall i :: 0 <= i < |log| ==> log[i].at <= req.at
    ensures Timely(log + [req], delay)
  {}

  lemma KeepsGoodLog(w: Setting, s: State, step: Step)
    requires ValidSetting(w) && GoodClients(w, s) && GoodLog(w, s) && Enabled(w, s, step)
    ensures GoodLog(w, Do(w, s, step))
  {
    hide PlanOf, LedgerRun, ServeLedger, ChargesLimit, Timely;
    match step
    case RunCheck(i, link) => AppendTimely(s.log, CheckRequest(w, s.clients[i], s.now, link), w.delay);
    case RunCharge(i, cap, random, link) =>
      AppendTimely(s.log, ChargeRequest(w, s.clients[i], cap, s.now, random, link), w.delay);
    case Other(req) => AppendTimely(s.log, req, w.delay);
    case _ =>
  }

  lemma {:induction false} RunKeepsGoodLog(w: Setting, trace: seq<State>, steps: seq<Step>, k: nat)
    requires ValidSetting(w) && IsRun(w, trace, steps) && k < |trace|
    ensures GoodClients(w, trace[k]) && GoodLog(w, trace[k])
  {
    hide Enabled, Do;
    if k > 0 {
      RunKeepsGoodLog(w, trace, steps, k - 1);
      assert Enabled(w, trace[k - 1], steps[k - 1]) && trace[k - 1 + 1] == Do(w, trace[k - 1], steps[k - 1]);
      KeepsGoodClients(w, trace[k - 1], steps[k - 1]);
      KeepsGoodLog(w, trace[k - 1], steps[k - 1]);
    }
  }

  /** When scripts are no later than the store can bear, every decision of the run is the one the store
      itself would have given, and the counter a reader finds in the store is within the bound. */
  lemma BoundedOvershootInStore(w: Setting, trace: seq<State>, steps: seq<Step>, k: nat, start: Instant)
    requires ValidSetting(w) && IsRun(w, trace, steps) && k < |trace| && w.delay <= SAFE_DELAY
    requires Nameable(Counted(w, start))
    requires trace[k].log != [] && Ms(trace[k].log[|trace[k].log| - 1].at) <= ResetOf(Counted(w, start)) + SAFE_LINGER
    ensures StoreRun(trace[k].log).1 == LedgerRun(trace[k].log).1
    ensures Consumed(StoreRun(trace[k].log).0, CounterName(Counted(w, start)), Ms(trace[k].log[|trace[k].log| - 1].at))
            <= w.maxCap + (w.clients - 1) * Min(w.maxCost, w.maxCap)
  {
    hide StoreRun, LedgerRun, CounterName, ResetOf, WindowStart, IsRun;
    RunKeepsGoodLog(w, trace, steps, k);
    Refinement(trace[k].log, w.delay);
    StoreReadsTheLedger(trace[k].log, w.delay, Counted(w, start));
    BoundedOvershoot(w, trace, steps, k, start);
  }
}
