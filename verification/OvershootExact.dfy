/** The overshoot bound is attained, and what it means across a window boundary. */
module OvershootExact {
  import opened Prelude
  import opened Windows
  import opened DataPlane
  import opened CounterHistory
  import opened Overshoot

  // ---------- reaching the bound ----------

  ghost predicate Reachable(w: Setting, s: State) {
    exists trace: seq<State>, steps: seq<Step> :: IsRun(w, trace, steps) && trace[|trace| - 1] == s
  }

  lemma ReachableByStep(w: Setting, s: State, step: Step)
    requires Reachable(w, s) && Enabled(w, s, step)
    ensures Reachable(w, Do(w, s, step))
  {
    hide Enabled, Do;
    var trace: seq<State>, steps: seq<Step> :| IsRun(w, trace, steps) && trace[|trace| - 1] == s;
    var trace', steps' := trace + [Do(w, s, step)], steps + [step];
    forall k | 0 <= k < |steps'|
      ensures Enabled(w, trace'[k], steps'[k]) && trace'[k + 1] == Do(w, trace'[k], steps'[k])
    {
      if k < |steps| { assert trace'[k] == trace[k] && trace'[k + 1] == trace[k + 1] && steps'[k] == steps[k]; }
    }
    assert IsRun(w, trace', steps');
  }

  function AllIdle(w: Setting): seq<Client> {
    seq(w.clients, _ => Idle)
  }

  /** Client `i`, idle, checks and passes. */
  lemma PassOne(w: Setting, s: State, i: nat, cost: nat) returns (s': State)
    requires ValidSetting(w) && Reachable(w, s) && FourDigitYear(Ms(s.now))
    requires i < |s.clients| && s.clients[i] == Idle && 1 <= cost <= w.maxCost
    requires ConsumedIn(w, s, WindowStart(Ms(s.now), w.unit)) + cost <= w.maxCap
    ensures Reachable(w, s') && s'.now == s.now
    ensures s'.clients == s.clients[i := Passed(cost, s.now)]
    ensures ConsumedIn(w, s', WindowStart(Ms(s.now), w.unit)) == ConsumedIn(w, s, WindowStart(Ms(s.now), w.unit))
  {
    hide WindowStart, LedgerRun, PlanOf, ServeLedger, Reachable;
    var start := WindowStart(Ms(s.now), w.unit);
    ReachableByStep(w, s, BeginCheck(i, cost, w.maxCap));
    var s1 := Do(w, s, BeginCheck(i, cost, w.maxCap));
    var c := s1.clients[i];
    CheckOutcome(w, s1, c, Reached);
    ReachableByStep(w, s1, RunCheck(i, Reached));
    s' := Do(w, s1, RunCheck(i, Reached));
    var req := CheckRequest(w, c, s1.now, Reached);
    LedgerStep(w, s1, req, start);
    PlanOfProtocol(w, req);
    assert s' == s1.(clients := s1.clients[i := Passed(cost, s.now)], log := s1.log + [req]);
  }

  /** Client `i`, having passed, charges. */
  lemma ChargeOne(w: Setting, s: State, i: nat) returns (s': State)
    requires ValidSetting(w) && Reachable(w, s) && FourDigitYear(Ms(s.now))
    requires i < |s.clients| && s.clients[i].Passed? && s.clients[i].cost >= 1
    ensures Reachable(w, s') && s'.now == s.now
    ensures s'.clients == s.clients[i := Idle]
    ensures ConsumedIn(w, s', WindowStart(Ms(s.now), w.unit)) == ConsumedIn(w, s, WindowStart(Ms(s.now), w.unit)) + s.clients[i].cost
  {
    hide WindowStart, LedgerRun, PlanOf, ServeLedger, Reachable;
    var start := WindowStart(Ms(s.now), w.unit);
    ReachableByStep(w, s, BeginCharge(i));
    var s1 := Do(w, s, BeginCharge(i));
    ReachableByStep(w, s1, RunCharge(i, 0, 0, Reached));
    s' := Do(w, s1, RunCharge(i, 0, 0, Reached));
    var req := Overshoot.ChargeRequest(w, s1.clients[i], 0, s1.now, 0, Reached);
    LedgerStep(w, s1, req, start);
    PlanOfProtocol(w, req);
    assert s' == s1.(clients := s1.clients[i := Idle], log := s1.log + [req]);
  }

  /** One client alone can bring the counter to anything up to the cap. */
  lemma {:induction false} Fill(w: Setting, now: Nanos, amount: nat) returns (s: State)
    requires ValidSetting(w) && FourDigitYear(Ms(now)) && amount <= w.maxCap
    ensures Reachable(w, s) && s.now == now && s.clients == AllIdle(w)
    ensures ConsumedIn(w, s, WindowStart(Ms(now), w.unit)) == amount
    decreases amount
  {
    hide WindowStart, Reachable;
    if amount == 0 {
      s := State(now, AllIdle(w), []);
      assert IsRun(w, [s], []);
      assert Reachable(w, s) by { InitialIsReachable(w, s); }
    } else {
      var s0 := Fill(w, now, amount - 1);
      var s1 := PassOne(w, s0, 0, 1);
      s := ChargeOne(w, s1, 0);
      assert s.clients == AllIdle(w);
    }
  }

  lemma InitialIsReachable(w: Setting, s: State)
    requires Initial(w, s)
    ensures Reachable(w, s)
  {
    assert IsRun(w, [s], []);
  }

  /** The first `n` clients all pass the check at the same counter value. */
  lemma {:induction false} PassAll(w: Setting, now: Nanos, n: nat) returns (s: State)
    requires ValidSetting(w) && FourDigitYear(Ms(now)) && n <= w.clients && w.maxCap >= 1
    ensures Reachable(w, s) && s.now == now
    ensures s.clients == seq(w.clients, i => if i < n then Passed(LargestPass(w), now) else Idle)
    ensures ConsumedIn(w, s, WindowStart(Ms(now), w.unit)) == w.maxCap - LargestPass(w)
    decreases n
  {
    hide WindowStart, Reachable;
    if n == 0 {
      s := Fill(w, now, w.maxCap - LargestPass(w));
      assert s.clients == seq(w.clients, i => if i < n then Passed(LargestPass(w), now) else Idle);
    } else {
      var s0 := PassAll(w, now, n - 1);
      s := PassOne(w, s0, n - 1, LargestPass(w));
      assert s.clients == seq(w.clients, i => if i < n then Passed(LargestPass(w), now) else Idle);
    }
  }

  /** The first `n` of them then charge. */
  lemma {:induction false} ChargeAll(w: Setting, now: Nanos, n: nat) returns (s: State)
    requires ValidSetting(w) && FourDigitYear(Ms(now)) && n <= w.clients && w.maxCap >= 1
    ensures Reachable(w, s) && s.now == now
    ensures s.clients == seq(w.clients, i => if i < n then Idle else Passed(LargestPass(w), now))
    ensures ConsumedIn(w, s, WindowStart(Ms(now), w.unit)) == w.maxCap - LargestPass(w) + n * LargestPass(w)
    decreases n
  {
    hide WindowStart, Reachable;
    if n == 0 {
      s := PassAll(w, now, w.clients);
      assert s.clients == seq(w.clients, i => if i < n then Idle else Passed(LargestPass(w), now));
    } else {
      var s0 := ChargeAll(w, now, n - 1);
      s := ChargeOne(w, s0, n - 1);
      assert s.clients == seq(w.clients, i => if i < n then Idle else Passed(LargestPass(w), now));
      assert n * LargestPass(w) == (n - 1) * LargestPass(w) + LargestPass(w);
    }
  }

  /** The overshoot bound is the best possible: for every number of clients, cap, cost and instant,
      some run consumes exactly that much, and by `BoundedOvershoot` none consumes more. */
  lemma OvershootIsAttained(w: Setting, now: Nanos)
    requires ValidSetting(w) && FourDigitYear(Ms(now))
    ensures exists s :: Reachable(w, s)
                        && ConsumedIn(w, s, WindowStart(Ms(now), w.unit)) == w.maxCap + (w.clients - 1) * Min(w.maxCost, w.maxCap)
  {
    hide WindowStart, Reachable;
    if w.maxCap == 0 {
      var s := Fill(w, now, 0);
      assert Reachable(w, s) && ConsumedIn(w, s, WindowStart(Ms(now), w.unit)) == w.maxCap;
    } else {
      var s := ChargeAll(w, now, w.clients);
      var cost := LargestPass(w);
      assert w.clients * cost == cost + (w.clients - 1) * cost;
      assert Reachable(w, s) && ConsumedIn(w, s, WindowStart(Ms(now), w.unit)) == w.maxCap + (w.clients - 1) * cost;
    }
  }

  // ---------- bursts across a boundary ----------

  /** What a run charged to this limit with clock readings in `[from, to)`. */
  function ChargedBetween(w: Setting, log: seq<Request>, from: Nanos, to: Nanos): nat {
    if log == [] then 0
    else
      var req := log[|log| - 1];
      ChargedBetween(w, log[..|log| - 1], from, to) +
      (if ChargesLimit(w, req) && from <= req.clock < to then PlanOf(req).effect.amount else 0)
  }

  /** An interval no longer than the unit's shortest window meets at most two windows. */
  lemma TwoWindows(from: Nanos, to: Nanos, clock: Nanos, unit: TimeUnit)
    requires unit != Unspecified && to <= from + ShortestWindow(unit) * 1_000_000 && from <= clock < to
    ensures WindowStart(Ms(clock), unit) == WindowStart(Ms(from), unit) || WindowStart(Ms(clock), unit) == WindowReset(Ms(from), unit)
  {
    hide CivilOf, WindowStart, WindowReset, WindowLength, ShortestWindow;
    var next := WindowReset(Ms(from), unit);
    assert Ms(from) <= Ms(clock) <= Ms(from) + ShortestWindow(unit);
    WindowContains(Ms(from), unit);
    ResetStartsTheNextWindow(Ms(from), unit);
    WindowContains(next, unit);
    SameWindow(Ms(from), Ms(clock), unit);
    SameWindow(next, Ms(clock), unit);
  }

  lemma TouchesItsWindow(req: Request)
    requires PlanOf(req).Touch?
    ensures PlanOf(req).counter.start == WindowStart(Ms(req.clock), PlanOf(req).counter.unit)
    ensures PlanOf(req).counter.unit != Unspecified
  {
    hide CivilOf, ResetAt, WindowId, WindowStart, Ms;
  }

  lemma {:induction false} BurstInTwoCounters(w: Setting, log: seq<Request>, from: Nanos, to: Nanos)
    requires w.unit != Unspecified && to <= from + ShortestWindow(w.unit) * 1_000_000
    ensures ChargedBetween(w, log, from, to)
            <= TotalCharged(EffectsOn(log, Counted(w, WindowStart(Ms(from), w.unit))))
             + TotalCharged(EffectsOn(log, Counted(w, WindowReset(Ms(from), w.unit))))
  {
    hide PlanOf, WindowStart, WindowReset, ShortestWindow;
    if log != [] {
      var init, req := log[..|log| - 1], log[|log| - 1];
      BurstInTwoCounters(w, init, from, to);
      var c1, c2 := Counted(w, WindowStart(Ms(from), w.unit)), Counted(w, WindowReset(Ms(from), w.unit));
      AppendCharge(EffectsOn(init, c1), PlanOf(req));
      AppendCharge(EffectsOn(init, c2), PlanOf(req));
      if ChargesLimit(w, req) && from <= req.clock < to {
        TouchesItsWindow(req);
        TwoWindows(from, to, req.clock, w.unit);
      }
    }
  }

  lemma AppendCharge(effects: seq<Effect>, plan: Plan)
    ensures effects + [] == effects
    ensures plan.Touch? ==>
              TotalCharged(effects + [plan.effect])
              == TotalCharged(effects) + (if plan.effect.Add? then plan.effect.amount else 0)
  {
    if plan.Touch? { assert (effects + [plan.effect])[..|effects|] == effects; }
  }

  /** Without refunds of this limit, clients charge at most twice the per-window bound over any interval
      no longer than the unit's shortest window: 60 s, one day, or 28 days. */
  lemma BoundaryBurst(w: Setting, trace: seq<State>, steps: seq<Step>, k: nat, from: Nanos, to: Nanos)
    requires ValidSetting(w) && IsRun(w, trace, steps) && k < |trace|
    requires to <= from + ShortestWindow(w.unit) * 1_000_000
    requires forall start :: NoRefund(EffectsOn(trace[k].log, Counted(w, start)))
    ensures ChargedBetween(w, trace[k].log, from, to) <= 2 * (w.maxCap + (w.clients - 1) * Min(w.maxCost, w.maxCap))
  {
    hide WindowStart, WindowReset, IsRun, LedgerRun, EffectsOn, ChargedBetween;
    var log := trace[k].log;
    var start, next := WindowStart(Ms(from), w.unit), WindowReset(Ms(from), w.unit);
    BurstInTwoCounters(w, log, from, to);
    ChargesAddUp(0, EffectsOn(log, Counted(w, start)));
    ChargesAddUp(0, EffectsOn(log, Counted(w, next)));
    BalanceIsHistory(log, Counted(w, start));
    BalanceIsHistory(log, Counted(w, next));
    assert WindowStart(start, w.unit) == start by { StartIsAligned(Ms(from), w.unit); }
    ResetStartsTheNextWindow(Ms(from), w.unit);
    BoundedOvershoot(w, trace, steps, k, start);
    BoundedOvershoot(w, trace, steps, k, next);
  }

  lemma StartIsAligned(now: Instant, unit: TimeUnit)
    requires unit != Unspecified
    ensures WindowStart(WindowStart(now, unit), unit) == WindowStart(now, unit)
  {
    hide CivilOf, WindowStart, WindowReset, WindowLength;
    WindowContains(now, unit);
    SameWindow(now, WindowStart(now, unit), unit);
  }
}
