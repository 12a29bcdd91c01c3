/** What one counter holds after any history of charges and refunds, in closed form,
    and what a window reset leaves behind. */
module CounterHistory {
  import opened Prelude
  import opened Windows
  import opened CounterKey
  import opened CounterStore
  import opened DataPlane

  function CounterFrom(consumed: nat, effects: seq<Effect>): nat {
    if effects == [] then consumed
    else Moved(CounterFrom(consumed, effects[..|effects| - 1]), effects[|effects| - 1])
  }

  function Signed(effect: Effect): int {
    if effect.Add? then effect.amount else if effect.Sub? then -(effect.amount as int) else 0
  }

  /** Charges less refunds, without any floor. */
  function Total(effects: seq<Effect>): int {
    if effects == [] then 0 else Total(effects[..|effects| - 1]) + Signed(effects[|effects| - 1])
  }

  function TotalCharged(effects: seq<Effect>): nat {
    if effects == [] then 0
    else
      var last := effects[|effects| - 1];
      TotalCharged(effects[..|effects| - 1]) + (if last.Add? then last.amount else 0)
  }

  /** The least of all prefix totals, the empty prefix included. */
  function LeastPrefixTotal(effects: seq<Effect>): int {
    if effects == [] then 0 else Min(LeastPrefixTotal(effects[..|effects| - 1]), Total(effects))
  }

  lemma {:induction false} LeastPrefixTotalIsLeast(effects: seq<Effect>, k: nat)
    requires k <= |effects|
    ensures LeastPrefixTotal(effects) <= Total(effects[..k])
    ensures exists j :: 0 <= j <= |effects| && LeastPrefixTotal(effects) == Total(effects[..j])
  {
    var n := |effects|;
    assert effects[..n] == effects;
    if n > 0 {
      var init := effects[..n - 1];
      LeastPrefixTotalIsLeast(init, Min(k, n - 1));
      var j :| 0 <= j <= n - 1 && LeastPrefixTotal(init) == Total(init[..j]);
      assert init[..j] == effects[..j];
      assert init[..Min(k, n - 1)] == effects[..Min(k, n - 1)];
    } else {
      assert effects[..0] == effects;
    }
  }

  /** The floored counter is the signed total less the least prefix total. */
  lemma {:induction false} ClosedForm(effects: seq<Effect>)
    ensures CounterFrom(0, effects) == Total(effects) - LeastPrefixTotal(effects)
  {
    if effects != [] { ClosedForm(effects[..|effects| - 1]); }
  }

  /** The counter lies between the net total and the total charged. */
  lemma {:induction false} CounterBounds(effects: seq<Effect>)
    ensures Total(effects) <= CounterFrom(0, effects) <= TotalCharged(effects)
  {
    if effects != [] { CounterBounds(effects[..|effects| - 1]); }
  }

  predicate NoRefund(effects: seq<Effect>) {
    forall i :: 0 <= i < |effects| && effects[i].Sub? ==> effects[i].amount == 0
  }

  lemma {:induction false} ChargesAddUp(consumed: nat, effects: seq<Effect>)
    requires NoRefund(effects)
    ensures CounterFrom(consumed, effects) == consumed + TotalCharged(effects)
  {
    if effects != [] { ChargesAddUp(consumed, effects[..|effects| - 1]); }
  }

  lemma {:induction false} ChargedWithout(effects: seq<Effect>, i: nat)
    requires i < |effects|
    ensures TotalCharged(effects) == TotalCharged(Without(effects, i)) + TotalCharged([effects[i]])
  {
    var n := |effects|;
    var init, last := effects[..n - 1], effects[n - 1];
    assert [effects[i]][..0] == [];
    if i == n - 1 {
      assert Without(effects, i) == init;
    } else {
      ChargedWithout(init, i);
      var rest := Without(effects, i);
      assert rest[..n - 2] == Without(init, i) && rest[n - 2] == last;
    }
  }

  /** Charges may interleave in any order: every order of the same charges leaves the same counter. */
  lemma {:induction false} OrderOfChargesIsIrrelevant(a: seq<Effect>, b: seq<Effect>)
    requires NoRefund(a) && NoRefund(b) && multiset(a) == multiset(b)
    ensures CounterFrom(0, a) == CounterFrom(0, b)
  {
    ChargesAddUp(0, a);
    ChargesAddUp(0, b);
    SameChargesSameTotal(a, b);
  }

  function Without<T>(s: seq<T>, i: nat): seq<T>
    requires i < |s|
  {
    s[..i] + s[i + 1..]
  }

  lemma WithoutOne<T>(s: seq<T>, i: nat)
    requires i < |s|
    ensures multiset(Without(s, i)) == multiset(s) - multiset{s[i]}
  {
    assert s == s[..i] + [s[i]] + s[i + 1..];
  }

  lemma {:induction false} SameChargesSameTotal(a: seq<Effect>, b: seq<Effect>)
    requires multiset(a) == multiset(b)
    ensures TotalCharged(a) == TotalCharged(b)
    decreases |a|
  {
    assert |a| == |multiset(a)| && |b| == |multiset(b)|;
    if a != [] {
      var first := a[0];
      assert first in multiset(a) && first in multiset(b) && first in b;
      var i :| 0 <= i < |b| && b[i] == first;
      WithoutOne(a, 0);
      WithoutOne(b, i);
      SameChargesSameTotal(Without(a, 0), Without(b, i));
      ChargedWithout(a, 0);
      ChargedWithout(b, i);
    }
  }

  // ---------- the counter inside a run ----------

  /** The effects a run has on one counter, in order. */
  function EffectsOn(reqs: seq<Request>, c: Counter): seq<Effect> {
    if reqs == [] then []
    else
      var plan := PlanOf(reqs[|reqs| - 1]);
      EffectsOn(reqs[..|reqs| - 1], c) + (if plan.Touch? && plan.counter == c then [plan.effect] else [])
  }

  lemma {:induction false} CounterConcat(consumed: nat, a: seq<Effect>, b: seq<Effect>)
    ensures CounterFrom(consumed, a + b) == CounterFrom(CounterFrom(consumed, a), b)
  {
    if b == [] {
      assert a + b == a;
    } else {
      assert (a + b)[..|a + b| - 1] == a + b[..|b| - 1];
      CounterConcat(consumed, a, b[..|b| - 1]);
    }
  }

  lemma {:induction false} EffectsConcat(a: seq<Request>, b: seq<Request>, c: Counter)
    ensures EffectsOn(a + b, c) == EffectsOn(a, c) + EffectsOn(b, c)
  {
    hide PlanOf;
    if b == [] {
      assert a + b == a;
    } else {
      assert (a + b)[..|a + b| - 1] == a + b[..|b| - 1];
      EffectsConcat(a, b[..|b| - 1], c);
    }
  }

  /** The ledger's balance is the counter's own history, whatever else the run did. */
  lemma {:induction false} BalanceIsHistory(reqs: seq<Request>, c: Counter)
    ensures Balance(LedgerRun(reqs).0, c) == CounterFrom(0, EffectsOn(reqs, c))
  {
    hide PlanOf;
    if reqs != [] {
      var init, last := reqs[..|reqs| - 1], reqs[|reqs| - 1];
      BalanceIsHistory(init, c);
      var p := PlanOf(last);
      if p.Touch? && p.counter == c {
        CounterConcat(0, EffectsOn(init, c), [p.effect]);
        assert [p.effect][..0] == [];
      } else {
        assert EffectsOn(reqs, c) == EffectsOn(init, c);
      }
    }
  }

  /** In every timely run, what the store shows of a counter still within reach is the signed total of its own
      charges and refunds less the least of that total's prefixes. */
  lemma StoreClosedForm(reqs: seq<Request>, delay: nat, c: Counter)
    requires Timely(reqs, delay) && delay <= SAFE_DELAY && reqs != [] && Nameable(c)
    requires Ms(reqs[|reqs| - 1].at) <= ResetOf(c) + SAFE_LINGER
    ensures Consumed(StoreRun(reqs).0, CounterName(c), Ms(reqs[|reqs| - 1].at))
            == Total(EffectsOn(reqs, c)) - LeastPrefixTotal(EffectsOn(reqs, c))
  {
    hide StoreRun, LedgerRun, EffectsOn, Nameable, CounterName, ResetOf, Ms;
    StoreReadsTheLedger(reqs, delay, c);
    BalanceIsHistory(reqs, c);
    ClosedForm(EffectsOn(reqs, c));
  }

  /** The request is about this limit, read the clock in this window, and got through to Redis. */
  predicate Hits(req: Request, c: Counter) {
    && KeyPresent(req.key) && req.key.value == c.key && req.link != NotReached
    && req.resolved.Configured? && req.resolved.cap.timeUnit == c.unit && c.unit != Unspecified
    && WindowStart(Ms(req.clock), c.unit) == c.start
  }

  /** What the charges of a run cost one counter; a cost of 0 means 1, and a negative one is refused. */
  function ChargedTo(reqs: seq<Request>, c: Counter): nat {
    if reqs == [] then 0
    else
      var req := reqs[|reqs| - 1];
      ChargedTo(reqs[..|reqs| - 1], c) +
      (if req.op.Charge? && Hits(req, c) then Max(if req.op.cost == 0 then 1 else req.op.cost, 0) else 0)
  }

  predicate NoRefundTo(reqs: seq<Request>, c: Counter) {
    forall i :: 0 <= i < |reqs| && reqs[i].op.Refund? && Hits(reqs[i], c) ==> reqs[i].op.amount <= 0
  }

  lemma HitsAreTouches(req: Request, c: Counter)
    ensures PlanOf(req).Touch? && PlanOf(req).counter == c <==> Hits(req, c) && EffectOf(req.op).Ok?
    ensures PlanOf(req).Touch? ==>
              && EffectOf(req.op) == Ok(PlanOf(req).effect)
              && req.resolved.Configured? && PlanOf(req).limit == req.resolved.cap.limitValue
              && PlanOf(req).lost == req.link.ReplyLost?
              && PlanOf(req).resetAt == WindowReset(Ms(req.clock), req.resolved.cap.timeUnit)
  {
    hide CivilOf, ResetAt, WindowId, WindowStart, Ms;
  }

  lemma LastEffect(reqs: seq<Request>, c: Counter)
    requires reqs != []
    ensures
      var last := reqs[|reqs| - 1];
      EffectsOn(reqs, c) == EffectsOn(reqs[..|reqs| - 1], c)
                            + (if Hits(last, c) && EffectOf(last.op).Ok? then [EffectOf(last.op).value] else [])
  {
    hide PlanOf, Hits;
    HitsAreTouches(reqs[|reqs| - 1], c);
  }

  lemma AppendToTotal(effects: seq<Effect>, e: Effect)
    ensures TotalCharged(effects + [e]) == TotalCharged(effects) + (if e.Add? then e.amount else 0)
  {
    assert (effects + [e])[..|effects|] == effects;
  }

  lemma {:induction false} ChargesOfRun(reqs: seq<Request>, c: Counter)
    ensures TotalCharged(EffectsOn(reqs, c)) == ChargedTo(reqs, c)
    ensures NoRefundTo(reqs, c) ==> NoRefund(EffectsOn(reqs, c))
  {
    hide EffectsOn, Hits, TotalCharged;
    if reqs == [] {
      assert EffectsOn(reqs, c) == [] && TotalCharged([]) == 0 by { NoEffects(c); }
    } else {
      var init, last := reqs[..|reqs| - 1], reqs[|reqs| - 1];
      ChargesOfRun(init, c);
      LastEffect(reqs, c);
      if Hits(last, c) && EffectOf(last.op).Ok? {
        AppendToTotal(EffectsOn(init, c), EffectOf(last.op).value);
      } else {
        assert EffectsOn(reqs, c) == EffectsOn(init, c);
      }
    }
  }

  lemma NoEffects(c: Counter)
    ensures EffectsOn([], c) == [] && TotalCharged([]) == 0
  {}

  /** A run without refunds to a counter adds exactly its charges to it. */
  lemma BalanceAfter(prior: seq<Request>, reqs: seq<Request>, c: Counter)
    requires NoRefundTo(reqs, c)
    ensures Balance(LedgerRun(prior + reqs).0, c) == Balance(LedgerRun(prior).0, c) + ChargedTo(reqs, c)
  {
    hide LedgerRun, EffectsOn, Hits;
    BalanceIsHistory(prior, c);
    BalanceIsHistory(prior + reqs, c);
    EffectsConcat(prior, reqs, c);
    CounterConcat(0, EffectsOn(prior, c), EffectsOn(reqs, c));
    ChargesOfRun(reqs, c);
    ChargesAddUp(CounterFrom(0, EffectsOn(prior, c)), EffectsOn(reqs, c));
  }

  /** The answer to the last request. */
  function LastAnswer(answers: seq<Result<Response>>): Option<Response> {
    if answers != [] && answers[|answers| - 1].Ok? then Some(answers[|answers| - 1].value) else None
  }

  /** The last request of a run moves its counter, and answers from the balance it leaves when its reply arrives. */
  lemma AnswersShowTheBalance(prior: seq<Request>, req: Request, c: Counter)
    requires Hits(req, c) && EffectOf(req.op).Ok?
    ensures
      var ledger := LedgerRun(prior + [req]).0;
      && Balance(ledger, c) == Moved(Balance(LedgerRun(prior).0, c), EffectOf(req.op).value)
      && (req.link == Reached ==>
            LastAnswer(LedgerRun(prior + [req]).1)
            == Some(Respond(req.op, Balance(ledger, c), req.resolved.cap.limitValue, WindowReset(Ms(req.clock), c.unit))))
  {
    hide PlanOf, Hits, WindowReset, Ms;
    HitsAreTouches(req, c);
    assert req.resolved.cap.timeUnit == c.unit by { HitsTheUnit(req, c); }
    assert (prior + [req])[..|prior|] == prior;
    var plan := PlanOf(req);
    var ledger := LedgerRun(prior + [req]).0;
    assert !plan.lost ==>
        LastAnswer(LedgerRun(prior + [req]).1) == Some(Respond(req.op, Balance(ledger, c), plan.limit, plan.resetAt));
  }

  lemma HitsTheUnit(req: Request, c: Counter)
    requires Hits(req, c)
    ensures req.resolved.Configured? && req.resolved.cap.timeUnit == c.unit
  {
    hide WindowStart, Ms;
  }

  /** What every answer says, from the counter as it stood before, the cap and the window: a check is allowed
      exactly when its cost, 1 if none was given, still fits; a charge and a refund answer what remains after
      them; and all carry the limit and the window's reset. */
  lemma AnswersInFull(prior: seq<Request>, req: Request, c: Counter, delay: nat)
    requires delay <= SAFE_DELAY && Timely(prior + [req], delay)
    requires Hits(req, c) && req.link == Reached && !Negative(req.op)
    ensures
      var before, limit := Balance(LedgerRun(prior).0, c), req.resolved.cap.limitValue;
      var resetAt := Some(WindowReset(Ms(req.clock), c.unit));
      LastAnswer(StoreRun(prior + [req]).1)
      == Some(
           match req.op
           case Check(cost) => CheckResponse(before + Max(cost, 1) <= limit, limit - before, limit, resetAt)
           case Charge(cost) => ChargeResponse(limit - (before + Max(cost, 1)), limit, resetAt)
           case Refund(amount) => RefundResponse(limit - Max(before - amount, 0), limit, resetAt)
           case Usage => UsageResponse(before, limit - before, limit, resetAt, true))
  {
    hide PlanOf, LedgerRun, StoreRun, Hits, WindowReset, Ms;
    Refinement(prior + [req], delay);
    AnswersShowTheBalance(prior, req, c);
  }

  predicate Negative(op: Op) {
    match op
    case Check(cost) => cost < 0
    case Charge(cost) => cost < 0
    case Refund(amount) => amount < 0
    case Usage => false
  }

  /** What is answered without a counter, in the order the handlers find it: a missing or empty key part or a
      negative quantity is invalid; without a cap everything is allowed, with zeros for what there is none of; a cap
      without a unit is as no cap, except to a usage read; and a store that cannot be reached, or whose reply is
      lost, is unavailable. All but a lost reply leave the store alone. */
  lemma AnswersWithoutACounter(ks: Keyspace, req: Request)
    ensures
      var (ks', answer) := ServeStore(ks, req);
      var empty := req.key.None? || req.key.value.service == "" || req.key.value.customer == "" || req.key.value.rateLimitId == "";
      var nothing :=
        match req.op
        case Check(_) => CheckResponse(true, 0, 0, None)
        case Charge(_) => ChargeResponse(0, 0, None)
        case Refund(_) => RefundResponse(0, 0, None)
        case Usage => UsageResponse(0, 0, 0, None, false);
      if empty || Negative(req.op) then ks' == ks && answer == Err(InvalidArgument)
      else if req.resolved.Unconfigured? then ks' == ks && answer == Ok(nothing)
      else if req.resolved.cap.timeUnit == Unspecified then ks' == ks && answer == (if req.op.Usage? then Err(Internal) else Ok(nothing))
      else if req.link.NotReached? then ks' == ks && answer == Err(Unavailable)
      else answer == Err(Unavailable) <==> req.link.ReplyLost?
  {
    hide CivilOf, ResetAt, WindowId, WindowStart, Ms;
  }

  lemma TimelyPrefix(reqs: seq<Request>, n: nat, delay: nat)
    requires Timely(reqs, delay) && n <= |reqs|
    ensures Timely(reqs[..n], delay)
  {
    hide WellNamed, FourDigitYear, Ms;
  }

  /** Once a charge has answered that nothing remains, every later check in the same window is denied, as long
      as no refund comes between and no larger cap is served. */
  lemma SpentStaysDenied(prior: seq<Request>, charge: Request, later: seq<Request>, check: Request, c: Counter, delay: nat)
    requires delay <= SAFE_DELAY && Timely(prior + [charge] + later + [check], delay)
    requires charge.op.Charge? && charge.op.cost >= 0 && check.op.Check? && check.op.cost >= 0
    requires Hits(charge, c) && Hits(check, c) && charge.link == check.link == Reached && NoRefundTo(later, c)
    requires check.resolved.cap.limitValue <= charge.resolved.cap.limitValue
    ensures
      var spent := LastAnswer(StoreRun(prior + [charge]).1);
      var answer := LastAnswer(StoreRun(prior + [charge] + later + [check]).1);
      && spent.Some? && spent.value.ChargeResponse?
      && answer.Some? && answer.value.CheckResponse?
      && (spent.value.remaining <= 0 ==> !answer.value.allowed && answer.value.remaining <= 0)
  {
    hide PlanOf, LedgerRun, StoreRun, Hits;
    var spent := prior + [charge];
    var run := spent + later + [check];
    TimelyPrefix(run, |spent|, delay);
    assert run[..|spent|] == spent;
    Refinement(spent, delay);
    Refinement(run, delay);
    AnswersShowTheBalance(prior, charge, c);
    BalanceAfter(spent, later, c);
    AnswersShowTheBalance(spent + later, check, c);
  }

  // ---------- window reset ----------

  /** The refund a window reset makes after it read the usage: what was consumed, when there was any. */
  function ResetRefund(consumed: int, refund: Request): seq<Request> {
    if consumed > 0 then [refund.(op := Refund(consumed))] else []
  }

  /** A reset whose usage read and refund fall in one window leaves exactly what was charged in between,
      whatever ran before it and whatever ran elsewhere. */
  lemma ResetLosesNoCharge(before: seq<Request>, usage: Request, between: seq<Request>, refund: Request, c: Counter)
    requires usage.op == Usage && Hits(usage, c) && Hits(refund, c) && NoRefundTo(between, c)
    ensures
      var consumed := Balance(LedgerRun(before + [usage]).0, c);
      Balance(LedgerRun(before + [usage] + between + ResetRefund(consumed, refund)).0, c) == ChargedTo(between, c)
  {
    hide PlanOf, LedgerRun, Hits, ChargedTo;
    var read := before + [usage];
    var consumed := Balance(LedgerRun(read).0, c);
    BalanceAfter(read, between, c);
    if consumed > 0 {
      var req := refund.(op := Refund(consumed));
      assert Hits(req, c) by { SameHits(refund, req, c); }
      AnswersShowTheBalance(read + between, req, c);
    } else {
      assert read + between + [] == read + between;
    }
  }

  lemma SameHits(a: Request, b: Request, c: Counter)
    requires b == a.(op := b.op)
    ensures Hits(a, c) <==> Hits(b, c)
  {
    hide WindowStart, Ms;
  }

  /** The consumption a usage answer reports. */
  function Reported(answer: Option<Response>): int {
    if answer.Some? && answer.value.UsageResponse? then answer.value.consumed else 0
  }

  /** The reset as a caller sees it, on the store with its expiring keys: read the usage, refund what the answer
      said, read again. With all three in one window, the second answer is exactly the sum of the charges that
      ran between the two reads. */
  lemma ResetShowsOnlyLaterCharges(
      before: seq<Request>, usage: Request, between: seq<Request>, refund: Request, later: seq<Request>, reread: Request,
      c: Counter, refunded: seq<Request>, delay: nat)
    requires delay <= SAFE_DELAY && Timely(before + [usage] + between + refunded + later + [reread], delay)
    requires usage.op == reread.op == Usage && usage.link == reread.link == Reached
    requires Hits(usage, c) && Hits(refund, c) && Hits(reread, c)
    requires NoRefundTo(between, c) && NoRefundTo(later, c)
    requires refunded == ResetRefund(Reported(LastAnswer(StoreRun(before + [usage]).1)), refund)
    ensures
      var answer := LastAnswer(StoreRun(before + [usage] + between + refunded + later + [reread]).1);
      && answer.Some? && answer.value.UsageResponse?
      && answer.value.consumed == ChargedTo(between, c) + ChargedTo(later, c)
  {
    hide PlanOf, LedgerRun, StoreRun, Hits, ChargedTo;
    var read := before + [usage];
    var reset := read + between + refunded;
    var run := reset + later + [reread];
    TimelyPrefix(run, |read|, delay);
    assert run[..|read|] == read;
    Refinement(read, delay);
    Refinement(run, delay);
    AnswersShowTheBalance(before, usage, c);
    ResetLosesNoCharge(before, usage, between, refund, c);
    BalanceAfter(reset, later, c);
    AnswersShowTheBalance(reset + later, reread, c);
  }

  /** When the window rolls over before the refund runs, the refund lands on the new window's counter:
      that counter is credited down to 0 at most, and every other one, the previous included, is left alone. */
  lemma ResetAcrossRollover(prior: seq<Request>, refund: Request, previous: Counter, current: Counter)
    requires refund.op.Refund? && refund.op.amount >= 0 && Hits(refund, current) && previous != current
    ensures
      var after := LedgerRun(prior + [refund]).0;
      && Balance(after, current) == Max(Balance(LedgerRun(prior).0, current) - refund.op.amount, 0)
      && Balance(after, previous) == Balance(LedgerRun(prior).0, previous)
  {
    hide PlanOf, LedgerRun, Hits;
    AnswersShowTheBalance(prior, refund, current);
    HitsOneCounter(refund, current, previous);
    BalanceAfter(prior, [refund], previous);
    assert [refund][..0] == [] && ChargedTo([], previous) == 0;
  }

  lemma HitsOneCounter(req: Request, c: Counter, c': Counter)
    ensures Hits(req, c) && Hits(req, c') ==> c == c'
  {
    hide WindowStart;
  }
}
