/** Two-person review of high-impact operations: the review store, the action log, and the
    machine of submissions, decisions and executions that may fail after the decision.

    Handlers run to their next `await` without interruption; a backend call completes, or fails,
    at a later step, and a failed call may still have taken effect. */
module Reviews {
  import opened Prelude
  import opened Windows
  import opened CounterKey

  datatype PendingOp =
    | LimitUpdate(key: LimitKey, limitValue: int, timeUnit: TimeUnit)
    | LimitDelete(key: LimitKey)
    | OpRefund(key: LimitKey, amount: int)
    | OpReset(key: LimitKey)

  /** What is reviewed, and the access rules: who may ask for an operation, and who may decide reviews. */
  datatype Policy = Policy(
    reviewDefaultChanges: bool,
    reviewWindowResets: bool,
    refundReviewThreshold: int,
    mayRequest: (string, PendingOp) -> bool,
    mayDecide: string -> bool)

  datatype Reason = ChangesDefault | ResetsWindow | LargeRefund

  function ReviewReason(op: PendingOp, policy: Policy): Option<Reason> {
    match op
    case LimitUpdate(key, _, _) => if policy.reviewDefaultChanges && key.customer == DEFAULT_CUSTOMER then Some(ChangesDefault) else None
    case LimitDelete(key) => if policy.reviewDefaultChanges && key.customer == DEFAULT_CUSTOMER then Some(ChangesDefault) else None
    case OpReset(_) => if policy.reviewWindowResets then Some(ResetsWindow) else None
    case OpRefund(_, amount) => if amount > policy.refundReviewThreshold then Some(LargeRefund) else None
  }

  /** What the policy promises to have reviewed, in its own settings: changes to a default, window resets, and
      refunds above the threshold. */
  predicate Reviewable(op: PendingOp, policy: Policy) {
    || (policy.reviewDefaultChanges && (op.LimitUpdate? || op.LimitDelete?) && op.key.customer == "*")
    || (policy.reviewWindowResets && op.OpReset?)
    || (op.OpRefund? && op.amount > policy.refundReviewThreshold)
  }

  /** There is a reason exactly for what the policy promises, and it is the one that applies. */
  lemma ReasonsFollowThePolicy(op: PendingOp, policy: Policy)
    ensures ReviewReason(op, policy).Some? <==> Reviewable(op, policy)
    ensures ReviewReason(op, policy).Some? ==>
              && (ReviewReason(op, policy).value == ResetsWindow <==> op.OpReset?)
              && (ReviewReason(op, policy).value == LargeRefund <==> op.OpRefund?)
  {}

  const REFUND_CAP: int := 1_000_000_000

  /** What the routes demand of a request before anything else. */
  predicate WellAsked(op: PendingOp) {
    && op.key.service != "" && op.key.customer != "" && op.key.rateLimitId != ""
    && (op.LimitUpdate? ==> op.limitValue >= 0 && op.timeUnit != Unspecified)
    && (op.OpRefund? ==> 0 < op.amount <= REFUND_CAP)
  }

  // ---------- the review store ----------

  datatype Status = Pending | Approved | Rejected

  datatype Review = Review(
    id: string, op: PendingOp, reason: Reason, initiator: string, status: Status, decidedBy: Option<string>)

  /** Review objects in order of creation, and the object each id names. Ids are random, so a later
      review may take over the id of an earlier one; the earlier object is then out of reach. */
  datatype Store = Store(objects: seq<Review>, byId: map<string, nat>)

  predicate ValidStore(s: Store) {
    forall id :: id in s.byId ==> s.byId[id] < |s.objects| && s.objects[s.byId[id]].id == id
  }

  function Created(s: Store, id: string, op: PendingOp, initiator: string, reason: Reason): Store {
    Store(s.objects + [Review(id, op, reason, initiator, Pending, None)], s.byId[id := |s.objects|])
  }

  datatype Decision = Decided(index: nat) | Refused(httpStatus: int)

  /** 404 for an unknown id, 409 once decided, 403 for the initiator; only then is the decision recorded. */
  function DecisionOn(s: Store, id: string, approver: string): Decision
    requires ValidStore(s)
  {
    if id !in s.byId then Refused(404)
    else
      var r := s.objects[s.byId[id]];
      if r.status != Pending then Refused(409)
      else if r.initiator == approver then Refused(403)
      else Decided(s.byId[id])
  }

  function AfterDecision(s: Store, id: string, approver: string, status: Status): Store
    requires ValidStore(s)
  {
    match DecisionOn(s, id, approver)
    case Refused(_) => s
    case Decided(i) => s.(objects := s.objects[i := s.objects[i].(status := status, decidedBy := Some(approver))])
  }

  class ReviewStore {
    var objects: seq<Review>
    var byId: map<string, nat>

    ghost function Value(): Store
      reads this
    {
      Store(objects, byId)
    }

    constructor ()
      ensures Value() == Store([], map[]) && ValidStore(Value())
    {
      objects, byId := [], map[];
    }

    method Create(id: string, op: PendingOp, initiator: string, reason: Reason) returns (review: Review)
      requires ValidStore(Value())
      modifies this
      ensures ValidStore(Value()) && Value() == Created(old(Value()), id, op, initiator, reason)
      ensures review.status == Pending && review == objects[|old(objects)|]
    {
      review := Review(id, op, reason, initiator, Pending, None);
      byId := byId[id := |objects|];
      objects := objects + [review];
    }

    method Decide(id: string, approver: string, status: Status) returns (decision: Decision)
      requires ValidStore(Value()) && status != Pending
      modifies this
      ensures ValidStore(Value())
      ensures decision == DecisionOn(old(Value()), id, approver)
      ensures Value() == AfterDecision(old(Value()), id, approver, status)
      ensures decision == Refused(404) <==> id !in old(byId)
      ensures id in old(byId) ==>
                var r := old(objects)[old(byId)[id]];
                && (decision == Refused(409) <==> r.status != Pending)
                && (decision == Refused(403) <==> r.status == Pending && r.initiator == approver)
                && (decision.Decided? ==>
                      objects == old(objects)[old(byId)[id] := r.(status := status, decidedBy := Some(approver))])
      ensures decision.Refused? ==> Value() == old(Value())
    {
      if id !in byId { return Refused(404); }
      var i := byId[id];
      var r := objects[i];
      if r.status != Pending { return Refused(409); }
      if r.initiator == approver { return Refused(403); }
      objects := objects[i := r.(status := status, decidedBy := Some(approver))];
      return Decided(i);
    }
  }

  // ---------- the action log ----------

  datatype LogEntry = LogEntry(
    number: nat, actor: string, op: PendingOp, refunded: int, initiator: Option<string>, approver: Option<string>)

  class ActionLog {
    var entries: seq<LogEntry>
    var last: nat

    constructor ()
      ensures entries == [] && last == 0
    {
      entries, last := [], 0;
    }

    method Append(actor: string, op: PendingOp, refunded: int, initiator: Option<string>, approver: Option<string>)
      returns (entry: LogEntry)
      modifies this
      ensures last == old(last) + 1 && entry == LogEntry(last, actor, op, refunded, initiator, approver)
      ensures entries == old(entries) + [entry]
    {
      last := last + 1;
      entry := LogEntry(last, actor, op, refunded, initiator, approver);
      entries := entries + [entry];
    }
  }

  // ---------- the machine ----------

  /** One execution of an operation: who applies it, and the review it came from, if any. */
  datatype Execution = Execution(
    op: PendingOp, actor: string, initiator: Option<string>, approver: Option<string>, review: Option<nat>)

  datatype Phase =
    | Reading               // a reset waiting for the usage read
    | Calling(amount: int)  // waiting for the mutating call
    | Completed             // logged
    | Dropped               // the backend failed it

  datatype State = State(
    store: Store,
    log: seq<LogEntry>,
    executions: seq<Execution>,
    phases: seq<Phase>,
    logOf: seq<nat>,     // the execution each log entry is about
    applied: seq<nat>)   // executions whose mutation took effect at the backend

  datatype Step =
    | Submit(user: string, op: PendingOp, id: string)
    | Approve(user: string, id: string)
    | Reject(user: string, id: string)
    | UsageRead(e: nat, ok: bool, consumed: int)
    | CallDone(e: nat, took: bool, ok: bool)

  function FirstPhase(op: PendingOp): Phase {
    match op
    case OpReset(_) => Reading
    case OpRefund(_, amount) => Calling(amount)
    case _ => Calling(0)
  }

  function Started(s: State, e: Execution): State {
    s.(executions := s.executions + [e], phases := s.phases + [FirstPhase(e.op)])
  }

  function Logged(s: State, e: nat, refunded: int): State
    requires e < |s.executions| == |s.phases|
  {
    var x := s.executions[e];
    s.(log := s.log + [LogEntry(|s.log| + 1, x.actor, x.op, refunded, x.initiator, x.approver)],
       logOf := s.logOf + [e],
       phases := s.phases[e := Completed])
  }

  predicate Enabled(s: State, step: Step) {
    match step
    case UsageRead(e, _, _) => e < |s.phases| && s.phases[e].Reading?
    case CallDone(e, took, ok) => e < |s.phases| && s.phases[e].Calling? && (ok ==> took)
    case _ => true
  }

  predicate WellFormed(s: State) {
    ValidStore(s.store) && |s.executions| == |s.phases|
  }

  /** A malformed request, and a user without the right, change nothing. Submissions go straight to execution unless the policy names
      a reason; an approval decides first and executes after; a reset refunds what it read, and logs without a call when there was nothing to refund. */
  function Do(policy: Policy, s: State, step: Step): State
    requires WellFormed(s) && Enabled(s, step)
  {
    match step
    case Submit(user, op, id) =>
      var reason := ReviewReason(op, policy);
      if !WellAsked(op) || !policy.mayRequest(user, op) then s
      else if reason.Some? then s.(store := Created(s.store, id, op, user, reason.value))
      else Started(s, Execution(op, user, None, None, None))
    case Approve(user, id) =>
      if !policy.mayDecide(user) then s
      else (
        match DecisionOn(s.store, id, user)
        case Refused(_) => s
        case Decided(i) =>
          var r := s.store.objects[i];
          Started(s.(store := AfterDecision(s.store, id, user, Approved)),
                  Execution(r.op, user, Some(r.initiator), Some(user), Some(i))))
    case Reject(user, id) => if !policy.mayDecide(user) then s else s.(store := AfterDecision(s.store, id, user, Rejected))
    case UsageRead(e, ok, consumed) =>
      if !ok then s.(phases := s.phases[e := Dropped])
      else if consumed > 0 then s.(phases := s.phases[e := Calling(consumed)])
      else Logged(s, e, 0)
    case CallDone(e, took, ok) =>
      var s' := if took then s.(applied := s.applied + [e]) else s;
      if ok then Logged(s', e, s.phases[e].amount) else s'.(phases := s'.phases[e := Dropped])
  }

  predicate Initial(s: State) {
    s == State(Store([], map[]), [], [], [], [], [])
  }

  ghost predicate IsRun(policy: Policy, trace: seq<State>, steps: seq<Step>) {
    && |trace| == |steps| + 1
    && Initial(trace[0])
    && forall k :: 0 <= k < |steps| ==>
         WellFormed(trace[k]) && Enabled(trace[k], steps[k]) && trace[k + 1] == Do(policy, trace[k], steps[k])
  }

  lemma StepKeepsWellFormed(policy: Policy, s: State, step: Step)
    requires WellFormed(s) && Enabled(s, step)
    ensures WellFormed(Do(policy, s, step))
  {}

  /** A run stops nowhere: whatever step is enabled at its end, a malformed state never stands in the way. */
  lemma RunGoesOn(policy: Policy, trace: seq<State>, steps: seq<Step>, step: Step)
    requires IsRun(policy, trace, steps) && Enabled(trace[|steps|], step)
    ensures WellFormed(trace[|steps|])
    ensures IsRun(policy, trace + [Do(policy, trace[|steps|], step)], steps + [step])
  {
    hide Do, Enabled, WellFormed;
    var n := |steps|;
    if n == 0 {
      assert WellFormed(trace[0]) by { InitialIsWellFormed(trace[0]); }
    } else {
      assert trace[n - 1 + 1] == Do(policy, trace[n - 1], steps[n - 1]);
      StepKeepsWellFormed(policy, trace[n - 1], steps[n - 1]);
    }
    var trace', steps' := trace + [Do(policy, trace[n], step)], steps + [step];
    forall k | 0 <= k < |steps'|
      ensures WellFormed(trace'[k]) && Enabled(trace'[k], steps'[k]) && trace'[k + 1] == Do(policy, trace'[k], steps'[k])
    {
      if k < n { assert trace'[k] == trace[k] && trace'[k + 1] == trace[k + 1] && steps'[k] == steps[k]; }
    }
  }

  lemma InitialIsWellFormed(s: State)
    requires Initial(s)
    ensures WellFormed(s)
  {}

  // ---------- what always holds ----------

  /** An execution is either a direct one that needs no review, or that of a review which someone other
      than its initiator approved, applied by the approver. */
  predicate Justified(policy: Policy, s: State, x: Execution) {
    match x.review
    case None =>
      && ReviewReason(x.op, policy) == None && WellAsked(x.op) && policy.mayRequest(x.actor, x.op)
      && x.initiator == None && x.approver == None
    case Some(i) =>
      && i < |s.store.objects|
      && var r := s.store.objects[i];
         && r.status == Approved && r.op == x.op
         && r.decidedBy == Some(x.actor) == x.approver && x.initiator == Some(r.initiator)
         && r.initiator != x.actor
  }

  /** A review is of a well-formed operation that needs one and that its initiator may ask for; once decided it names
      who decided it, someone with the right to and other than its initiator. */
  predicate GoodReview(policy: Policy, r: Review) {
    && ReviewReason(r.op, policy) == Some(r.reason) && WellAsked(r.op) && policy.mayRequest(r.initiator, r.op)
    && (r.status == Pending <==> r.decidedBy == None)
    && (r.decidedBy.Some? ==> policy.mayDecide(r.decidedBy.value) && r.decidedBy.value != r.initiator)
  }

  ghost predicate Distinct(s: seq<nat>) {
    forall i, j :: 0 <= i < j < |s| ==> s[i] != s[j]
  }

  ghost predicate GoodStore(policy: Policy, s: State) {
    ValidStore(s.store) && forall i :: 0 <= i < |s.store.objects| ==> GoodReview(policy, s.store.objects[i])
  }

  ghost predicate GoodExecutions(policy: Policy, s: State) {
    && |s.executions| == |s.phases|
    && (forall e :: 0 <= e < |s.executions| ==> Justified(policy, s, s.executions[e]))
    && (forall a, b :: 0 <= a < b < |s.executions| && s.executions[a].review.Some? ==>
          s.executions[a].review != s.executions[b].review)
  }

  /** The log: numbered from 1, one entry for each completed execution and none for any other, with its identities. */
  ghost predicate GoodLog(s: State) {
    && |s.log| == |s.logOf| && Distinct(s.logOf) && |s.executions| == |s.phases|
    && (forall j :: 0 <= j < |s.log| ==>
          && s.logOf[j] < |s.executions|
          && s.phases[s.logOf[j]] == Completed
          && s.log[j].number == j + 1
          && s.log[j].actor == s.executions[s.logOf[j]].actor && s.log[j].op == s.executions[s.logOf[j]].op
          && s.log[j].initiator == s.executions[s.logOf[j]].initiator
          && s.log[j].approver == s.executions[s.logOf[j]].approver)
    && (forall e :: 0 <= e < |s.phases| && s.phases[e] == Completed ==> e in s.logOf)
  }

  /** Each execution changes the backend at most once, and not while it still waits to. */
  ghost predicate GoodEffects(s: State) {
    && Distinct(s.applied)
    && forall j :: 0 <= j < |s.applied| ==>
         s.applied[j] < |s.phases| && (s.phases[s.applied[j]] == Completed || s.phases[s.applied[j]] == Dropped)
  }

  ghost predicate Inv(policy: Policy, s: State) {
    GoodStore(policy, s) && GoodExecutions(policy, s) && GoodLog(s) && GoodEffects(s)
  }

  lemma DecisionKeepsStore(policy: Policy, s: State, id: string, user: string, status: Status)
    requires GoodStore(policy, s) && status != Pending && policy.mayDecide(user)
    ensures GoodStore(policy, s.(store := AfterDecision(s.store, id, user, status)))
  {}

  /** A decision only ever touches a pending review, so what was justified stays so. */
  lemma DecisionKeepsJustified(policy: Policy, s: State, id: string, user: string, status: Status, x: Execution)
    requires ValidStore(s.store) && Justified(policy, s, x)
    ensures Justified(policy, s.(store := AfterDecision(s.store, id, user, status)), x)
  {}

  lemma ApproveKeepsInv(policy: Policy, s: State, user: string, id: string)
    requires Inv(policy, s)
    ensures Inv(policy, Do(policy, s, Approve(user, id)))
  {
    var s' := Do(policy, s, Approve(user, id));
    if !policy.mayDecide(user) { return; }
    match DecisionOn(s.store, id, user)
    case Refused(_) =>
    case Decided(i) =>
      DecisionKeepsStore(policy, s, id, user, Approved);
      forall e | 0 <= e < |s'.executions| ensures Justified(policy, s', s'.executions[e]) {
        if e < |s.executions| {
          DecisionKeepsJustified(policy, s, id, user, Approved, s.executions[e]);
        }
      }
      forall a | 0 <= a < |s.executions| ensures s.executions[a].review != Some(i) {
        assert Justified(policy, s, s.executions[a]);
      }
      StartKeepsLog(s, s'.executions[|s.executions|]);
      assert GoodLog(s') && GoodEffects(s');
  }

  lemma StartKeepsLog(s: State, x: Execution)
    requires GoodLog(s) && GoodEffects(s)
    ensures GoodLog(Started(s, x)) && GoodEffects(Started(s, x))
  {}

  lemma SubmitKeepsInv(policy: Policy, s: State, user: string, op: PendingOp, id: string)
    requires Inv(policy, s)
    ensures Inv(policy, Do(policy, s, Submit(user, op, id)))
  {
    var s' := Do(policy, s, Submit(user, op, id));
    forall e | 0 <= e < |s.executions| ensures Justified(policy, s', s.executions[e]) {
      assert Justified(policy, s, s.executions[e]);
    }
    if WellAsked(op) && policy.mayRequest(user, op) && ReviewReason(op, policy) == None { StartKeepsLog(s, s'.executions[|s.executions|]); }
  }

  lemma RejectKeepsInv(policy: Policy, s: State, user: string, id: string)
    requires Inv(policy, s)
    ensures Inv(policy, Do(policy, s, Reject(user, id)))
  {
    if !policy.mayDecide(user) { return; }
    DecisionKeepsStore(policy, s, id, user, Rejected);
    var s' := Do(policy, s, Reject(user, id));
    forall e | 0 <= e < |s.executions| ensures Justified(policy, s', s.executions[e]) {
      DecisionKeepsJustified(policy, s, id, user, Rejected, s.executions[e]);
    }
  }

  lemma LoggingKeepsLog(s: State, e: nat, refunded: int)
    requires GoodLog(s) && GoodEffects(s) && e < |s.phases| && s.phases[e] != Completed
    ensures GoodLog(Logged(s, e, refunded)) && GoodEffects(Logged(s, e, refunded))
  {
    assert e !in s.logOf;
  }

  lemma PhaseKeepsLog(s: State, e: nat, phase: Phase)
    requires GoodLog(s) && GoodEffects(s) && e < |s.phases| && s.phases[e] != Completed && phase != Completed
    requires phase == Dropped || e !in s.applied
    ensures GoodLog(s.(phases := s.phases[e := phase])) && GoodEffects(s.(phases := s.phases[e := phase]))
  {}

  lemma UsageReadKeepsInv(policy: Policy, s: State, e: nat, ok: bool, consumed: int)
    requires Inv(policy, s) && Enabled(s, UsageRead(e, ok, consumed))
    ensures Inv(policy, Do(policy, s, UsageRead(e, ok, consumed)))
  {
    var s' := Do(policy, s, UsageRead(e, ok, consumed));
    if ok && consumed <= 0 { LoggingKeepsLog(s, e, 0); }
    else { PhaseKeepsLog(s, e, s'.phases[e]); }
    SameExecutions(policy, s, s');
  }

  lemma CallDoneKeepsInv(policy: Policy, s: State, e: nat, took: bool, ok: bool)
    requires Inv(policy, s) && Enabled(s, CallDone(e, took, ok))
    ensures Inv(policy, Do(policy, s, CallDone(e, took, ok)))
  {
    var s' := Do(policy, s, CallDone(e, took, ok));
    assert e !in s.applied;
    if ok { LoggingKeepsLog(s, e, s.phases[e].amount); } else { PhaseKeepsLog(s, e, Dropped); }
    SameExecutions(policy, s, s');
  }

  lemma SameExecutions(policy: Policy, s: State, s': State)
    requires GoodExecutions(policy, s) && s'.store == s.store && s'.executions == s.executions && |s'.phases| == |s.phases|
    ensures GoodExecutions(policy, s')
  {
    forall e | 0 <= e < |s.executions| ensures Justified(policy, s', s.executions[e]) {
      assert Justified(policy, s, s.executions[e]);
    }
  }

  lemma StepKeepsInv(policy: Policy, s: State, step: Step)
    requires Inv(policy, s) && Enabled(s, step)
    ensures Inv(policy, Do(policy, s, step))
  {
    hide Inv, Do;
    match step
    case Submit(user, op, id) => SubmitKeepsInv(policy, s, user, op, id);
    case Approve(user, id) => ApproveKeepsInv(policy, s, user, id);
    case Reject(user, id) => RejectKeepsInv(policy, s, user, id);
    case UsageRead(e, ok, consumed) => UsageReadKeepsInv(policy, s, e, ok, consumed);
    case CallDone(e, took, ok) => CallDoneKeepsInv(policy, s, e, took, ok);
  }

  lemma {:induction false} RunKeepsInv(policy: Policy, trace: seq<State>, steps: seq<Step>, k: nat)
    requires IsRun(policy, trace, steps) && k < |trace|
    ensures Inv(policy, trace[k])
  {
    hide Do, Enabled;
    if k > 0 {
      RunKeepsInv(policy, trace, steps, k - 1);
      assert Enabled(trace[k - 1], steps[k - 1]) && trace[k - 1 + 1] == Do(policy, trace[k - 1], steps[k - 1]);
      StepKeepsInv(policy, trace[k - 1], steps[k - 1]);
    }
  }

  // ---------- the promises ----------

  /** In every reachable state, whoever decides concurrently and whatever fails: an operation that the policy
      sends to review takes effect only through a review that its initiator had the right to ask for and that
      someone else, with the right to decide, approved; any other was asked for with the right to. Every
      operation that takes effect was well-formed when asked for. Each
      review is executed at most once and a rejected or undecided one never, and an execution changes the
      backend at most once. */
  lemma ReviewSafety(policy: Policy, trace: seq<State>, steps: seq<Step>, k: nat, e: nat)
    requires IsRun(policy, trace, steps) && k < |trace| && e < |trace[k].executions|
    ensures
      var s := trace[k];
      var x := s.executions[e];
      && (x.review.Some? <==> Reviewable(x.op, policy))
      && WellAsked(x.op)
      && (x.review.None? ==> policy.mayRequest(x.actor, x.op))
      && (x.review.Some? ==>
            && x.review.value < |s.store.objects|
            && var r := s.store.objects[x.review.value];
               && r.status == Approved && r.op == x.op && policy.mayRequest(r.initiator, r.op)
               && r.decidedBy == Some(x.actor) && policy.mayDecide(x.actor) && x.actor != r.initiator)
      && (x.review.Some? ==> forall other :: 0 <= other < |s.executions| && s.executions[other].review == x.review ==> other == e)
      && (forall i, j :: 0 <= i < j < |s.applied| ==> s.applied[i] != s.applied[j])
      && (forall j :: 0 <= j < |s.applied| ==> s.applied[j] < |s.executions|)
  {
    RunKeepsInv(policy, trace, steps, k);
    assert Justified(policy, trace[k], trace[k].executions[e]);
    ReasonsFollowThePolicy(trace[k].executions[e].op, policy);
  }

  /** Every review there is, is of something the policy promises to have reviewed. */
  lemma OnlyReviewableIsReviewed(policy: Policy, trace: seq<State>, steps: seq<Step>, k: nat, i: nat)
    requires IsRun(policy, trace, steps) && k < |trace| && i < |trace[k].store.objects|
    ensures Reviewable(trace[k].store.objects[i].op, policy)
  {
    RunKeepsInv(policy, trace, steps, k);
    assert GoodReview(policy, trace[k].store.objects[i]);
    ReasonsFollowThePolicy(trace[k].store.objects[i].op, policy);
  }

  // ---------- where executions come from, and what they refund ----------

  /** Somebody submitted this operation as `user`, and got this review id if it was to be reviewed. */
  ghost predicate Asked(steps: seq<Step>, k: nat, user: string, op: PendingOp, id: string)
    requires k <= |steps|
  {
    exists m :: 0 <= m < k && steps[m] == Submit(user, op, id)
  }

  /** A direct execution was submitted by its actor; a reviewed one by its initiator, and its actor then approved
      the review of that very submission. */
  ghost predicate CameAbout(steps: seq<Step>, k: nat, x: Execution)
    requires k <= |steps|
  {
    match x.review
    case None => exists id :: Asked(steps, k, x.actor, x.op, id)
    case Some(_) =>
      x.initiator.Some?
      && exists n, id :: 0 <= n < k && steps[n] == Approve(x.actor, id) && Asked(steps, n, x.initiator.value, x.op, id)
  }

  lemma AskedLater(steps: seq<Step>, j: nat, k: nat, user: string, op: PendingOp, id: string)
    requires j <= k <= |steps| && Asked(steps, j, user, op, id)
    ensures Asked(steps, k, user, op, id)
  {}

  lemma {:induction false} ReviewsWereAsked(policy: Policy, trace: seq<State>, steps: seq<Step>, k: nat, i: nat)
    requires IsRun(policy, trace, steps) && k < |trace| && i < |trace[k].store.objects|
    ensures var r := trace[k].store.objects[i]; Asked(steps, k, r.initiator, r.op, r.id)
  {
    hide Enabled, Asked, ReviewReason, WellAsked;
    if k > 0 {
      assert trace[k - 1 + 1] == Do(policy, trace[k - 1], steps[k - 1]);
      var r := trace[k].store.objects[i];
      if i < |trace[k - 1].store.objects| {
        ReviewsWereAsked(policy, trace, steps, k - 1, i);
        AskedLater(steps, k - 1, k, r.initiator, r.op, r.id);
      } else {
        assert steps[k - 1] == Submit(r.initiator, r.op, r.id);
        assert Asked(steps, k, r.initiator, r.op, r.id) by { JustAsked(steps, k - 1); }
      }
    }
  }

  lemma JustAsked(steps: seq<Step>, m: nat)
    requires m < |steps| && steps[m].Submit?
    ensures Asked(steps, m + 1, steps[m].user, steps[m].op, steps[m].id)
  {}

  lemma CameAboutLater(steps: seq<Step>, k: nat, x: Execution)
    requires k < |steps| && CameAbout(steps, k, x)
    ensures CameAbout(steps, k + 1, x)
  {
    hide Asked;
    if x.review.None? {
      var id :| Asked(steps, k, x.actor, x.op, id);
      AskedLater(steps, k, k + 1, x.actor, x.op, id);
    }
  }

  /** In every run, every execution came about: nothing runs that nobody asked for, under nobody else's name, and
      no review stands for another operation than the one submitted. */
  lemma {:induction false} ExecutionsCameAbout(policy: Policy, trace: seq<State>, steps: seq<Step>, k: nat, e: nat)
    requires IsRun(policy, trace, steps) && k < |trace| && e < |trace[k].executions|
    ensures CameAbout(steps, k, trace[k].executions[e])
  {
    hide Enabled, CameAbout, ReviewReason, WellAsked;
    if k > 0 {
      assert trace[k - 1 + 1] == Do(policy, trace[k - 1], steps[k - 1]);
      var x := trace[k].executions[e];
      if e < |trace[k - 1].executions| {
        ExecutionsCameAbout(policy, trace, steps, k - 1, e);
        CameAboutLater(steps, k - 1, x);
      } else if steps[k - 1].Submit? {
        JustAsked(steps, k - 1);
        assert CameAbout(steps, k, x) by { DirectlyAsked(steps, k, x, steps[k - 1].id); }
      } else {
        var i := x.review.value;
        ReviewsWereAsked(policy, trace, steps, k - 1, i);
        assert CameAbout(steps, k, x) by { ApprovedAfterAsking(steps, k - 1, x, trace[k - 1].store.objects[i].id); }
      }
    }
  }

  lemma DirectlyAsked(steps: seq<Step>, k: nat, x: Execution, id: string)
    requires k <= |steps| && x.review.None? && Asked(steps, k, x.actor, x.op, id)
    ensures CameAbout(steps, k, x)
  {}

  lemma ApprovedAfterAsking(steps: seq<Step>, n: nat, x: Execution, id: string)
    requires n < |steps| && x.review.Some? && x.initiator.Some?
    requires steps[n] == Approve(x.actor, id) && Asked(steps, n, x.initiator.value, x.op, id)
    ensures CameAbout(steps, n + 1, x)
  {
    hide Asked;
  }

  /** A usage read of this execution returned this much. */
  ghost predicate WasRead(steps: seq<Step>, k: nat, e: nat, consumed: int)
    requires k <= |steps|
  {
    exists m :: 0 <= m < k && steps[m] == UsageRead(e, true, consumed)
  }

  /** What an execution waits for: a refund calls with its own amount, and a reset first reads and then calls with
      exactly what it read. */
  ghost predicate CallsRightly(steps: seq<Step>, k: nat, e: nat, x: Execution, phase: Phase)
    requires k <= |steps|
  {
    match phase
    case Reading => x.op.OpReset?
    case Calling(amount) =>
      && (x.op.OpRefund? ==> amount == x.op.amount)
      && (x.op.OpReset? ==> amount > 0 && WasRead(steps, k, e, amount))
    case _ => true
  }

  /** What one step does to an execution: a new one waits for its usage read or its call, a read leads to the call
      or, with nothing to refund, straight to the log, a call to the log, and a failure ends it. */
  lemma PhaseStep(policy: Policy, s: State, step: Step, e: nat)
    requires WellFormed(s) && Enabled(s, step)
    ensures
      var s' := Do(policy, s, step);
      && |s'.phases| == |s'.executions| && |s.executions| <= |s'.executions| <= |s.executions| + 1
      && (e < |s.executions| ==>
            && s'.executions[e] == s.executions[e]
            && s'.phases[e] ==
               (if step.UsageRead? && step.e == e && step.ok && step.consumed > 0 then Calling(step.consumed)
                else if (step.UsageRead? || step.CallDone?) && step.e == e then (if step.ok then Completed else Dropped)
                else s.phases[e]))
      && (|s.executions| <= e < |s'.executions| ==>
            var op := s'.executions[e].op;
            s'.phases[e] == (if op.OpReset? then Reading else Calling(if op.OpRefund? then op.amount else 0)))
  {
    hide ReviewReason, WellAsked;
  }

  lemma {:induction false} CallsAreRight(policy: Policy, trace: seq<State>, steps: seq<Step>, k: nat, e: nat)
    requires IsRun(policy, trace, steps) && k < |trace| && e < |trace[k].executions|
    ensures |trace[k].phases| == |trace[k].executions| && CallsRightly(steps, k, e, trace[k].executions[e], trace[k].phases[e])
  {
    hide Do, Enabled, WellFormed, WasRead;
    if k > 0 {
      var s, step, x := trace[k - 1], steps[k - 1], trace[k].executions[e];
      assert trace[k - 1 + 1] == Do(policy, s, step) && WellFormed(s) && Enabled(s, step);
      PhaseStep(policy, s, step, e);
      if e < |s.executions| {
        CallsAreRight(policy, trace, steps, k - 1, e);
        if step.UsageRead? && step == UsageRead(e, true, step.consumed) { JustRead(steps, k - 1, e, step.consumed); }
        if s.phases[e].Calling? { ReadLater(steps, k - 1, e, s.phases[e].amount); }
        assert step.UsageRead? && step.e == e ==> s.phases[e] == Reading by { ReadsWhileReading(s, step); }
      }
    }
  }

  lemma ReadsWhileReading(s: State, step: Step)
    requires Enabled(s, step)
    ensures step.UsageRead? ==> step.e < |s.phases| && s.phases[step.e] == Reading
  {}

  lemma JustRead(steps: seq<Step>, m: nat, e: nat, consumed: int)
    requires m < |steps| && steps[m] == UsageRead(e, true, consumed)
    ensures WasRead(steps, m + 1, e, consumed)
  {}

  lemma ReadLater(steps: seq<Step>, k: nat, e: nat, consumed: int)
    requires k < |steps|
    ensures WasRead(steps, k, e, consumed) ==> WasRead(steps, k + 1, e, consumed)
  {}

  /** In every run, the log entry of a refund carries its amount, and that of a reset what it refunded: the usage
      it read, or 0 when it read none to refund. */
  lemma {:induction false} LogsAreRight(policy: Policy, trace: seq<State>, steps: seq<Step>, k: nat, j: nat)
    requires IsRun(policy, trace, steps) && k < |trace| && j < |trace[k].log|
    ensures |trace[k].logOf| == |trace[k].log| && trace[k].logOf[j] < |trace[k].executions|
    ensures
      var s := trace[k];
      var e, entry := s.logOf[j], s.log[j];
      && entry.op == s.executions[e].op
      && (entry.op.OpRefund? ==> entry.refunded == entry.op.amount)
      && (entry.op.OpReset? ==> exists consumed :: WasRead(steps, k, e, consumed) && entry.refunded == Max(consumed, 0))
  {
    hide ReviewReason, WellAsked, CallsRightly, Inv;
    RunKeepsInv(policy, trace, steps, k);
    assert GoodLog(trace[k]) by { InvHasLog(policy, trace[k]); }
    if k > 0 {
      assert trace[k - 1 + 1] == Do(policy, trace[k - 1], steps[k - 1]);
      if j < |trace[k - 1].log| {
        LogsAreRight(policy, trace, steps, k - 1, j);
        EntryStays(policy, trace[k - 1], steps[k - 1], j);
        if trace[k].log[j].op.OpReset? {
          var consumed :| WasRead(steps, k - 1, trace[k].logOf[j], consumed) && trace[k].log[j].refunded == Max(consumed, 0);
          assert WasRead(steps, k, trace[k].logOf[j], consumed);
        }
      } else {
        NewEntryIsRight(policy, trace, steps, k);
      }
    }
  }

  lemma InvHasLog(policy: Policy, s: State)
    requires Inv(policy, s)
    ensures GoodLog(s)
  {}

  /** Entries, and what they are about, never change. */
  lemma EntryStays(policy: Policy, s: State, step: Step, j: nat)
    requires WellFormed(s) && Enabled(s, step) && j < |s.log| == |s.logOf| && s.logOf[j] < |s.executions|
    ensures
      var s' := Do(policy, s, step);
      && j < |s'.log| && j < |s'.logOf| && s.logOf[j] < |s'.executions|
      && s'.log[j] == s.log[j] && s'.logOf[j] == s.logOf[j] && s'.executions[s.logOf[j]] == s.executions[s.logOf[j]]
  {
    hide ReviewReason, WellAsked;
  }

  lemma NewEntryIsRight(policy: Policy, trace: seq<State>, steps: seq<Step>, k: nat)
    requires IsRun(policy, trace, steps) && 0 < k < |trace| && |trace[k - 1].log| < |trace[k].log| == |trace[k].logOf|
    requires trace[k].logOf[|trace[k - 1].log|] < |trace[k].executions|
    requires |trace[k - 1].logOf| == |trace[k - 1].log|
    ensures |trace[k].log| == |trace[k - 1].log| + 1
    ensures
      var j := |trace[k - 1].log|;
      var e, entry := trace[k].logOf[j], trace[k].log[j];
      && entry.op == trace[k].executions[e].op
      && (entry.op.OpRefund? ==> entry.refunded == entry.op.amount)
      && (entry.op.OpReset? ==> exists consumed :: WasRead(steps, k, e, consumed) && entry.refunded == Max(consumed, 0))
  {
    hide ReviewReason, WellAsked;
    var s, step := trace[k - 1], steps[k - 1];
    assert trace[k - 1 + 1] == Do(policy, s, step);
    var e := trace[k].logOf[|s.log|];
    assert e == step.e;
    CallsAreRight(policy, trace, steps, k - 1, e);
    if step.UsageRead? {
      assert steps[k - 1] == UsageRead(e, true, step.consumed);
      assert WasRead(steps, k, e, step.consumed);
    } else if s.executions[e].op.OpReset? {
      assert WasRead(steps, k, e, s.phases[e].amount);
    }
  }

  /** Each completed execution has exactly one log entry, carrying its actor, initiator and approver; an
      execution the backend failed has none. Entries are numbered from 1 without gaps. */
  lemma OneEntryPerCompletion(policy: Policy, trace: seq<State>, steps: seq<Step>, k: nat, e: nat)
    requires IsRun(policy, trace, steps) && k < |trace| && e < |trace[k].executions|
    ensures
      var s := trace[k];
      && |s.phases| == |s.executions| && |s.log| == |s.logOf|
      && (s.phases[e] == Completed <==> exists j :: 0 <= j < |s.log| && s.logOf[j] == e)
      && forall i, j :: 0 <= i < |s.log| && 0 <= j < |s.log| && s.logOf[i] == e == s.logOf[j] ==>
           && i == j && s.log[j].number == j + 1
           && s.log[j].actor == s.executions[e].actor && s.log[j].op == s.executions[e].op
           && s.log[j].initiator == s.executions[e].initiator && s.log[j].approver == s.executions[e].approver
  {
    RunKeepsInv(policy, trace, steps, k);
  }

  lemma StepKeepsDecisions(policy: Policy, s: State, step: Step, i: nat)
    requires WellFormed(s) && Enabled(s, step) && i < |s.store.objects|
    ensures i < |Do(policy, s, step).store.objects|
    ensures s.store.objects[i].status != Pending ==> Do(policy, s, step).store.objects[i] == s.store.objects[i]
  {}

  /** Decisions are final: once approved or rejected, a review never changes again. */
  lemma {:induction false} DecisionsAreFinal(policy: Policy, trace: seq<State>, steps: seq<Step>, j: nat, k: nat, i: nat)
    requires IsRun(policy, trace, steps) && j <= k < |trace|
    requires i < |trace[j].store.objects| && trace[j].store.objects[i].status != Pending
    ensures i < |trace[k].store.objects| && trace[k].store.objects[i] == trace[j].store.objects[i]
    decreases k
  {
    hide Do, Enabled, WellFormed;
    if j < k {
      DecisionsAreFinal(policy, trace, steps, j, k - 1, i);
      assert trace[k - 1 + 1] == Do(policy, trace[k - 1], steps[k - 1]);
      StepKeepsDecisions(policy, trace[k - 1], steps[k - 1], i);
    }
  }

  // ---------- the handlers ----------

  /** This user may decide this review: with the right to, of a pending review, and not its initiator. */
  predicate Decidable(policy: Policy, s: Store, user: string, id: string) {
    && policy.mayDecide(user) && id in s.byId && s.byId[id] < |s.objects|
    && s.objects[s.byId[id]].status == Pending && s.objects[s.byId[id]].initiator != user
  }

  /** What a route answers: an error status, a pending review, or the result of what it ran. */
  datatype Reply = Failure(httpStatus: int) | PendingReview | Ran

  /** The routes and executors over one review store and one action log. Each method is what runs between two
      awaits; executions that wait for a backend are remembered by their index. */
  class Backoffice {
    const policy: Policy
    const reviews: ReviewStore
    const actionLog: ActionLog
    var executions: seq<Execution>
    var phases: seq<Phase>
    ghost var logOf: seq<nat>
    ghost var applied: seq<nat>

    ghost function Value(): State
      reads this, reviews, actionLog
    {
      State(reviews.Value(), actionLog.entries, executions, phases, logOf, applied)
    }

    ghost predicate Valid()
      reads this, reviews, actionLog
    {
      WellFormed(Value()) && actionLog.last == |actionLog.entries|
    }

    constructor (policy: Policy)
      ensures Valid() && Initial(Value()) && this.policy == policy && fresh(reviews) && fresh(actionLog)
    {
      this.policy := policy;
      reviews := new ReviewStore();
      actionLog := new ActionLog();
      executions, phases, logOf, applied := [], [], [], [];
    }

    /** The update, delete, refund and reset routes. */
    method Submit(user: string, op: PendingOp, id: string) returns (reply: Reply)
      requires Valid()
      modifies this, reviews
      ensures Valid() && Value() == Do(policy, old(Value()), Step.Submit(user, op, id))
      ensures reply == Failure(400) <==>
                || op.key.service == "" || op.key.customer == "" || op.key.rateLimitId == ""
                || (op.LimitUpdate? && (op.limitValue < 0 || op.timeUnit == Unspecified))
                || (op.OpRefund? && (op.amount <= 0 || op.amount > 1_000_000_000))
      ensures reply == Failure(403) <==> reply != Failure(400) && !policy.mayRequest(user, op)
      ensures reply.PendingReview? <==> !reply.Failure? && Reviewable(op, policy)
      ensures reply.PendingReview? <==> |reviews.objects| > |old(reviews.objects)|
      ensures reply.Ran? <==> |executions| > |old(executions)|
    {
      if !WellAsked(op) { return Failure(400); }
      if !policy.mayRequest(user, op) { return Failure(403); }
      var reason := ReviewReason(op, policy);
      ReasonsFollowThePolicy(op, policy);
      if reason.Some? {
        var _ := reviews.Create(id, op, user, reason.value);
        return PendingReview;
      }
      Start(Execution(op, user, None, None, None));
      return Ran;
    }

    method Approve(user: string, id: string) returns (reply: Reply)
      requires Valid()
      modifies this, reviews
      ensures Valid() && Value() == Do(policy, old(Value()), Step.Approve(user, id))
      ensures reply.Failure? <==> !Decidable(policy, old(Value().store), user, id)
      ensures reply.Failure? ==> Value() == old(Value())
      ensures !policy.mayDecide(user) ==> reply == Failure(403)
      ensures !reply.Failure? ==>
                && reviews.objects[old(reviews.byId)[id]].status == Approved
                && |executions| == |old(executions)| + 1
                && executions[|old(executions)|].op == old(reviews.objects)[old(reviews.byId)[id]].op
    {
      if !policy.mayDecide(user) { return Failure(403); }
      var decision := reviews.Decide(id, user, Approved);
      if decision.Refused? { return Failure(decision.httpStatus); }
      var review := reviews.objects[decision.index];
      Start(Execution(review.op, user, Some(review.initiator), Some(user), Some(decision.index)));
      return Ran;
    }

    method Reject(user: string, id: string) returns (reply: Reply)
      requires Valid()
      modifies reviews
      ensures Valid() && Value() == Do(policy, old(Value()), Step.Reject(user, id))
      ensures reply.Failure? <==> !Decidable(policy, old(Value().store), user, id)
      ensures reply.Failure? ==> Value() == old(Value())
      ensures !policy.mayDecide(user) ==> reply == Failure(403)
      ensures !reply.Failure? ==> reviews.objects[old(reviews.byId)[id]].status == Rejected
    {
      if !policy.mayDecide(user) { return Failure(403); }
      var decision := reviews.Decide(id, user, Rejected);
      return if decision.Refused? then Failure(decision.httpStatus) else Ran;
    }

    method Start(x: Execution)
      requires Valid()
      modifies this
      ensures Valid() && Value() == Started(old(Value()), x)
    {
      executions := executions + [x];
      phases := phases + [FirstPhase(x.op)];
    }

    method Log(e: nat, refunded: int)
      requires Valid() && e < |executions|
      modifies this, actionLog
      ensures Valid() && Value() == Logged(old(Value()), e, refunded)
    {
      var x := executions[e];
      var _ := actionLog.Append(x.actor, x.op, refunded, x.initiator, x.approver);
      logOf := logOf + [e];
      phases := phases[e := Completed];
    }

    /** A reset after its usage read. */
    method AfterUsageRead(e: nat, ok: bool, consumed: int)
      requires Valid() && Enabled(Value(), UsageRead(e, ok, consumed))
      modifies this, actionLog
      ensures Valid() && Value() == Do(policy, old(Value()), UsageRead(e, ok, consumed))
    {
      if !ok {
        phases := phases[e := Dropped];
      } else if consumed > 0 {
        phases := phases[e := Calling(consumed)];
      } else {
        Log(e, 0);
      }
    }

    /** Any operation after its mutating call. */
    method AfterCall(e: nat, ghost took: bool, ok: bool)
      requires Valid() && Enabled(Value(), CallDone(e, took, ok))
      modifies this, actionLog
      ensures Valid() && Value() == Do(policy, old(Value()), CallDone(e, took, ok))
    {
      var amount := phases[e].amount;
      if took { applied := applied + [e]; }
      if ok { Log(e, amount); } else { phases := phases[e := Dropped]; }
    }
  }
}
