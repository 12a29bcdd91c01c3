/** What the parts promise together: caps that reach the data plane come through the cache from tables the
    control plane wrote, so the refinement needs nothing of its callers but timely scripts. */
module EndToEnd {
  import opened Prelude
  import opened Windows
  import opened CounterKey
  import opened LimitTable
  import opened AuditLog
  import opened CounterStore
  import opened DataPlane
  import opened ConfigCache
  import CounterHistory
  import Reviews

  /** The committed history of the control plane at each instant. */
  type Journal = Instant -> seq<Event>

  ghost function TablesOf(journal: Journal): Timeline {
    (q: Instant) => RunOf(journal(q)).table
  }

  /** The cap of this request is one that a run of a node's cache over these tables returned for its key. */
  ghost predicate FromACache(journal: Journal, req: Request) {
    req.resolved.Configured? ==>
      exists delay: nat, trace: seq<ConfigCache.State>, steps: seq<ConfigCache.Step>, k: nat, i: nat ::
        ReturnedBy(journal, delay, trace, steps, k, i, req)
  }

  ghost predicate ReturnedBy(
    journal: Journal, delay: nat, trace: seq<ConfigCache.State>, steps: seq<ConfigCache.Step>, k: nat, i: nat, req: Request)
  {
    && ConfigCache.IsRun(TablesOf(journal), delay, trace, steps)
    && k < |trace| && i < |trace[k].finished|
    && req.key == Some(trace[k].finished[i].key) && req.resolved == trace[k].finished[i].resolved
  }

  /** Such a request names a valid service and rate limit, and a unit. */
  lemma CachedCapsAreWellNamed(journal: Journal, req: Request)
    requires FromACache(journal, req)
    ensures WellNamed(req) && (req.resolved.Configured? ==> req.resolved.cap.timeUnit != Unspecified)
  {
    hide ConfigCache.IsRun, RunOf;
    if req.resolved.Configured? {
      var delay: nat, trace: seq<ConfigCache.State>, steps: seq<ConfigCache.Step>, k: nat, i: nat :|
        ReturnedBy(journal, delay, trace, steps, k, i, req);
      var db := TablesOf(journal);
      forall q: Instant ensures ValidRows(db(q)) { TableIsValid(journal(q)); }
      ReturnedCapsAreWellNamed(db, delay, trace, steps, k, i);
    }
  }

  /** From the administrator's writes to the counters: whatever the control plane did and however the caches of
      any number of nodes interleaved, failed or went stale, requests whose scripts run in order, each at most
      4001 ms after its clock read, are all answered as the ledger answers them. */
  lemma EveryAnswerIsTheLedgers(journal: Journal, reqs: seq<Request>)
    requires forall i :: 0 <= i < |reqs| ==>
      && FromACache(journal, reqs[i]) && FourDigitYear(Ms(reqs[i].clock))
      && reqs[i].clock <= reqs[i].at <= reqs[i].clock + 4001 * 1_000_000
    requires forall i, j :: 0 <= i < j < |reqs| ==> reqs[i].at <= reqs[j].at
    ensures StoreRun(reqs).1 == LedgerRun(reqs).1
    ensures forall i :: 0 <= i < |reqs| && i < |StoreRun(reqs).1| ==>
      StoreRun(reqs).1[i] != Err(Internal)
  {
    hide FromACache, StoreRun, LedgerRun, FourDigitYear, Ms;
    forall i | 0 <= i < |reqs| ensures WellNamed(reqs[i]) {
      CachedCapsAreWellNamed(journal, reqs[i]);
    }
    Refinement(reqs, 4001 * 1_000_000);
    NeverInternal(journal, reqs);
  }

  /** The one internal error of the handlers, an unspecified unit, cannot happen. */
  lemma {:induction false} NeverInternal(journal: Journal, reqs: seq<Request>)
    requires forall i :: 0 <= i < |reqs| ==> FromACache(journal, reqs[i])
    ensures |StoreRun(reqs).1| == |reqs|
    ensures forall i :: 0 <= i < |reqs| ==> StoreRun(reqs).1[i] != Err(Internal)
  {
    hide FromACache, ComputeWindow, Name, CounterAt, Charged, Refunded, Consumed;
    if reqs != [] {
      var init, last := reqs[..|reqs| - 1], reqs[|reqs| - 1];
      NeverInternal(journal, init);
      CachedCapsAreWellNamed(journal, last);
      NotInternal(StoreRun(init).0, last);
    }
  }

  lemma NotInternal(ks: Keyspace, req: Request)
    requires req.resolved.Configured? ==> req.resolved.cap.timeUnit != Unspecified
    ensures ServeStore(ks, req).1 != Err(Internal)
  {
    hide CivilOf, WindowId, ResetAt, Ms;
  }

  /** The reset of the back office is the reset of the data plane: once its usage read answered, it goes on to call
      for exactly the refund that `CounterHistory.ResetShowsOnlyLaterCharges` is about, or logs when there is none. */
  lemma ResetsRefundWhatTheyRead(
    policy: Reviews.Policy, trace: seq<Reviews.State>, steps: seq<Reviews.Step>, k: nat, refund: Request)
    requires Reviews.IsRun(policy, trace, steps) && k < |steps|
    requires steps[k].UsageRead? && steps[k].ok && steps[k].e < |trace[k].executions|
    ensures
      var e, consumed := steps[k].e, steps[k].consumed;
      && e < |trace[k + 1].phases|
      && match trace[k + 1].phases[e]
         case Calling(amount) => CounterHistory.ResetRefund(consumed, refund) == [refund.(op := Refund(amount))]
         case _ => trace[k + 1].phases[e] == Reviews.Completed && CounterHistory.ResetRefund(consumed, refund) == []
  {
    hide Reviews.Do, Reviews.Enabled, Reviews.WellFormed;
    assert Reviews.WellFormed(trace[k]) && Reviews.Enabled(trace[k], steps[k]) && trace[k + 1] == Reviews.Do(policy, trace[k], steps[k]);
    Reviews.PhaseStep(policy, trace[k], steps[k], steps[k].e);
  }
}
