/** The read-through configuration cache: entries with a jittered time to live over a database
    that changes over time. Lookup, query and store are separate steps of a resolve, so
    concurrent resolves interleave and an older answer may overwrite a newer one. */
module ConfigCache {
  import opened Prelude
  import opened Windows
  import opened CounterKey
  import opened LimitTable
  import opened DataPlane

  datatype CacheEntry = CacheEntry(resolved: Resolved, expiresAt: Instant)

  type Entries = map<LimitKey, CacheEntry>

  const POSITIVE_TTL: nat := 30_000
  const NEGATIVE_TTL: nat := 5_000
  const JITTER: nat := 5_000

  function BaseTtl(resolved: Resolved): nat {
    if resolved.Configured? then POSITIVE_TTL else NEGATIVE_TTL
  }

  function Fresh(entries: Entries, key: LimitKey, now: Instant): Option<Resolved> {
    if key in entries && entries[key].expiresAt > now then Some(entries[key].resolved) else None
  }

  function Latest(entries: Entries, key: LimitKey): Option<Resolved> {
    if key in entries then Some(entries[key].resolved) else None
  }

  function Put(entries: Entries, key: LimitKey, resolved: Resolved, now: Instant, random: nat): Entries {
    entries[key := CacheEntry(resolved, now + BaseTtl(resolved) + random % (JITTER + 1))]
  }

  class Cache {
    var entries: Entries

    constructor ()
      ensures entries == map[]
    {
      entries := map[];
    }

    method GetFresh(key: LimitKey, now: Instant) returns (hit: Option<Resolved>)
      ensures hit == Fresh(entries, key, now)
    {
      hit := None;
      if key in entries {
        var e := entries[key];
        if e.expiresAt > now { hit := Some(e.resolved); }
      }
    }

    /** Last known good, expired or not. */
    method GetAny(key: LimitKey) returns (hit: Option<Resolved>)
      ensures hit == Latest(entries, key)
    {
      hit := None;
      if key in entries { hit := Some(entries[key].resolved); }
    }

    method Store(key: LimitKey, resolved: Resolved, now: Instant, random: nat)
      modifies this
      ensures entries == Put(old(entries), key, resolved, now, random)
    {
      var base := NEGATIVE_TTL;
      if resolved.Configured? { base := POSITIVE_TTL; }
      var jitter := random % (JITTER + 1);
      entries := entries[key := CacheEntry(resolved, now + base + jitter)];
    }

    /** One resolve that nothing interleaves with: `answer` is what the database said, or its failure. */
    method Resolve(key: LimitKey, begun: Instant, answer: Result<Resolved>, done: Instant, random: nat)
      returns (resolved: Resolved)
      requires begun <= done
      modifies this
      ensures
        var hit := Fresh(old(entries), key, begun);
        if hit.Some? then resolved == hit.value && entries == old(entries)
        else if answer.Ok? then resolved == answer.value && entries == Put(old(entries), key, resolved, done, random)
        else entries == old(entries)
             && resolved == (if key in entries then entries[key].resolved else Unconfigured)
    {
      var hit := GetFresh(key, begun);
      if hit.Some? { return hit.value; }
      if answer.Ok? {
        Store(key, answer.value, done, random);
        return answer.value;
      }
      var known := GetAny(key);
      return if known.Some? then known.value else Unconfigured;
    }
  }

  // ---------- interleaved resolves ----------

  /** The table the database holds at each instant. */
  type Timeline = Instant -> Table

  /** What the database answers for a key while it holds `table`. */
  ghost function AnswerOf(table: Table, key: LimitKey): Resolved {
    match LimitTable.Resolve(table, key)
    case Some(row) => Configured(Cap(row.limitValue, row.timeUnit))
    case None => Unconfigured
  }

  datatype Task =
    | Querying(key: LimitKey, begun: Instant)
    | Answered(key: LimitKey, begun: Instant, resolved: Resolved, asked: Instant)
    | Failed(key: LimitKey, begun: Instant)

  /** One finished resolve; `fallback` when the database had failed it. */
  datatype Return = Return(key: LimitKey, resolved: Resolved, begun: Instant, at: Instant, fallback: bool)

  datatype State = State(
    now: Instant,
    entries: Entries,
    tasks: map<nat, Task>,
    finished: seq<Return>,
    stored: seq<(LimitKey, Resolved)>)

  datatype Step =
    | Tick(to: Instant)
    | Begin(task: nat, key: LimitKey)
    | DbAnswers(task: nat)
    | DbFails(task: nat)
    | Finish(task: nat, random: nat)

  predicate Enabled(s: State, step: Step, delay: nat) {
    match step
    case Tick(to) => s.now <= to
    case Begin(t, _) => t !in s.tasks
    case DbAnswers(t) => t in s.tasks && s.tasks[t].Querying?
    case DbFails(t) => t in s.tasks && s.tasks[t].Querying?
    case Finish(t, _) => t in s.tasks && (s.tasks[t].Failed? || (s.tasks[t].Answered? && s.now <= s.tasks[t].asked + delay))
  }

  ghost function Do(db: Timeline, s: State, step: Step, delay: nat): State
    requires Enabled(s, step, delay)
  {
    match step
    case Tick(to) => s.(now := to)
    case Begin(t, key) =>
      var hit := Fresh(s.entries, key, s.now);
      if hit.Some? then s.(finished := s.finished + [Return(key, hit.value, s.now, s.now, false)])
      else s.(tasks := s.tasks[t := Querying(key, s.now)])
    case DbAnswers(t) =>
      var task := s.tasks[t];
      s.(tasks := s.tasks[t := Answered(task.key, task.begun, AnswerOf(db(s.now), task.key), s.now)])
    case DbFails(t) =>
      var task := s.tasks[t];
      s.(tasks := s.tasks[t := Failed(task.key, task.begun)])
    case Finish(t, random) =>
      var task := s.tasks[t];
      if task.Answered? then
        s.(entries := Put(s.entries, task.key, task.resolved, s.now, random),
           tasks := s.tasks - {t},
           finished := s.finished + [Return(task.key, task.resolved, task.begun, s.now, false)],
           stored := s.stored + [(task.key, task.resolved)])
      else
        var known := Latest(s.entries, task.key);
        var resolved := if known.Some? then known.value else Unconfigured;
        s.(tasks := s.tasks - {t},
           finished := s.finished + [Return(task.key, resolved, task.begun, s.now, true)])
  }

  predicate Initial(s: State) {
    s.entries == map[] && s.tasks == map[] && s.finished == [] && s.stored == []
  }

  ghost predicate IsRun(db: Timeline, delay: nat, trace: seq<State>, steps: seq<Step>) {
    && |trace| == |steps| + 1
    && Initial(trace[0])
    && forall k :: 0 <= k < |steps| ==>
         Enabled(trace[k], steps[k], delay) && trace[k + 1] == Do(db, trace[k], steps[k], delay)
  }

  // ---------- where every value came from ----------

  /** `resolved` was the database's answer for `key` at the instant `asked`. */
  ghost predicate WasAnswer(db: Timeline, key: LimitKey, resolved: Resolved, asked: Instant) {
    resolved == AnswerOf(db(asked), key)
  }

  /** `resolved` is what the resolution query says of this table: the limit and unit of the row it returns, or
      nothing when it returns none. */
  ghost predicate Queried(table: Table, key: LimitKey, resolved: Resolved) {
    match resolved
    case Configured(cap) => exists row :: QueryResult(table, key, Some(row)) && cap == Cap(row.limitValue, row.timeUnit)
    case Unconfigured => QueryResult(table, key, None)
  }

  lemma AnswersAreQueried(table: Table, key: LimitKey)
    ensures Queried(table, key, AnswerOf(table, key))
  {
    hide QueryResult;
    ResolveIsAResult(table, key);
  }

  ghost predicate GoodEntry(db: Timeline, key: LimitKey, e: CacheEntry, delay: nat, now: Instant) {
    exists asked: Instant :: asked <= now && WasAnswer(db, key, e.resolved, asked)
                             && e.expiresAt <= asked + delay + BaseTtl(e.resolved) + JITTER
  }

  ghost predicate GoodTask(db: Timeline, task: Task, now: Instant) {
    && task.begun <= now
    && (task.Answered? ==> task.begun <= task.asked <= now && WasAnswer(db, task.key, task.resolved, task.asked))
  }

  /** A value returned without a fallback was the database's answer this recently. */
  ghost predicate FreshReturn(db: Timeline, r: Return, delay: nat) {
    exists asked: Instant :: asked <= r.at && WasAnswer(db, r.key, r.resolved, asked)
                             && r.at < asked + delay + BaseTtl(r.resolved) + JITTER
  }

  /** A fallback yields an answer of some earlier instant, or nothing is known about the key. */
  ghost predicate KnownReturn(db: Timeline, r: Return) {
    r.resolved == Unconfigured
    || exists asked: Instant :: asked <= r.at && WasAnswer(db, r.key, r.resolved, asked)
  }

  ghost predicate GoodReturn(db: Timeline, r: Return, delay: nat) {
    r.begun <= r.at && (if r.fallback then KnownReturn(db, r) else FreshReturn(db, r, delay))
  }

  /** The last stored value of a key. */
  function LastStored(stored: seq<(LimitKey, Resolved)>, key: LimitKey): Option<Resolved> {
    if stored == [] then None
    else if stored[|stored| - 1].0 == key then Some(stored[|stored| - 1].1)
    else LastStored(stored[..|stored| - 1], key)
  }

  ghost predicate Inv(db: Timeline, s: State, delay: nat) {
    && (forall key :: key in s.entries ==> GoodEntry(db, key, s.entries[key], delay, s.now))
    && (forall t :: t in s.tasks ==> GoodTask(db, s.tasks[t], s.now))
    && (forall i :: 0 <= i < |s.finished| ==> GoodReturn(db, s.finished[i], delay))
    && (forall key :: Latest(s.entries, key) == LastStored(s.stored, key))
  }

  lemma InvHoldsLater(db: Timeline, s: State, to: Instant, delay: nat)
    requires Inv(db, s, delay) && s.now <= to
    ensures Inv(db, s.(now := to), delay)
  {}

  lemma InvStep(db: Timeline, s: State, step: Step, delay: nat)
    requires Inv(db, s, delay) && Enabled(s, step, delay)
    ensures Inv(db, Do(db, s, step, delay), delay)
  {
    hide AnswerOf;
    var s' := Do(db, s, step, delay);
    match step
    case Tick(to) => InvHoldsLater(db, s, to, delay);
    case Begin(t, key) =>
      if Fresh(s.entries, key, s.now).Some? {
        var e := s.entries[key];
        var asked: Instant :| asked <= s.now && WasAnswer(db, key, e.resolved, asked)
                              && e.expiresAt <= asked + delay + BaseTtl(e.resolved) + JITTER;
        assert FreshReturn(db, s'.finished[|s.finished|], delay);
      }
    case DbAnswers(t) =>
    case DbFails(t) =>
    case Finish(t, random) =>
      FinishKeepsInv(db, s, t, random, delay);
  }

  lemma FinishKeepsInv(db: Timeline, s: State, t: nat, random: nat, delay: nat)
    requires Inv(db, s, delay) && Enabled(s, Finish(t, random), delay)
    ensures Inv(db, Do(db, s, Finish(t, random), delay), delay)
  {
    hide AnswerOf;
    var s' := Do(db, s, Finish(t, random), delay);
    var task := s.tasks[t];
    if task.Answered? {
      assert WasAnswer(db, task.key, task.resolved, task.asked);
      assert FreshReturn(db, s'.finished[|s.finished|], delay);
      assert GoodEntry(db, task.key, s'.entries[task.key], delay, s'.now);
      assert s'.stored[..|s'.stored| - 1] == s.stored;
      assert forall key :: Latest(s'.entries, key) == LastStored(s'.stored, key);
    } else {
      if task.key in s.entries {
        var e := s.entries[task.key];
        var asked: Instant :| asked <= s.now && WasAnswer(db, task.key, e.resolved, asked)
                              && e.expiresAt <= asked + delay + BaseTtl(e.resolved) + JITTER;
      }
      assert KnownReturn(db, s'.finished[|s.finished|]);
    }
  }

  lemma {:induction false} RunInv(db: Timeline, delay: nat, trace: seq<State>, steps: seq<Step>, k: nat)
    requires IsRun(db, delay, trace, steps) && k < |trace|
    ensures Inv(db, trace[k], delay)
  {
    hide Enabled, Do;
    if k > 0 {
      RunInv(db, delay, trace, steps, k - 1);
      assert Enabled(trace[k - 1], steps[k - 1], delay) && trace[k - 1 + 1] == Do(db, trace[k - 1], steps[k - 1], delay);
      InvStep(db, trace[k - 1], steps[k - 1], delay);
    }
  }

  // ---------- staleness ----------

  /** Under any interleaving, a cap returned without a fallback was the database's answer less than
      35 s and the query-to-store delay ago, and an unconfigured answer less than 10 s and that delay ago. */
  lemma BoundedStaleness(db: Timeline, delay: nat, trace: seq<State>, steps: seq<Step>, k: nat, i: nat)
    requires IsRun(db, delay, trace, steps) && k < |trace| && i < |trace[k].finished| && !trace[k].finished[i].fallback
    ensures
      var r := trace[k].finished[i];
      exists asked: Instant :: asked <= r.at && WasAnswer(db, r.key, r.resolved, asked) && Queried(db(asked), r.key, r.resolved)
                               && r.at < asked + delay + (if r.resolved.Configured? then 35_000 else 10_000)
  {
    hide IsRun, Queried, AnswerOf;
    RunInv(db, delay, trace, steps, k);
    var r := trace[k].finished[i];
    assert GoodReturn(db, r, delay);
    var asked: Instant :| asked <= r.at && WasAnswer(db, r.key, r.resolved, asked)
                          && r.at < asked + delay + BaseTtl(r.resolved) + JITTER;
    AnswersAreQueried(db(asked), r.key);
  }

  /** Once the database's answer for a key has settled, every resolve begun 35 s and the delay later
      returns it; a stale "unconfigured" is gone 10 s and the delay later. */
  lemma Convergence(db: Timeline, delay: nat, trace: seq<State>, steps: seq<Step>, k: nat, i: nat,
                    settled: Instant, answer: Resolved)
    requires IsRun(db, delay, trace, steps) && k < |trace| && i < |trace[k].finished| && !trace[k].finished[i].fallback
    requires forall q: Instant :: q >= settled ==> WasAnswer(db, trace[k].finished[i].key, answer, q)
    ensures trace[k].finished[i].begun >= settled + delay + 35_000 ==> trace[k].finished[i].resolved == answer
    ensures trace[k].finished[i].begun >= settled + delay + 10_000 ==>
              trace[k].finished[i].resolved == Unconfigured ==> answer == Unconfigured
  {
    hide IsRun, AnswerOf;
    var r := trace[k].finished[i];
    BoundedStaleness(db, delay, trace, steps, k, i);
    RunInv(db, delay, trace, steps, k);
    assert GoodReturn(db, r, delay);
    var asked: Instant :| asked <= r.at && WasAnswer(db, r.key, r.resolved, asked)
                          && r.at < asked + delay + (if r.resolved.Configured? then 35_000 else 10_000);
    if asked >= settled { assert WasAnswer(db, r.key, answer, asked); }
  }

  // ---------- outages ----------

  /** Across any pattern of failures every resolve yields a value, and every cap it yields was the
      database's answer for that key at some earlier instant. */
  lemma EveryCapWasAnAnswer(db: Timeline, delay: nat, trace: seq<State>, steps: seq<Step>, k: nat, i: nat)
    requires IsRun(db, delay, trace, steps) && k < |trace| && i < |trace[k].finished|
    requires trace[k].finished[i].resolved.Configured?
    ensures
      var r := trace[k].finished[i];
      exists asked: Instant :: asked <= r.at && WasAnswer(db, r.key, r.resolved, asked) && Queried(db(asked), r.key, r.resolved)
  {
    hide IsRun, AnswerOf, Queried;
    RunInv(db, delay, trace, steps, k);
    var r := trace[k].finished[i];
    assert GoodReturn(db, r, delay);
    var asked: Instant :| asked <= r.at && WasAnswer(db, r.key, r.resolved, asked);
    AnswersAreQueried(db(asked), r.key);
  }

  /** A failed resolve returns the latest value stored for its key, if any was, and changes no entry:
      it never prolongs one, so a key whose entry has expired is asked for again at its next resolve. */
  lemma FailureServesTheLatest(db: Timeline, delay: nat, trace: seq<State>, steps: seq<Step>, k: nat)
    requires IsRun(db, delay, trace, steps) && k < |steps|
    requires steps[k].Finish? && steps[k].task in trace[k].tasks && trace[k].tasks[steps[k].task].Failed?
    ensures trace[k + 1].entries == trace[k].entries
    ensures |trace[k + 1].finished| == |trace[k].finished| + 1
    ensures
      var r := trace[k + 1].finished[|trace[k].finished|];
      var last := LastStored(trace[k].stored, r.key);
      && r.fallback && r.key == trace[k].tasks[steps[k].task].key
      && r.resolved == if last.Some? then last.value else Unconfigured
  {
    RunInv(db, delay, trace, steps, k);
    assert Enabled(trace[k], steps[k], delay) && trace[k + 1] == Do(db, trace[k], steps[k], delay);
  }

  /** The step stores a database's answer for this key. */
  predicate Stores(s: State, step: Step, key: LimitKey) {
    step.Finish? && step.task in s.tasks && s.tasks[step.task].Answered? && s.tasks[step.task].key == key
  }

  /** Nothing but a stored answer changes an entry: not time, not other keys, not failures. */
  lemma {:induction false} EntryStays(db: Timeline, delay: nat, trace: seq<State>, steps: seq<Step>, j: nat, k: nat, key: LimitKey)
    requires IsRun(db, delay, trace, steps) && j <= k < |trace|
    requires forall m :: j <= m < k ==> !Stores(trace[m], steps[m], key)
    ensures trace[j].now <= trace[k].now
    ensures key in trace[j].entries <==> key in trace[k].entries
    ensures key in trace[j].entries ==> trace[k].entries[key] == trace[j].entries[key]
    decreases k
  {
    hide AnswerOf;
    if j < k {
      EntryStays(db, delay, trace, steps, j, k - 1, key);
      assert !Stores(trace[k - 1], steps[k - 1], key);
      assert Enabled(trace[k - 1], steps[k - 1], delay) && trace[k - 1 + 1] == Do(db, trace[k - 1], steps[k - 1], delay);
    }
  }

  /** Hits: for 30 s after a cap was stored, or 5 s after an "unconfigured", and until another answer for the key is
      stored, every resolve of the key returns the stored value at once and asks the database nothing. */
  lemma StoredIsServed(db: Timeline, delay: nat, trace: seq<State>, steps: seq<Step>, j: nat, k: nat)
    requires IsRun(db, delay, trace, steps) && j < k < |steps| && steps[k].Begin?
    requires Stores(trace[j], steps[j], steps[k].key)
    requires forall m :: j < m < k ==> !Stores(trace[m], steps[m], steps[k].key)
    requires trace[k].now < trace[j].now + (if trace[j].tasks[steps[j].task].resolved.Configured? then 30_000 else 5_000)
    ensures trace[k + 1].tasks == trace[k].tasks && trace[k + 1].entries == trace[k].entries
    ensures trace[k + 1].finished
            == trace[k].finished
               + [Return(steps[k].key, trace[j].tasks[steps[j].task].resolved, trace[k].now, trace[k].now, false)]
  {
    hide AnswerOf;
    assert Enabled(trace[j], steps[j], delay) && trace[j + 1] == Do(db, trace[j], steps[j], delay);
    EntryStays(db, delay, trace, steps, j + 1, k, steps[k].key);
    assert Enabled(trace[k], steps[k], delay) && trace[k + 1] == Do(db, trace[k], steps[k], delay);
  }

  /** The jitter spreads expiries over every millisecond from 30 to 35 s, or 5 to 10 s. */
  lemma EveryExpiryOccurs(entries: Entries, key: LimitKey, resolved: Resolved, now: Instant, jitter: nat)
    requires jitter <= 5_000
    ensures exists random :: Put(entries, key, resolved, now, random)[key]
                             == CacheEntry(resolved, now + (if resolved.Configured? then 30_000 else 5_000) + jitter)
  {
    assert jitter % (JITTER + 1) == jitter;
    assert Put(entries, key, resolved, now, jitter)[key]
           == CacheEntry(resolved, now + (if resolved.Configured? then 30_000 else 5_000) + jitter);
  }

  /** Recovery: once a key's entry has expired, or while it has none, every resolve of the key asks the database
      again until an answer is stored, however many resolves of it failed in between. */
  lemma ExpiredIsAskedAgain(db: Timeline, delay: nat, trace: seq<State>, steps: seq<Step>, j: nat, k: nat)
    requires IsRun(db, delay, trace, steps) && j <= k < |steps| && steps[k].Begin?
    requires steps[k].key in trace[j].entries ==> trace[j].entries[steps[k].key].expiresAt <= trace[j].now
    requires forall m :: j <= m < k ==> !Stores(trace[m], steps[m], steps[k].key)
    ensures steps[k].task in trace[k + 1].tasks
    ensures trace[k + 1].tasks[steps[k].task] == Querying(steps[k].key, trace[k].now)
    ensures trace[k + 1].finished == trace[k].finished && trace[k + 1].entries == trace[k].entries
  {
    EntryStays(db, delay, trace, steps, j, k, steps[k].key);
    assert Enabled(trace[k], steps[k], delay) && trace[k + 1] == Do(db, trace[k], steps[k], delay);
  }

  /** A cap is only ever returned for a service and rate limit id that passed the validator. */
  lemma ReturnedCapsAreWellNamed(db: Timeline, delay: nat, trace: seq<State>, steps: seq<Step>, k: nat, i: nat)
    requires IsRun(db, delay, trace, steps) && k < |trace| && i < |trace[k].finished|
    requires forall q: Instant :: ValidRows(db(q))
    requires trace[k].finished[i].resolved.Configured?
    ensures
      var r := trace[k].finished[i];
      && ValidServiceName(r.key.service) && ValidRateLimitId(r.key.rateLimitId)
      && r.resolved.cap.timeUnit != Unspecified
  {
    hide IsRun;
    var r := trace[k].finished[i];
    EveryCapWasAnAnswer(db, delay, trace, steps, k, i);
    var asked: Instant :| asked <= r.at && WasAnswer(db, r.key, r.resolved, asked);
    ResolvedNamesAreValid(db(asked), r.key);
  }
}
