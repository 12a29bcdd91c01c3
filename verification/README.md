# Regional rate limiter: a verified model

This project models the regional rate limiter and its administration, and proves what the design relies on.

- **Data plane** (`Windows`, `CounterKey`, `CounterStore`, `DataPlane`, `CounterHistory`, `Overshoot`,
  `OvershootExact`). The system keeps no ledger: it keeps Redis counters whose names carry the UTC window and whose
  deadlines are set once, with jitter. The main theorem is that the handlers nevertheless answer as a ledger by
  (limit, window) with no expiry would, and exactly how late a script may run for that to hold. Built on it: the closed
  form of the floored counter, the window reset, the best possible overshoot bound of check-then-charge clients, and
  the burst across a window boundary.
- **Configuration cache** (`LimitTable`, `ConfigCache`). Lookup, query and store are separate steps of concurrent
  resolves over a table that changes; staleness, convergence and outage behaviour hold for every interleaving.
- **Control plane** (`ControlPlane`, `AuditLog`, `PageToken`, `Paging`, `Listings`, `Endpoints`). Transactions with
  rollback and the audit trigger; the log replays to the table; page walks are exact through their string tokens.
- **End to end** (`EndToEnd`). From the administrators' writes through the caches to the counters: every answer is the
  ledger's, with no hypothesis left but the timing of scripts.
- **Administration** (`Reviews`, `StructCodec`). Two-person review with concurrent decisions and backends that fail after
  the decision; the codec of audit snapshots.

Windows and Redis deadlines are in milliseconds from 0000-01-01T00:00:00Z; the service reads its clock, and delays are
measured, in nanoseconds. Calls to Redis may fail before or after their script has run. Code that works in place is
modelled by classes and loops, each method tied to a specification function; the theorems are about those functions and
about all runs of them.

Where the code and its documents differ, the model follows the code:

- The hash tag is documented as the identity tuple. It is the tuple only when the customer id holds no closing brace;
  that all windows of a limit share one tag holds always (`CounterKey.TagIsTheTuple`, `CounterKey.OneTagPerLimit`).
- `objectToStruct` is documented as the inverse of `structToObject`. A field named `__proto__` is lost; the exact
  condition is `StructCodec.ObjectRoundTrip`.
- The design calls the overshoot bounded by concurrency without a figure. The exact figure is
  L + (N-1) * min(C, L), and it is reached (`OvershootExact.OvershootIsAttained`).
- The grace period of a deadline is 5 s. What a script may lag behind its request's clock read without ever meeting an
  expired counter is less, 4001 ms: truncating the remaining seconds loses up to a second, and Redis rounding its clock
  down to the millisecond gives one back (`DataPlane.RefinementExactly`).
- The cache's base times are 30 s and 5 s. With jitter and the time from query to store, the bounds on staleness are
  35 s and 10 s plus that time (`ConfigCache.BoundedStaleness`).

## Model

| member | source | states |
|---|---|---|
| `Windows.DateOfIsExact` | quotaenforcer/src/window.rs:29-64 | the calendar date of a day number is a valid date and the one with that number |
| `Windows.DateOrder` | quotaenforcer/src/window.rs:29-64 | day numbers order exactly as calendar dates do, so that date is unique |
| `Windows.DateInClosedForm` | quotaenforcer/src/window.rs:29-64 | the date is the Gregorian one by arithmetic alone, with no table of months: leap days counted by division and 153 days to five months from March on |
| `Windows.MonthWindowInClosedForm` | quotaenforcer/src/window.rs:52-62 | a month window runs from the closed-form first of its month to that of the next, December to January included |
| `Windows.CivilIsExact` | quotaenforcer/src/window.rs:31-51 | the year, month, day, hour and minute of an instant are real and locate it to the minute |
| `Windows.WindowContains` | quotaenforcer/src/window.rs:29-72 | every instant lies between the start and the reset of its window, which lasts 60 s, one day, or the days of its month |
| `Windows.SameWindow` | quotaenforcer/src/window.rs:29-72 | two instants share a window exactly when one lies within the bounds of the other's: windows do not overlap |
| `Windows.ResetStartsTheNextWindow` | quotaenforcer/src/window.rs:43-66 | `reset_at` is strictly later than now and is the first instant of the next window |
| `Windows.WindowOrder` | quotaenforcer/src/window.rs:29-72 | windows follow one another in time without overlap |
| `Windows.IdsNameWindows` | quotaenforcer/src/window.rs:35-58 | for years 0 to 9999 two instants share an id iff they share a window, and ids sort as windows do |
| `Windows.IdsReadAsDates` | quotaenforcer/src/window.rs:35-58 | read as numbers, ids are the date and time of their instant: yyyymm, yyyymmdd, yyyymmddhhmm |
| `Windows.ComputedWindows` | quotaenforcer/src/window.rs:29-72 | all of this as the caller of `compute_window` sees it from a nanosecond clock, with the remaining seconds truncated by less than one second |
| `Windows.FourDigitYearIsExact` | quotaenforcer/src/window.rs:35-58 | the years that print in four digits are exactly the instants before year 10000, by the closed-form count of leap days |
| `Windows.JitteredTtl` | quotaenforcer/src/window.rs:77-87 | the time to live is at least 1 s, never below remaining plus grace, and at most the jitter cap above it |
| `Windows.EveryJitterOccurs` | quotaenforcer/src/window.rs:77-97 | every whole second of jitter occurs, up to 30 for a minute window and 300 for a day or month, and no more |
| `CounterKey.PatternsSpelledOut` | quotamgmt/src/main/java/com/anthropic/quotamgmt/validation/LimitValidator.java:23-82 | the name patterns character by character, with their lengths |
| `CounterKey.NameInjective` | quotaenforcer/src/store.rs:49-51 | two equal counter keys come from equal tuples and window ids, whatever characters the customer id holds |
| `CounterKey.NameLayout` | quotaenforcer/src/store.rs:49-51 | where service, customer, rate limit and window stand in a key |
| `CounterKey.CounterNameInjective` | quotaenforcer/src/store.rs:49-51 | no two distinct (service, customer, rate limit, unit, window) share a counter key |
| `CounterKey.TagOfName` | quotaenforcer/src/store.rs:45-51 | the bytes Redis Cluster hashes are the tuple up to its first closing brace |
| `CounterKey.OneTagPerLimit` | quotaenforcer/src/store.rs:45-51 | all windows of one limit have one hash tag |
| `CounterKey.TagIsTheTuple` | quotaenforcer/src/store.rs:45-51 | the hash tag is the whole tuple if and only if the customer id holds no closing brace |
| `CounterStore.Redis.IncrBy` | schema/redis_scripts.lua:22-28 | INCRBY: adds to a live value or to 0, keeps the deadline of a live key, and touches no other key |
| `CounterStore.Redis.Ttl` | schema/redis_scripts.lua:24-24 | TTL: negative exactly for an absent key or one without a deadline, which are told apart |
| `CounterStore.Redis.Expire` | schema/redis_scripts.lua:25-25 | EXPIRE: gives a live key a deadline and keeps its value; does nothing to an absent key |
| `CounterStore.Redis.Charge` | quotaenforcer/src/store.rs:18-24 | CHARGE: always applies, sets the deadline only when the key has none, and returns what remains, negative or not |
| `CounterStore.Redis.Refund` | quotaenforcer/src/store.rs:28-35 | REFUND: the counter is floored at 0 and its deadline, or the lack of one, is preserved; what that means for every request and run is `DataPlane.DeadlineIsKept` and `DataPlane.DeadlineStands` |
| `CounterStore.Redis.Check` | quotaenforcer/src/store.rs:39-43 | CHECK: allows exactly when the cost still fits under the limit, reading an absent key as 0, and changes nothing |
| `CounterStore.Redis.ConsumedNow` | quotaenforcer/src/store.rs:143-147 | the raw counter, 0 for an absent or expired key |
| `DataPlane.RateLimiterService.CheckOne` | quotaenforcer/src/service.rs:45-64 | the check handler answers as the request semantics say, invalid, unconfigured and unreachable-store cases included, and changes no counter |
| `DataPlane.RateLimiterService.ChargeOne` | quotaenforcer/src/service.rs:66-85 | the charge handler answers and moves the store as the request semantics say; a lost reply is an error although the charge applied |
| `DataPlane.RateLimiterService.RefundOne` | quotaenforcer/src/service.rs:87-105 | the refund handler answers and moves the store as the request semantics say, failing calls included; an amount of 0 is a no-op, not 1 |
| `DataPlane.RateLimiterService.GetUsage` | quotaenforcer/src/service.rs:153-187 | the usage handler reads without changing anything, passes on a failing call, and is the only one to fail on an unspecified unit |
| `DataPlane.RateLimiterService.CheckQuotaBatch` | quotaenforcer/src/service.rs:117-137 | with any traffic of other callers between its members, a batch is refused when too large, stops as its first failing member does, and otherwise answers each member as the single call would at that moment; it changes no counter itself |
| `DataPlane.StoreInvariant` | quotaenforcer/src/store.rs:18-35 | in every reachable store every key names a counter, every value is non-negative, one without a deadline is 0, and a deadline lies after the window's reset and within grace, jitter cap and delay of it |
| `DataPlane.NothingOutlivesItsWindow` | quotaenforcer/src/window.rs:77-97 | no non-zero counter is readable later than that after its window's reset |
| `DataPlane.GoneAfterSeconds` | quotaenforcer/src/window.rs:77-97 | in seconds: a minute counter reads 0 from 35 s and the delay after its window's reset on, any other from 305 s on |
| `DataPlane.DeadlineIsKept` | quotaenforcer/src/store.rs:18-35 | no request moves, drops or prolongs the live deadline of any key |
| `DataPlane.OnlyChargesSetDeadlines` | quotaenforcer/src/store.rs:18-24 | a key without a deadline gets one from a charge of it, that charge's time to live, and from nothing else |
| `DataPlane.DeadlineStands` | schema/redis_scripts.lua:22-43 | over whole runs: a deadline, once set, is the same until the key expires |
| `DataPlane.Refinement` | quotaenforcer/src/service.rs:45-105 | every response of every timely run equals that of a ledger by (limit, window) that has no keys, deadlines or expiry, and the store agrees with the ledger on every counter still in reach |
| `DataPlane.StoreReadsTheLedger` | quotaenforcer/src/service.rs:153-187 | reading any reachable counter at the end of a timely run gives the ledger's balance |
| `DataPlane.LateCheckDiverges` | quotaenforcer/src/window.rs:66-87 | for every delay above the bound there are two requests, in the last second of any minute, that the store answers differently from the ledger |
| `DataPlane.RefinementExactly` | quotaenforcer/src/settings.rs:50-50 | with a nanosecond clock in the service and a millisecond clock in Redis, the refinement holds for all runs if and only if scripts run at most 4001 ms after their request read the clock |
| `CounterHistory.ClosedForm` | quotaenforcer/src/store.rs:18-35 | after any charges and refunds the counter is the signed total less the least prefix total |
| `CounterHistory.LeastPrefixTotalIsLeast` | quotaenforcer/src/store.rs:28-35 | that least prefix total is below every prefix total, the empty one included, and is one of them |
| `CounterHistory.StoreClosedForm` | quotaenforcer/src/store.rs:18-35 | the same on the expiring store: what it shows of a counter at the end of any timely run is the signed total of that counter's charges and refunds less the least prefix total |
| `CounterHistory.CounterBounds` | quotaenforcer/src/store.rs:18-35 | the counter lies between charges less refunds and the total charged |
| `CounterHistory.ChargesAddUp` | quotaenforcer/src/store.rs:18-24 | without refunds a counter grows by exactly what was charged |
| `CounterHistory.OrderOfChargesIsIrrelevant` | quotaenforcer/src/store.rs:18-24 | all interleavings of the same charges leave the same counter |
| `CounterHistory.BalanceIsHistory` | quotaenforcer/src/service.rs:45-105 | a counter inside a run of any requests depends only on the effects on that counter, in order |
| `CounterHistory.AnswersInFull` | quotaenforcer/src/service.rs:45-105 | on the store: every field of every answer from the balance before, the cap and the window; a check is allowed exactly when its cost, 1 if none was given, still fits |
| `CounterHistory.AnswersWithoutACounter` | quotaenforcer/src/service.rs:190-247 | what is answered without touching a counter, and in which order: invalid, unconfigured (allowed, with zeros), no unit, unavailable |
| `CounterHistory.SpentStaysDenied` | design/quotaenforcer.md:779-786 | on the store: once a charge has answered that nothing remains, every later check of the same window under no larger cap is denied until a refund |
| `CounterHistory.ResetLosesNoCharge` | quotaui/bff/src/operations.ts:155-177 | a reset whose read and refund fall in one window leaves exactly the charges that ran between the two |
| `CounterHistory.ResetShowsOnlyLaterCharges` | quotaui/bff/src/operations.ts:155-197 | the whole reset on the expiring store: refunding what the first answer said makes the re-read answer exactly the charges that ran between the two reads |
| `CounterHistory.ResetAcrossRollover` | quotaui/bff/src/operations.ts:168-177 | after a rollover the refund floors the new window's counter and leaves the previous one alone |
| `Overshoot.BoundedOvershoot` | design/quotaenforcer.md:779-786 | with N check-then-charge clients of cost at most C under caps at most L, any interleaving, refunds, failing calls and rollovers: consumed plus everything passed but not charged, wherever it will land, is at most L + (N-1)*min(C, L) |
| `Overshoot.BoundedOvershootInStore` | quotaenforcer/src/service.rs:45-85 | the same protocol over the expiring store: each decision is the store's own, and its counter is within the bound |
| `OvershootExact.OvershootIsAttained` | design/quotaenforcer.md:779-786 | the bound is the best possible: for every setting and instant a run reaches it exactly |
| `OvershootExact.TwoWindows` | quotaenforcer/src/window.rs:29-72 | an interval no longer than the unit's shortest window meets at most two windows |
| `OvershootExact.BoundaryBurst` | regional-rate-limiter-design.md:293-296 | without refunds, what such an interval charges is at most twice the per-window bound |
| `LimitTable.QueryIsResolve` | quotaenforcer/src/config.rs:147-169 | the ordered query has exactly one possible result, which is the exact row, else the default row, else nothing |
| `LimitTable.ResolvedNamesAreValid` | quotamgmt/src/main/java/com/anthropic/quotamgmt/validation/LimitValidator.java:23-24 | a row resolves only for a service and rate limit id that pass the validator |
| `ConfigCache.Cache.GetFresh` | quotaenforcer/src/config.rs:104-110 | a hit is served only strictly before its expiry |
| `ConfigCache.Cache.GetAny` | quotaenforcer/src/config.rs:113-116 | the last stored value is served whatever its age |
| `ConfigCache.Cache.Store` | quotaenforcer/src/config.rs:118-137 | the entry is replaced, with the positive or negative base time and 0 to 5 s of jitter |
| `ConfigCache.Cache.Resolve` | quotaenforcer/src/config.rs:83-102 | one undisturbed resolve: a fresh hit, else the database's answer stored, else the last known value or unconfigured with nothing stored |
| `ConfigCache.BoundedStaleness` | quotaenforcer/src/config.rs:83-137 | under any interleaving of resolves and any history of the table, a returned cap was the limit and unit of the row the resolution query returned less than 35 s + D ago, and for an unconfigured answer the query returned no row less than 10 s + D ago |
| `ConfigCache.Convergence` | quotaenforcer/src/settings.rs:51-53 | once a key's answer has settled, every resolve begun 35 s + D later returns it, and a stale unconfigured is gone after 10 s + D |
| `ConfigCache.EveryCapWasAnAnswer` | quotaenforcer/src/config.rs:90-101 | across any pattern of failures, every cap returned was the limit and unit of the row the resolution query returned for that key at some earlier instant |
| `ConfigCache.FailureServesTheLatest` | quotaenforcer/src/config.rs:95-100 | a failed resolve returns the latest value stored for its key, whoever stored it, and changes no entry |
| `ConfigCache.EntryStays` | quotaenforcer/src/config.rs:83-137 | nothing but a stored answer for its own key changes an entry, so failures never extend one's life |
| `ConfigCache.StoredIsServed` | quotaenforcer/src/config.rs:83-110 | for 30 s after a cap was stored, 5 s after an unconfigured, every resolve of the key returns it at once without a query, until another answer is stored |
| `ConfigCache.EveryExpiryOccurs` | quotaenforcer/src/config.rs:118-137 | expiries are spread over every millisecond from 30 to 35 s, or 5 to 10 s, after the store |
| `ConfigCache.ExpiredIsAskedAgain` | quotaenforcer/src/config.rs:86-90 | over any stretch of a run: a key whose entry has expired is queried by every later resolve until an answer is stored, whatever failed in between |
| `ConfigCache.ReturnedCapsAreWellNamed` | quotaenforcer/src/config.rs:149-155 | caps come back only for valid names and with a specified unit, which is what key injectivity rests on |
| `ControlPlane.LimitRepository.AuditWrite` | schema/postgres.sql:68-90 | the trigger writes one audit row with both snapshots and the actor, or fails and writes none when no actor is set |
| `ControlPlane.LimitRepository.InsertRow` | quotamgmt/src/main/java/com/anthropic/quotamgmt/store/LimitRepository.java:69-89 | an insert adds a row under a new id, or fails by the first violated constraint |
| `ControlPlane.LimitRepository.UpdateRow` | quotamgmt/src/main/java/com/anthropic/quotamgmt/store/LimitRepository.java:103-122 | an update changes value and unit of the one row of the tuple, never its id or tuple, or reports it missing |
| `ControlPlane.LimitRepository.DeleteRow` | quotamgmt/src/main/java/com/anthropic/quotamgmt/store/LimitRepository.java:154-170 | a delete removes that row; a missing one is an error unless allowed, and then nothing changes |
| `ControlPlane.LimitRepository.InAuditedTx` | quotamgmt/src/main/java/com/anthropic/quotamgmt/store/LimitRepository.java:242-259 | a transaction commits rows and audit row together or restores both, and either way is one transaction of the specification, sequence gaps included; what that does to the table is `AuditLog.CreateIsExact`, `UpdateIsExact` and `DeleteIsExact` |
| `AuditLog.CreateIsExact` | quotamgmt/src/main/java/com/anthropic/quotamgmt/store/LimitRepository.java:69-89 | in every reachable state a create adds exactly one row, under a new id, with the tuple, value and unit; when it succeeds, and which failure has which code |
| `AuditLog.UpdateIsExact` | quotamgmt/src/main/java/com/anthropic/quotamgmt/store/LimitRepository.java:96-147 | in every reachable state an update gives exactly the row of its tuple the value and unit, or adds it where allowed; when it succeeds or fails, by code |
| `AuditLog.DeleteIsExact` | quotamgmt/src/main/java/com/anthropic/quotamgmt/store/LimitRepository.java:154-170 | in every reachable state a delete removes exactly the row of the tuple it names; when it succeeds, answers, or fails as missing or invalid |
| `AuditLog.RegisterIsExact` | quotamgmt/src/main/java/com/anthropic/quotamgmt/store/ServiceRepository.java:33-54 | registering a service succeeds exactly for a valid new name, and then only adds it |
| `AuditLog.RowsAreRegistered` | schema/postgres.sql:27-27 | the foreign key: every row of every reachable table is of a registered service |
| `AuditLog.AuditReplay` | schema/postgres.sql:68-94 | in every reachable state folding the audit log from empty rebuilds the table exactly |
| `AuditLog.EveryPrefixWasAState` | schema/postgres.sql:68-94 | every prefix of k audit rows rebuilds the table as it stood after the k-th committed mutation |
| `AuditLog.ReplayDependsOnHistories` | schema/postgres.sql:68-94 | what a log rebuilds depends only on the order within each config id |
| `AuditLog.OneRowPerMutation` | quotamgmt/src/main/java/com/anthropic/quotamgmt/store/LimitRepository.java:242-259 | an event adds exactly one audit row with its actor and time or changes neither table nor log, and a failed one never changes them |
| `AuditLog.LogOnlyGrows` | schema/postgres.sql:50-61 | along every run the log is append-only |
| `AuditLog.AuditChains` | schema/postgres.sql:76-88 | each config id's history is one insert, then updates, then at most one delete, each old snapshot equal to the previous new one and the tuple never changing; audit ids strictly grow |
| `AuditLog.DeleteEndsTheChain` | schema/postgres.sql:84-88 | nothing follows a deletion: ids are never reused |
| `AuditLog.TupleHistoryIsComplete` | quotamgmt/src/main/java/com/anthropic/quotamgmt/store/AuditRepository.java:33-66 | filtering the log by tuple misses no row: all rows of one config id name one tuple, deletions included |
| `AuditLog.LastRowIsCurrent` | quotamgmt/src/main/java/com/anthropic/quotamgmt/store/AuditRepository.java:33-66 | the last audit row about any tuple shows the tuple's current row, across deletion and re-creation, and a tuple the log never names has none |
| `AuditLog.TableIsValid` | quotamgmt/src/main/java/com/anthropic/quotamgmt/LimitAdminService.java:74-110 | every reachable table holds validated rows, with unique ids and unique tuples |
| `PageToken.Base64RoundTrip` | quotamgmt/src/main/java/com/anthropic/quotamgmt/paging/PageToken.java:16-17 | decoding unpadded base64url gives back every byte string, and only the empty one encodes to the empty token |
| `PageToken.DecimalRoundTrip` | quotamgmt/src/main/java/com/anthropic/quotamgmt/paging/PageToken.java:23-45 | parsing the printed form gives back every 64-bit number, the least one included |
| `PageToken.TokenRoundTrip` | quotamgmt/src/main/java/com/anthropic/quotamgmt/paging/PageToken.java:22-57 | every non-empty cursor text and every 64-bit cursor survives encode and decode |
| `PageToken.NameRoundTrip` | quotamgmt/src/main/java/com/anthropic/quotamgmt/paging/PageToken.java:28-57 | every non-empty ASCII name survives the trip through bytes and token |
| `PageToken.CharactersAreTheAlphabet` | quotamgmt/src/main/java/com/anthropic/quotamgmt/paging/PageToken.java:16-17 | the characters are the URL-safe alphabet in its order, both ways |
| `PageToken.DecodesExactly` | quotamgmt/src/main/java/com/anthropic/quotamgmt/paging/PageToken.java:53-53 | base64url decoding succeeds exactly on strings of the alphabet, with or without padding, that spell out bytes by position, and yields those |
| `PageToken.ParsesExactly` | quotamgmt/src/main/java/com/anthropic/quotamgmt/paging/PageToken.java:41-41 | parsing succeeds exactly on the ways to write a 64-bit number, sign and leading zeros included, and yields it |
| `PageToken.TokensMeanWhatTheySpell` | quotamgmt/src/main/java/com/anthropic/quotamgmt/paging/PageToken.java:32-57 | a numeric token is accepted exactly when empty or base64url for a 64-bit number written out, a name token exactly when base64url for some bytes, and means that; any other is an invalid argument |
| `Paging.ClampPageSize` | quotamgmt/src/main/java/com/anthropic/quotamgmt/validation/LimitValidator.java:101-106 | page sizes end up in 1 to 1000: one already there is kept, a larger one is 1000, and none is 100 |
| `Paging.WalkIsExact` | quotamgmt/src/main/java/com/anthropic/quotamgmt/store/LimitRepository.java:173-203 | over tables that change between pages: keys come strictly in order, hence none twice, each page shows only keys that matched when it was fetched, and every key that matched throughout is shown |
| `Paging.SettledWalkTerminates` | quotamgmt/src/main/java/com/anthropic/quotamgmt/store/AuditRepository.java:50-94 | when new rows only appear behind the cursor, the number of pages is bounded by the first snapshot: the walk ends |
| `Paging.SettledWalkIsSnapshot` | quotamgmt/src/main/java/com/anthropic/quotamgmt/store/AuditRepository.java:50-94 | such a walk shows exactly the first snapshot in exactly max(1, ceil(n/size)) pages |
| `Listings.Scan` | quotamgmt/src/main/java/com/anthropic/quotamgmt/store/LimitRepository.java:219-235 | accumulating a result set row by row yields the selection, and stops at the limit |
| `Listings.SelectIsFetched` | quotamgmt/src/main/java/com/anthropic/quotamgmt/store/LimitRepository.java:176-192 | that selection is the keyset query: in order, after the cursor, nothing skipped |
| `Listings.List` | quotamgmt/src/main/java/com/anthropic/quotamgmt/store/LimitRepository.java:173-203 | a list call fetches one row more than a page, returns a page, and encodes its last key when there is more; a bad token is an error |
| `Listings.ListingIsExact` | quotamgmt/src/main/java/com/anthropic/quotamgmt/store/LimitRepository.java:173-203 | a client that follows the string tokens from empty to empty receives every stable matching row once, in order, nothing twice, and on each page only rows that stood so and matched when it was fetched |
| `Listings.SettledListing` | quotamgmt/src/main/java/com/anthropic/quotamgmt/store/AuditRepository.java:50-94 | the same when rows that appear later sort before everything the first call could see |
| `Listings.StaticListing` | quotamgmt/src/main/java/com/anthropic/quotamgmt/store/LimitRepository.java:196-203 | over a table that does not change the client receives exactly the matching rows in max(1, ceil(n/size)) calls, and no walk is longer |
| `Endpoints.ListLimits` | quotamgmt/src/main/java/com/anthropic/quotamgmt/store/LimitRepository.java:173-194 | the limit listing: service scope, optional filters, and failure exactly for a malformed token |
| `Endpoints.LimitWalkIsExact` | quotamgmt/src/main/java/com/anthropic/quotamgmt/store/LimitRepository.java:173-203 | the exact walk for limits, over tables of any reachable databases, with the rows each page shows |
| `Endpoints.LimitsAreFiltered` | quotamgmt/src/main/java/com/anthropic/quotamgmt/store/LimitRepository.java:176-188 | every limit received is of the asked service and has the customer and rate limit asked for, when any |
| `Endpoints.FilteredLimitIsListed` | quotamgmt/src/main/java/com/anthropic/quotamgmt/store/LimitRepository.java:173-194 | a limit of the asked service that passes every filter set and stays throughout is received |
| `Endpoints.StaticLimitWalk` | quotamgmt/src/main/java/com/anthropic/quotamgmt/store/LimitRepository.java:173-203 | an unchanging limit table is listed exactly, in max(1, ceil(n/size)) calls |
| `Endpoints.ListAuditEntries` | quotamgmt/src/main/java/com/anthropic/quotamgmt/store/AuditRepository.java:50-94 | the audit listing: newest first, its four filters, and failure exactly for a malformed token |
| `Endpoints.AuditWalkIsSnapshot` | quotamgmt/src/main/java/com/anthropic/quotamgmt/store/AuditRepository.java:50-94 | walking the audit log while a run keeps appending ends, and shows exactly the matching rows of the log as it stood at the first call |
| `Endpoints.EntriesAreFiltered` | quotamgmt/src/main/java/com/anthropic/quotamgmt/store/AuditRepository.java:53-70 | every entry received is about the asked service, and has the config id and tuple and is no older than asked for, when any |
| `Endpoints.FilteredEntryIsListed` | quotamgmt/src/main/java/com/anthropic/quotamgmt/store/AuditRepository.java:50-94 | an entry of the first call's log that passes every filter set is received by the end |
| `Endpoints.ListServices` | quotamgmt/src/main/java/com/anthropic/quotamgmt/store/ServiceRepository.java:74-105 | the service listing: the allow-set unless an administrator, and failure exactly for a malformed token |
| `Endpoints.ServiceWalkIsExact` | quotamgmt/src/main/java/com/anthropic/quotamgmt/store/ServiceRepository.java:74-105 | the exact walk for services under any total collation with the empty string first; every row shown was registered and in the caller's scope when its page was fetched |
| `Endpoints.ServicesAreScoped` | quotamgmt/src/main/java/com/anthropic/quotamgmt/store/ServiceRepository.java:76-84 | every service received is in the allow-set unless the caller is an administrator, and one that is, or any for an administrator, is received when it stays throughout |
| `Endpoints.StaticServiceWalk` | quotamgmt/src/main/java/com/anthropic/quotamgmt/store/ServiceRepository.java:74-105 | an unchanging set of services is listed exactly, in max(1, ceil(n/size)) calls |
| `EndToEnd.CachedCapsAreWellNamed` | quotaenforcer/src/config.rs:147-169 | a cap that any run of any cache over tables the control plane wrote returned comes with a valid service and rate limit id and a specified unit |
| `EndToEnd.EveryAnswerIsTheLedgers` | quotaenforcer/src/service.rs:45-105 | over any writes of the control plane and any interleaved, failing or stale caches, requests whose scripts run at most 4001 ms after their clock reads are all answered as the ledger answers, and none with an internal error |
| `EndToEnd.ResetsRefundWhatTheyRead` | quotaui/bff/src/operations.ts:168-177 | a reset of the back office goes on to exactly the refund the data-plane reset theorem is about |
| `Reviews.ReviewStore.Create` | quotaui/bff/src/reviews.ts:56-67 | a new pending review is added under its id and no other changes |
| `Reviews.ReviewStore.Decide` | quotaui/bff/src/reviews.ts:78-95 | an unknown id is 404, else a decided review 409, else its own initiator 403, and these change nothing; otherwise exactly that review's status and decider are recorded |
| `Reviews.ActionLog.Append` | quotaui/bff/src/actionlog.ts:29-33 | entries are appended with the next number and never altered |
| `Reviews.ReasonsFollowThePolicy` | quotaui/bff/src/policy.ts:20-37 | there is a reason for review exactly for a change to a default, a window reset or a refund above the threshold, as the policy's settings say, and it is the one that applies |
| `Reviews.Backoffice.Submit` | quotaui/bff/src/routes/ops.ts:31-66 | a missing key part, an invalid limit or an amount outside 1 to 1,000,000,000 is refused with 400, then a user without the right with 403; otherwise a review is created exactly for what the policy's settings have reviewed, and the rest runs at once |
| `Reviews.Backoffice.Approve` | quotaui/bff/src/routes/reviews.ts:22-44 | approval succeeds exactly for a user with the right to, of a pending review of another; then it decides first and starts one execution of that review's operation, and otherwise nothing changes |
| `Reviews.Backoffice.Reject` | quotaui/bff/src/routes/reviews.ts:47-58 | rejection succeeds exactly in the same cases, marks the review rejected and starts nothing |
| `Reviews.Backoffice.AfterUsageRead` | quotaui/bff/src/operations.ts:168-186 | a reset refunds what it read, logs without a call when that is nothing, and stops when the read failed |
| `Reviews.Backoffice.AfterCall` | quotaui/bff/src/operations.ts:125-151 | an executor logs once, after its call succeeded, and not when it failed |
| `Reviews.ReviewSafety` | quotaui/bff/src/routes/reviews.ts:22-58 | over all runs: an execution has a review exactly when it changes a default, resets a window or refunds above the threshold and the policy says so; the review was approved by another person with the right to, each review executes at most once, an undecided or rejected one never, what ran directly was permitted, and no execution changes the backend twice |
| `Reviews.OnlyReviewableIsReviewed` | quotaui/bff/src/routes/limits.ts:104-139 | over all runs a review exists only for what the policy's settings have reviewed |
| `Reviews.ExecutionsCameAbout` | quotaui/bff/src/routes/reviews.ts:22-44 | over all runs every execution was submitted, with that very operation, by its actor or, when reviewed, by its initiator before its actor approved that submission |
| `Reviews.PhaseStep` | quotaui/bff/src/operations.ts:201-214 | how an execution goes on: read, call, log, or end at a failure |
| `Reviews.CallsAreRight` | quotaui/bff/src/operations.ts:125-177 | over all runs a refund calls with its own amount, and a reset first reads and then calls with exactly what it read |
| `Reviews.LogsAreRight` | quotaui/bff/src/operations.ts:136-186 | over all runs the log entry of a refund carries its amount, and that of a reset what it read and refunded, 0 when there was nothing |
| `Reviews.OneEntryPerCompletion` | quotaui/bff/src/operations.ts:125-214 | over all runs an execution has a log entry if and only if it completed, exactly one, with its actor, initiator and approver, numbered without gaps |
| `Reviews.DecisionsAreFinal` | quotaui/bff/src/reviews.ts:83-93 | over all runs a decided review never changes again |
| `Reviews.RunGoesOn` | quotaui/bff/src/routes/reviews.ts:22-58 | any run extended by any enabled step is again a run, so the safety results cover every order of requests, answers and failures |
| `StructCodec.ObjectToStruct` | quotaui/bff/src/struct.ts:58-62 | the encoding loop computes the field-by-field encoding |
| `StructCodec.StructToObject` | quotaui/bff/src/struct.ts:33-39 | a missing struct becomes null, one without fields an empty object, and otherwise the decoding loop computes the field-by-field decoding |
| `StructCodec.RoundTrip` | quotaui/bff/src/struct.ts:13-62 | decoding what was encoded yields the normal form of any value at any depth: lists, nulls and field order kept |
| `StructCodec.NormalIffClean` | quotaui/bff/src/struct.ts:41-56 | a value is its own normal form exactly when nothing in it is undefined, non-data, or a field named `__proto__` |
| `StructCodec.ObjectRoundTrip` | quotaui/bff/src/struct.ts:13-62 | an object survives the codec unchanged if and only if it is clean in that sense |
| `StructCodec.ProtoIsLost` | quotaui/bff/src/struct.ts:58-62 | the failing input: an object with the single field `__proto__` comes back empty |
| `StructCodec.DecodedIsClean` | quotaui/bff/src/struct.ts:13-39 | whatever comes off the wire, with kinds, lists, structs or fields missing, decodes to a value the codec loses nothing of |
| `StructCodec.DecodingIsStable` | quotaui/bff/src/struct.ts:13-62 | any wire value, encoded again after decoding, decodes to the same value |
| `StructCodec.EncodesKindByKind` | quotaui/bff/src/struct.ts:41-62 | each type encodes to its own kind, lists element by element, objects field for field, and anything else to null |
| `StructCodec.DecodesKindByKind` | quotaui/bff/src/struct.ts:13-39 | each wire kind decodes to its own type, lists element by element, structs field for field, and missing parts to null or empty |

## Left out

- Values are unbounded integers: 64-bit overflow, and Lua's loss of precision above 2^53, are not modelled.
- Services and Redis read one time, to the nanosecond and to the millisecond; skew between them is not modelled separately from the delay of a script.
- Redis replication, failover, resharding and eviction; scripts are atomic and no data is lost.
- Years beyond 9999 (window ids would have five digits) and before 0.
- Clients that take a failed check as leave to charge, as the design wants of its client library, which is not built: the overshoot bound is for clients that charge only after an allowing answer. Retries are further requests.
- Transactions are serial: Postgres isolation anomalies, deadlocks and connection failures are not modelled.
- `changed_at` and the gaps of identity sequences are inputs of a transaction.
- AuditLog.AuditChains: audit ids grow in commit order, which holds for serial transactions only.
- Endpoints.AuditWalkIsSnapshot: rests on the same order of audit ids.
- SQL text, indexes and query plans: a query is what it selects, over rows given in key order.
- Overshoot.BoundedOvershoot: the unit of the limit is fixed during a run, while caps may vary between nodes and over time.
- OvershootExact.BoundaryBurst: a charge belongs to the interval by the instant its request read the clock.
- ConfigCache.BoundedStaleness: speaks of resolves that the database answered; after failures only `EveryCapWasAnAnswer` holds.
- PageToken.NameRoundTrip: ASCII only; Unicode digits accepted by the Java number parser and malformed UTF-8 are not modelled.
- Who may edit, view or approve is a given predicate; roles, grants and bearer tokens are not modelled.
- Parsing of request bodies: keys, amounts and limits reach the routes as strings and integers.
- Creating a limit through the BFF, which the review policy never sees, and editing a service, which the backend does not support.
- Exactly-once execution of an approved review: the decision is recorded first, so only at most once holds.
- Attribution of a human behind the BFF to `changed_by`: the model goes from the principal's name to `changed_by`.
- Texts of review reasons, time stamps and request ids of reviews and log entries, and the listing of both.
- Exact counts across two concurrent resets, and monotonic freshness of the cache: the code does not provide them.
- JavaScript numbers are reals: NaN, infinities and negative zero in audit snapshots are not modelled.
- gRPC, Express and JDBC plumbing, settings, health checks, deployment files and the browser front end.
- Features that are designed but not built: client library, circuit breaker, token lease, phase offset, change-feed polling.
