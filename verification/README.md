# cert-manager in Dafny

A model of the parts of cert-manager whose correctness is hardest to see from the code, and
proofs of what they promise. `dafny verify dfyconfig.toml` checks all of it.

- **Cron** (`Calendar`, `CronTime`, `CronBits`, `CronSpec`, `CronSchedule`, `CronParser`, `CronRunner`).
  The search for the next activation is proved to find the least matching second, over a
  proleptic Gregorian calendar built from day numbers; the parser is proved to produce the bit
  sets its text describes; the runner is proved over every sequence of events.
- **ACME Challenges** (`Challenge`). One stored object, Syncs whose calls, finalizer apply and
  status write are separate steps that may be lost, and everyone else who may write in between.
- **ACME Orders** (`Order`, `OrderSync`, `OrderProtocol`). The Sync of an Order in place, the
  function that specifies it, and runs with stale reads, lost writes and a server of its own.
- **Both together** (`OrderChallenges`). Which Challenges an Order creates and deletes, and how
  their set settles.
- **Scheduled work queue** (`WorkQueue`), **filtered Secret cache** (`SecretCache`), and the
  order-independent list algorithms: **Secret ownership** (`SecretOwner`), **CA bundles**
  (`Bundle`), **comparison up to order** (`Unsorted`) and **annotation filtering**
  (`Annotations`). `Sorting` stands for the sort functions of the Go library.

Calls to the outside (clocks, the ACME server, solvers, the API server, failures of each) are
parameters or steps of a state machine; the theorems hold for all their values.

## Where a promise fails, and exactly when

- An Order whose finalize answer and status write were both lost is failed by the next Sync if
  the server is still processing it, because the 403 answer is then taken as final. The server
  goes on to issue the certificate: `OrderProtocol.StrandedRun`. The same happens with the
  server already done when a 4xx, a rate limit for example, answers the request for the order
  or for its certificate: `OrderProtocol.RateLimitedRun`. `Order.FailsExactly` is the exact
  condition for every Sync, `Order.StrandsExactly` for an order that is already valid, and
  `OrderProtocol.NeverStranded` what holds otherwise.
- The queue's Add promises to execute the callback after the duration. An Add made while the
  callback for the same key runs is cancelled when that callback ends, because the deferred
  Forget goes by key. `WorkQueue.ReAddLost` is such a run and `WorkQueue.LostExactly` the exact
  condition, on the state in which Add is called.
- The two Secret caches cover a Secret between them only while its label stays the same.
  `SecretCache.OutOfStepMisses` is a label change seen by one of them, `SecretCache.MissesExactly`
  the exact condition, and `SecretCache.SteadyNeverMisses` what holds otherwise.
- A Challenge Sync keeps solver resources guarded however stale its reads are, as long as they
  do not go back behind a version it has already read: `Challenge.NoLeak`. A cache that goes
  back, as one may after a restart, can make it present for an object that is already cleaned up
  and gone: `Challenge.StaleReadLeaks` and, exactly, `Challenge.StaleReadExact`.

## Model

| member | source | states |
|---|---|---|
| `CronSpec.Next` | internal/cron/spec.go:66-189 | for every six bit sets and every start, terminates with the least second after the start that matches on the wall clock and lies at most five years past the rounded-up start, in the caller's zone; the zero time exactly when there is none |
| `CronSpec.MonthStep` | internal/cron/spec.go:108-121 | a month bump, with or without the one-time reset to the first of the month, skips no matching second, moves strictly forward and lands aligned; a bump to January ends the year |
| `CronSpec.DayStep` | internal/cron/spec.go:128-147 | the same for a day bump; after it the hour is 0, so the repair for a missing midnight cannot apply at a fixed offset |
| `CronSpec.HourStep` | internal/cron/spec.go:150-160 | the same for an hour bump |
| `CronSpec.MinuteStep` | internal/cron/spec.go:163-173 | the same for a minute bump, where truncation to the minute is the minute on the wall clock |
| `CronSpec.SecondStep` | internal/cron/spec.go:176-186 | the same for a second bump |
| `CronSpec.AlignedAtBoundary` | internal/cron/spec.go:95-186 | where a coarser field has just matched after a bump, the finer fields stand at their first values, so a later bump needs no reset |
| `CronSpec.SkipMonth` | internal/cron/spec.go:108-121 | no second of a month outside the set matches |
| `CronSpec.SkipDay` | internal/cron/spec.go:128-147 | no second of a day that fails the day-of-month and day-of-week rule matches |
| `CronSpec.LimitStep` | internal/cron/spec.go:98-103 | past the year limit no candidate is left; before it the search still has a bounded distance to go |
| `CronSpec.FoundStep` | internal/cron/spec.go:188-188 | where all five fields match, the search stands on the least candidate |
| `CronTime.DateOfFields` | internal/cron/spec.go:113-113 | a time rebuilt from its own civil fields is that time |
| `Calendar.MonthOfDayUnique` | internal/cron/spec.go:108-147 | a day number lies in one month only, the one whose first days surround it |
| `Calendar.GregorianMonths` | internal/cron/spec.go:108-121 | the length of every month of every year, leap years by 4, 100 and 400, and the day number of 1 January 1970 |
| `CronTime.FieldsOfDate` | internal/cron/spec.go:113-132 | year, month, day, hour, minute and second within their ranges are the fields of the date they make |
| `CronTime.WeekdayFromEpoch` | internal/cron/spec.go:193-204 | the weekday of every second, counted from Thursday, 1 January 1970 |
| `CronBits.HasBitIsMember` | internal/cron/spec.go:108-108 | the shift-and-mask test of a field is membership in its set |
| `CronSchedule.Every` | internal/cron/constantdelay.go:22-29 | rounds down to whole seconds, never below one second |
| `CronSchedule.NextOf` | internal/cron/constantdelay.go:33-35 | computes the next activation of either kind of schedule, defined for a crontab as the least candidate |
| `CronSchedule.NextIsLater` | internal/cron/constantdelay.go:31-35 | every next activation is strictly later, on a whole second, in the same zone, or the zero time |
| `CronSchedule.DelayIsExact` | internal/cron/constantdelay.go:22-35 | the next activation of a delay is exactly that many whole seconds, at least one, after the second the start lies in |
| `CronSchedule.ZeroMeansNever` | internal/cron/spec.go:64-66 | from the zero time on, the zero time is returned if and only if nothing within the limit matches |
| `CronRunner.StepKeepsInv` | internal/cron/cron.go:239-305 | every event, with ties sorted in any way, keeps IDs unique and allotted, entries sorted while running, every planned time on its schedule and every logged run on schedule and not early |
| `CronRunner.WakeExact` | internal/cron/cron.go:264-277 | a wake-up activates every due entry exactly once and nothing else, loses no entry, and leaves every nonzero next time after now |
| `CronRunner.WakeReplans` | internal/cron/cron.go:268-277 | every due entry keeps its ID and schedule, remembers when it was due and gets its schedule's next activation after now; every other entry is unchanged |
| `CronRunner.AddExactly` | internal/cron/cron.go:279-284 | the entries are the old ones and one with the next ID, planned by its schedule if the runner runs |
| `CronRunner.RemoveExactly` | internal/cron/cron.go:345-353 | exactly the entry with that ID is gone |
| `CronRunner.StartExactly` | internal/cron/cron.go:239-247 | every entry is planned by its schedule from the start, and otherwise kept; a second start does nothing |
| `CronRunner.StopExactly` | internal/cron/cron.go:290-293 | a stop ends the running and changes nothing else, and a snapshot changes nothing |
| `CronRunner.AlwaysPlanned` | internal/cron/cron.go:239-305 | in every run, while the runner runs, each entry stands as its schedule planned it at some event, untouched since |
| `CronRunner.ZeroOnlyWhenNever` | internal/cron/cron.go:239-305 | so its next time is zero only if its schedule had nothing left at that event |
| `CronRunner.RunWakesExactly` | internal/cron/cron.go:239-305 | the same for each wake-up of every run of add, remove, start, stop, snapshot and wake events |
| `CronRunner.RunIsOnSchedule` | internal/cron/cron.go:264-277 | in every run, each job that ran was scheduled for a second its crontab fields accept, and was not early |
| `CronRunner.RemovedNeverRuns` | internal/cron/cron.go:204-212 | in every run, an ID once removed is never activated again and never allotted again |
| `CronRunner.EarlyBreak` | internal/cron/cron.go:269-272 | in a sorted list nothing after the first entry that is not due is due |
| `CronRunner.LessIsWeakOrder` | internal/cron/cron.go:85-96 | the order with zero times last is a strict weak order, so sorting by it makes sense |
| `CronRunner.FireDue` | internal/cron/cron.go:268-277 | the loop with its early break, replanning entries as it goes, does what running all due entries of the list would do |
| `CronRunner.Plan` | internal/cron/cron.go:243-247 | every entry gets the next activation of its own schedule |
| `CronRunner.Filter` | internal/cron/cron.go:345-353 | keeps exactly the entries with another ID, in order |
| `CronRunner.Cron.AddEntry` | internal/cron/cron.go:159-174 | takes the add step, keeps the invariant, and returns an ID no entry has |
| `CronRunner.Cron.RemoveEntry` | internal/cron/cron.go:204-212 | takes the remove step and keeps the invariant |
| `CronRunner.Cron.StartRun` | internal/cron/cron.go:239-251 | takes the start step and keeps the invariant |
| `CronRunner.Cron.StopRun` | internal/cron/cron.go:321-327 | takes the stop step and keeps the invariant |
| `CronRunner.Cron.WakeUp` | internal/cron/cron.go:264-277 | takes the wake step and keeps the invariant |
| `CronRunner.Cron.SortEntries` | internal/cron/cron.go:251-251 | leaves a sorted permutation of the entries |
| `CronRunner.Cron.Timer` | internal/cron/cron.go:253-260 | waits for the smallest time to any planned activation, and 100000 hours if nothing is planned |
| `CronRunner.Cron.Entries` | internal/cron/cron.go:337-343 | a copy of all entries in order |
| `CronParser.GetBits` | internal/cron/parser.go:354-367 | both the shift form and the loop form set exactly every step-th bit of the range, and the 64-bit counter never wraps |
| `CronParser.ShiftForm` | internal/cron/parser.go:358-360 | two shifted masks are the bits of the range with step 1 |
| `CronParser.RangeBounds` | internal/cron/parser.go:314-325 | an accepted range lies within the bounds, is not empty, and has a step between 1 and the largest signed integer |
| `CronParser.GetRange` | internal/cron/parser.go:262-328 | fails exactly if the text spells no range; else sets the numbers of the range it spells, and the star bit exactly for a star with step 1 |
| `CronParser.SpellsExactly` | internal/cron/parser.go:262-328 | splitting at slashes and hyphens parses a text to a range if and only if the text is put together, by the grammar, from pieces that mean that range |
| `CronParser.GetField` | internal/cron/parser.go:244-255 | fails exactly if some comma part does; else the value bits are the union of the parts and the star bit says whether a part is a star |
| `CronParser.FieldsOfJoined` | internal/cron/parser.go:244-246 | parts joined by a separator are found again |
| `CronParser.ParseStandard` | internal/cron/parser.go:95-161 | fails on an empty text, a bad zone or an unknown descriptor; a descriptor matches exactly the first second of its period, and five acceptable words, and no other number, exactly the seconds they describe, in the zone of the prefix |
| `CronParser.ParseFields` | internal/cron/parser.go:118-161 | accepts exactly five acceptable fields, and the schedule matches exactly the seconds they describe |
| `CronParser.ParseDescriptor` | internal/cron/parser.go:375-432 | each name gives its period, a duration the constant delay, anything else an error |
| `CronParser.NamedPeriods` | internal/cron/parser.go:375-432 | for each of the seven names, the seconds it stands for |
| `CronParser.EveryText` | internal/cron/parser.go:434-441 | what follows `@every ` is read as the duration of a constant delay, or is an error |
| `CronParser.WordsOfJoined` | internal/cron/parser.go:119-119 | fields joined by any white-space characters are found again |
| `CronParser.ZonedText` | internal/cron/parser.go:100-110 | either prefix, a zone name, a space and a rest give the zone of that name and the trimmed rest |
| `CronParser.UnzonedText` | internal/cron/parser.go:100-102 | any other text is taken whole, in the zone of the caller |
| `CronParser.Trimmed` | internal/cron/parser.go:109-109 | trimming removes white space at both ends and nothing else |
| `CronParser.FixedTimes` | internal/cron/parser.go:136-143 | numbers are minute, hour, day, month and weekday in this order; with one of the days a star the other decides, with neither a star either does |
| `CronParser.EveryMinute` | internal/cron/parser.go:136-143 | five stars describe exactly the first second of every minute |
| `CronParser.FieldBounds` | internal/cron/spec.go:29-57 | which numbers each of the six fields accepts |
| `CronParser.NamesInOrder` | internal/cron/spec.go:29-57 | month names count from 1 and weekday names from 0 in their order, and there are no others |
| `CronParser.SignedNumbers` | internal/cron/parser.go:341-351 | a plus sign is allowed, a minus sign only before zero |
| `CronParser.Characters` | internal/cron/parser.go:331-338 | the ASCII characters that are lowered, and those that are white space |
| `CronParser.MatchesFields` | internal/cron/spec.go:193-204 | the bit-set schedule and the fields it was parsed from match the same seconds, with the day-of-month and day-of-week star rule |
| `CronParser.ReadBack` | internal/cron/parser.go:262-351 | every kind of range, printed with any numbers and with names in any case, parses to the range it was printed from |
| `CronParser.DescriptorMeaning` | internal/cron/parser.go:375-432 | each predefined schedule matches exactly the first second of the period it names |
| `Challenge.Sync` | pkg/controller/acmechallenges/sync.go:71-205 | the controller's sequence of early returns and in-place status changes has exactly the effects of the case analysis that the theorems are about |
| `Challenge.HandleError` | pkg/controller/acmechallenges/sync.go:276-321 | a retryable error changes nothing; any other leads to a failure state, expired exactly for a malformed request, and leaves presented and processing alone |
| `Challenge.AcceptChallenge` | pkg/controller/acmechallenges/sync.go:427-488 | ends in the state of the authorization, in invalid if it failed, in a failure state on a final error, and on a retryable one in what the server last said; leaves presented and processing alone |
| `Challenge.StatusExactly` | pkg/controller/acmechallenges/sync.go:71-205 | a challenge is accepted if and only if it is open, scheduled, held by the domain-qualified finalizer alone, known to the server, presented and checked; and for every answer of every call, what state, presented and processing become |
| `Challenge.CallsExactly` | pkg/controller/acmechallenges/sync.go:96-184 | exactly when Present and CleanUp are called and finalizers applied, and what that makes of the solver's resources |
| `Challenge.OutcomesFinish` | pkg/controller/acmechallenges/sync.go:427-488 | an acceptance that ended valid, invalid or with a final error finishes the Challenge: no later Sync asks, presents or accepts again |
| `Challenge.HoldSync` | pkg/controller/acmechallenges/sync.go:125-137 | a fault-free Sync takes hold of a scheduled Challenge |
| `Challenge.AskSync` | pkg/controller/acmechallenges/sync.go:152-165 | the next takes over the state of the authorization |
| `Challenge.AcceptSync` | pkg/controller/acmechallenges/sync.go:172-205 | the next presents, accepts once, and stores the state of the authorization |
| `Challenge.Solves` | pkg/controller/acmechallenges/sync.go:71-205 | from every reachable state, an open Challenge once scheduled is accepted and takes its authorization's state within three fault-free Syncs |
| `Challenge.StepKeepsInv` | pkg/controller/acmechallenges/sync.go:71-205 | every step (calls after a stale read, finalizer apply, status write, crash, lost write, scheduling, deletion, foreign finalizers) keeps outstanding resources guarded, every recorded Present true, and a released object finished |
| `Challenge.WriteKeepsInv` | pkg/controller/acmechallenges/update.go:63-92 | in particular the status write, delivered or lost, over the version that was read |
| `Challenge.ApplyKeepsInv` | pkg/controller/acmechallenges/update.go:107-121 | in particular a forced apply of finalizers |
| `Challenge.OthersKeepInv` | pkg/controller/acmechallenges/controller.go:180-203 | in particular setting processing, and deletion, at any time |
| `Challenge.NoLeak` | pkg/controller/acmechallenges/sync.go:96-137 | in every run, with reads of any earlier version from a cache that never goes back: while solver resources may be outstanding, the stored Challenge carries an ACME finalizer and is still being processed; it can only disappear with nothing outstanding |
| `Challenge.AcceptedOnlyWhenPresented` | pkg/controller/acmechallenges/sync.go:172-205 | in every such run, each acceptance came while a successful Present stood with no clean-up attempt since |
| `Challenge.AcceptedOnlyWhenChecked` | pkg/controller/acmechallenges/sync.go:186-205 | an acceptance means that the check of the same Sync passed, on an open Challenge held by the finalizer |
| `Challenge.FinalForever` | pkg/controller/acmechallenges/sync.go:89-137 | in every run, an object in a final state keeps that state for as long as it is stored |
| `Challenge.CleanSync` | pkg/controller/acmechallenges/sync.go:337-358 | one undisturbed Sync of a finished Challenge with a working clean-up removes the ACME finalizers and all resources |
| `Challenge.Quiesces` | pkg/controller/acmechallenges/sync.go:96-137 | two such Syncs from any reachable state leave it gone or at rest, with presented and processing false |
| `Challenge.RestIsStable` | pkg/controller/acmechallenges/sync.go:96-137 | a Sync of a Challenge at rest changes nothing of it |
| `Challenge.StaleReadExact` | pkg/controller/acmechallenges/controller.go:205-222 | what a read of any version presents, however old, is guarded by its own object if and only if the controller has not released that object; a read that does not go back never presents for a released one |
| `Challenge.StaleReadLeaks` | pkg/controller/acmechallenges/controller.go:205-222 | a run after which a read that goes back behind the last one does leave resources without a guard |
| `Order.SyncOrderGood` | pkg/controller/acmeorders/sync.go:63-260 | one Sync of any version of the status keeps it in agreement with the server and moving forward, and asks to finalize no order but the stored one |
| `Order.UpdateGood` | pkg/controller/acmeorders/sync.go:341-361 | a status updated from the server's order agrees with it and keeps its authorizations |
| `Order.CreateGood` | pkg/controller/acmeorders/sync.go:280-330 | creating an order keeps agreement and never disturbs orders the server already has |
| `Order.FetchFromGood` | pkg/controller/acmeorders/sync.go:397-430 | fetching metadata, stopped at any error, only fills in what was missing |
| `Order.FinalizeOrderGood` | pkg/controller/acmeorders/sync.go:537-640 | finalizing keeps agreement and forward movement on every path, the 403 path included |
| `Order.SyncIssues` | pkg/controller/acmeorders/sync.go:537-560 | an order at the server comes to be issued only by a finalize request of a Sync |
| `Order.SyncStores` | pkg/controller/acmeorders/sync.go:559-640 | if the server's order is valid, one fault-free Sync of a ready or valid Order stores the certificate |
| `Order.SyncLearns` | pkg/controller/acmeorders/sync.go:186-258 | one fault-free Sync of an open Order that is neither valid nor ready takes over the server's status, whatever it is, and keeps URL and authorizations |
| `Order.SyncFinalizes` | pkg/controller/acmeorders/sync.go:537-640 | one fault-free Sync of a ready Order whose server order is ready has it issued and stores the chain asked for |
| `Order.SyncExactly` | pkg/controller/acmeorders/sync.go:63-260 | for every answer of every call and every status of the server's order, the state of an open Order after a Sync, and which certificate, if any, it stores |
| `Order.RequestsExactly` | pkg/controller/acmeorders/sync.go:537-560 | exactly when a finalize request reaches the server, for which order, and what else changes there: nothing |
| `Order.SyncDates` | pkg/controller/acmeorders/sync.go:366-373 | a failure is dated by the Sync that found it |
| `Order.IntentExactly` | pkg/controller/acmeorders/sync.go:118-158 | exactly when a Sync sets out to create required, delete left over, or delete all Challenges |
| `Order.CreateExactly` | pkg/controller/acmeorders/sync.go:280-330 | which answers to the creation of an order fail a new Order, which leave it for a retry, and what a success stores |
| `Order.FetchExactly` | pkg/controller/acmeorders/sync.go:397-430 | up to the first authorization without an answer, what the server said of each is recorded, and nothing else changes; the Order fails exactly if that one was refused |
| `Order.FailsExactly` | pkg/controller/acmeorders/sync.go:63-260 | whatever the calls return, a Sync fails an open Order if and only if one of an explicit list holds: a 4xx from GetOrder, from finalizing or from fetching the certificate, a certificate that cannot be encoded, an invalid order, or a 403 before the order is valid |
| `Order.StrandsExactly` | pkg/controller/acmeorders/sync.go:559-640 | if the server's order is already valid: exactly on a 4xx from GetOrder, on a certificate refused or not encodable, or on a 4xx other than 403 instead of the answer to the finalize request |
| `Order.FailsWithoutFaults` | pkg/controller/acmeorders/sync.go:559-596 | with nothing failing: exactly if the server's order is invalid, or the Order is still ready while the server is processing |
| `OrderProtocol.StepKeepsInv` | pkg/controller/acmeorders/sync.go:63-260 | every step (Syncs of any earlier version, lost writes, crashes, other writers, server moves) keeps the whole stored history monotone and in agreement with the server |
| `OrderProtocol.OrderOnlyMovesForward` | pkg/controller/acmeorders/sync.go:341-373 | in every run the state never moves back, failure and a stored certificate are absorbing for the whole status, URL and authorizations are fixed, and a failure time is set exactly in failure states |
| `OrderProtocol.AtMostOneFinalized` | pkg/controller/acmeorders/sync.go:280-361 | in every run, however many orders were created for it and at whatever two times one looks, all orders processed or valid at the server are the one whose URL is stored |
| `OrderProtocol.NeverStranded` | pkg/controller/acmeorders/sync.go:664-722 | from every reachable state that has not failed, with an order valid at the server and the challenges done, at most two fault-free Syncs reach valid with the certificate stored |
| `OrderProtocol.Completes` | pkg/controller/acmeorders/sync.go:186-258 | from every reachable state with the server's order ready, the Order open and its challenges done, two fault-free Syncs store the certificate of that order |
| `OrderProtocol.CreateSync` | pkg/controller/acmeorders/sync.go:280-330 | one Sync of a new Order creates it at the server and stores what was created |
| `OrderProtocol.MetadataSync` | pkg/controller/acmeorders/sync.go:397-430 | one Sync records the metadata of all authorizations |
| `OrderProtocol.Issues` | pkg/controller/acmeorders/sync.go:63-260 | the whole course: from any reachable state in which the Order is new, creation, metadata, the server's order becoming ready, and two more Syncs end valid with the certificate of the order created |
| `OrderProtocol.StrandedRun` | pkg/controller/acmeorders/sync.go:559-596 | a run that ends with a failed Order whose certificate the server has issued |
| `OrderProtocol.RateLimitedRun` | pkg/controller/acmeorders/sync.go:686-722 | a run in which the server is done, and a refusal to hand out the certificate fails the Order for good |
| `OrderSync.Reconciler.Sync` | pkg/controller/acmeorders/sync.go:63-260 | the in-place Sync has exactly the outcome that the theorems are about |
| `OrderSync.Reconciler.CreateOrder` | pkg/controller/acmeorders/sync.go:280-330 | the same for creating an order |
| `OrderSync.Reconciler.UpdateOrderStatusFromACMEOrder` | pkg/controller/acmeorders/sync.go:341-361 | the same for taking over the server's order |
| `OrderSync.Reconciler.SetOrderState` | pkg/controller/acmeorders/sync.go:366-373 | the same for a state change with its failure time |
| `OrderSync.Reconciler.FetchMetadataForAuthorizations` | pkg/controller/acmeorders/sync.go:397-430 | the same for the metadata loop with its early exits |
| `OrderSync.Reconciler.FinalizeReady` | pkg/controller/acmeorders/sync.go:537-640 | the same for finalizing, and records exactly the requests that reached the server |
| `OrderSync.Reconciler.StoreCertificateOnStatus` | pkg/controller/acmeorders/sync.go:642-661 | the same for storing a chain |
| `OrderSync.Reconciler.SyncCertificateData` | pkg/controller/acmeorders/sync.go:664-683 | the same for a valid Order without certificate |
| `OrderSync.Reconciler.SyncCertificateDataWithOrder` | pkg/controller/acmeorders/sync.go:686-722 | the same for fetching the certificate of a reported order |
| `OrderSync.PreferredChain` | pkg/controller/acmeorders/sync.go:741-810 | picks the first chain, default first, whose topmost certificate was issued under the preferred name; reports none, or the first chain that cannot be had, exactly then |
| `OrderChallenges.RequiredExactly` | pkg/controller/acmeorders/util.go:42-60 | a Challenge is required if and only if an authorization that was not valid from the start asks for it |
| `OrderChallenges.BuildPartialRequiredChallenges` | pkg/controller/acmeorders/util.go:42-60 | the loop builds exactly the required names, and fails exactly if one cannot be determined |
| `OrderChallenges.StepKeepsInv` | pkg/controller/acmeorders/sync.go:128-158 | the invariants of the Order and of all Challenges hold together over every step of either controller |
| `OrderChallenges.OnlyUnneededDeleted` | pkg/controller/acmeorders/sync.go:432-535 | in every run with stale caches and failing calls, a Sync deletes only Challenges of its own Order, and none it needs before it is valid with a certificate |
| `OrderChallenges.CompleteCleansUp` | pkg/controller/acmeorders/sync.go:483-496 | a Sync of an Order valid with a certificate deletes every Challenge of that Order and touches no other |
| `OrderChallenges.OrderMoveIsSync` | pkg/controller/acmeorders/sync.go:128-158 | while Challenges are missing or left over, the composed step of a fault-free Sync and its write create all missing ones, or else delete all left over, and change nothing else |
| `OrderChallenges.MatchedIsLeftAlone` | pkg/controller/acmeorders/sync.go:128-158 | if none is missing or left over, a Sync of an open Order leaves all Challenges alone |
| `OrderChallenges.OrderSyncFalls` | pkg/controller/acmeorders/sync.go:63-260 | a fault-free Sync of an open Order, whatever it does, raises no Challenge's share of the cost, keeps what the Order needs, and lowers a share unless only Challenges on their way out are left to do |
| `OrderChallenges.OrderMoveDrops` | pkg/controller/acmeorders/sync.go:445-496 | that Sync never raises the cost of a state, and lowers it unless only Challenges on their way out are left to do |
| `OrderChallenges.KidMoveDrops` | pkg/controller/acmechallenges/sync.go:96-137 | a fault-free Sync of a Challenge lowers the cost if it is the Order's and on its way out, and else leaves the cost alone |
| `OrderChallenges.KidGone` | pkg/controller/acmechallenges/sync.go:337-358 | a deleted Challenge without foreign finalizers is gone after one fault-free Sync |
| `OrderChallenges.KidStays` | pkg/controller/acmechallenges/sync.go:71-205 | one that is not being deleted is still there, and not being deleted, after a fault-free Sync |
| `OrderChallenges.ZeroIsSettled` | pkg/controller/acmeorders/sync.go:432-468 | cost zero means exactly that the owned Challenges are the required ones and none is being deleted |
| `OrderChallenges.RoundLowers` | pkg/controller/acmeorders/sync.go:128-158 | a stretch of any schedule in which the Order and each of its Challenges then on its way out get a turn lowers the cost, in whatever order they come |
| `OrderChallenges.FairConverges` | pkg/controller/acmeorders/sync.go:128-158 | every schedule of fault-free Syncs with as many such stretches as the cost ends with exactly the required Challenges, unless the Order fails or becomes valid on the way |
| `OrderChallenges.Converges` | pkg/controller/acmeorders/sync.go:128-158 | from every such state there is a schedule of fault-free Syncs, no longer than the cost, that ends with exactly the required Challenges and the Order as it was |
| `WorkQueue.StepKeepsInv` | pkg/scheduler/scheduler.go:97-121 | every step of callers, timers and goroutines keeps each waiting timer the one its key maps to, and each callback started at most once by a ticked timer |
| `WorkQueue.OneLiveTimerPerKey` | pkg/scheduler/scheduler.go:97-121 | in every interleaving at most one timer per key can still fire, the mapped one |
| `WorkQueue.AtMostOneCallPerAdd` | pkg/scheduler/scheduler.go:97-110 | in every interleaving each Add leads to at most one callback |
| `WorkQueue.CancelledNeverRuns` | pkg/scheduler/scheduler.go:28-54 | in every interleaving a timer cancelled before its tick never starts its callback |
| `WorkQueue.ForgetCancels` | pkg/scheduler/scheduler.go:113-121 | in every interleaving, a Forget cancels what waits for its key, so that its callback never starts, clears the key, and leaves all other keys as they were |
| `WorkQueue.AddReplaces` | pkg/scheduler/scheduler.go:97-110 | in every interleaving, an Add does the same and arms a new timer under the key |
| `WorkQueue.LogExactly` | pkg/scheduler/scheduler.go:106-109 | in every interleaving, the callbacks recorded are exactly those that were started |
| `WorkQueue.LiveRuns` | pkg/scheduler/scheduler.go:28-54 | a waiting timer let alone ticks, runs its callback once, and clears its key |
| `WorkQueue.TimerExactly` | pkg/scheduler/scheduler.go:28-54 | a tick and the exit of a cancelled goroutine change that timer alone |
| `WorkQueue.FinishExactly` | pkg/scheduler/scheduler.go:106-109 | the end of a callback ends its own timer, clears its key, cancels what waits there, and touches no other key |
| `WorkQueue.FinishCancels` | pkg/scheduler/scheduler.go:106-109 | the end of a callback cancels a waiting timer if and only if it has the same key |
| `WorkQueue.LostExactly` | pkg/scheduler/scheduler.go:94-110 | after every run: an Add can be lost, though nothing is asked for its key afterwards, if and only if at the call an expired timer of the key has a callback still to start or to end |
| `WorkQueue.NotBusyNotLost` | pkg/scheduler/scheduler.go:94-110 | otherwise it is never cancelled before its tick, in any continuation that leaves the key to it |
| `WorkQueue.BusyLoses` | pkg/scheduler/scheduler.go:106-109 | in that case a continuation of at most two more steps loses it |
| `WorkQueue.ReAddLost` | pkg/scheduler/scheduler.go:94-110 | an interleaving in which an Add made during the callback for the same key is lost |
| `WorkQueue.ScheduledWorkQueue.AddItem` | pkg/scheduler/scheduler.go:97-110 | takes the add step and keeps the invariant |
| `WorkQueue.ScheduledWorkQueue.ForgetItem` | pkg/scheduler/scheduler.go:113-121 | takes the forget step and keeps the invariant |
| `WorkQueue.ScheduledWorkQueue.EndCallback` | pkg/scheduler/scheduler.go:106-109 | the deferred Forget and the deferred cancel together take the finish step and keep the invariant |
| `SecretCache.Caches.Get` | internal/informers/core_filteredsecrets.go:249-289 | answers what the writes each cache has seen and the live state amount to, and fails exactly if the live read does for a name the metadata cache holds |
| `SecretCache.Caches.DeliverTyped` | internal/informers/core_filteredsecrets.go:55-60 | after each event the typed cache is the part labelled true of the state it has reached |
| `SecretCache.Caches.DeliverMeta` | internal/informers/core_filteredsecrets.go:62-66 | after each event the metadata cache holds the unlabelled names of the state it has reached |
| `SecretCache.DeliverSelects` | internal/informers/core_filteredsecrets.go:55-67 | events delivered through a selector keep a cache equal to the selected part of the state |
| `SecretCache.StateExactly` | internal/informers/core_filteredsecrets.go:249-289 | the API server holds under a name what was last put there and not deleted since |
| `SecretCache.NeverWritten` | internal/informers/core_filteredsecrets.go:249-289 | and nothing under a name that was never written |
| `SecretCache.CaughtUpAgrees` | internal/informers/core_filteredsecrets.go:249-289 | with both caches caught up, Get agrees with the API server if and only if the name is free or its Secret is labelled true or not at all |
| `SecretCache.FoundByLabel` | internal/informers/core_filteredsecrets.go:55-67 | by the label: true and none are found, any other value hides an existing Secret |
| `SecretCache.MetadataMeansLive` | internal/informers/core_filteredsecrets.go:273-280 | a name in the metadata cache gets the live answer, however stale the typed cache |
| `SecretCache.MissesExactly` | internal/informers/core_filteredsecrets.go:273-288 | a Secret that still exists, selected at the position of either cache, is missed if and only if it was unlabelled at the position of the typed cache and labelled at that of the metadata cache |
| `SecretCache.SteadyNeverMisses` | internal/informers/core_filteredsecrets.go:249-289 | for any two positions and any other writes, a selected Secret that still exists and whose label no write between them changed is found |
| `SecretCache.InStepNeverMisses` | internal/informers/core_filteredsecrets.go:249-289 | caches at the same position do not miss a selected Secret that still exists |
| `SecretCache.OutOfStepMisses` | internal/informers/core_filteredsecrets.go:249-289 | caches at different positions can miss a Secret that existed throughout |
| `SecretOwner.CertificateOwnsSecret` | internal/controller/certificates/certificates.go:47-113 | tells a Certificate whether it is the owner and names the others in age order; fails exactly if the Secret cannot be read and the Certificate is not alone |
| `SecretOwner.ExactlyOneOwner` | internal/controller/certificates/certificates.go:47-113 | of the Certificates sharing a Secret, one and only one is the owner |
| `SecretOwner.DefaultOwnerIsOldest` | internal/controller/certificates/certificates.go:72-94 | without an annotation naming one of them, the owner was created before all others, or at the same time and comes first by name |
| `SecretOwner.AnnotatedOwner` | internal/controller/certificates/certificates.go:96-105 | an annotation naming a Certificate that shares the Secret makes it the owner |
| `SecretOwner.OthersExactly` | internal/controller/certificates/certificates.go:107-113 | the other names are those of all others sharing the Secret and no more, the older first |
| `SecretOwner.OrderDoesNotMatter` | internal/controller/certificates/certificates.go:72-85 | any order in which the lister returns them gives the same sorted peers, hence the same answers |
| `Bundle.AppendCertificatesToBundle` | internal/cainjector/bundle/bundle.go:36-81 | fails exactly if either text does not parse; else the two loops with their seen-set give the unexpired first occurrences of both |
| `Bundle.BundleIsHistory` | internal/cainjector/bundle/bundle.go:36-81 | after any history of merges with a running clock, the bundle is the first occurrences of everything ever supplied that had not expired at the last merge |
| `Bundle.MergeTwice` | internal/cainjector/bundle/bundle.go:36-81 | a merge into the result of an earlier merge is a merge into all that went into it |
| `Bundle.MergeIdempotent` | internal/cainjector/bundle/bundle.go:30-35 | supplying known certificates again only drops what has expired |
| `Bundle.BatchesCompose` | internal/cainjector/bundle/bundle.go:30-35 | two batches at once or one after the other give the same bundle |
| `Bundle.DedupIsFirst` | internal/cainjector/bundle/bundle.go:54-69 | no certificate is repeated and each stands in the order of first supply |
| `Bundle.MutatingWebhookTarget.SetCA` | pkg/controller/cainjector/injectables.go:94-112 | every webhook's own bundle is merged with the data, or replaced when merging is off or impossible |
| `Bundle.InjectionsAreHistory` | pkg/controller/cainjector/injectables.go:94-112 | after any injections with merging on, a webhook trusts exactly what it was ever given and has not expired |
| `Bundle.TrustKeptExactly` | pkg/controller/cainjector/injectables.go:94-112 | an unexpired trusted certificate survives an injection if and only if the data parses and either merging is on or the data holds it |
| `Bundle.DataTrusted` | pkg/controller/cainjector/injectables.go:94-112 | whatever the bundle was, injected data that parses and has not expired is trusted |
| `Unsorted.EqualUnsorted` | pkg/util/util.go:45-61 | for any total preorder, true if and only if the lists have equally many elements of every comparison class |
| `Unsorted.SortedDecides` | pkg/util/util.go:45-61 | sorted copies agree position by position if and only if the lists agree as multisets of classes |
| `Unsorted.EqualStringsUnsorted` | pkg/util/util.go:63-65 | for strings, true if and only if the lists are equal as multisets |
| `Unsorted.CompareExactly` | pkg/util/util.go:63-65 | after a common beginning the shorter text, or the one with the smaller character, comes first |
| `Annotations.BuildAnnotationsToCopy` | pkg/controller/util.go:345-368 | whatever the order of map iteration, a key is copied with its value if and only if some rule matches it and the last that does is no exclusion |
| `Annotations.NextRule` | pkg/controller/util.go:353-366 | one more rule overrides all before it exactly on the keys it matches |
| `Annotations.ExcludeLast` | pkg/controller/util.go:353-361 | a last rule with a minus takes away exactly the keys that begin with the rest of it |
| `Annotations.IncludeLast` | pkg/controller/util.go:361-365 | any other last rule adds the keys that begin with it, and all keys if a star is among the rules |
| `Annotations.StarLast` | pkg/controller/util.go:347-365 | a last star adds everything |

## Left out

- Time zones other than a fixed offset in whole minutes: no time zone database, no daylight saving.
- Limits of Go's time and duration types; times and durations are unbounded.
- Words of bits are sets of positions below 64, with shifts and masks defined on them.
- CronParser.ParseStandard: reading a time zone by name and a duration from its text are parameters; a zone prefix without a space after it, on which the code panics, is excluded; parser options other than the standard ones are not modelled.
- CronRunner: jobs are recorded as activations, not run; channels and locks become steps; the order of equal elements after a sort is left open in the steps.
- Challenge.NoLeak: the solver calls of one Sync are one step, and reads, though of any age, do not go back behind the last one; `Challenge.StaleReadLeaks` shows that this is needed.
- Challenge scheduling: which Challenges are picked to be processed; setting processing is a step that may come at any time.
- The texts of solver errors, reasons and events, and the queueing of retries.
- Order.SyncOrderGood: assumes a server that follows RFC 8555, whose orders move forward and always show the finalize URL (section 7.1.3), so the branch for a missing one is modelled but not reached from the start.
- Order: malformed-request errors carry a 4xx status; URLs of orders are numbers; identifiers and profiles sent when an order is created are not modelled.
- OrderChallenges: the solver chosen for an authorization and the name of its Challenge are an arbitrary function, with names that do not clash between Orders; names are numbers below a bound that may be any number.
- OrderChallenges.FairConverges: for Challenges without finalizers of other controllers, which only those can remove, and Syncs that read the stored objects.
- Server-side apply of statuses, and the upgrade of managed fields beyond its success or failure.
- SecretCache: one namespace; errors from the caches themselves; the `List` of the filtered lister.
- SecretOwner.CertificateOwnsSecret: the Certificate asked about is among those listed, as the code needs too; names are unique within a namespace.
- Bundle: X.509 and PEM; a certificate is its raw bytes with an expiry, and data is either a list of certificates or does not parse. The other injection targets are not modelled.
- The remaining comparisons built on the same generic one: URLs, IP addresses, other names and key usages.
- Issuers, Vault and cloud clients, the webhook, the API types and their validation, and command-line setup.
