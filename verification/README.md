# Verified model of the exchange connectors

A Dafny 4.11 model of the stateful parts of the exchange-connectors service, with proofs about whole
runs of them: order-book reconstruction and the depth handler that drives it, the three rate limiters,
the reconnect loop, the migration runner, the lossy audit and book-update queues, and the order and fill
store. `dafny verify dfyconfig.toml` checks everything.

Objects the service updates in place are classes with the same fields; every method is proved against a
step function on values, and the properties are lemmas about runs of those step functions. The network,
the database engine and the clock are parameters: every answer they could give is covered, including
failures, losses, duplicates, repeated delivery, and every interleaving of concurrent steps.

| file | content |
|---|---|
| `OrderBook.dfy`, `Reconstructor.dfy` | levels, diffs, snapshots, and the mutable `BookReconstructor` |
| `Convergence.dfy` | when a rebuilt book equals the venue's |
| `TopLevels.dfy`, `BestPrice.dfy`, `Lex.dfy`, `Sorting.dfy` | `TopN`: in-place sort, canonical result, string order against numeric order |
| `PairStream.dfy` | the depth handler seen from one pair, over whole runs |
| `Recovery.dfy` | exactly when that handler's book is the venue's, told from ids and refresh outcomes alone |
| `BookFeed.dfy`, `BookDelivery.dfy` | all pairs, the dropping channel and the aggregator, interleaved |
| `Windows.dfy`, `RpsLimiter.dfy`, `WeightedLimiter.dfy`, `CounterLimiter.dfy` | the limiters and their sliding bounds |
| `RpsAdmission.dfy`, `WeightedAdmission.dfy`, `CounterAdmission.dfy` | exactly which calls each limiter admits |
| `Reconnect.dfy` | `Client.Run` and `nextBackoff` |
| `MigrationList.dfy`, `MigrationRunner.dfy`, `MigrationOutcome.dfy` | `All`, `Up`, `Down` |
| `AuditSink.dfy` | `AsyncSink` in every interleaving |
| `Store.dfy`, `Fills.dfy` | `MemStore`, the SQL tables, and what fills add up to |

Where the code does not keep what its documentation says, the code was followed and the exact condition
proved:

- A gap does not always end in the venue's book (README.md:69-71, PROJECT_PLAN.md:99). The diff that reveals the gap
  is thrown away and the snapshot's id is never read, so a failed refresh, or a snapshot older than that
  diff, leaves a wrong level that no later message flags (`GapRecoveryCanLoseALevel`); only a later diff
  that names the level repairs it (`RepairedExactly`). For one venue the book is right exactly when every
  slot the later diffs leave alone was right in the base (`HandlerAgreesExactly`). Over all venues the
  update ids and refresh outcomes decide it: two numbers kept from them, how far the book is solid and how
  far anything has reached into it, must both equal the update (`InStepExactly`). After a refresh with
  snapshot s that means first <= s + 1 and s <= last, and after a failed refresh of a book right at b the
  same with b for s (`RecoveryExactly`). Snapshots are requested with a limit of 100 levels, so a deeper
  book makes an incomplete base; `HandlerAgreesExactly` covers that case, the others do not.
- The venue's rate can be exceeded in a sliding window (README.md:72): by the request limiter up to twice
  the limit, except when the limit is 0 or the window a single tick (`NominalRateExactly`); by the weight
  limiter, even if it never gets a low report, up to twice the budget, except when the budget is not
  positive or the refill a single tick (`NominalBudgetExactly`). Within one refill window the weight
  limiter can exceed the budget exactly after a report, while the window is open, that is below what it
  has itself admitted in it (`ReportIsSafeExactly`).
- The string order of `TopN` is the numeric order exactly between prices with equally many integer digits
  (`OrdersAgreeExactly`).
- A `Down` that runs a down script and then keeps its row makes a later, successful `Up` skip a migration
  that is no longer in force (`InterruptedDownLosesAMigration`); the success of an `Up` can be believed
  throughout a history exactly if no `Down` in it did that (`SuccessIsBelievableExactly`).
- `Emit` does not look at the closed flag: a send after `Close` panics (`PanicsExactly`,
  `EmitAfterClosePanics`).
- The in-memory store and the tables differ when a client order id is reused for another venue, and when
  a venue order id is used twice (`StoresAgreeExactly`).

## Model

| member | source | states |
|---|---|---|
| OrderBook.ClassifyExactly | internal/ws/ws.go:200-205 | outside the unset state exactly the successor id is accepted and each larger one is a gap |
| OrderBook.LastWrite | internal/ws/ws.go:206-219 | finds the last level that names a price, or says that none does |
| OrderBook.ApplyLevelsLastWriterWins | internal/ws/ws.go:206-219 | a list of levels leaves at each price what its last level there says, removal for "0" and "", and leaves other prices alone |
| OrderBook.DiffStepExactly | internal/ws/ws.go:197-223 | the first diff after a reset and the next in turn delete every price whose last level has size "0" or "", set every other named price to its last size, and leave the rest; any other diff changes nothing |
| OrderBook.SnapshotLastWriterWins | internal/ws/ws.go:183-195 | a snapshot side holds exactly the named prices with their last sizes, zero sizes included |
| Convergence.DiffEffect | internal/ws/ws.go:206-219 | the effect of a diff on every slot of either side |
| Convergence.SnapshotEffect | internal/ws/ws.go:183-195 | the content of every slot after a snapshot, whatever the book held before |
| Convergence.ReplayAgree | internal/ws/ws.go:197-223 | replaying the same diffs on two books makes a slot agree exactly if a diff names it or it agreed before |
| Convergence.SlotAgreesExactly | internal/ws/ws.go:183-223 | for any base, right or stale or truncated, the local book agrees with the venue at a slot if and only if an accepted diff named it or the base was right there |
| Convergence.BookAgreesExactly | internal/ws/ws.go:183-223 | the whole local book equals the venue's if and only if all slots the accepted diffs leave alone were right in the base |
| Convergence.SnapshotConverges | internal/ws/ws.go:183-223 | snapshot after update s, diffs first..last with first <= s+1 and s <= last: the local book is the venue's after last, although the overlap is replayed and s never consulted |
| Convergence.ConvergesExactly | internal/ws/ws.go:183-223 | over all venue histories that holds if and only if first <= s+1 and s <= last |
| Reconstructor.BookReconstructor.ApplySnapshot | internal/ws/ws.go:183-195 | both sides are replaced by the snapshot, lastSeq stays |
| Reconstructor.BookReconstructor.ApplyDiff | internal/ws/ws.go:197-223 | the two result flags exactly, and for every price of both sides what an accepted diff leaves there, with the literal removal test; stale and gapped diffs change nothing |
| Reconstructor.BookReconstructor.MarkGap | internal/ws/ws.go:233-238 | only the sequence number is forgotten |
| Reconstructor.BookReconstructor.TopN | internal/ws/ws.go:225-231 | both sides come back as the canonical best levels, bids descending |
| TopLevels.SortLevels | internal/ws/ws.go:261-276 | the in-place insertion sort permutes its input and leaves no later element that belongs earlier |
| TopLevels.CollectLevels | internal/ws/ws.go:249-259 | for every iteration order of the map the result is the same sequence |
| TopLevels.TopIsTheBestSelection | internal/ws/ws.go:225-259 | that sequence is the one and only strictly ordered selection of min(n, size) map entries that no omitted key beats |
| TopLevels.TopPrefix | internal/ws/ws.go:225-259 | TopN(n) is a prefix of TopN(m) for n <= m |
| TopLevels.TopHead | internal/ws/ws.go:225-259 | the first level is in the book and comes before every other key |
| BestPrice.StringOrderIsNumeric | internal/ws/ws.go:261-276 | between decimals with equally many integer digits a smaller string is not a larger number |
| BestPrice.BestPriceFirst | internal/ws/ws.go:225-276 | with equally many integer digits the first bid is a numeric maximum and the first ask a numeric minimum |
| BestPrice.OrdersAgreeExactly | internal/ws/ws.go:261-276 | the string order agrees with the numeric order between p-digit and q-digit prices if and only if p = q |
| PairStream.BookIsReplay | internal/adapters/binance/book.go:51-74 | in every run the book is the replay of the diffs accepted since the last reset on the book of that moment, and their ids are consecutive |
| PairStream.AcceptedStretch | internal/adapters/binance/book.go:51-74 | with losses, duplicates and reordering of authentic messages the accepted stretch is first..lastSeq of the venue's history |
| PairStream.HandlerAgreesExactly | internal/adapters/binance/book.go:51-115 | in every run, failed refreshes included, the book is the venue's at lastSeq if and only if every slot left alone since the reset was right in the base |
| PairStream.RepairedExactly | internal/ws/ws.go:197-223 | an unbroken stream after any run is accepted to its end without a gap, and a level is right at the end if and only if it was right before or a message names it |
| Recovery.HandlerConverges | internal/adapters/binance/book.go:51-115 | in every run, failed and late refreshes included, once the two marks kept from ids and refresh outcomes meet at update n, the book is the venue's after n |
| Recovery.InStepExactly | internal/adapters/binance/book.go:51-115 | for every stream of message ids and every refresh outcome, the book is the venue's after update n for all venues if and only if both marks are n |
| Recovery.RecoveryExactly | internal/adapters/binance/book.go:62-69 | after a reset the book is right at lastSeq for all venues if and only if first <= s + 1 and s <= lastSeq, for s the id of the fresh snapshot or, when the refresh failed, the update at which the book was right; in general with the two marks at the reset |
| PairStream.GapRecoveryCanLoseALevel | internal/adapters/binance/book.go:63-69 | two authentic runs after a gap, one with a failed and one with a late refresh, that end in a wrong book; however long the stream then goes on unbroken, every message is accepted and the book stays wrong |
| PairStream.UnnumberedDiffsNeverGap | internal/ws/ws.go:200-205 | messages that decode to id 0 are all accepted and never reveal a gap |
| BookFeed.IndexOf | internal/adapters/binance/book.go:143-148 | the first occurrence of a character, or none |
| BookFeed.StreamRoundTrip | internal/adapters/binance/book.go:39-40 | the stream subscribed for a pair leads back to its key if and only if the name is not empty and has no @ |
| BookFeed.StreamToPairExactly | internal/adapters/binance/book.go:143-148 | a stream names what stands before its first @, or itself if that is nothing or there is no @ |
| BookFeed.CaseDoesNotMatter | internal/adapters/binance/book.go:45-58 | a name in any case leads to the same reconstructor and the same published name |
| BookFeed.SameKeyExactly | internal/adapters/binance/book.go:45-58 | two names share a reconstructor and a published name if and only if they differ at most in the case of letters |
| BookFeed.Subscription.constructor | internal/adapters/binance/book.go:44-48 | makes one fresh reconstructor per lower-cased pair name, and an empty channel |
| BookFeed.Subscription.SubscribeBook | internal/adapters/binance/book.go:33-48 | refuses exactly the empty list of pairs |
| BookFeed.Subscription.EmitUpdate | internal/adapters/binance/book.go:117-141 | sends the best 20 levels of a book with both sides, under the upper-cased name, unless the channel is full, and changes nothing else |
| BookFeed.Subscription.Start | internal/adapters/binance/book.go:78-84 | the start-up refresh of one pair, emitting only if it succeeded |
| BookFeed.Subscription.ApplyOrRefresh | internal/adapters/binance/book.go:62-73 | a gap forgets the sequence number and refreshes if it can; exactly the first diff after a reset and the next in turn emit |
| BookFeed.Subscription.Dispatch | internal/adapters/binance/book.go:61-73 | one message changes only its own pair's book and at most appends one update |
| BookFeed.Subscription.OnMessage | internal/adapters/binance/book.go:51-74 | messages are routed by the lower-cased name of their stream and unknown streams are ignored |
| BookFeed.BookAggregator.Consume | internal/book/book.go:38-53 | the served tops after draining a list of updates in order |
| BookFeed.BookAggregator.Get | internal/book/book.go:55-60 | returns the served top of a pair, if any |
| BookFeed.PairsAreIndependent | internal/adapters/binance/book.go:45-74 | in every interleaving each pair's book is what its own events alone make of it |
| BookFeed.ServedTopNeverGoesBack | internal/book/book.go:38-60 | every value Get returns is the top of a book that pair's reconstructor really held with both sides present, under an upper-case name, and later reads are never older |
| BookFeed.ServedTopIsTheVenues | internal/book/book.go:38-60 | end to end, a top emitted while the handler was in step at update n is the best bid and ask of the venue's book after n |
| BookDelivery.MessageSendsExactly | internal/adapters/binance/book.go:62-73 | in every interleaving a message of a known pair sends exactly one update, the 20 best levels of the book it makes, if it is the first since a reset or next in turn, both sides are present and fewer than 64 updates wait; otherwise it sends nothing |
| BookDelivery.StartSendsExactly | internal/adapters/binance/book.go:76-84 | a start-up request sends exactly one update, if it succeeded, with both sides and room |
| BookDelivery.LastUpdateWins | internal/book/book.go:38-53 | after a list of updates each pair has the first levels of its last one, and a pair without one is left alone |
| BookDelivery.DrainedServesTheLast | internal/book/book.go:38-60 | once the consumer has caught up each pair is served its last update on the way, or what it was served before |
| BookDelivery.AcceptedMessageIsServed | internal/book/book.go:38-60 | from message to reader: after a message in turn that leaves both sides and finds room, once the consumer has caught up Get returns the best prices of that very book |
| BookDelivery.CanDrain | internal/book/book.go:38-53 | the consumer can always catch up by itself |
| Windows.IntervalBound | internal/ratelimit/ratelimit.go:98-104 | any limiter whose windows are spaced and capped admits at most budget * ((span + length - 2) / length + 1) in any interval |
| Windows.MostWindowsRounded | internal/ratelimit/ratelimit.go:198-218 | the sharp bound is within budget * (ceil(span / length) + 1) |
| RpsLimiting.RPSLimiter.Wait | internal/ratelimit/ratelimit.go:198-218 | decision and new state of one call |
| RpsAdmission.AdmitsExactly | internal/ratelimit/ratelimit.go:198-218 | in every timed run a call is admitted, and logged in its window, if and only if the latest Backoff is over and fewer calls than the limit are logged in the open window, or none because it has run out |
| RpsLimiting.RPSLimiter.Backoff | internal/ratelimit/ratelimit.go:220-225 | sets the deadline and nothing else |
| RpsLimiting.SlidingBound | internal/ratelimit/ratelimit.go:198-218 | over every run any interval admits at most limit * (ceil(span / window) + 1) calls |
| RpsLimiting.SlidingBoundIsMet | internal/ratelimit/ratelimit.go:205-213 | for every span a run that admits in one interval of it exactly limit * ((span + window - 2) / window + 1) calls, the sharper form of SlidingBound |
| RpsLimiting.TwoBurstsAdmitted | internal/ratelimit/ratelimit.go:205-213 | a timed run that admits exactly twice the limit within one window's length |
| RpsLimiting.NominalRateExactly | internal/ratelimit/ratelimit.go:198-218 | the limit holds in every interval of one window's length if and only if the limit is 0 or the window one tick |
| RpsLimiting.BackoffHolds | internal/ratelimit/ratelimit.go:201-204 | until the deadline of the latest Backoff no call is admitted |
| WeightedLimiting.WeightedLimiter.ReplenishLocked | internal/ratelimit/ratelimit.go:98-104 | refill of the window, lazily at a call |
| WeightedLimiting.WeightedLimiter.Wait | internal/ratelimit/ratelimit.go:33-50 | decision and new state of one call with its two clock readings |
| WeightedAdmission.AdmitsExactly | internal/ratelimit/ratelimit.go:33-50 | in every run without reports a call is admitted, and logged in its window, if and only if the latest Backoff is over and its weight with the weight logged in the open window is at most the budget |
| WeightedAdmission.AdmitsAfterReportExactly | internal/ratelimit/ratelimit.go:33-62 | after a report the same with the report plus what was admitted since it, as long as that window stays open |
| WeightedLimiting.WeightedLimiter.UpdateUsed | internal/ratelimit/ratelimit.go:52-62 | the venue's report replaces the count |
| WeightedLimiting.WeightedLimiter.Backoff | internal/ratelimit/ratelimit.go:64-69 | sets the deadline and nothing else |
| WeightedLimiting.BudgetKept | internal/ratelimit/ratelimit.go:33-69 | with reports not below what was admitted, each refill window admits at most the budget and any interval at most budget * (ceil(span / refill) + 1), in every interleaving of Wait, UpdateUsed and Backoff |
| WeightedLimiting.BudgetBoundIsMet | internal/ratelimit/ratelimit.go:33-50 | for every span a run without reports that admits in one interval of it exactly the sharper bound of BudgetKept |
| WeightedLimiting.NominalBudgetExactly | internal/ratelimit/ratelimit.go:33-69 | over all timed runs whose reports are not too low, every interval of one refill's length admits at most the budget if and only if the budget is not positive or the refill one tick |
| WeightedLimiting.TwiceTheBudget | internal/ratelimit/ratelimit.go:33-50 | a run of two calls, without any report, that admits twice the budget within one refill's length |
| WeightedLimiting.ReportIsSafeExactly | internal/ratelimit/ratelimit.go:52-62 | after any run whose reports were not too low, a report leaves the open window within the budget under every continuation of Wait, Backoff and not too low reports if and only if the window is over or the report is not below the weight the run has admitted in it (or below the budget, should that be negative) |
| WeightedLimiting.BackoffHolds | internal/ratelimit/ratelimit.go:36-39 | until the deadline of the latest Backoff no call is admitted |
| CounterLimiting.CounterLimiter.DecayLocked | internal/ratelimit/ratelimit.go:144-155 | lazy decay by whole ticks, floored at zero |
| CounterLimiting.CounterLimiter.Wait | internal/ratelimit/ratelimit.go:125-142 | decision and new state of one call with its two clock readings |
| CounterAdmission.AdmitsExactly | internal/ratelimit/ratelimit.go:125-155 | in every timed run a call is admitted if and only if the latest Backoff is over, it fits the budget, and it still does together with what was admitted since any earlier call less the ticks since that call |
| CounterLimiting.CounterLimiter.Backoff | internal/ratelimit/ratelimit.go:157-162 | sets the deadline and nothing else |
| CounterLimiting.DecayIsElapse | internal/ratelimit/ratelimit.go:144-155 | one division does what the ticks would have done one by one |
| CounterLimiting.LazyRefinesEager | internal/ratelimit/ratelimit.go:125-155 | over every run, whatever the costs, the limiter decides as a machine that decrements at each tick, and holds the same counter after each Wait |
| CounterLimiting.RejectedCallsLeaveNoTrace | internal/ratelimit/ratelimit.go:125-136 | leaving a rejected call out of a run changes no other decision |
| CounterLimiting.CounterBounds | internal/ratelimit/ratelimit.go:125-155 | 0 <= current <= budget over every run |
| CounterLimiting.DecayingBound | internal/ratelimit/ratelimit.go:125-155 | any closed interval admits at most budget + floor(length / decay) + 1 |
| CounterLimiting.DecayingBoundIsMet | internal/ratelimit/ratelimit.go:125-155 | a run that reaches that bound |
| CounterLimiting.BackoffHolds | internal/ratelimit/ratelimit.go:128-131 | until the deadline of the latest Backoff every call is rejected |
| Reconnect.Run | internal/ws/ws.go:77-120 | the delays, the number of dials and the return of the loop for every sequence of answers |
| Reconnect.ReturnsExactly | internal/ws/ws.go:77-120 | the loop ends at the first turn that finds Close called, without dialling again, or the context cancelled; until then it dials and waits once a turn |
| Reconnect.BackoffBounds | internal/ws/ws.go:152-160 | for every jitter the k-th delay since the last connection lies between min(max, 100ms * 2^k) and min(max, 100ms * 3^k) |
| Reconnect.DelaysByTurns | internal/ws/ws.go:77-120 | the delay of every turn is numbered by the turns since the last one that connected, and bounded by that number; right after a connection it lies between min(max, 200ms) and min(max, 300ms) |
| Reconnect.JitterRange | internal/ws/ws.go:152-160 | the jitter reaches every delay from twice to three times the one before, up to the cap, and no other |
| Reconnect.BoundsAreMet | internal/ws/ws.go:152-160 | both bounds of the k-th delay are met, for every k and every cap |
| Reconnect.StreakNeverShortens | internal/ws/ws.go:77-120 | delays never decrease until a connection succeeds |
| Reconnect.DefaultSaturates | internal/ws/ws.go:30-32 | with the default cap every delay from the ninth of a streak on is exactly 30 seconds |
| Reconnect.StretchTakesAtLeast | internal/ws/ws.go:77-120 | consecutive delays total at least the sum of their lower bounds |
| Reconnect.FailuresInARow | internal/ws/ws.go:86-97 | n failed connections in a row below the cap wait at least 100ms * (2^(n+1) - 2) |
| MigrationList.All | internal/store/migrations/migrations.go:21-72 | returns the listing or the error of the directory |
| MigrationList.CollectExactly | internal/store/migrations/migrations.go:26-57 | a version is collected if and only if one of its two files exists, each half with that file's text |
| MigrationList.ListingByName | internal/store/migrations/migrations.go:26-71 | the listing succeeds if and only if no version lacks NAME_up.sql or NAME_down.sql or has an empty one, and then pairs exactly these texts as up and down script of NAME |
| MigrationList.ListingSucceedsExactly | internal/store/migrations/migrations.go:63-71 | the listing fails if and only if some version lacks a non-empty half, and names the first such version |
| MigrationList.ListingExactly | internal/store/migrations/migrations.go:58-71 | the listing has each version once, strictly ascending, with its own two texts |
| MigrationList.OrderDoesNotMatter | internal/store/migrations/migrations.go:21-72 | directories with the same distinct names give the same result in any order |
| Lex.SortKeys | internal/store/migrations/migrations.go:58-62 | the keys of a map, collected in any order, come out as one sorted list |
| MigrationRunner.Runner.Up | internal/store/migrations/migrations.go:86-115 | result and database after Up for every combination of failures |
| MigrationRunner.Runner.Down | internal/store/migrations/migrations.go:117-141 | result and database after Down for every combination of failures |
| MigrationOutcome.UpExactly | internal/store/migrations/migrations.go:86-115 | from the starting database and the answers alone: an Up succeeds if and only if every version not passed over gets Done from script and bookkeeping; what it records, applies and sends, version by version |
| MigrationOutcome.DownExactly | internal/store/migrations/migrations.go:117-141 | the same for Down: a version loses its row only after its script answered Done, and success means Done throughout; scripts go out in descending order |
| MigrationOutcome.DownOkRevertsAll | internal/store/migrations/migrations.go:117-141 | from true records a successful Down leaves no listed version recorded or in force |
| MigrationOutcome.FailedScriptKeepsRows | internal/store/migrations/migrations.go:133-138 | after a down script that did not answer Done the Down fails, and that version and all earlier ones keep their rows |
| MigrationOutcome.NothingWithoutListing | internal/store/migrations/migrations.go:86-121 | without its table statement or the listing an Up does nothing and fails; a Down depends on the listing only |
| MigrationRunner.RecordedIsAPrefix | internal/store/migrations/migrations.go:86-141 | after any sequence of Up and Down failing anywhere, with or without a query function, the recorded versions are a prefix of the sorted list |
| MigrationRunner.UpOnlyHistory | internal/store/migrations/migrations.go:86-115 | over Up-only histories what is in force is the recorded prefix, or that and its next version |
| MigrationRunner.UpRecovers | internal/store/migrations/migrations.go:86-115 | one Up without an error leaves all versions recorded and in force |
| MigrationRunner.FurtherUpRunsNothing | internal/store/migrations/migrations.go:98-106 | with the query function a further Up sends no script |
| MigrationRunner.DownOkEmpties | internal/store/migrations/migrations.go:117-141 | a Down without an error, after any history, leaves nothing recorded |
| MigrationRunner.UpOkCompleteExactly | internal/store/migrations/migrations.go:97-114 | a successful Up leaves everything in force if and only if there is no query function or nothing was recorded that was not in force |
| MigrationRunner.DownKeepsRecordsTrueExactly | internal/store/migrations/migrations.go:117-141 | a Down that starts with everything recorded in force keeps it so if and only if no step it reaches has a recorded version, a script that takes effect and a row that stays |
| MigrationRunner.RecordsStayTrueExactly | internal/store/migrations/migrations.go:86-141 | over any history what is recorded is in force after every call if and only if no call loses a row |
| MigrationRunner.SuccessIsBelievableExactly | internal/store/migrations/migrations.go:97-114 | at every moment of a history every Up with a query function that reports success would leave everything in force, if and only if no Down in the history lost a row |
| MigrationRunner.InterruptedDownLosesAMigration | internal/store/migrations/migrations.go:133-138 | Up, a Down whose DELETE fails, Up: both Ups succeed and the migration is gone |
| AuditSink.AsyncSink.constructor | internal/audit/async.go:43-51 | an open, empty sink of the given capacity |
| AuditSink.AsyncSink.TrySend | internal/audit/async.go:57-59 | the non-blocking send: kept if a receiver waits or there is room, a panic on a closed channel |
| AuditSink.AsyncSink.CountDrop | internal/audit/async.go:60-62 | the drop is counted under the lock, later than the failed send |
| AuditSink.AsyncSink.Receive | internal/audit/async.go:67-68 | the next event, or the end of the loop over a closed and empty channel |
| AuditSink.AsyncSink.Deliver | internal/audit/async.go:69-72 | hands exactly the received event to the delegate |
| AuditSink.AsyncSink.BeginClose | internal/audit/async.go:83-89 | the first Close sets the flag, later ones do nothing |
| AuditSink.AsyncSink.CloseChannel | internal/audit/async.go:90 | closes the channel |
| AuditSink.AsyncSink.Dropped | internal/audit/async.go:76-80 | the counted drops |
| AuditSink.SinkInvariant | internal/audit/async.go:53-91 | in every interleaving the accepted events are delivered, in hand and queued, in that order |
| AuditSink.Conservation | internal/audit/async.go:53-91 | emitted = delivered + in hand + queued + dropped + drops not yet counted, in every interleaving and for every capacity |
| AuditSink.DropsOnlyWhenFull | internal/audit/async.go:57-65 | an event is refused only when the queue is full |
| AuditSink.ClosedAndDrained | internal/audit/async.go:67-91 | after the loop has ended and the drops are counted, delivered + dropped = emitted |
| AuditSink.DeliveredInEmitterOrder | internal/audit/async.go:53-74 | each emitter's delivered events are a subsequence of what it emitted |
| AuditSink.PanicsExactly | internal/audit/async.go:53-91 | a run panics if and only if a send comes after the channel is closed |
| AuditSink.EmitAfterClosePanics | internal/audit/async.go:53-91 | a legal run that does: Close, then one Emit, for every capacity |
| AuditSink.ClosedAtMostOnce | internal/audit/async.go:82-91 | however often Close is called the channel is closed at most once |
| AuditSink.LoopDrains | internal/audit/async.go:67-74 | after the channel is closed the loop can hand over everything accepted and end |
| Store.MemStore.RecordOrder | internal/store/store.go:56-68 | reply and state after recording an order |
| Store.MemStore.GetOrderByClientID | internal/store/store.go:70-79 | the stored order, if any |
| Store.MemStore.RecordFill | internal/store/store.go:81-94 | the scan finds a recorded trade exactly if there is one |
| Store.MemStore.FillsForOrder | internal/store/store.go:96-106 | the fills of one order in insertion order |
| Store.OrdersFirstWriterWins | internal/store/store.go:56-79 | RecordOrder reports a new order if and only if no call before named the client order id, and GetOrderByClientID gives back the first such order, unchanged in every field but the times it lacked |
| Store.FillsForExactly | internal/store/store.go:96-106 | FillsForOrder lists exactly the recorded fills of the order, each as often as recorded |
| Store.FirstRow | internal/store/postgres/postgres.go:74-81 | some row of the table with that client order id, or none |
| Store.FillRefusedExactly | internal/store/migrations/0001_init_up.sql:21-34 | the constraint UNIQUE (venue, trade_id) refuses exactly the fill that the scan of the in-memory store finds |
| Store.OrderRefusedExactly | internal/store/migrations/0001_init_up.sql:1-16 | the two constraints on orders refuse exactly a row that shares the key or the venue and client order id with another |
| Store.StepAgreesExactly | internal/store/postgres/postgres.go:55-116 | on mirrored states the two stores give the same reply if and only if the operation is compatible, and then stay mirrored |
| Store.StoresAgreeExactly | internal/store/store.go:56-106 | over every run all replies agree if and only if every operation was compatible with what was recorded before it |
| Store.OneVenueIsFriendly | internal/store/migrations/0001_init_up.sql:1-35 | one venue and distinct venue order ids for distinct client ids make every operation compatible |
| Store.StoresCanDisagree | internal/store/postgres/postgres.go:61-71 | the two ways the replies really differ |
| Fills.FirstWriterWins | internal/store/store.go:81-94 | for any calls with retries the stored list is the first call of each trade, and exactly those return true |
| Fills.StoredUnchanged | internal/store/store.go:81-94 | row by row the recorded list holds the first calls in call order, unchanged in every field but a missing time |
| Fills.TrueExactlyOnce | internal/store/store.go:81-94 | true is returned exactly once per (venue, trade id) |
| Fills.OrdersPartitionFills | internal/store/store.go:96-106 | FillsForOrder over all order ids gives back every recorded fill once |
| Fills.TotalsAddUp | internal/store/store.go:96-106 | any amount summed per order adds up to the total over the recorded fills |
| Fills.RetriesConserveTotals | internal/store/store.go:81-106 | retries never change a total: it is one contribution per distinct trade |
| Fills.AmountsConserved | internal/store/store.go:81-106 | any amount that does not depend on the time, summed over what the orders report, is the sum over the first calls as the callers gave it |

## Left out

- Reconstructor.BookReconstructor.ApplyDiff: does not model int64 overflow of lastSeq + 1, nor lastUpdate and the lag it feeds.
- Reconstructor.BookReconstructor.TopN: a negative n, for which the slice expression panics, is excluded.
- Recovery.HandlerConverges: needs complete snapshots; the request asks for 100 levels, so deeper books are covered only by PairStream.HandlerAgreesExactly.
- BookFeed.Subscription.OnMessage: letter case is folded for ASCII letters only, and messages that are not JSON are left out because they are ignored before any state is read.
- BookFeed.Subscription.EmitUpdate: prices and sizes stay strings; the conversion to decimals and to float is not modelled, and time is the number of steps so far.
- WeightedLimiting.BudgetKept: assumes a fixed budget (SetBudget is not modelled) and weights that are not negative.
- CounterLimiting.DecayingBound: assumes costs and a budget that are not negative; the refinement to the eager ticker does not.
- CounterAdmission.AdmitsExactly: assumes that no earlier cost was negative; the refinement to the eager ticker does not.
- CounterLimiting.LazyRefinesEager: Current and Headroom read the counter without decaying it, so between calls they show an older value than the ticker.
- Reconnect.Run: the float multiplication by two is exact for durations below 2^53 ns and modelled as such; readLoop is only seen through its end.
- MigrationList.All: read errors of the embedded directory cannot occur and are left out.
- MigrationRunner.Runner.Up: a script takes effect as a whole or not at all, though its error may be reported either way.
- Store.MemStore.FillsForOrder: the table's order by time is not modelled; the two stores are compared on multisets of fills.
- Store.StoresAgreeExactly: database errors other than constraint violations, and the rounding of times and decimals by PostgreSQL, are not modelled.
- AuditSink.AsyncSink.TrySend: filling in a missing timestamp and a nil delegate do not affect the queue and are left out.
- Kraken's handler numbers diffs with wall-clock nanoseconds and ignores the gap flag, so no convergence is stated for it.
- HTTP clients, signing, JSON, the websocket library, Kafka, pgx and metrics are answers from outside, not part of this model.
- The HTTP server, configuration, secrets, event publishing and the venue adapters' field mappings would add only easy members.
