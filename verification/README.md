# Verification of the trend pipeline

This project models the code between a fetched Kafka message and the top-N answer of the "searching now"
service, and proves what that code guarantees. Five state machines compose: the dedup store, the query
normalizer, the anti-fraud evaluator, the sliding-window engine and the consumer loop.

`dafny verify dfyconfig.toml` checks everything.

## How it is organised

| files | content |
|---|---|
| `prelude`, `domain`, `timed_marks`, `witness` | shared vocabulary; expiry maps as lossy records of a log of timed marks; identifiers of the event schema's shapes for the runs that attain or break a bound |
| `antifraud_rules`, `antifraud_session`, `antifraud_evaluator` | the evaluator: one step on values, the session window, and the object whose maps and session records are updated in place and realise that step |
| `antifraud_reference`, `antifraud_verdicts` | the same rules over a log from which nothing is deleted, and the proof that cleanup and pruning cannot be observed; each verdict read off the earlier verdicts alone |
| `antifraud_safety`, `antifraud_rate`, `antifraud_keys`, `antifraud_entropy`, `antifraud_pairs`, `antifraud_tidy` | guarantees over every run: spacing, rate, blocks, key collisions, session entropy, two acceptances of one source, the cross-rule list invariant |
| `window_history`, `window_ring`, `window_engine`, `window_theorems`, `window_reading` | survivors of the plain list of additions; the ring of buckets that stores them; the engine object; the textbook window; when a read is right |
| `ranking`, `snapshot_builder` | the order of the top list, its uniqueness, and collect, sort, number |
| `text`, `normalizer` | string passes and the one-pass tokenizer |
| `dedup`, `ingest`, `ingest_handler`, `runtime_handler` | TTL store, the pipeline on values, the two handler objects and their counters |
| `one_vote`, `one_vote_exact` | one source, one vote, end to end, with its exact threshold |
| `outcomes` | what becomes of a delivery, in its event's own fields, given the earlier deliveries and their results |
| `redelivery`, `pipeline` | how far apart one event can be counted twice; what the wired objects guarantee: counters, totals, sources |
| `exactly_once` | consumer restarts and redeliveries over one live pipeline |
| `backoff`, `consumer_protocol`, `consumer` | backoff on 64-bit durations, the protocol automaton, the retrying loop |

Each stateful source object is a class whose fields its methods reassign. A ghost field keeps the list of calls made
so far, and `Valid()` says the fields are where a run of those calls leads (`Evaluator`, `Store`, `Handler`) or what
the list amounts to (`Engine`). So every theorem about runs is a theorem about the objects.

Conventions: instants and durations are integer nanoseconds and are passed in; a method guarded by a mutex is one
atomic step; ranging over a map visits its keys in any order. Scores are integers, since the handler always adds 1.

Run theorems assume a clock that does not go back (`Monotone`) where they say so. Further hypotheses on inputs, each
named where it is needed: `Steady`, nothing arrives a full window late or outlives its window under second zero (reads and
the textbook window); `Timely`, stamps within a given lag of the clock (one source, one vote); `Separable`, bar-free ids or
bar-free queries (`KeysMeetIff`, `CapExact`); `InTime`, redeliveries within the TTL (`exactly_once`); `Fileable` and
`Indexable`, an addition's second has a bucket (the engine and the handlers); `Lawful`, the stated laws of the
letter-or-digit, white-space and lower-case maps (`text`, `normalizer`), and that `|` is no letter or digit (`outcomes`,
`pipeline`); `ValidConfig`, settings as the constructor leaves
them.

## Where the obvious statement is false

- The entropy bound fails when a session block is not longer than the entropy window; `EntropyBoundExact` gives both directions.
- The session list repeats queries when the cap does not outlast the entropy window; `TidyExact` gives both directions.
- The ring is the textbook window exactly while nothing arrives a full window late and nothing is filed under second zero, the mark of an empty bucket, to outlive its window there; `SlidingWindowExact` gives both directions.
- One source, one vote needs a contribution window of exactly the window plus twice the stamp lag; `OneVoteThreshold` gives both directions.
- The backoff is min(base * 2^attempt, max) exactly when base is below 2^62 and the first of base, 2 base, 4 base, ... that reaches 2^62 is not below max (`BackoffExact`); a cap of at most 2^62 is enough (`SmallCapsSuffice`). At base = max = 2^62 the first retry wraps (`EdgeOverflows`), although that base and cap pass config normalization.
- Flat `identity|query` keys collide when ids or queries contain `|` in the wrong places; `KeysSafeExact` and `CapKeysSafeExact` say exactly which requests can be confused with another, `BarsCollide` is an instance. Bar-free ids on both sides, or bar-free queries on both sides such as the normalizer's, rule it out (`KeysMeetIff`, `NormalizedChars`).
- The repository's README says that the top covers the last five minutes. The window moves only when something is added, by that event's second, and reading never evicts: after one addition and a window of silence the query is still counted (`SilenceKeepsScores`), and a late addition can displace a recent one (`LateDisplaces`). For any arrival order `HeldExact` says when what a read finds is exactly the last window, and `ReadErrorExact` what the totals are off by. In a `Steady` history a read's totals are right exactly if nothing held has left the window since the newest second (`ReadExact`).
- The repository's README says that a redelivery with the same `event_id` does not affect the result. `CommittedOnce` proves it within the dedup TTL. After the TTL one event can be counted twice exactly if the evaluator allows its source the gap (`RedeliveryExact`): with unchanged stop words once the contribution window has passed too (`SameWordsExact`); with stop words replaced in between so that its query changed, and sessions of two queries or more, as soon as the TTL has passed (`ChangedWordsExact`).
- Twice Max is the least bound on what sixty seconds accept of an ip, although the setting says Max per minute; `RateBoundExact` gives both directions.

## Model

| member | source | states |
|---|---|---|
| AntiFraudSession.PruneCutsPrefix | internal/engine/antifraud/rules.go:253-277 | pruning removes a prefix of strictly older events, stops at the first young enough one, and keeps counts the multiset of the list |
| AntiFraudSession.RunTallied | internal/engine/antifraud/rules.go:163-187 | after any run, whatever the clock does, each session's counts are exactly the multiset of its event list |
| AntiFraudReference.CleanupRepresents | internal/engine/antifraud/rules.go:209-236 | passing time and cleaning up both leave a state that answers every later lookup as the full log does |
| AntiFraudReference.ObserveWindow | internal/engine/antifraud/rules.go:163-178 | after pruning and appending, the number of counted queries is the number of distinct recent queries of the full log plus this one |
| AntiFraudReference.StepRefines | internal/engine/antifraud/rules.go:85-188 | one step gives the verdict the full history calls for and keeps the state in step with it |
| AntiFraudReference.RunRepresents | internal/engine/antifraud/rules.go:85-277 | after any run with a nondecreasing clock the log of verdicts is the reference's log and the state answers every later lookup as that log does |
| AntiFraudReference.CleanupInvisible | internal/engine/antifraud/rules.go:85-277 | over every run with a nondecreasing clock each verdict equals that of an evaluator that deletes nothing and filters the whole history |
| AntiFraudVerdicts.VerdictExact | internal/engine/antifraud/rules.go:92-188 | every verdict of a run in terms of the earlier verdicts alone: trips within the block durations, requests counted in the minute, cap consumers with a common key, queries accepted since the last trip |
| AntiFraudVerdicts.CapKeysSpelled | internal/engine/antifraud/rules.go:238-251 | the cap keys of a request, character by character; the user's only if there is a non-empty one |
| AntiFraudVerdicts.MinuteExact | internal/engine/antifraud/rules.go:134 | from 1970 on requests are counted per calendar minute, before that seconds are rounded towards zero |
| AntiFraudVerdicts.CleanupExact | internal/engine/antifraud/rules.go:209-236 | a cleanup a minute or more after the last keeps exactly the unexpired entries and the sessions that were seen, or have a query, within the window; an earlier one does nothing |
| AntiFraudVerdicts.LastSeenExact | internal/engine/antifraud/rules.go:163-187 | a stored session was last seen at its latest accepted request |
| AntiFraudEvaluator.SessionState.Prune | internal/engine/antifraud/rules.go:253-277 | the in-place loop leaves exactly the pruned window |
| AntiFraudEvaluator.SessionState.Observe | internal/engine/antifraud/rules.go:170-177 | stamp, prune, append and count, in place |
| AntiFraudEvaluator.Evaluator.constructor | internal/engine/antifraud/rules.go:55-83 | a non-positive setting gets its default, every other is kept, so the configuration is valid; the state is empty |
| AntiFraudEvaluator.Evaluator.CleanupLocked | internal/engine/antifraud/rules.go:209-236 | the deletion loops over all four maps, in any iteration order, realise `Cleanup` |
| AntiFraudEvaluator.Evaluator.Conflicting | internal/engine/antifraud/rules.go:149-158 | the scan finds a conflict exactly if some identity key is still capped |
| AntiFraudEvaluator.Evaluator.MarkSeen | internal/engine/antifraud/rules.go:159-161 | every identity key is capped until now plus the contribution window, no other entry changes |
| AntiFraudEvaluator.Evaluator.RecordInSession | internal/engine/antifraud/rules.go:163-187 | the entropy rule: either the session is blocked and its window dropped, or the request is recorded |
| AntiFraudEvaluator.Evaluator.ApplyRules | internal/engine/antifraud/rules.go:121-188 | the rules in the source's order, with the whole new state |
| AntiFraudEvaluator.Evaluator.Evaluate | internal/engine/antifraud/rules.go:85-188 | the object follows the run of its calls, each made of the event's ip, session and user, the query and the instant; while the clock has not gone back its verdict is that of the undeleted history |
| TimedMarks.DropExpired | internal/engine/antifraud/rules.go:215-229 | deleting while ranging keeps exactly the unexpired entries |
| AntiFraudSafety.Explained | internal/engine/antifraud/rules.go:85-188 | each verdict in a run is the reference's verdict on the log before it |
| AntiFraudSafety.ContributionSpacing | internal/engine/antifraud/rules.go:149-161 | two requests that consumed the cap for one query and share an ip, session or user are at least a contribution window apart |
| AntiFraudSafety.RateBoundPerMinute | internal/engine/antifraud/rules.go:134-147 | an ip is accepted at most Max times per calendar minute |
| AntiFraudSafety.RateBound | internal/engine/antifraud/rules.go:134-147 | hence at most twice Max in any half-open sixty seconds |
| AntiFraudRate.BurstAttains | internal/engine/antifraud/rules.go:134-147 | for every configuration a run that gets twice Max accepted within two nanoseconds around the turn of a minute |
| AntiFraudRate.RateBoundExact | internal/engine/antifraud/rules.go:134-147 | a number bounds the acceptances of any ip in any sixty seconds, over all runs, if and only if it is at least twice Max |
| AntiFraudSafety.BlocksExact | internal/engine/antifraud/rules.go:121-132 | ip and session blocks hold if and only if a trip of that ip or session is younger than the block duration |
| AntiFraudSafety.BlockedRequestsLeaveNoTrace | internal/engine/antifraud/rules.go:121-147 | erasing every blocked or malformed request from a run changes no other verdict, so such requests extend no block and touch no counter, cap or window |
| AntiFraudKeys.KeysMeetIff | internal/engine/antifraud/rules.go:238-251 | with bar-free ids or bar-free queries two requests share a cap key exactly if they share the query and an identity |
| AntiFraudKeys.CapExact | internal/engine/antifraud/rules.go:149-158 | a request that gets as far as the cap is turned away exactly for a real conflict in the undeleted history |
| AntiFraudKeys.KeysSafeExact | internal/engine/antifraud/rules.go:238-251 | every request that shares a cap key with this one shares its query and an identity, if and only if this ip, session and query have no bar and the user id none after its first character |
| AntiFraudKeys.CapKeysSafeExact | internal/engine/antifraud/rules.go:85-118 | the same among requests with identifiers and a query, which are all that reach the cap: there a bar that starts an id or ends the query is harmless, every other one is not |
| AntiFraudKeys.BarsCollide | internal/engine/antifraud/rules.go:238-251 | an instance of the failing side: two strangers with different queries share a key |
| AntiFraudEntropy.EntropyBound | internal/engine/antifraud/rules.go:127-187 | with blocks longer than the window, a closed interval as long as the window accepts at most Max distinct queries of a session |
| AntiFraudEntropy.FloodBreaksBound | internal/engine/antifraud/rules.go:127-187 | for every configuration with a shorter block, a run that gets Max + 1 distinct queries into one interval |
| AntiFraudEntropy.EntropyBoundExact | internal/engine/antifraud/rules.go:127-187 | the bound holds over all runs if and only if the block outlasts the window |
| AntiFraudPairs.SourceSpaced | internal/engine/antifraud/rules.go:127-187 | two acceptances of one session and source are a contribution window apart for the same query; for another query, where a session may have only one, its window or a block apart |
| AntiFraudPairs.InterruptRun | internal/engine/antifraud/rules.go:163-187 | a trip in between empties a session's window, so that another query is accepted as soon as the block ends |
| AntiFraudTidy.RunTidy | internal/engine/antifraud/rules.go:149-177 | with the cap outlasting the window each session's list is sorted, repeats no query, counts each once and is at most Max long |
| AntiFraudTidy.TidyExact | internal/engine/antifraud/rules.go:149-177 | that invariant holds over all runs if and only if the cap outlasts the window |
| WindowHistory.SurvivorsAppend | internal/engine/window/ring_buffer.go:54-78 | an addition ends exactly what is a window old or sits in its slot with another second, and joins the rest |
| WindowHistory.SurvivorsUniform | internal/engine/window/ring_buffer.go:69-75 | two surviving additions in one slot are of the same second, for any arrival order |
| WindowHistory.SubtractPart | internal/engine/window/ring_buffer.go:185-194 | taking a bucket's counts off the totals leaves exactly the other buckets' totals, keys included |
| WindowRing.EvictStep | internal/engine/window/ring_buffer.go:170-183 | visiting a bucket empties it exactly if its additions are a window old |
| WindowRing.EvictThenClear | internal/engine/window/ring_buffer.go:67-75 | eviction plus clearing the taken-over slot leaves exactly the additions the new second spares |
| WindowEngine.Engine.constructor | internal/engine/window/ring_buffer.go:33-52 | an engine of the requested or default size that holds nothing |
| WindowEngine.Engine.RemoveContribution | internal/engine/window/ring_buffer.go:185-194 | in any iteration order, subtracts the bucket key by key and drops keys that reach zero |
| WindowEngine.Engine.EvictExpired | internal/engine/window/ring_buffer.go:170-183 | the in-place loop keeps exactly the additions younger than the window, in buckets and totals, and accounts for the removed mass |
| WindowEngine.Engine.Add | internal/engine/window/ring_buffer.go:54-87 | buckets and totals are at all times those of the survivors of everything ever added; a valid call adds one event under the second of its stamp, or of the clock if the stamp is below a second, an invalid one adds nothing; the ranking is rebuilt at most every 250 ms |
| WindowEngine.Engine.Snapshot | internal/engine/window/ring_buffer.go:89-124 | returns the head, as long as asked or as there are queries, of the complete ranking of the current totals: ranks from 1, scores going down, ties by the first differing character; changes neither totals nor history |
| SnapshotBuilder.Collect | internal/engine/window/ring_buffer.go:136-147 | every positive total once, whatever the iteration order |
| SnapshotBuilder.Build | internal/engine/window/ring_buffer.go:136-164 | collect, sort and number give the complete ranking |
| Ranking.RankingUnique | internal/engine/window/ring_buffer.go:149-158 | the ranking of given totals is unique, so a cached one equals a rebuilt one |
| Ranking.LessExact | internal/engine/window/ring_buffer.go:149-154 | a query precedes another of equal score exactly if it is a proper prefix of it or has the smaller character where they first differ |
| Ranking.RankingShows | internal/engine/window/ring_buffer.go:113-158 | what any prefix of a ranking shows: rank, total, count, descending scores, ascending queries |
| Ranking.TopOfRanking | internal/engine/window/ring_buffer.go:113-117 | no query left out of a prefix outranks one in it |
| WindowTheorems.SlidingWindowExact | internal/engine/window/ring_buffer.go:66-78 | the engine holds exactly the last W seconds at every moment if and only if nothing arrives a full window late and nothing filed under second zero keeps its slot when its window is over |
| WindowTheorems.CollisionFindsNothing | internal/engine/window/ring_buffer.go:69-75 | with nothing late the slot taken over is already of the new second or reads as empty, and is empty unless something was filed under second zero |
| WindowReading.HeldExact | internal/engine/window/ring_buffer.go:89-124 | whatever the arrival order, at a second r no addition is ahead of, the additions held are those of the last W seconds if and only if no recent one has lost its slot to another second and every older one has been ended |
| WindowReading.EngineHoldsExact | internal/engine/window/ring_buffer.go:89-124 | the same of what an engine's ring holds; its totals are then those of the last W seconds |
| WindowReading.ReadErrorExact | internal/engine/window/ring_buffer.go:89-124 | whatever the arrival order, a query's total exceeds that of the last W seconds by what is held but too old less what is recent but displaced, and all totals are right if and only if these agree per query |
| WindowReading.LateDisplaces | internal/engine/window/ring_buffer.go:69-75 | a failing input: a late addition between two of the newest second makes the first of them vanish |
| WindowReading.ReadExact | internal/engine/window/ring_buffer.go:89-124 | with nothing late and nothing outliving its window under second zero: at second r the totals held are those of the last W seconds if and only if no event lies between the newest second's window and r's |
| WindowReading.TotalsCurrentExact | internal/engine/window/ring_buffer.go:89-124 | the same, under the same hypothesis on its history, of an engine's totals |
| WindowReading.SilenceKeepsScores | internal/engine/window/ring_buffer.go:89-124 | a failing input: one addition at second s is still counted at s + W, when the last W seconds are empty |
| WindowTheorems.TotalsAreBucketSums | internal/engine/window/ring_buffer.go:77-78 | a query's total is the sum of its counts over the buckets |
| WindowTheorems.ScoreConserved | internal/engine/window/ring_buffer.go:77-78 | score added equals score in the totals plus score taken out of buckets |
| Normalizer.PipelineIsTokenizer | internal/engine/normalizer/normalizer.go:27-35 | lower, trim, replace, collapse and split read exactly the maximal letter-or-digit runs |
| Normalizer.NormalizedExact | internal/engine/normalizer/normalizer.go:47-51 | a query is accepted exactly if the kept words, joined, have at least two runes |
| Normalizer.WordsLaws | internal/engine/normalizer/normalizer.go:27-35 | words are cut at every character whose lower case is no letter or digit, and lowered character by character |
| Normalizer.KeepLaws | internal/engine/normalizer/normalizer.go:38-45 | stop words are left out wherever they stand, every other word stays in place and as often as it occurs |
| Text.SplitLaws | internal/engine/normalizer/normalizer.go:35 | a text is cut at every separator and nowhere else |
| Text.JoinLaws | internal/engine/normalizer/normalizer.go:47 | exactly one space between two words and nothing else added |
| Text.TrimExact | internal/engine/normalizer/normalizer.go:28 | trimming leaves the part from the first to the last character that is no white space |
| Normalizer.Idempotent | internal/engine/normalizer/normalizer.go:26-52 | a normalized query is its own normalization |
| Normalizer.StopListsCompose | internal/engine/normalizer/normalizer.go:35-51 | normalizing under S then T is normalizing under both, errors included, and a failure under S stays one |
| Normalizer.NormalizedChars | internal/engine/normalizer/normalizer.go:47-51 | normalized queries have at least two runes and no key separator |
| Normalizer.Service.constructor | internal/engine/normalizer/normalizer.go:22-24 | the service starts with the lowered, trimmed, non-empty stop words given |
| Normalizer.Service.Normalize | internal/engine/normalizer/normalizer.go:26-52 | the pass-by-pass method returns the kept words joined, or the error if that is less than two runes long |
| Normalizer.Service.ReplaceStopWords | internal/engine/normalizer/normalizer.go:54-72 | the new stop set is exactly the listed words, lowered character by character and without outer white space |
| Normalizer.StopWordsGone | internal/engine/normalizer/normalizer.go:38-72 | under that set a normalized query's words are exactly the text's words that are no listed word, lowered and trimmed |
| Text.ReplaceKeepsSplit | internal/engine/normalizer/normalizer.go:29-30 | replacing runs of separators by one space does not change the tokens |
| Text.SplitJoin | internal/engine/normalizer/normalizer.go:47 | splitting undoes joining |
| Dedup.SeenExact | internal/engine/dedup/ttl_store.go:24-47 | a duplicate is reported exactly if the non-empty key was freshly added less than TTL ago; hits extend nothing |
| Dedup.Store.constructor | internal/engine/dedup/ttl_store.go:14-22 | an empty store with the requested or default TTL |
| Dedup.Store.SeenOrAdd | internal/engine/dedup/ttl_store.go:24-47 | the in-place store follows the run of its calls and so answers as their full history |
| Ingest.RedeliveryStutters | internal/usecase/ingest/handler.go:53-73 | a delivery that comes out as a duplicate can be inserted anywhere without changing the aggregate, the anti-fraud state or any other verdict |
| Ingest.DuplicatesErasable | internal/usecase/ingest/handler.go:53-73 | erasing all duplicates from a run leaves the aggregate, the anti-fraud state and every other verdict as they were |
| Ingest.DuplicateExact | internal/usecase/ingest/handler.go:53-55 | a delivery is a duplicate exactly if its id was processed afresh less than TTL before |
| Ingest.IngestingAddsOne | internal/usecase/ingest/handler.go:57-72 | an ingested delivery adds one event to the aggregate, a rejected one none |
| IngestHandler.Handler.Handle | internal/usecase/ingest/handler.go:46-73 | the four objects together move as the pipeline on values does, or report the missing configuration and move nothing |
| Outcomes.RunMirrors | internal/usecase/ingest/handler.go:57-64 | the evaluator's log is the part of the deliveries that are neither duplicates nor invalid, with their events' ip, session, user and normalized query |
| Outcomes.ResultExact | internal/usecase/ingest/handler.go:46-73 | what becomes of a delivery is decided by the earlier deliveries and their results: duplicate, invalid query, block, rate, cap or entropy exactly under the stated condition on the events' own fields, else ingested |
| Outcomes.FiledExact | internal/usecase/ingest/handler.go:66-72 | an ingested event is filed once, with weight one, under its own second or the clock's; nothing else is filed |
| OneVote.EventsSpaced | internal/engine/antifraud/rules.go:149-161 | two ingested events with one normalized query and a common ip, session or non-empty user are handled at least a contribution window apart |
| OneVote.RunFactors | internal/usecase/ingest/handler.go:46-73 | the pipeline drives the evaluator through exactly the asked requests and files exactly its acceptances, in order |
| OneVote.VotesSpaced | internal/usecase/ingest/handler.go:62-71 | two votes for one query whose events share an ip, session or user are a contribution window apart |
| OneVote.OneSourceOneVote | internal/usecase/ingest/handler.go:46-73 | while a vote is alive in the window no later vote for the query is of an event with the same ip, session or user |
| OneVoteExact.OneVoteThreshold | internal/usecase/ingest/handler.go:46-73 | that guarantee holds over all timely runs if and only if the contribution window spans the window plus twice the lag |
| Redelivery.TTLApart | internal/usecase/ingest/handler.go:53-55 | two ingested deliveries of one event are at least the TTL apart, whatever the stop words |
| Redelivery.RedeliveryExact | internal/usecase/ingest/handler.go:46-73 | for any text and any stop words at its two deliveries, where a third query exists if they change its query: some run ingests the event twice with a given gap if and only if the gap is at least the TTL and one the evaluator allows (`GapAllowed`) |
| Redelivery.SameWordsExact | internal/usecase/ingest/handler.go:46-73 | with the same stop words at both deliveries: if and only if the gap is at least the TTL and at least the contribution window |
| Redelivery.ChangedWordsExact | internal/usecase/stoplist/commands.go:61-72 | with stop words replaced so that the event's query changes, and at least two queries allowed per session: if and only if the gap is at least the TTL |
| Pipeline.TotalCountsSources | internal/usecase/ingest/handler.go:46-73 | however events are told apart by source, the engine's total for a query is the number of distinct sources behind its live votes and never exceeds the distinct sources of the events ingested for it |
| Pipeline.TotalBounded | internal/usecase/ingest/handler.go:46-73 | hence at most the distinct ips, at most the distinct sessions, and at most the distinct users, counting events without one by ip, of the events ingested for the query |
| Pipeline.IngestedConserved | internal/usecase/ingest/runtime_handler.go:58-113 | the ingested counter equals the sum of the current totals plus the score taken out of buckets |
| Pipeline.DropsExplained | internal/usecase/ingest/runtime_handler.go:78-113 | the reason a message is dropped for: the validator's own, the unknown one, or the label of the result its event must have by the earlier deliveries |
| RuntimeHandler.Collector.IncDropped | internal/adapters/metrics/prometheus.go:60-67 | the count under the reason, or under the unknown label if it is empty, grows by one; every other count stays |
| RuntimeHandler.RuntimeHandler.constructor | internal/usecase/ingest/runtime_handler.go:41-56 | the given parts are kept and the counters start balanced |
| RuntimeHandler.RuntimeHandler.HandleRaw | internal/usecase/ingest/runtime_handler.go:58-113 | with one collector behind metrics and reporter, nil returns stay equal to ingested plus drops over all reasons and ingested equals the additions to the aggregate; each call moves exactly one count by one, the ingested one or that of the drop's own reason, whatever is wired, and hands the pipeline the payload's event if there is one |
| Backoff.ComputeBackoff | internal/adapters/kafka/consumer.go:174-193 | the loop, wrap-around included: nothing for no base, min(base * 2^attempt, max) if nothing overflows, and base * 2^attempt in 64 bits without a cap |
| Backoff.BackoffClosedForm | internal/adapters/kafka/consumer.go:174-193 | min(base * 2^attempt, max) when nothing overflows |
| Backoff.BackoffUncapped | internal/adapters/kafka/consumer.go:185-192 | without a cap the result is base * 2^attempt wrapped to 64 bits |
| Backoff.BackoffExact | internal/adapters/kafka/consumer.go:174-193 | the closed form holds for all attempts if and only if base is below 2^62 and its first doubling to reach 2^62 is not below max |
| Backoff.SmallCapsSuffice | internal/adapters/kafka/consumer.go:174-193 | a base below 2^62 and a cap of at most 2^62 are enough for it |
| Backoff.EdgeOverflows | internal/adapters/kafka/consumer.go:186-190 | at base = max = 2^62 the first retry wraps to the least 64-bit value |
| Backoff.BackoffMonotone | internal/adapters/kafka/consumer.go:174-193 | waits are positive, capped and never shrink |
| ConsumerProtocol.AtLeastOnce | internal/adapters/kafka/consumer.go:94-116 | at every moment commits are a prefix of the handled messages, these of the fetched ones, and at most one message is uncommitted |
| ConsumerProtocol.CommitFollowsSuccess | internal/adapters/kafka/consumer.go:109-114 | a commit is always for the newest fetched message, after its handler succeeded |
| ConsumerProtocol.AttemptsBounded | internal/adapters/kafka/consumer.go:118-157 | at most R + 1 handler calls per fetched message and C + 1 commit calls per handled one |
| ConsumerProtocol.HandlerWaits | internal/adapters/kafka/consumer.go:118-134 | the k-th failed handler call for a message, unless the last, is followed by a wait of min(base * 2^(k-1), max) |
| ConsumerProtocol.CommitWaits | internal/adapters/kafka/consumer.go:136-157 | a failed commit, unless the last, is followed by the commit wait, the same every time |
| ConsumerProtocol.WaitsEndInRetry | internal/adapters/kafka/consumer.go:118-157 | a wait is followed by another try of the call that failed before it, for the same message |
| ConsumerProtocol.MessageCourse | internal/adapters/kafka/consumer.go:94-116 | a fetched message goes to the handler, a handled one is committed, only then is another fetched, and a failed fetch ends the run |
| Consumer.NormalizeConfig | internal/adapters/kafka/consumer.go:221-238 | retry settings become sane, valid ones are kept, the base never exceeds the cap |
| Consumer.Consumer.HandleWithRetry | internal/adapters/kafka/consumer.go:118-134 | ends in success or after exactly R + 1 failures, waiting by the backoff schedule in between |
| Consumer.Consumer.CommitWithRetry | internal/adapters/kafka/consumer.go:136-157 | ends in a commit, at the first failure with the context over or the call cancelled, or after exactly C + 1 failures |
| Consumer.Consumer.Run | internal/adapters/kafka/consumer.go:77-116 | whatever reader, handler and context answer, the trace follows the protocol, and each way to stop is explained by the last answer and the number of failures since the fetch |
| ExactlyOnce.DuplicateIffNotFirst | internal/usecase/ingest/handler.go:53-55 | with redeliveries within the TTL a delivery comes out as a duplicate exactly if it is not the first of its id |
| ExactlyOnce.OneDeliveryEach | internal/usecase/ingest/handler.go:46-73 | redeliveries within the TTL leave the aggregate and the anti-fraud state as one delivery per event id does |
| ExactlyOnce.HandleMessage | internal/usecase/ingest/runtime_handler.go:58-113 | a handler call hands the pipeline the message's event exactly if it reports success on a payload that maps to one |
| ExactlyOnce.CommittedOnce | internal/adapters/kafka/consumer.go:94-116 | over any sequence of consumer runs feeding one live pipeline, with redeliveries within the TTL, engine and evaluator stand where one delivery per event id puts them, and every committed message's event is among these |
| Consumer.StoppedRunsCommitAllButLast | internal/adapters/kafka/consumer.go:94-116 | however a run ends, every fetched message except possibly the last is committed, in fetch order |

## Left out

- HTTP handlers, router, OpenAPI pages, Postgres repository, environment parsing, logging and wiring: I/O around the pipeline.
- Schema validation: the validator is an arbitrary function from payloads to an event, a reject or another error.
- Prometheus rendering and the lag, age and latency gauges: only the ingested counter and the drop counter per reason are modelled.
- Real time: clocks are parameters, one reading per call where `Add` makes two; saturation of `time.Sub` beyond 292 years is not modelled.
- WindowEngine.Engine.Add: requires that the addition's second has a bucket; a negative second that is no multiple of the window size makes the source panic on a negative index.
- IngestHandler.Handler.Handle: requires the same of a delivery that comes out as ingested, and nothing of any other.
- RuntimeHandler.RuntimeHandler.HandleRaw: requires the same of a payload whose event would be ingested, and nothing of any other.
- AntiFraudEvaluator.Evaluator.Evaluate: does not model a nil receiver, and takes a zero `now`, which the source replaces by the clock, as already replaced.
- `generatedAtMS` of a snapshot and the always zero `UniqueSources` of an item: no order of the former is claimed, since `now` is read before the lock.
- Concurrency within a method: methods hold one mutex throughout and are single steps; the reading order of `now` under contention is what the nondecreasing-clock hypothesis stands for.
- Floating point: scores are integers, exact up to 2^53 in the source as long as only 1 is added.
- The library sort: `SnapshotBuilder.Sort` is an insertion sort in its place, and the result does not depend on the choice.
- Regular expressions and Unicode tables: abstract letter-or-digit, white-space and lower-case maps with the stated laws; strings are sequences of runes, so invalid UTF-8 is not modelled.
- Go's map of counters is unbounded here; memory use of the maps between cleanups is not claimed.
- Consumer settings other than retries and waits, and the timer inside a wait: a wait is an entry in the trace.
