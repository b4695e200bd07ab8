# Verified model of the backend's protocols and fast forms

A Dafny model of the parts of this backend whose correctness is not visible in one function body:
protocols that several callers run at once against the database or an upstream API, and fast code
that must mean the same as a simple description. `dafny verify dfyconfig.toml` checks all of it.

**Account relinking** (`Relink.dfy`). Transactions take two advisory locks in text order, delete
the committed rows that share a key, insert and commit, beside lock-free unlinks. The state machine
has one event per statement and runs any number of transactions. Two relinks with disjoint keys may
both plan to delete the same old row, so serializability rests on an invariant: the rows an open
transaction plans to delete are always exactly the rows conflicting with it now. Locks are hashes of
keys. Exclusion and serializability hold for any hash. Freedom from deadlock does not: it holds exactly
when the calls hold no knot, a set of locks for each of which some call takes it first and then wants
another one of the set. A hash without collisions leaves no knot. A retried insert is harmless exactly
when nothing took the link out for good in between.

**Retention** (`Recency.dfy`, `Retention.dfy`). A prune selects stale ids and deletes them by id in
a later statement, with inserts and other prunes in between. It is safe because "at least `floor`
newer rows" is stable. Each prune may have its own keep; `floor` bounds them from below. Equal
timestamps do harm only where they straddle the cut of a prune: runs without such a cut are safe, and
two overlapping prunes agree exactly when there is none.
The docstring of `extract_stale_row_ids` says a negative keep cannot delete everything; the code
does delete everything, and the model follows the code.

**Appending chat turns** (`Appends.dfy`, `Retry.dfy`). One call reads the highest ordinal, then
sends a bulk insert guarded by the uniqueness of ordinals and sends it again after a transient
error. A call fails only for a cause of its own, and undisturbed it stores its batch and returns. A request the caller gave up on may be executed at any later moment or never. Migration 0020
says a retried append is idempotent. That holds within one call. Calling again after an error stores
the turn twice exactly when it was stored already at the new call's read, and a concrete run does so.
Deleting the conversation leaves later ordinals contiguous exactly when no request that may still be
executed carries an ordinal other than 0.

**Review decisions** (`Review.dfy`). An application check on a read of any age, then a trigger that
locks, restamps, re-derives the latest decision and rejects. An insert whose answer is lost may be sent
again, at any moment and any number of times; a request is one such attempt. What attempts are told agrees
with what is on record. The database clock is
assumed to advance strictly between lock acquisitions.

**Keyword gate** (`Vocabulary.dfy`). The pattern is built as text, read back by the grammar of the
fragment it uses and run by a backtracking matcher. Whitespace, word characters, lower case and the
fold of case-insensitive matching are parameters. It is assumed that a blank is whitespace and alone in
its lower case, and that characters with one lower case match each other when case is ignored.

**Fast forms over tables** (`ScenarioFeed.dfy`, `RelatedNews.dfy`, `NewsUpsert.dfy`). Two limited
queries against one sort, tiered queries against one ranking, and insert-or-ignore with backfills
in any order against a monotone merge, with the exact condition under which the order is irrelevant.

**Market data** (`CoinGecko.dfy`, `MarketData.dfy`). Cache, key ring, failover, breaker and router
are classes over one clock and one trace of what was sent, benched and armed. Clock readings are
any non-decreasing sequence and replies any stream. `RingTrace` and `BreakerTrace` say event by
event what the trace may do, and every public method of the provider keeps both, so the laws about
traces hold in every sequential run. What is cached is always the last thing upstream gave for its key.
Calls of the other adapters on the shared ring are included.

**Smaller pieces** (`NewsFeed.dfy`, `Downsample.dfy`, `Markup.dfy`). Greedy dedupe and the news
pipeline, stride sampling, and the markup escaper with its inverse. `Wrappers.dfy`,
`Sequences.dfy` and `Arithmetic.dfy` hold what several modules share.

Every lemma turns automatic induction off, so that each proof is the one written.

## Model

| member | source | states |
|---|---|---|
| `Relink.StepKeepsInv` | migrations/versions/0005_telegram_links_atomic_relink.py:74-88 | every lock, delete, insert, commit, abort and unlink step keeps the invariant: locks are exclusive, keys stay unique, and what an open transaction will delete is exactly what conflicts with it at this moment |
| `Relink.NoSharedKey` | migrations/versions/0005_telegram_links_atomic_relink.py:82-83 | two transactions past their second lock never share a user or a chat, even when the lock hash collides |
| `Relink.Serializable` | migrations/versions/0005_telegram_links_atomic_relink.py:74-88 | for every interleaving the committed table is "drop rows with this user or chat, add the pair" replayed in commit order, and no two rows share a key |
| `Relink.LogIsCommitOrder` | migrations/versions/0005_telegram_links_atomic_relink.py:85-88 | the order replayed is the order of the run's own commits and unlinks |
| `Relink.AnsweredAsRun` | migrations/versions/0005_telegram_links_atomic_relink.py:74-88 | a call has committed iff the run commits it, which is when its link enters that order, and has aborted iff the run aborts it |
| `Relink.UniqueConstraintsNeverFire` | src/app/infrastructure/persistence/supabase_telegram_link_repository.py:57-80 | when a transaction has inserted its row, no row that stays and no other uncommitted row shares a key with it, so the unique constraints never reject it |
| `Relink.ReplayMembership` | src/app/infrastructure/persistence/supabase_telegram_link_repository.py:57-84 | a link is stored iff it was linked and no later operation relinked one of its keys or unlinked its user |
| `Relink.ReplayIsInjective` | src/app/infrastructure/persistence/supabase_telegram_link_repository.py:57-84 | user to chat is a partial injection after any operations |
| `Relink.LinkSurvivesIff` | src/app/infrastructure/persistence/supabase_telegram_link_repository.py:57-84 | after other operations a link is still stored iff each of them that would remove it was followed by another link of the same pair |
| `Relink.RetryChangesNothingIff` | src/app/infrastructure/persistence/supabase_telegram_link_repository.py:68-79 | an insert repeated after a lost answer, other calls having run in between, changes nothing iff each of them that would remove it was followed by the same link; otherwise it evicts what replaced it |
| `Relink.NoDeadlock` | migrations/versions/0005_telegram_links_atomic_relink.py:77-83 | if the calls made hold no knot, while a transaction is unfinished some transaction can take its next step; a knot is a set of locks for each of which some call takes it first and then wants another one of them |
| `Relink.StuckIsKnot` | migrations/versions/0005_telegram_links_atomic_relink.py:77-83 | in a stuck state the locks held by the waiting transactions form a knot |
| `Relink.KnotGetsStuck` | migrations/versions/0005_telegram_links_atomic_relink.py:77-83 | every knot of calls has a run that gets stuck |
| `Relink.DeadlockFreeIff` | migrations/versions/0005_telegram_links_atomic_relink.py:62-64 | for any set of calls no run, however many take part, ever gets stuck iff the calls hold no knot |
| `Relink.DeadlockFreePairsIff` | migrations/versions/0005_telegram_links_atomic_relink.py:62-64 | the same for every pairing of a set of users with a set of chats, in terms of their keys alone |
| `Relink.KnotlessIffConvex` | migrations/versions/0005_telegram_links_atomic_relink.py:77-83 | when any two keys may be paired there is no knot iff keys sharing a lock share it with every key between them in text order |
| `Relink.CollisionFreeIsKnotless` | migrations/versions/0005_telegram_links_atomic_relink.py:62-64 | without collisions among the keys no calls on them hold a knot: what the fixed lock order relies on |
| `Relink.OneChatNeverDeadlocks` | migrations/versions/0005_telegram_links_atomic_relink.py:77-83 | any number of users racing for one chat that follows them in text order never deadlock, whatever collides |
| `Relink.CollidingLocksCanDeadlock` | migrations/versions/0005_telegram_links_atomic_relink.py:82-83 | crosswise colliding keys reach a state where neither of two transactions can ever move |
| `Relink.RunsAreBounded` | migrations/versions/0005_telegram_links_atomic_relink.py:74-88 | once no new call arrives, only as many transaction steps can follow as the work measure says |
| `Relink.EveryoneCanCommit` | migrations/versions/0005_telegram_links_atomic_relink.py:74-88 | if the calls made hold no knot, from every state of disjoint locks some run without aborts commits every transaction that has not aborted |
| `Relink.TelegramLinks.InsertRow` | migrations/versions/0005_telegram_links_atomic_relink.py:85-88 | the trigger and its insert, as the simple operation on the table |
| `Relink.TelegramLinks.LinkAccount` | src/app/infrastructure/persistence/supabase_telegram_link_repository.py:57-80 | however many answers are lost, the table is the one a single relink gives, and only this link uses its keys |
| `Relink.TelegramLinks.Unlink` | src/app/infrastructure/persistence/supabase_telegram_link_repository.py:82-84 | removes exactly this user's rows |
| `Relink.TelegramLinks.GetByUserId` | src/app/infrastructure/persistence/supabase_telegram_link_repository.py:38-43 | the one row of the user, or nothing iff there is none |
| `Relink.TelegramLinks.GetByChatId` | src/app/infrastructure/persistence/supabase_telegram_link_repository.py:45-50 | the one row of the chat, or nothing iff there is none |
| `Recency.UpwardHoldsTop` | src/app/infrastructure/persistence/supabase_signal_repository.py:134-151 | whatever the timestamps, k rows with all newer ones among them include k rows with fewer than k newer ones |
| `Recency.TopUnchanged` | src/app/infrastructure/persistence/supabase_signal_repository.py:134-151 | whatever the timestamps, removing only rows with k newer ones leaves the newest k as they were |
| `Recency.StaleStaysStale` | src/app/infrastructure/persistence/supabase_signal_repository.py:134-151 | whatever the timestamps, a row with k newer rows keeps k newer rows when only such rows are removed |
| `Recency.ListingUnique` | src/app/infrastructure/persistence/supabase_scenario_repository.py:64-96 | with distinct timestamps there is one newest-first listing of a set of rows |
| `Recency.SortNewestIsStable` | src/app/infrastructure/news/aggregating_news_provider.py:62 | sorting newest first keeps items of one time in the order they came in |
| `Retention.ExtractStaleRowIds` | src/app/infrastructure/persistence/extract_stale_row_ids.py:4-16 | for 0 <= keep <= n the ids of the n - keep rows past the first keep, each in its place; for a negative keep every id; for keep > n none |
| `Retention.StaleIds` | src/app/infrastructure/persistence/extract_stale_row_ids.py:16 | exactly the ids of the rows past the cut are stale |
| `Retention.PastCutIsOutranked` | src/app/infrastructure/persistence/extract_stale_row_ids.py:16 | without a tie at the cut every row past it has at least as many newer rows as are kept |
| `Retention.StepKeepsInv` | src/app/infrastructure/persistence/supabase_signal_repository.py:134-165 | an insert, a first hop whose cut is untied or a late second hop keeps: every row planned for deletion or already deleted has at least `floor` newer rows |
| `Retention.PrunesNeverTouchTheNewest` | src/app/infrastructure/persistence/supabase_signal_repository.py:134-165 | for every interleaving in which no tie straddles the cut of a prune, the newest `floor` surviving rows of a scope are the newest `floor` ever inserted there, so at least min(floor, ever inserted) rows are left |
| `Retention.DistinctTimesAreSafe` | src/app/infrastructure/persistence/supabase_signal_repository.py:134-165 | in particular with pairwise distinct timestamps |
| `Retention.PlannedRowsStayStale` | src/app/infrastructure/persistence/supabase_signal_repository.py:144-150 | a row a pending prune will delete has at least `floor` newer rows at every later moment of such a run |
| `Retention.LatestSurvivesPrune` | src/app/infrastructure/persistence/supabase_signal_repository.py:117-151 | when every prune keeps at least one row and cuts no tie, executing a planned delete never changes the latest row |
| `Retention.QuietPruneIsExact` | src/app/infrastructure/persistence/supabase_signal_repository.py:134-151 | undisturbed and with an untied cut, a prune leaves exactly the newest rows of its scope, min(max(keep, 0), n) of them, and every other scope's rows |
| `Retention.WipesScopeIffNotPositive` | src/app/infrastructure/persistence/extract_stale_row_ids.py:12-16 | a prune empties a non-empty scope iff keep <= 0, ties or not: the clamp turns a negative keep into delete-everything, against the docstring |
| `Retention.ConcurrentPrunesAgreeIff` | src/app/infrastructure/persistence/supabase_signal_repository.py:134-165 | from any table with unique ids, two prunes that both select before either deletes leave min(max(keep, 0), n) rows, whatever order ties are listed in, iff no two rows of equal age straddle the cut |
| `Retention.TiedPrunesEmptyTheScope` | src/app/infrastructure/persistence/supabase_signal_repository.py:134-165 | a run in which two tied rows and two prunes keeping one row each delete everything |
| `Retention.SignalTable.PruneForInstrument` | src/app/infrastructure/persistence/supabase_signal_repository.py:134-151 | after one undisturbed prune the scope holds the first `keep` rows of the listing, min(max(keep, 0), n) of them, every other scope is untouched, and the count is the number of rows removed |
| `Appends.StepKeepsStored` | src/app/infrastructure/persistence/supabase_conversation_repository.py:104-130 | every step, deletions included, keeps each call's batch absent or stored whole |
| `Appends.BatchStoredAtMostOnce` | src/app/infrastructure/persistence/supabase_conversation_repository.py:104-130 | under losses, retries, late executions, concurrent calls and deletions one call's batch is stored at most once, complete and in order, and no turn outlives its conversation |
| `Appends.StepKeepsLive` | src/app/infrastructure/persistence/supabase_conversation_repository.py:104-130 | every step without deletion keeps the stored ordinals equal to the committed batches end to end |
| `Appends.ReturnMeansCommitted` | src/app/infrastructure/persistence/supabase_conversation_repository.py:104-130 | in every run, deletions included, a normal return of a non-empty call, a failed touch included, means its batch was committed |
| `Appends.ReturnMeansCommittedOnce` | src/app/infrastructure/persistence/supabase_conversation_repository.py:104-130 | in runs without deletion no batch commits twice, a normal return means it committed, and an empty call returns and commits nothing |
| `Appends.CallFailsForCause` | src/app/infrastructure/persistence/supabase_conversation_repository.py:104-130 | in every run a call fails only if its read failed, another error hit it, it lost more answers than the attempt limit, or an executed request of its own was refused because the conversation was gone or one of its ordinals was taken |
| `Appends.AcknowledgedReturns` | src/app/infrastructure/persistence/supabase_conversation_repository.py:115-130 | a call whose insert is acknowledged can always go on to return, whether or not the touch succeeds |
| `Appends.UndisturbedCallReturns` | src/app/infrastructure/persistence/supabase_conversation_repository.py:104-130 | from any state with the conversation there, some run stores the batch right after the last turn and returns, the other turns untouched |
| `Appends.LeftBehindCanLand` | src/app/infrastructure/persistence/with_supabase_retry.py:35-57 | a request left behind by a lost connection can still be carried out and store the batch, after the call has failed too |
| `Appends.CommittedIffStored` | src/app/infrastructure/persistence/supabase_conversation_repository.py:104-130 | in runs without deletion a call committed iff its whole batch stands at its own ordinals |
| `Appends.ReinvocationDuplicatesIff` | migrations/versions/0020_conversations.py:26-28 | when a call has sent its request and another call then reads and later returns, both batches are stored iff the first was stored already at that read, whatever abandoned requests still run |
| `Appends.NextOrdinalIsEnd` | src/app/infrastructure/persistence/supabase_conversation_repository.py:170-194 | one past the highest stored ordinal is the number of turns |
| `Appends.OrdinalsAreContiguous` | migrations/versions/0020_conversations.py:87-96 | in every run without deletion the stored ordinals are 0..n-1 and hold the committed batches in commit order |
| `Appends.GetReturnsTranscript` | src/app/infrastructure/persistence/supabase_conversation_repository.py:56-76 | reading by ordinal gives the concatenation of the committed batches in commit order |
| `Appends.LostAnswerThenReinvocationDuplicates` | migrations/versions/0020_conversations.py:26-28 | for every attempt limit, a run in which a call fails although its batch is stored, and calling again stores the turn a second time |
| `Appends.DeletionIsHarmlessIff` | src/app/infrastructure/persistence/supabase_conversation_repository.py:143-147 | after a deletion every continuation without another one keeps the ordinals 0..n-1 iff no request that may still be executed carries an ordinal other than 0 |
| `Appends.HarmlessDeletionsKeepContiguity` | src/app/infrastructure/persistence/supabase_conversation_repository.py:143-194 | ordinals stay 0..n-1 through any number of such deletions |
| `Appends.DeleteUnderStaleReadLeavesGap` | src/app/infrastructure/persistence/supabase_conversation_repository.py:143-147 | a run with a deletion under a stale read whose only turn has ordinal 1 |
| `Retry.WithSupabaseRetry` | src/app/infrastructure/persistence/with_supabase_retry.py:18-57 | answer, number of calls and total sleep: stops at the first outcome that is not transient or on failure number max_attempts + 1 |
| `Retry.AnswerIsForced` | src/app/infrastructure/persistence/with_supabase_retry.py:35-57 | what the loop promises leaves one possible answer |
| `Review.AssertTransitionAllowed` | src/app/application/review/review_transition_policy.py:7-43 | an error iff the latest decision is terminal, naming both decisions |
| `Review.LatestTellsClosed` | migrations/versions/0002_review_states_transition_trigger.py:91-102 | the re-derived latest decision is terminal iff some committed row of the entity is |
| `Review.StepKeepsInv` | migrations/versions/0002_review_states_transition_trigger.py:80-104 | every step, an insert sent again included, keeps stamps in commit order, terminal rows last, each submission recorded once, and a passed request's entity open until it commits |
| `Review.AuditTrailIsLegal` | migrations/versions/0002_review_states_transition_trigger.py:79-104 | for every interleaving `created_at` order is commit order per entity, every row but the last is ESCALATED, and no submission is recorded twice |
| `Review.TriggerVerdict` | migrations/versions/0002_review_states_transition_trigger.py:91-104 | in every reachable state the trigger rejects iff a committed row of the entity is REVIEWED or DISCARDED and passes every other insert, the first one of an entity included |
| `Review.CheckVerdict` | src/app/application/review/use_cases/submit_review_decision.py:60-66 | the check refuses iff the rows it read hold a REVIEWED or DISCARDED one of the entity, and otherwise lets the submission go on |
| `Review.PassedRequestCommits` | migrations/versions/0002_review_states_transition_trigger.py:104 | a passed submission not yet on record can commit, which appends exactly its entity and decision; no other step changes the rows |
| `Review.OpenSubmissionIsRecorded` | src/app/application/review/use_cases/submit_review_decision.py:60-79 | from every state of the invariant in which the entity is open and nobody holds its lock, some run records a new submission on it |
| `Review.CommittedIffRecorded` | src/app/infrastructure/persistence/supabase_signal_repository.py:175-189 | a submission is on record iff one of its attempts was told so, and an attempt that meets the primary key belongs to one on record |
| `Review.CheckPlusTriggerIsTheRule` | src/app/application/review/use_cases/submit_review_decision.py:60-79 | check plus trigger record exactly what the rule alone records on the requests one at a time in verdict order |
| `Review.RefusalImpliesRejection` | src/app/application/review/review_transition_policy.py:40-43 | whatever was refused on a read of any age is refused on every current read |
| `Review.ResentVerdict` | src/app/infrastructure/persistence/supabase_signal_repository.py:175-189 | an attempt whose submission is on record never commits: it is told "illegal transition" iff its own decision is terminal or another submission closed the entity, and meets the primary key otherwise |
| `Review.ResentAttemptReads` | src/app/infrastructure/persistence/supabase_signal_repository.py:175-189 | a recorded submission can be sent again, and with nobody holding its lock the new attempt, of the same entity and decision, comes to read its own record |
| `Review.RetryIsRefusedIffTerminal` | src/app/infrastructure/persistence/supabase_signal_repository.py:175-189 | with nothing recorded on the entity in between, a retry after an applied insert is told "illegal transition" iff its decision is terminal |
| `Review.CheckAloneBreaksIff` | src/app/application/review/review_transition_policy.py:33-38 | two requests passing the check on one read leave an illegal trail without the trigger iff the first is terminal |
| `Review.ClientStampsHideClosing` | migrations/versions/0002_review_states_transition_trigger.py:84-89 | on any legal trail with client timestamps a closed entity can look open iff an earlier escalation carries a stamp no older than the closing row |
| `Vocabulary.WordsAreTheSplit` | src/app/application/event_intelligence/event_relevance_vocabulary.py:46 | the words of a term are the one list of whitespace-free non-empty strings the term is made of, literally and in order, with non-empty whitespace between neighbours and optional whitespace around |
| `Vocabulary.KeysAgreeIff` | src/app/application/event_intelligence/event_relevance_vocabulary.py:46-51 | two terms have one key iff they have the same words, letter by letter once lowered, whatever whitespace separates them |
| `Vocabulary.ParseEscaped` | src/app/application/event_intelligence/event_relevance_vocabulary.py:53 | escaping a word and parsing it gives back its characters as literals |
| `Vocabulary.CompileOfPatternText` | src/app/application/event_intelligence/event_relevance_vocabulary.py:53-58 | compiling the pattern text built from phrases gives back those phrases and nothing else |
| `Vocabulary.MatchPhrase` | src/app/application/event_intelligence/event_relevance_vocabulary.py:27-31 | backtracking matches a phrase at a position iff it stands there, words separated by whitespace, and ends on a boundary |
| `Vocabulary.OccursMeans` | src/app/application/event_intelligence/event_relevance_vocabulary.py:58 | a phrase occurs iff it stands somewhere with exactly one word character beside each end, inside or outside |
| `Vocabulary.SearchMeansOccurs` | src/app/application/event_intelligence/event_relevance_vocabulary.py:27-31 | the search succeeds iff some phrase occurs on word boundaries |
| `Vocabulary.LongestFirstSorts` | src/app/application/event_intelligence/event_relevance_vocabulary.py:57 | the sort orders by length and loses and adds no alternative |
| `Vocabulary.DedupedMeansTerms` | src/app/application/event_intelligence/event_relevance_vocabulary.py:45-54 | dropping blank terms and case-insensitive duplicates changes no answer |
| `Vocabulary.KeptIsDeduped` | src/app/application/event_intelligence/event_relevance_vocabulary.py:45-52 | the positions the loop keeps hold non-blank terms, one for every key |
| `Vocabulary.CollectAlternatives` | src/app/application/event_intelligence/event_relevance_vocabulary.py:43-54 | the loop renders the terms at those positions, in order |
| `Vocabulary.Build` | src/app/application/event_intelligence/event_relevance_vocabulary.py:34-59 | the vocabulary matches a text iff some term occurs in it; it is empty iff every term is blank; its size is the number of distinct keys |
| `ScenarioFeed.ValuesOfDistinctIds` | src/app/infrastructure/persistence/supabase_scenario_repository.py:93-94 | merging by id keeps every row of the two disjoint queries in place |
| `ScenarioFeed.TopOfUnion` | src/app/infrastructure/persistence/supabase_scenario_repository.py:73-96 | the newest k of two sets are among the newest k of each |
| `ScenarioFeed.MergeEqualsReference` | scripts/seed_demo_data.py:250-255 | the two limited queries merged, sorted and cut equal the in-memory filter, sort and slice, for every limit and dictionary order |
| `ScenarioFeed.FeedIsNewestVisible` | src/app/infrastructure/persistence/supabase_scenario_repository.py:64-96 | the feed holds rows of the table that are global or the user's own, strictly newest first, `limit` of them or all there are, and any other such row is older than all of them |
| `RelatedNews.SelectRelated` | src/app/infrastructure/persistence/supabase_news_item_repository.py:369-392 | one query: the newest unseen related rows, newest first, each once, min(limit, candidates) of them; their ids become seen |
| `RelatedNews.NewestAreCut` | src/app/infrastructure/persistence/supabase_news_item_repository.py:381-390 | there is one such list, and filter, order and limit give it |
| `RelatedNews.TiersAreRanked` | src/app/infrastructure/persistence/supabase_news_item_repository.py:345-367 | the three tiers end to end are the one sort by relation and then recency |
| `RelatedNews.ListRelated` | src/app/infrastructure/persistence/supabase_news_item_repository.py:345-367 | the tiered queries return the first `limit` rows of the tiers |
| `RelatedNews.RankedUnique` | src/app/infrastructure/persistence/supabase_news_item_repository.py:346-350 | there is one ranked sort of the other articles |
| `RelatedNews.TiersEqualOneSort` | src/app/infrastructure/persistence/supabase_news_item_repository.py:345-392 | the answer is the first `limit` rows of any ranked sort, without duplicates or the article itself, min(limit, others) long |
| `NewsUpsert.UpsertIsMonotone` | src/app/infrastructure/persistence/supabase_news_item_repository.py:72-173 | every stored row stays and can only gain a missing image, summary or category; the urls after are those before and the page's |
| `NewsUpsert.UpsertIsIdempotent` | src/app/infrastructure/persistence/supabase_news_item_repository.py:72-173 | ingesting the same page again changes nothing, repeated urls and any backfill order included |
| `NewsUpsert.GroupMembers` | src/app/infrastructure/persistence/supabase_news_item_repository.py:156-161 | batching by category assigns each url exactly the categories its items carry |
| `NewsUpsert.UpsertIsMerge` | src/app/infrastructure/persistence/supabase_news_item_repository.py:72-173 | with distinct urls a new url gets its item's own summary, image, category and fixed fields, and a known one keeps every stored value and takes the item's where it had none |
| `NewsUpsert.OtherRowsUntouched` | src/app/infrastructure/persistence/supabase_news_item_repository.py:112-173 | rows the page does not mention are unchanged |
| `NewsUpsert.OrderIsIrrelevant` | src/app/infrastructure/persistence/supabase_news_item_repository.py:93-100 | with distinct urls any two orders of the concurrent backfills give the same table |
| `NewsUpsert.OrderIsIrrelevantIff` | src/app/infrastructure/persistence/supabase_news_item_repository.py:93-100 | the order of the backfills, retried ones included, never matters iff items of one url agree on the images and summaries they carry |
| `NewsUpsert.RetryChangesNothing` | src/app/infrastructure/persistence/supabase_news_item_repository.py:85-91 | a statement repeated after a lost answer changes nothing |
| `NewsUpsert.NewsItemRepository.UpsertMany` | src/app/infrastructure/persistence/supabase_news_item_repository.py:72-110 | the table after the call, and the read-back: one current row per input in input order |
| `NewsUpsert.NewsItemRepository.ReadBack` | src/app/infrastructure/persistence/supabase_news_item_repository.py:104-110 | the current rows of exactly the inputs that have one, in input order |
| `CoinGecko.BenchesAreRespected` | src/app/infrastructure/marketdata/coingecko_key_ring.py:38-76 | in every trace no slot is used, or benched again, before each of its benches has ended |
| `CoinGecko.RateLimitsAreBenched` | src/app/infrastructure/marketdata/coingecko_get.py:53-55 | a bench follows each 429 at once, on the same slot, and nothing else |
| `CoinGecko.BenchedMeansRefused` | src/app/infrastructure/marketdata/coingecko_key_ring.py:49-58 | the end of a bench goes back to a 429 received on that slot |
| `CoinGecko.BreakerIsRespected` | src/app/infrastructure/marketdata/coingecko_market_data_provider.py:159-166 | no price request leaves and no second arming happens while an arming lasts |
| `CoinGecko.OnlyOutagesArm` | src/app/infrastructure/marketdata/coingecko_market_data_provider.py:168-225 | an arming answers the price request that just failed, never with a 4xx, 429 included |
| `CoinGecko.FewRateLimits` | src/app/infrastructure/marketdata/coingecko_key_ring.py:38-76 | a window of length W holds at most floor(W / key cooldown) + 1 rate limits of one slot |
| `CoinGecko.FewArmings` | src/app/infrastructure/marketdata/coingecko_market_data_provider.py:159-193 | a window of length W holds at most floor(W / cooldown) + 1 armings |
| `CoinGecko.TtlCache.Get` | src/app/infrastructure/caching/ttl_cache.py:20-28 | lazy deletion is invisible: the answer is the last value set for the key if younger than the TTL |
| `CoinGecko.TtlCache.Set` | src/app/infrastructure/caching/ttl_cache.py:30-31 | makes this the last value set, as of now |
| `CoinGecko.KeyRing.IsBenched` | src/app/infrastructure/marketdata/coingecko_key_ring.py:69-76 | true iff the slot's last bench has not ended, although entries are deleted lazily |
| `CoinGecko.KeyRing.Bench` | src/app/infrastructure/marketdata/coingecko_key_ring.py:49-58 | records the bench and its end and keeps the ring's invariant |
| `CoinGecko.CoinGeckoGet` | src/app/infrastructure/marketdata/coingecko_get.py:39-62 | tries rested slots in order, benches each 429, stops at the first other reply and reports it; "limited" only when each of the keys, or the keyless slot if there are none, carries a bench not yet ended when the call began, and an answer comes over one of the keys |
| `CoinGecko.CallTriesKeys` | src/app/infrastructure/marketdata/coingecko_key_ring.py:60-62 | what the slots tried mean for the keys configured: one slot per key, or a single keyless one |
| `MarketData.OutcomeIsForced` | src/app/infrastructure/marketdata/coingecko_get.py:39-62 | the outcome told to the caller can be read off the requests made |
| `MarketData.CallKeepsBreaker` | src/app/infrastructure/marketdata/coingecko_market_data_provider.py:105-121 | a call made after the last arming has ended, or by another adapter, keeps the breaker's discipline |
| `MarketData.CoinGeckoMarketDataProvider.InCooldown` | src/app/infrastructure/marketdata/coingecko_market_data_provider.py:159-166 | false iff the last arming has ended; clears the field then |
| `MarketData.CoinGeckoMarketDataProvider.EnterCooldown` | src/app/infrastructure/marketdata/coingecko_market_data_provider.py:168-193 | arms from now on for one cooldown on any error but a 4xx other than 429, which changes nothing; armed on the failure just received it keeps the invariant |
| `MarketData.CoinGeckoMarketDataProvider.GetPriceSeries` | src/app/infrastructure/marketdata/coingecko_market_data_provider.py:95-126 | served from the cache iff the last value stored for the coin and the smaller of the two windows is young; else empty while the breaker lasts; else upstream's points in order, one candle each with its price four times and its time in seconds, stored even when empty |
| `MarketData.CoinGeckoMarketDataProvider.GetLastPrice` | src/app/infrastructure/marketdata/coingecko_market_data_provider.py:128-154 | as for a series, with the price upstream gave, but a stored missing price is never a hit |
| `MarketData.CoinGeckoMarketDataProvider.OtherAdapterGet` | src/app/infrastructure/marketdata/coingecko_key_ring.py:13-19 | another adapter's request on the shared ring keeps every invariant of the price provider |
| `MarketData.CallKeepsSourced` | src/app/infrastructure/marketdata/coingecko_market_data_provider.py:95-126 | a call adds nothing to what upstream last gave for any request but its own, and its own reply is all that is missing from the caches |
| `MarketData.SeriesStored` | src/app/infrastructure/marketdata/coingecko_market_data_provider.py:123-126 | storing the reply makes every cached series again what upstream last gave for its key |
| `MarketData.RoutingMarketDataProvider.GetPriceSeries` | src/app/infrastructure/marketdata/routing_market_data_provider.py:34-50 | an error or a non-empty series; a crypto one has a candle for each point of the last answer upstream gave for this coin and clamped window, given in this call or stored as it came less than a TTL ago; an error has a cause in the trace |
| `MarketData.RoutingMarketDataProvider.GetLastPrice` | src/app/infrastructure/marketdata/routing_market_data_provider.py:52-68 | an error or a price, for crypto the last one upstream gave for this coin, as fresh as a series |
| `NewsFeed.DedupeNewsItems` | src/app/infrastructure/news/dedupe_news_items.py:4-16 | the loop with its two seen-sets computes the recursive dedupe |
| `NewsFeed.DedupeIsGreedy` | src/app/infrastructure/news/dedupe_news_items.py:9-15 | the result is the subsequence at any choice of positions in which an item is chosen iff it shares neither url nor normalized title with an earlier chosen one |
| `NewsFeed.GreedyExists` | src/app/infrastructure/news/dedupe_news_items.py:9-15 | such a choice exists |
| `NewsFeed.DedupeDistinct` | src/app/infrastructure/news/dedupe_news_items.py:5 | no two results share a url or a normalized title |
| `NewsFeed.DedupeIdempotent` | src/app/infrastructure/news/dedupe_news_items.py:4-16 | deduping twice is deduping once |
| `NewsFeed.DedupeMembers` | src/app/infrastructure/news/dedupe_news_items.py:9-15 | the results are inputs, and every input clashes with (or is) a result |
| `NewsFeed.FlattenCollects` | src/app/infrastructure/news/aggregating_news_provider.py:102 | every answering provider's articles are collected, provider by provider in the order given, and a failed one adds nothing |
| `NewsFeed.StemsIsRestrictedBackfilled` | src/app/infrastructure/news/aggregating_news_provider.py:133-165 | backfill and restriction make the one article with the same url, title, summary and time whose symbols are the known ones, in order, of its own or, if it had none, of those its text mentions, and whose entities are the known ones in order |
| `NewsFeed.MatchesMeans` | src/app/infrastructure/news/aggregating_news_provider.py:170-189 | an article matches iff it is no older than the window, shares a requested symbol up to case if any was requested, and names some symbol of the requested class if one was |
| `Sequences.SiftedIsSift` | src/app/infrastructure/news/aggregating_news_provider.py:158-159 | only one list is the accepted elements in the order given |
| `NewsFeed.PipelineIsClean` | src/app/infrastructure/news/aggregating_news_provider.py:56-63 | distinctness survives backfill, restriction, filter, sort and limit; the feed is newest first with only in-universe symbols and entities, only matching items, and each is a collected article with nothing changed but its symbols and entities |
| `NewsFeed.PipelineIsComplete` | src/app/infrastructure/news/aggregating_news_provider.py:56-63 | only the limit costs a matching item its place, and only to items at least as new |
| `NewsFeed.FetchNews` | src/app/infrastructure/news/aggregating_news_provider.py:49-102 | an error iff there is no provider, the fan-out ran out of time or every provider failed; otherwise a clean and complete feed |
| `Downsample.SampleShape` | src/app/application/charts/downsample_candles.py:12-15 | n > m >= 2 candles give m strictly increasing positions with the first and last kept, gaps at most ceil(n/m) and the last below twice that |
| `Downsample.StrideRoundsDown` | src/app/application/charts/downsample_candles.py:12-13 | every position but the last is its index times n / m, rounded down |
| `Downsample.DownsampleCandles` | src/app/application/charts/downsample_candles.py:4-16 | short lists and non-positive limits come back unchanged; otherwise the candles at those positions |
| `Markup.FourPassesAreOneMap` | src/app/infrastructure/briefing/reportlab_briefing_pdf_renderer.py:255-257 | the four replacements in sequence equal one character-by-character map |
| `Markup.DecodeEscape` | src/app/infrastructure/briefing/reportlab_briefing_pdf_renderer.py:250-257 | a decoder recovers every original text |
| `Markup.OnlyNewlinesBecomeMarkup` | src/app/infrastructure/briefing/reportlab_briefing_pdf_renderer.py:250-257 | every angle bracket of escaped text belongs to a line break, one per newline |
| `Markup.HrefIsContained` | src/app/infrastructure/briefing/reportlab_briefing_pdf_renderer.py:246 | the address has no double quote, an opening bracket iff the url has a newline and then only in line breaks, and decodes to the url |
| `Markup.AnchorTargetsItsUrl` | src/app/infrastructure/briefing/reportlab_briefing_pdf_renderer.py:247 | the text between the anchor's first two quotes decodes to the url, and the label stands in the innermost tags at the end |

## Left out

- Relink.DeadlockFreeIff: is about the advisory locks; waiting on row locks inside the delete statement, and isolation levels other than READ COMMITTED, are not modelled.
- Relink.EveryoneCanCommit: says that a run exists; fairness of the lock queue is the database's.
- Retention.PrunesNeverTouchTheNewest: takes ids never to be reused, as fresh uuids are, and cuts without a tie; `TiedPrunesEmptyTheScope` is a run with tied cuts that loses everything.
- Appends.OrdinalsAreContiguous: names the stored turns only for runs in which the conversation is not deleted; across deletions `HarmlessDeletionsKeepContiguity` speaks of the ordinals alone.
- Appends.ReinvocationDuplicatesIff: is about runs in which the conversation is not deleted.
- Appends.GetReturnsTranscript: reads from one state; a conversation and its turns are fetched by two queries, and a turn committed between them is simply part of the later state.
- Appends.ReturnMeansCommittedOnce: is about one invocation; the loop in the caller that may invoke again is not part of this model.
- Relinking, pruning, appending and reviewing under concurrency are state machines over events; the classes beside them (`TelegramLinks`, `SignalTable`) cover one caller at a time.
- Review.ResentVerdict: lets an insert be sent again without counting attempts or waiting for a failure, which only adds runs.
- Vocabulary.Build: takes lower case and case-insensitive matching character by character; Unicode case mappings that change a string's length are not modelled.
- NewsFeed.FetchNews: takes the clock as one instant for the whole filter, and symbol linking, title normalization and the instrument universe as arbitrary functions; concurrency of the fan-out is reduced to each provider's answer and one timeout flag.
- NewsFeed.PipelineIsClean: bounds the feed's length for limits of zero and more; a negative limit drops items from the end as slicing does.
- ScenarioFeed.MergeEqualsReference: takes both queries on one snapshot, and limits of zero and more.
- RelatedNews.TiersEqualOneSort: takes the tiers on one fixed table with distinct publication times.
- NewsUpsert.OrderIsIrrelevantIff: covers backfills repeated after a lost answer, but not one executed after the category pass has begun.
- CoinGecko.CoinGeckoGet: is one sequential call at a time; overlapping calls of an event loop, the text of keys, request headers and stripping blank keys are not modelled.
- MarketData.CoinGeckoMarketDataProvider.GetPriceSeries: bounds the age of a cached answer from the moment it was stored, not from its request; counts a body that does not parse or convert as one exception; a cached series keeps the symbol it was first fetched for, so the claim about origin is about its candles.
- MarketData.RoutingMarketDataProvider.GetPriceSeries: takes the other provider's answer as an arbitrary value.
- Downsample.SampleShape: uses exact rational arithmetic; floating-point rounding of the stride is not modelled.
- Saving sentiment scores, monitors, titles, summaries of conversation lists and the optional-column fallback of signal creation: easy members.
- `auth.users` cascades and row-level security, HTTP and PostgREST internals such as row caps, language-model, voice and chat adapters, PDF layout, and all wiring.
