# Verified model of the trading stack

Dafny models of the parts of the repository that carry real protocol or
algorithmic weight, with proofs of what they are for. Verify with
`dafny verify dfyconfig.toml` (Dafny 4.11).

**The mini-api indexer and the reads over its store** (`Store`, `Chain`,
`Indexing`, `Runs`, `Convergence`, `Hazards`, `Rows`, `HiddenReorgs`, `AnyRuns`,
`Reseeding`, `Faults`, `Columns`, `Schema`, `Sums`, `Conservation`, `Paging`,
`Feeds`, `CaughtUp`, `Marks`, `RateLimiter`). A chain is a sequence of blocks
with a parent-committing, collision-free hash; the SQLite tables are maps; the
service is a class whose methods run the statements of `indexer.js` one by one,
with foreign keys, CHECKs, INSERT OR IGNORE and rollback as `schema.sql` gives
them. `Runs` interleaves chain moves (growth, reverts, regrowth), syncs that
commit, roll back or lose an RPC at any point, pauses, restarts and rewinds. The
central result is `Runs.RowsAreTheFoldOnEveryRun`: over every run the rows are
the fold of the followed logs of blocks 0 .. high of the chain last synced,
where `high` is the highest block ever applied from it. Convergence, replay,
conservation between tables, cursor walks, the caught-up test and the derived
mark all stand on that invariant. `Columns` tells every column of every table
from the logs alone, `Schema` proves the tables' constraints over every run and
that they decide exactly what throws, and `Faults` what one call answers at
every failure. `AnyRuns` drops every assumption on how the chain moves and where
rewinds go, and says when the rows are a chain's even then.

**The ABI coder** (`AbiTypes`, `AbiGrammar`, `AbiCodec`, `AbiWords`,
`AbiProofs`, `AbiLimits`). The type parser against the printer and against a
grammar, the bytes of every kind of value, the head/tail encoder against the
layout of the Solidity Contract ABI Specification ("Formal Specification of the
Encoding"), and the offset-chasing decoder, at any offset inside any larger
buffer. The service's copy and the test stack's copy are the same coder; one
model covers both.

**Keccak-256** (`Bits`, `Keccak`, `KeccakStandard`, `Sponge`). The in-place
permutation on BigInt lanes and the hash, proved equal to a bit-by-bit
transcription of FIPS 202: sections 3.2 and 3.3 (with the rotation offsets and
round constants generated, not tabulated), the sponge of section 4 and the
padding of section 5.1, without the SHA-3 domain suffix. BigInt operators are
modelled on unbounded integers, so that every lane stays below 2^64 is a result
and not an assumption.

**Smaller cores** (`Units`, `Decimal`, `Risk`, `Remainders`, `CaseIds`,
`BugFlow`): exact decimal units, the bot's risk gate, the stable allocator of
catalogue IDs, and the flow from failing assertions to tracked issues.

## What the proofs found

- `rewindTo` forgets the block hash. A rewind while a reorg is still unnoticed
  hides that reorg, as does a reorg before the replay has written a hash again,
  however deep, or one above the replayed blocks; `Runs.Allowed` excludes them
  all. What they cost once the service has synced back is decided row by row,
  from any fork, above or below the rewound block
  (`HiddenReorgs.HiddenReorgIsHarmlessIff`): nothing, if the blocks never read
  hold nothing new and the new blocks mirror first what the lost blocks mirrored
  (`HarmlessIfMirroredFirst`); something, as soon as a lost log is missing or has
  moved to another block (`HarmlessOnlyIfNothingMoved`), or a log that is never
  read had not been mirrored in its block before (`HarmlessOnlyIfNothingMissed`).
  A transaction mined again one block later is enough, although applied_logs then
  looks right (`MovedTransactionKeepsItsOldBlock`), and a store at the head can
  list an account its chain never opened (`ForgottenAccountStays`).
- With no assumption on the chain or on rewinds at all, several such events in
  one run included, the rows are the fold of the logs read since the last
  rebuild (`AnyRuns.RowsFoldWhatWasRead`), and they are a chain's if and only if
  on each row the first logs of each key end where the chain's own logs end
  (`AnyRuns.RowsAreTheChainsIff`).
- A rewind to a block above everything applied skips logs. It is safe exactly
  when the skipped blocks mirror nothing
  (`Hazards.ForwardRewindIsSafeIffNothingIsSkipped`, with
  `ForwardRewindLosesAnAccount` as an instance).
- A rewind to the head itself leaves no hash, so `waitCaughtUp` cannot succeed
  until the chain grows (`CaughtUp.RewoundToHeadNeverLevels`,
  `Convergence.Converges`).
- `rebuild` commits before it seeds the markets again. If the seeding RPC fails,
  the markets stay missing until a restart. Further syncs bring the store to the
  head if and only if no log of the chain needs a market beyond those already
  seeded (`Reseeding.FailedReseedRecoversIff`); otherwise the range that needs
  one rolls back every time (`Reseeding.CleanSyncSticksIff`). After a restart
  they do if and only if the chain needs no market beyond those and the ones the
  contract lists (`Reseeding.RestartRecoversIff`). Every store that a run from
  an empty one leads to meets what these results ask of it
  (`Reseeding.MarketsCoverTheRowsOnEveryRun`).
- `seedMarkets` reads index prices at the head, ahead of `last_block`. A reorg
  that reverts a price seeded in this way, without touching an indexed block,
  leaves the stale price in place
  (`CaughtUp.SeededPriceAfterUnseenReorg`, instance `RevertedPriceStays`).
- `orders.filled` falls short of the sum of the trades naming the order exactly
  when a trade named it before its own placement was indexed
  (`Conservation.FilledIsSumOfTradesIff`, instance `MakerFilledBeforePlacement`).
- The coder does not check the length of an `address` or `bytesN` value. For
  every Solidity type, nested however deep and with anything before and after
  the bytes, what it accepts comes back from the decoder exactly when it was a
  value of the type (`AbiLimits.RoundTripIff`, instance
  `ShortAddressComesBackLonger`).
- A static value longer than a word makes the heads run over headSize, and then
  every dynamic head names a place before its tail; the heads fill headSize, and
  the dynamic heads are right, exactly when every static component has its
  declared length (`AbiProofs.HeadsFillHeadSize`,
  `AbiProofs.LayoutMeetsDefinition`).
- `decode` reads a bare type list as the list it spells exactly when the list
  does not start with a parenthesis (`AbiLimits.BareListIsReadIff`). A lone tuple
  is silently taken for the list of its components, so that against "(uint8)"
  the one-tuple (7) comes back as 7; every other such list is refused
  (`AbiLimits.BareListIsMisread`, `AbiLimits.LoneTupleLosesItsParentheses`).
- A catalogue case with an empty key takes a new ID on every run, and that is
  the only way a rerun changes the fixture (`CaseIds.RerunIsUnchangedIff`, instance
  `EmptyKeyTakesTwoIds`).

## Model

| member | source | states |
|---|---|---|
| `Store.ReplayIsNoOp` | services/mini-api/indexer.js:228 | Idempotence by (tx_hash, log_index): replaying any run of logs already marked leaves every table, derived or seeded, as it was |
| `Store.ReplayThenContinue` | services/mini-api/indexer.js:217-284 | A replayed prefix and then new logs gives the same rows as the new logs alone |
| `Store.FoldCovers` | services/mini-api/indexer.js:226-228 | After a run every log of it is covered: applying it again changes no row |
| `Store.AppliedKeysComeFromLogs` | services/mini-api/indexer.js:88 | applied_logs never holds a key that no log of the run carries |
| `Chain.HashCommitsToPrefix` | services/mini-api/indexer.js:24-30 | Equal block hashes at a height if and only if the chains agree on every block up to it |
| `Chain.SortRecoversChainOrder` | services/mini-api/indexer.js:198-201 | In whatever order the node lists the logs of a range, the sort by (block, log index) gives the chain's own order |
| `Chain.LogsOrdered` | services/mini-api/indexer.js:198-201 | The followed logs of a range are strictly ordered and lie in the range's blocks |
| `Chain.LogsAre` | services/mini-api/indexer.js:198-200 | The logs of a range are exactly those its blocks hold from the exchange or the oracle |
| `Indexing.Indexer.Init` | services/mini-api/indexer.js:94-109 | A file without a state row is bound to this exchange, chain id and block 0; an existing one is served only for its own, and otherwise left untouched; then the markets are seeded, wholly or up to the failing RPC |
| `Indexing.Indexer.SeedMarkets` | services/mini-api/indexer.js:112-123 | Upserts each market and then its index price; on a failing RPC exactly the first statements have taken effect |
| `Indexing.Indexer.SetPaused` | services/mini-api/indexer.js:145-147 | Sets the flag and changes nothing else |
| `Indexing.Indexer.RewindTo` | services/mini-api/indexer.js:150-152 | Moves last_block and nulls the hash; no row changes |
| `Indexing.Indexer.Rebuild` | services/mini-api/indexer.js:155-173 | Empties every derived table, resets block and hash and counts the rebuild in one transaction, then re-seeds outside it |
| `Indexing.Indexer.Apply` | services/mini-api/indexer.js:217-284 | Throws exactly on a malformed known topic or a fresh log whose statement is rejected; otherwise performs one step of the fold |
| `Indexing.Indexer.Mirror` | services/mini-api/indexer.js:230-283 | Each event's statements: the new rows of every table, and the exact inputs on which a bind, CHECK or foreign key throws |
| `Indexing.Indexer.PlaceOrder` | services/mini-api/indexer.js:231-235 | Inserts the order unless its id or placement key is taken; trigger types start Pending, others Open; rejects unnamed enums and unknown markets |
| `Indexing.Indexer.RecordFill` | services/mini-api/indexer.js:236-241 | One trade row, and the size added to the taker's order and, unless it is the backstop, the maker's |
| `Indexing.Indexer.ChangePosition` | services/mini-api/indexer.js:248-255 | One event row, and the position replaced with accumulated realized PnL and funding |
| `Indexing.Indexer.RecordFunding` | services/mini-api/indexer.js:256-258 | One funding row per log key, rejected without its market |
| `Indexing.Indexer.RecordLiquidation` | services/mini-api/indexer.js:259-261 | One liquidation row per log key, rejected without its market |
| `Indexing.Indexer.ChangeMarketStatus` | services/mini-api/indexer.js:262-264 | Updates the market's status if the store has it, throws on an unnamed status |
| `Indexing.Indexer.FillOrder` | services/mini-api/indexer.js:286-291 | Adds to filled, flips to Filled on equality with size, ignores an order the store does not have |
| `Indexing.Indexer.MoveFunds` | services/mini-api/indexer.js:268-277 | Creates the account on first sight and adds to its running totals |
| `Indexing.Indexer.CheckReorg` | services/mini-api/indexer.js:186-193 | Rebuilds exactly when a hash is kept and the chain no longer has that block |
| `Indexing.Indexer.CommitRange` | services/mini-api/indexer.js:203-212 | All logs of the range and the new block and hash, or, when any log or the tip RPC throws, the store as it was |
| `Indexing.Indexer.Sync` | services/mini-api/indexer.js:181-214 | The whole call, for every pause, fault, reorg and range, equals the transition that the run proofs use |
| `Faults.PausedIffFrozen` | services/mini-api/indexer.js:182-183 | A sync answers paused if and only if the store is, whatever the node says, serves or fails at, and then touches nothing |
| `Faults.PausedStoreIsFrozen` | services/mini-api/indexer.js:181-183 | Over any run of syncs, faults, reorgs and chain moves a paused store stays as it is, last block, hash and rebuild count included |
| `Faults.CommitsIffNothingIsInTheWay` | services/mini-api/indexer.js:181-214 | Without a reorg a sync commits exactly when it is not paused, the head is above last_block, no RPC fails and no log throws; it then answers the range and the number of logs and records the node's hash for its end, and otherwise changes nothing |
| `Faults.IdleIffNothingNew` | services/mini-api/indexer.js:194 | It is idle exactly when the head is not above last_block and the RPCs up to there answer |
| `Faults.ReorgStartsOver` | services/mini-api/indexer.js:155-214 | With a reorg: the store as it was if the head, the block or the emptying fails; else every row gone, one more rebuild, the getters' markets up to the failing statement, and at most the one range from block 0 |
| `Faults.NewStoreReadsFromBlockZero` | services/mini-api/indexer.js:94-109 | A new store is empty and running: its first clean sync applies blocks 0 .. min(head, maxRange - 1) and counts no rebuild |
| `Runs.ReorgDetectionIsExact` | services/mini-api/indexer.js:186-193 | In every reachable store with a kept hash, no reorg is detected if and only if the chain still has the whole prefix up to last_block |
| `Runs.AnyReorgIsAllowedOutsideReplay` | services/mini-api/indexer.js:24-30 | Outside a replay the chain may do anything at all between two syncs |
| `Runs.RangeExtendsFold` | services/mini-api/indexer.js:196-205 | Applying blocks last+1 .. to over rows that hold 0 .. high gives the rows of 0 .. max(high, to) |
| `Runs.SyncKeepsInvariant` | services/mini-api/indexer.js:181-214 | Every sync, committed, rolled back, rebuilt, idle or failed, keeps the rows equal to the fold |
| `Runs.StepKeepsInvariant` | services/mini-api/indexer.js:145-214 | So does every pause, restart, rewind and chain move the assumptions allow |
| `Runs.RowsAreTheFoldOnEveryRun` | services/mini-api/indexer.js:150-214 | Over every run the derived tables are the fold of the sorted followed logs of blocks 0 .. high of the chain last synced, with last_block <= high |
| `Runs.FreshStoreRunsStayExact` | services/mini-api/indexer.js:94-214 | The same from an empty store, for every run of any length |
| `Convergence.SliceDoesNotThrow` | services/mini-api/indexer.js:203-212 | If the whole chain applies from an empty store, so does any range over a store holding any prefix |
| `Convergence.CleanSyncProgress` | services/mini-api/indexer.js:181-214 | One clean sync advances by min(maxRange, distance to the head), rebuilding exactly once if and only if the hash failed |
| `Convergence.Converges` | services/mini-api/indexer.js:181-214 | On a still chain, enough clean syncs of any sizes end at the head with the rows of the whole chain after at most one rebuild, and with the head's hash exactly unless the store was rewound to the head |
| `Convergence.HistoryDoesNotShow` | services/mini-api/indexer.js:181-201 | The final event-derived tables and last_block are the same for every choice of range sizes, log orders and earlier history, so a rebuilt store equals a fresh one in them |
| `Convergence.ReplayAfterRewindIsNoOp` | services/mini-api/indexer.js:149-152 | Rewinding and syncing back up, with any faults and pauses between, leaves every table but indexer_state as it was |
| `Hazards.ForwardRewindIsSafeIffNothingIsSkipped` | services/mini-api/indexer.js:149-152 | After a rewind above everything applied and any run of syncs, the rows are the chain's if and only if the blocks jumped over mirror no log |
| `Hazards.ForwardRewindLosesAnAccount` | services/mini-api/indexer.js:149-152 | An instance: one skipped block with one log, and the account it opened never appears |
| `Hazards.OneSyncReachesHead` | services/mini-api/indexer.js:194-212 | A live store below the head whose remaining logs all apply can be brought to the head by one sync |
| `Hazards.AdvancesAddUp` | services/mini-api/indexer.js:194-212 | Any run of committed syncs that saw no reorg adds exactly the chain's own logs of all their blocks, to derived and seeded tables |
| `Hazards.SyncedBackRows` | services/mini-api/indexer.js:186-212 | After an unseen reorg from any fork, and syncs back up to the old height or the head, the store holds the shared and the lost logs and then those read, where the chain has the shared, the unread and those read |
| `Hazards.AppliedKeysAgreeIffNothingIsLost` | services/mini-api/indexer.js:186-193 | After that, applied_logs has the new chain's keys if and only if every lost log is on it and every unread log had been marked or is read after all |
| `Rows.StepIsLocal` | services/mini-api/indexer.js:230-283 | A new log writes each order, position, account and log entry from that row alone |
| `Rows.RowsAgreeIff` | services/mini-api/indexer.js:226-284 | Reading only the end of a chain over lost logs gives its tables if and only if, on each row a lost log, its namesake or an unread log writes, the lost logs and then those read end where the chain's logs end |
| `HiddenReorgs.HiddenReorgIsHarmlessIff` | services/mini-api/indexer.js:186-193 | After an unseen reorg from any fork at or below last_block, and any run of syncs back up to the old height or the head, every event-derived table is the new chain's if and only if that holds for the lost, unread and read logs |
| `HiddenReorgs.HarmlessIfMirroredFirst` | services/mini-api/indexer.js:186-193 | It is, whenever the blocks never read add nothing and the new blocks mirror first what the lost blocks mirrored |
| `HiddenReorgs.PlainReplayIsHarmless` | services/mini-api/indexer.js:149-152 | A replay of a chain that has not changed always meets the condition |
| `HiddenReorgs.HarmlessOnlyIfNothingMoved` | services/mini-api/indexer.js:186-193 | It is not, as soon as a log of the lost blocks is missing from the new chain or stands in another block |
| `HiddenReorgs.HarmlessOnlyIfNothingMissed` | services/mini-api/indexer.js:186-196 | Nor if a log of the blocks never read had not been mirrored from the old chain in the same block |
| `HiddenReorgs.MovedTransactionKeepsItsOldBlock` | services/mini-api/indexer.js:228 | An instance: a transaction mined again one block later, all keys agree, and the account row keeps the old block |
| `HiddenReorgs.ForgottenAccountStays` | services/mini-api/indexer.js:149-152 | An instance below the rewound block: the store stands at the head and lists an account its chain never opened |
| `HiddenReorgs.LogsAndTipFromDifferentChains` | services/mini-api/indexer.js:198-208 | If the chain changes between the log and the tip RPC, any reachable store then holds one chain's rows under the other's hash, and no later check sees it |
| `HiddenReorgs.MovedTipIsHarmlessIff` | services/mini-api/indexer.js:198-208 | Those rows are the second chain's if and only if, above any block the two chains share, both chains' logs end at the same rows |
| `HiddenReorgs.MovedTipIsHarmlessIfMirroredAlike` | services/mini-api/indexer.js:198-208 | They are, whenever both chains mirror the same logs above that block |
| `HiddenReorgs.MovedTipIsHarmlessOnlyIfMarkedAlike` | services/mini-api/indexer.js:198-208 | They are not, unless both mirror logs of the same transactions, log indexes and blocks there, in the same order |
| `Hazards.ChainMustStandStillDuringSync` | services/mini-api/indexer.js:198-208 | A two-block instance of that, with an account the chain never opened |
| `AnyRuns.RowsFoldWhatWasRead` | services/mini-api/indexer.js:145-214 | Over every run of any calls, with chains that change between and during them and rewinds anywhere, the event-derived tables are the fold of exactly the logs read since the last rebuild |
| `AnyRuns.FoldsAgreeIff` | services/mini-api/indexer.js:226-284 | Any two lists of logs, repeats included, leave the same tables if and only if on each row either writes the first logs of each key end alike |
| `AnyRuns.RowsAreTheChainsIff` | services/mini-api/indexer.js:145-214 | After any such run from an empty store the rows are a chain's if and only if on each row the first logs read of each key end where the chain's mirrored logs end |
| `AnyRuns.RightRowsNeedEveryLog` | services/mini-api/indexer.js:226-228 | Needed for that: each mirrored log of the chain was read in its block, and each log that counted is on the chain in its block |
| `AnyRuns.RunsAreSuchRuns` | services/mini-api/indexer.js:145-214 | Every run that keeps the working assumptions is one of these, with the same store at its end |
| `Reseeding.FailedReseedIsReachable` | services/mini-api/indexer.js:155-173 | One sync that meets a reorg and a seeding RPC failing at any statement leaves an empty store with the markets seeded so far |
| `Reseeding.CleanSyncSticksIff` | services/mini-api/indexer.js:203-212 | A clean sync of any live store changes nothing if and only if the store is at the head or a log of the range throws |
| `Reseeding.RestartRecoversIff` | services/mini-api/indexer.js:94-123 | After a restart on the same chain instance, enough clean syncs reach the head if and only if every log of the chain applies with the markets the store had and those the contract lists |
| `Reseeding.MarketsCoverTheRowsOnEveryRun` | services/mini-api/indexer.js:94-214 | Over every run, through rebuilds, failed seedings and restarts, what the rows hold could have been applied with the markets the store has then |
| `Reseeding.SyncsRecoverIff` | services/mini-api/indexer.js:181-214 | Enough clean syncs bring such a store to the head if and only if every log of the chain applies with the markets it has, or will have once it has rebuilt |
| `Reseeding.ReachedStoreRecoversIff` | services/mini-api/indexer.js:94-214 | The same for every unpaused store that any run from an empty one leads to, whether or not a rebuild is due |
| `Reseeding.FailedReseedRecoversIff` | services/mini-api/indexer.js:155-173 | After a rebuild whose seeding failed at its k-th statement, syncs alone recover if and only if the chain needs no market beyond those seeded |
| `Reseeding.OnePriceNeedsItsMarket` | services/mini-api/indexer.js:278-280 | An instance of each side: a chain with one PriceSet does not apply without its market and applies with it |
| `Hazards.AppliedIsKeys` | services/mini-api/indexer.js:228 | applied_logs holds exactly the keys of the mirrored logs |
| `Columns.MarksAreOurLogs` | services/mini-api/indexer.js:218-228 | applied_logs lists exactly the logs with a known topic from the contract that may emit it, the oracle for PriceSet and the exchange for the rest, each with its block |
| `Columns.OrderRowsFollowTheLogs` | services/mini-api/indexer.js:231-247 | An order has a row if and only if it was placed; its own columns are the first placement's, filled is what fills added since, updated_block is the last log naming it |
| `Columns.StatusIsTheLastDecision` | services/mini-api/indexer.js:242-247 | The last log that decides an order's status says what it is: Cancelled, Open after a trigger, Filled by the fill that brings filled to exactly its size |
| `Columns.UndecidedOrders` | services/mini-api/indexer.js:231-235 | An order nothing has decided is Pending if its type waits for a trigger and Open otherwise |
| `Columns.AccountTotalsAreSums` | services/mini-api/indexer.js:265-277 | An account's row dates from the first log naming it; deposits and withdrawals are the sums of its Deposited and Withdrawn logs |
| `Columns.KeyedRowsCopyTheirLogs` | services/mini-api/indexer.js:236-261 | Trades, position events, funding and liquidations: exactly one row for each log that calls for one, column by column the log's fields |
| `Columns.RowsComeFromLogs` | services/mini-api/indexer.js:226-228 | No row stands under a key that no log carries |
| `Columns.KeyedRowsAreNeverRewritten` | services/mini-api/db/schema.sql:1-8 | In any store at all no log rewrites a row that stands under a log's key |
| `Columns.PositionRowsFollowTheLogs` | services/mini-api/indexer.js:248-255 | A position's size, entry, block and transaction are its last change's; realized PnL and funding are sums over all of them |
| `Columns.SeededRowsFollowTheLogs` | services/mini-api/indexer.js:262-281 | Index rows are the last PriceSet's price, time and block; a known market's status and block the last status change's; all else is as seeded |
| `Columns.SeedingCopiesTheGetters` | services/mini-api/indexer.js:112-123 | After the first n statements of seeding, which market and index rows are the getters', column by column, and which are as before |
| `Columns.ReachableColumns` | services/mini-api/indexer.js:181-284 | All of this in every store a run leads to, with the logs it has applied |
| `Schema.ThrowsIffTheRowsWouldNotMeet` | services/mini-api/db/schema.sql:24-140 | Over a store that meets its constraints a log throws exactly when it is malformed, or is new and has an enum value without a name or would leave rows that break a CHECK, UNIQUE or foreign key |
| `Schema.RowsMeetTheSchemaOnEveryRun` | services/mini-api/db/schema.sql:24-140 | Whatever the chain, the faults and the operators do, the tables meet their constraints |
| `Schema.FreshStoreMeetsTheSchema` | services/mini-api/db/schema.sql:24-140 | So does every store that any calls make of a new one |
| `Conservation.FilledLaw` | services/mini-api/indexer.js:236-241 | For any run of logs: filled plus what was traded before the placement is the sum of trades naming the order |
| `Conservation.FilledIsSumOfTradesIff` | services/mini-api/indexer.js:286-291 | filled equals the sum of the trades naming the order as taker or maker if and only if none named it before it was placed |
| `Conservation.FilledIsSumOfTrades` | services/mini-api/indexer.js:236-241 | So on a chain that places orders before filling them, always |
| `Conservation.MakerFilledBeforePlacement` | services/mini-api/db/schema.sql:69-70 | An instance nothing rejects: a fill names a maker order placed later, whose filled stays 0 |
| `Conservation.PositionTotalsAreSums` | services/mini-api/indexer.js:248-255 | realized_pnl and funding_paid are the sums over the position's events, for every run of logs |
| `Conservation.PositionShowsLatestEvent` | services/mini-api/indexer.js:248-255 | size and entry price are those of the position's latest event in (block, log) order |
| `Conservation.NetIsSumOfDeltas` | services/mini-api/indexer.js:248-255 | The net of a market's position sizes is the sum of its size changes |
| `Conservation.OpenInterestBalances` | services/mini-api/server.js:89 | In every reachable store, if each block's position changes cancel in a market, long and short open interest are equal |
| `Conservation.ReachableRowsAgree` | services/mini-api/db/schema.sql:39-104 | In every reachable store, orders agree with trades and positions with their events |
| `Paging.CursorRoundTrip` | services/mini-api/lib/http.js:109-120 | pageParams recovers exactly the pair cursorOf wrote |
| `Paging.AcceptedCursors` | services/mini-api/lib/http.js:109-114 | A cursor text is accepted if and only if it is digits, one colon, digits, and it is read as those numbers |
| `Paging.PageParams` | services/mini-api/lib/http.js:104-116 | BadLimit exactly for limits that are not positive whole numbers, BadCursor exactly for a malformed cursor after a good limit, default 50, cap 100, and the parsed cursor passed on |
| `Paging.PageThenRest` | services/mini-api/server.js:96 | A full page followed by everything below its last row is the whole listing |
| `Paging.WalkReturnsFirstSnapshot` | services/mini-api/server.js:181-187 | A finished walk returns exactly the rows of the first page's table, whatever newer rows arrive |
| `Paging.WalkTerminates` | services/mini-api/server.js:186 | Once the limits add up to more than there is to return, next_cursor has come back null |
| `Paging.CursorWalkIsExact` | services/mini-api/server.js:181-187 | Every matching row once, strictly descending in (block, log), for every market filter and every sequence of limits |
| `Feeds.PlacesAreUnique` | services/mini-api/db/schema.sql:62-77 | (block, log index) identifies a row of the trades and of the liquidations table |
| `Feeds.RoutesListTheirLogs` | services/mini-api/server.js:97-100 | The trades route lists exactly the mirrored fills of some size and the liquidations route the Liquidated logs, each at its own block, log index and market |
| `Feeds.TableGrowsByNewer` | services/mini-api/indexer.js:236-261 | Indexing further only adds rows newer than every row there |
| `Feeds.StoreWalkIsExact` | services/mini-api/server.js:181-205 | Both routes, paged while the indexer follows a chain, return the first page's matching rows once each, newest first |
| `Feeds.LiveWalkIsExact` | services/mini-api/server.js:181-205 | The same between any worlds joined by runs without a rebuild: syncs, failures, pauses, restarts, rewinds, replays and chain moves between pages do not show |
| `CaughtUp.WaitCaughtUp` | node/be/db/store.js:94-108 | Reports success at the first poll where store and node agree on the head's number and hash, and failure only past the time-out |
| `CaughtUp.LevelMeansCanonical` | node/be/db/store.js:87-93 | Reported level, the rows are the fold of the whole canonical log |
| `CaughtUp.RewoundToHeadNeverLevels` | node/be/db/store.js:101-104 | After a rewind to the head, clean syncs change nothing and the poll never succeeds while the chain stands still |
| `CaughtUp.IndexOnEveryRun` | services/mini-api/indexer.js:119-121 | Over every run whose unseen reorgs spare the seeded heads, each index row is the chain's price as of a block between high and the last seeding |
| `CaughtUp.FreshStoreIndexOnEveryRun` | services/mini-api/indexer.js:94-121 | The same for every such run from an empty store |
| `CaughtUp.LevelIndexIsLastPrice` | services/mini-api/indexer.js:278-280 | Reported level, the index row is the chain's last PriceSet |
| `CaughtUp.SeededPriceAfterUnseenReorg` | services/mini-api/indexer.js:119-121 | After an unseen reorg above the rows and any run of syncs, the index row is the new chain's price if and only if the added blocks set one or the row was right for the old rows' height |
| `CaughtUp.RevertedPriceStays` | services/mini-api/indexer.js:119-121 | An instance: a price seeded from block 2 is still quoted after block 2 was reverted and the store synced again |
| `Marks.LastTradeIsLastFill` | services/mini-api/server.js:88 | The last-trade query answers with the market's last fill in chain order, and with nothing when there was none |
| `Marks.MarkFromRows` | services/mini-api/server.js:104-115 | None without a market and an index row; the index without a trade; else the last trade's price if it lies between index * (10000 - basis) / 10000 and index * (10000 + basis) / 10000, rounded towards zero, and the nearer of the two if not |
| `Marks.MarkIsTheChainsRule` | services/mini-api/server.js:104-115 | Reported level, the mark is that rule on the chain's own logs: its last fill held to the band about its last index price, or that price when nothing was filled |
| `RateLimiter.Limiter.Check` | services/mini-api/lib/http.js:83-95 | Each verdict is the one the whole history of requests calls for; the buckets stay the history's |
| `RateLimiter.AnswerCountsTheWindow` | services/mini-api/lib/http.js:82-95 | In a window the answer follows the count: admitted with `limit` less the requests made, or refused past it, and the least whole seconds that cover what is left of the window |
| `RateLimiter.OpeningRequestIsTheFirst` | services/mini-api/lib/http.js:87-94 | A request that opens a window is the first in it: admitted with limit - 1 left unless the limit is 0 |
| `RateLimiter.OthersFallInAWindow` | services/mini-api/lib/http.js:87-88 | Every other request falls in a window that an earlier request of its client opened |
| `RateLimiter.ClientsAreIndependent` | services/mini-api/lib/http.js:84-88 | A client's bucket is what its own requests alone would have made it |
| `RateLimiter.WindowAdmitsExactlyTheLimit` | services/mini-api/lib/http.js:82-94 | Of the requests made in a window exactly the first `limit` are admitted |
| `RateLimiter.AtMostTwiceTheLimit` | services/mini-api/lib/http.js:82-94 | No half-open interval as long as the window admits more than twice the limit |
| `RateLimiter.RetryAfterIsEnough` | services/mini-api/lib/http.js:91-92 | A refusal asks for at least a second, and the client's next request after that long is admitted |
| `RateLimiter.RetryAfterIsLeast` | services/mini-api/lib/http.js:91 | One second less would not cover what is left of the window |
| `AbiTypes.SplitTop` | services/mini-api/lib/abi.js:48-58 | The loop returns the pieces between depth-0 commas, dropping the last only when the text is blank |
| `AbiTypes.PiecesJoinBack` | services/mini-api/lib/abi.js:48-58 | The pieces with their commas back are the text |
| `AbiTypes.PiecesAreUncuttable` | services/mini-api/lib/abi.js:48-58 | No piece has a comma at its own depth 0 |
| `AbiTypes.PiecesAreBalanced` | services/mini-api/lib/abi.js:48-58 | Every piece but the last closes as many parentheses as it opens |
| `AbiTypes.CutsAreUnique` | services/mini-api/lib/abi.js:48-58 | These properties single out the pieces: cutting exactly at depth-0 commas is one thing only |
| `AbiTypes.SplitFindsComponents` | services/mini-api/lib/abi.js:33-36 | Cutting a printed component list gives the printed components |
| `AbiTypes.ParsePrintRoundTrip` | services/mini-api/lib/abi.js:29-46 | For every type tree, parsing the canonical spelling gives the tree back |
| `AbiGrammar.AcceptedIffSpelled` | services/mini-api/lib/abi.js:30-58 | The parser accepts a text as a type if and only if a grammar of its own spells the type so: white space around every part, 256 as the default width, leading zeros, and nothing else |
| `AbiGrammar.TrimIff` | services/mini-api/lib/abi.js:31 | Trimming takes off exactly the white space and line ends of the language standard, at both ends |
| `AbiGrammar.ArraySuffixIff` | services/mini-api/lib/abi.js:32-33 | The pattern finds an array suffix exactly where the text is one line, an opening bracket, digits or none, and a closing bracket |
| `AbiCodec.EncodeTuple` | services/mini-api/lib/abi.js:115-131 | The loop with its running tail offset produces heads and tails of the layout, and throws exactly on a count mismatch or a component that does not encode |
| `AbiWords.DynamicIffUnsizedWithin` | services/mini-api/lib/abi.js:60-65 | A type is dynamic if and only if bytes, string or an array without a length stands somewhere in it |
| `AbiWords.OneWordTypesStandInLine` | services/mini-api/lib/abi.js:115-131 | A list of one-word types encodes to its words one after another, with no offset and no tail |
| `AbiWords.StaticPartsStandInLine` | services/mini-api/lib/abi.js:115-131 | So does any list of static types to its parts |
| `AbiWords.WordBytes` | services/mini-api/lib/abi.js:76-80 | Byte j of a word is the number over 256^(31 - j) modulo 256; below zero it is the number plus 2^256 |
| `AbiWords.PaddedIsLeast` | services/mini-api/lib/abi.js:104 | Bytes are padded with zeros behind to the least multiple of 32 that holds them |
| `AbiWords.ElementaryBytes` | services/mini-api/lib/abi.js:84-99 | Numbers and flags are their word, an address stands behind 12 zero bytes, bytesN in front of zeros |
| `AbiWords.TextBytes` | services/mini-api/lib/abi.js:100-105 | Bytes and strings are their length word, their bytes and zeros to the next word |
| `AbiWords.ListBytes` | services/mini-api/lib/abi.js:106-111 | A fixed array is its elements as a tuple, one without a length is that behind its count, and a wrong count throws |
| `AbiWords.TupleBytes` | services/mini-api/lib/abi.js:112-131 | A tuple is accepted exactly when each component is, and is the layout of their own encodings |
| `AbiWords.EncodesIffAccepted` | services/mini-api/lib/abi.js:82-113 | A value is encoded if and only if it is of the kind the type asks for, in its range, and each list as long as the type says; no length of bytes is checked |
| `AbiCodec.DecodeTupleLoop` | services/mini-api/lib/abi.js:175-191 | The cursor loop reads component after component, dynamic ones through their offset |
| `AbiWords.WordsAreReadAs` | services/mini-api/lib/abi.js:141-153 | Any whole word at any offset: which number, signed number, flag, address or bytesN it is read as |
| `AbiWords.PartsAreReadAs` | services/mini-api/lib/abi.js:141-153 | What is left of a word at the end of the data is read as the number its bytes spell |
| `AbiWords.NothingIsReadAs` | services/mini-api/lib/abi.js:141-158 | Past the end numbers, flags and lengths throw, and an address or bytesN comes back empty |
| `AbiWords.TextIsReadAs` | services/mini-api/lib/abi.js:154-159 | Bytes and strings: as many bytes as the length word asks for, or as there are |
| `AbiProofs.StaticLengthIff` | services/mini-api/lib/abi.js:67-72 | A static type never encodes to less than staticSize, and to exactly that if and only if no address or bytesN value is longer than a word |
| `AbiProofs.ShapedIffStaticsAreSized` | services/mini-api/lib/abi.js:95-97 | For all values the coder accepts, no static part is shorter than its type says, and all are exactly as long if and only if no address or bytesN value in them is longer than a word |
| `AbiProofs.HeadsFillHeadSize` | services/mini-api/lib/abi.js:118-129 | The heads fill at least headSize, and exactly headSize if and only if every static part is as long as its type says |
| `AbiProofs.LayoutHolds` | services/mini-api/lib/abi.js:115-131 | For all parts: a static component stands in its head, a dynamic one's head holds headSize plus the tails before it, and its tail stands behind the heads actually written |
| `AbiProofs.LayoutMeetsDefinition` | services/mini-api/lib/abi.js:115-131 | Each dynamic head names at most the position of its own tail, and exactly that position if and only if every static part is as long as its type says |
| `AbiProofs.EncodingIsWholeWords` | services/mini-api/lib/abi.js:82-131 | For all values the coder accepts, the encoding is a whole number of 32-byte words if and only if the lengths of its address and bytesN values longer than a word add up to a multiple of 32 |
| `AbiProofs.DecodeAt` | services/mini-api/lib/abi.js:142-191 | Wherever an encoding stands inside a buffer, decoding there gives the value back, and a static one reports the bytes it took |
| `AbiProofs.DecodeUndoesEncode` | services/mini-api/lib/abi.js:82-191 | For every type tree and well-formed value, decoding the encoding with anything before and after it, at its offset, gives the value back |
| `AbiProofs.DecodeUndoesEncodeTuple` | services/mini-api/lib/abi.js:194-199 | decode against the parenthesised printed types undoes encodeTuple, and against the bare list too unless that list starts with a tuple |
| `AbiLimits.BareListIsReadIff` | services/mini-api/lib/abi.js:194-195 | The type read from a bare list is the tuple it spells if and only if the list does not start with a parenthesis |
| `AbiLimits.BareListIsMisread` | services/mini-api/lib/abi.js:194-199 | For every bare list that does start with one and all data: a lone tuple is decoded as its components, everything else is refused |
| `AbiLimits.LoneTupleLosesItsParentheses` | services/mini-api/lib/abi.js:194-199 | What comes back for a lone static tuple is its components in its place |
| `AbiLimits.ParsedIsOnePiece` | services/mini-api/lib/abi.js:29-46 | Whatever text the parser accepts has balanced parentheses and no comma outside them |
| `AbiLimits.DecodedIsModest` | services/mini-api/lib/abi.js:142-191 | Whatever the bytes, a decoded address has at most 20 bytes, a bytesN at most n, and a counted list fewer than 2^256 items |
| `AbiLimits.FilledEncodesAlike` | services/mini-api/lib/abi.js:95-97 | A value within these bounds encodes as the well-formed value got by writing out its padding |
| `AbiLimits.RoundTripIff` | services/mini-api/lib/abi.js:82-191 | For every Solidity type and every value the coder accepts, in any surroundings, decoding gives the value back if and only if it was a value of the type |
| `AbiLimits.ShortAddressComesBackLonger` | services/mini-api/lib/abi.js:95 | An instance: an address of 19 bytes is accepted and comes back as 20 |
| `Bits.XorBit` | node/be/contract/chain/keccak.js:63-67 | Exclusive or of BigInts, bit by bit |
| `Keccak.ThetaInPlace` | node/be/contract/chain/keccak.js:60-67 | The in-place column pass is the simultaneous theta of the lanes it found |
| `Keccak.RhoPiInto` | node/be/contract/chain/keccak.js:69-75 | The pass into B visits every target once and rotates each lane by its table entry |
| `Keccak.ChiInto` | node/be/contract/chain/keccak.js:77-83 | The pass back into the lanes is chi of B |
| `Keccak.Permute` | node/be/contract/chain/keccak.js:58-88 | 24 rounds in place are the composition of the step mappings |
| `KeccakStandard.RotlBit` | node/be/contract/chain/keccak.js:51-55 | rotl64 moves bit z - shift mod 64 to bit z and always leaves at most 64 bits |
| `KeccakStandard.ThetaShows` | node/be/contract/chain/keccak.js:60-67 | Theta on lanes is FIPS 202's theta on bits, and keeps lanes below 2^64 |
| `KeccakStandard.OffsetsAgree` | node/be/contract/chain/keccak.js:42-49 | The rotation table is (t+1)(t+2)/2 along the walk of Algorithm 2, modulo 64 |
| `KeccakStandard.RhoPiShows` | node/be/contract/chain/keccak.js:69-75 | The combined pass is the standard's rho and then pi |
| `KeccakStandard.ChiShows` | node/be/contract/chain/keccak.js:77-83 | Chi on lanes, complement of a BigInt included, is the standard's chi |
| `KeccakStandard.ConstantsAgree` | node/be/contract/chain/keccak.js:33-40 | The round constants are the words the shift register of Algorithm 5 generates |
| `KeccakStandard.IotaShows` | node/be/contract/chain/keccak.js:85-86 | Iota on lane 0 is the standard's iota |
| `KeccakStandard.RoundsMeetTheStandard` | node/be/contract/chain/keccak.js:58-88 | After any number of rounds the lanes are below 2^64 and hold exactly the standard's bits |
| `Sponge.PaddingIsInjective` | node/be/contract/chain/keccak.js:99-103 | Padding adds 1 to 136 bytes, fills whole blocks, and no two messages share a padded form |
| `Sponge.PaddedBytes` | node/be/contract/chain/keccak.js:99-103 | The padded bytes are the message, 0x01 and 0x80, merged into 0x81 when one byte is left, and zeros between |
| `Sponge.PaddingMeetsTheStandard` | node/be/contract/chain/keccak.js:99-103 | On bits, the padding is pad10*1 with the fewest zeros |
| `Sponge.AbsorbedShows` | node/be/contract/chain/keccak.js:105-112 | After any number of blocks the lanes are below 2^64 and hold the sponge's state |
| `Sponge.StoreBit` | node/be/contract/chain/keccak.js:114-115 | writeBigUInt64LE writes bit 8k + i of the lane to bit i of byte k |
| `Sponge.LoadBit` | node/be/contract/chain/keccak.js:109 | readBigUInt64LE reads bit z of the lane from bit z mod 8 of byte z / 8 |
| `Sponge.Keccak256` | node/be/contract/chain/keccak.js:95-117 | For every message, 32 bytes whose bits are the standard's sponge on the message's bits |
| `Units.ToUnitsIsExact` | node/be/contract/chain/units.js:8-16 | A decimal is accepted exactly when it has at most d fractional digits, and then gives its value times 10^d |
| `Units.OnlyDecimalsAreAccepted` | node/be/contract/chain/units.js:9-11 | Text is refused as no decimal exactly when, noise removed, it is not sign, digits and optional fraction |
| `Units.RoundTrip` | node/be/contract/chain/units.js:8-24 | toUnits(fromUnits(n, d), d) is n for every integer n and d >= 0 |
| `Units.FromUnitsIsCanonical` | node/be/contract/chain/units.js:18-24 | The text has no leading zero but a single one, no trailing zero, at most d fractional digits, and a sign exactly below zero |
| `Units.NoiseDoesNotMatter` | node/be/contract/chain/units.js:9 | Dollar signs, commas and white space anywhere change nothing |
| `Units.CleanTextIsReadWhole` | node/be/contract/chain/units.js:9 | Nothing else is thrown away |
| `Units.FromUnitsIsInjective` | node/be/contract/chain/units.js:18-24 | No two amounts print alike |
| `Risk.RiskEngine.Plan` | node/be/bot/risk/engine.js:65-105 | The decision, in the code's order of refusals, and the used ids it leaves: one more exactly when an order with an id is cleared |
| `Risk.RiskEngine.SetKillSwitch` | node/be/bot/risk/engine.js:55 | Sets the switch and touches no id |
| `Risk.ClearedIffLegal` | node/be/bot/risk/engine.js:58-104 | An order is cleared at a size and price if and only if they are its own rounded down to step and tick, and market, switch, id, caps, reference price and minimum notional all allow it |
| `Risk.SentIffLegalAndLive` | node/be/bot/risk/engine.js:101-104 | It is sent if and only if it is legal and the engine does not run dry, and planned only if and only if it is legal and does |
| `Risk.TurnedAwayIff` | node/be/bot/risk/engine.js:65-73 | Exactly when a market is unknown, the kill switch refuses, or an id is a duplicate, in that order |
| `Risk.RefusedIff` | node/be/bot/risk/engine.js:75-99 | Exactly when the size rounds to zero, exceeds the order cap, breaks the position cap, has no price, or is below the minimum notional: the first of these that holds |
| `Risk.DryRunsNeverSend` | node/be/bot/risk/engine.js:102-104 | Over any run of calls a dry engine sends nothing |
| `Risk.KilledEngineClearsNothing` | node/be/bot/risk/engine.js:69 | While the switch stays on no call uses an id |
| `Risk.ReplanningIsAFixedPoint` | node/be/bot/risk/engine.js:58-104 | Planning the rounded order again, without its id, clears the same size and price |
| `Risk.SeenIsWhatWasCleared` | node/be/bot/risk/engine.js:71-73 | Over any calls and switch changes, the used ids are those of the cleared orders: a refusal consumes none |
| `Risk.EachIdClearsAtMostOnce` | node/be/bot/risk/engine.js:71-100 | No id is cleared twice |
| `Risk.PositionStaysCapped` | node/be/bot/risk/engine.js:85-91 | If fills settle one order at a time within the cleared size and reduce-only fills shrink, the position never exceeds the larger of its start and the cap |
| `Risk.PlanningAheadBreaksTheCap` | node/be/bot/risk/engine.js:85-91 | Two orders planned against one flat position pass together and can break the cap |
| `CaseIds.AllocateIds` | testcases/generate.js:38-52 | Known keys keep their ids, new ones get fresh ids in order; throws exactly on a repeated key |
| `CaseIds.MergeFixture` | testcases/generate.js:170-188 | Every row written over a copy of the fixture, with the case's own tier over the source's |
| `CaseIds.Generate` | testcases/generate.js:193-215 | The fixture threaded through all sources, written only if none throws |
| `CaseIds.TakeSourceKeepsOrder` | testcases/generate.js:195-202 | One source: bound keys keep their ids, keyless entries are untouched, every keyed case is bound to exactly its content, ids stay below nextId |
| `CaseIds.CasesAreNumberedInOrder` | testcases/generate.js:38-52 | Every case's entry stands at its own id with its own content: its key's old id, or nextId plus the number of unbound cases listed before it; nextId moves on by all of them |
| `CaseIds.ThrowsIffAKeyRepeats` | testcases/generate.js:49-50 | Nothing is written if and only if some source lists a key twice |
| `CaseIds.BindingsAreForever` | testcases/generate.js:195-202 | Over any sequence of catalogues an id once bound to a key is never bound to another, so a key dropped and re-added finds its old id |
| `CaseIds.RerunIsUnchangedIff` | testcases/generate.js:193-215 | Rerunning on the same catalogues leaves the fixture identical if and only if every case has a key |
| `CaseIds.EmptyKeyTakesTwoIds` | testcases/generate.js:44 | An instance: one case with an empty key takes id 1 and then id 2 |
| `BugFlow.LatestByCase` | core/node/queue/reader.js:25-33 | The loop keeps one record per case, replaced only by a strictly later one |
| `BugFlow.KeptIffLatest` | core/node/queue/reader.js:16-33 | When time stamps tell a case's records apart, a record is kept if and only if it is its case's latest, wherever it stands in the log |
| `BugFlow.RecordsAreKeptInOrder` | core/node/queue/reader.js:25-33 | One record per case, in the order in which cases first appear, each the first in the file of its case's latest |
| `BugFlow.OnlyFailuresAreFiled` | core/node/bugflow/run.js:71-111 | Exactly the failed assertions of the failing records are filed; passed and blocked ones never |
| `BugFlow.FiledInOrder` | core/node/bugflow/run.js:71-104 | Record by record and assertion by assertion, in the order listed, one problem for each failure |
| `BugFlow.Tracker.Upsert` | core/node/bugflow/adapters/local.js:39-72 | Created, attached or unchanged, the new store, and an issue that records the case |
| `BugFlow.RunFlow` | core/node/bugflow/run.js:89-111 | One run files every problem in order and tallies the actions; an empty queue files nothing |
| `BugFlow.RunRecordsWhatSurfaced` | core/node/bugflow/adapters/local.js:39-72 | A run adds to each signature's cases exactly the cases that surfaced it, from any store |
| `BugFlow.SecondRunIsNoOp` | core/node/bugflow/run.js:29-32 | From any store at all, a second run leaves it identical and reports only unchanged |
| `BugFlow.OrderDoesNotMatter` | core/node/bugflow/run.js:101-111 | The cases of every signature depend on which problems were filed, not on their order or repetition |
| `BugFlow.QueueOrderDoesNotMatter` | core/node/bugflow/run.js:89-111 | Nor on the order of the queue's lines, when time stamps tell a case's records apart |
| `BugFlow.RunKeepsShape` | core/node/bugflow/adapters/local.js:39-72 | At every step signatures and ids stay distinct, related cases do not repeat, and nothing recorded is lost or rewritten |
| `BugFlow.TicketsAreBugs` | core/node/bugflow/run.js:12-22 | After any run there is exactly one issue per distinct signature ever surfaced |
| `BugFlow.TallyCountsTheChange` | core/node/bugflow/run.js:99-111 | created is the growth of the issue list and of nextId, created plus attached the growth of related cases, and the three add up to the problems |
| `BugFlow.FirstProblemDescribes` | core/node/bugflow/adapters/local.js:55-66 | A new issue's title, module, detail and severity are those of the first problem that surfaced it |
| `BugFlow.NewTicketTells` | core/node/bugflow/run.js:65-87 | The ticket a failed assertion opens, word for word: id, title, module, severity by priority, detail and its one case |

## Left out

- The network, HTTP plumbing, SQLite itself, files, timers and child processes: the chain is a sequence, tables are maps, an RPC answers, lists logs in any order, or fails.
- Clock columns (`updated_at`, `createdAt`, `updatedAt`) and log lines.
- JavaScript `Number` precision: ids, blocks, log indexes, ABI offsets and lengths are exact integers here; the code is exact below 2^53.
- UTF-8, hex and base64url conversions: cursors, addresses and byte values are modelled inside them, as text or bytes.
- Lower-casing of addresses: accounts are compared as the code stores them.
- A block hash is a collision-free term (`Chain.Digest`); real hashes are so only up to collisions.
- Runs.RowsAreTheFoldOnEveryRun: the chain stands still during one sync, rewinds go no higher than what was applied, and no reorg or rewind hides below the hash check; `Hazards` and `HiddenReorgs` show what each costs, and `AnyRuns` what is left without any of them.
- HiddenReorgs.HiddenReorgIsHarmlessIff: needs (tx_hash, log_index) to be unique on each chain, as it is on any real one; `AnyRuns.FoldsAgreeIff` does not.
- Convergence.HistoryDoesNotShow: says nothing of the markets and index_prices tables, whose updated_block columns do show when they were seeded; `CaughtUp.LevelIndexIsLastPrice` covers the prices.
- AbiLimits.RoundTripIff: encodings shorter than 2^256 bytes, and types built from Solidity's own; the code also parses widths such as uint300 or bytes40, whose larger values it cannot bring back.
- Admin calls landing while the transaction of a sync is open across an await: not modelled.
- `sync(maxRange)` with a range of 0, which the service never asks for.
- The UNIQUE constraint on `markets.symbol` and a getter status outside the named four: seeding a duplicate symbol throws in the code and not here.
- A market added to the contract after seeding: no mirrored event announces it, so its row appears at the next seeding.
- Columns.OrderRowsFollowTheLogs: like the other laws of `Columns` it needs (tx_hash, log_index) to be unique among the logs, as on any real chain.
- Schema.ThrowsIffTheRowsWouldNotMeet: the constraints on `markets` itself (symbol, status) are not among those it speaks of.
- RateLimiter.AnswerCountsTheWindow: windows of at least one millisecond.
- The open interest query casts sizes to 64-bit integers and sums them in SQLite; `Conservation` sums exact integers.
- Conservation.OpenInterestBalances: needs log keys to be unique, sizeBefore to chain, and every block's changes to cancel; the exchange's Solidity source, which should guarantee them, is not part of this model.
- RateLimiter.RetryAfterIsEnough: needs a limit of at least 1; with 0 nothing is ever admitted.
- AbiProofs.DecodeUndoesEncode: encodings shorter than 2^256 bytes, so that every offset fits its word.
- AbiCodec.Encode: values arrive with the JavaScript type the coder expects; coercions of strings to numbers and of other objects to lists are not modelled, nor are hex strings of odd length.
- AbiCodec.Decode: a length word so large that `Array.from` itself refuses it.
- The decoder, like the code, does not check a decoded number against its type's width; only encodings are claimed to come back.
- Calldata selectors, event topics and error tables: the first bytes of a hash, looked up in a table.
- CaseIds.MergeFixture: rows are not sorted by id first, which only matters for rows sharing an id; allocation never gives two rows one id.
- Rendering of the catalogue to Markdown and xlsx, the zip writer and the check mode.
- BugFlow.RunFlow: the signature hash and the normalisation of details are an arbitrary function, so the results hold for any of them; the GitHub adapter is not modelled.
- Grading, the recorder, dataset diffs and the expectations gate: single-branch facts.
- Authentication, scopes, CORS, token issue, and the order book, orders, funding and portfolio routes: one query or branch each.
- The bot's client and retry loop, which promise no exactly-once placement.
- Page objects, step definitions, reporters, load tests and generated test-case data.
