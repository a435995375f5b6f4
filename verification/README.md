# Fluidity backend: a verified model

Fluidity pays rewards at random to people who transfer its wrapped tokens. This project models the parts
of its backend that carry real arithmetic, protocols and encodings, and proves what they are for.

**The lottery** (`Combinatorics`, `Draws`, `RandomIntegers`, `UniformDraws`, `Rewards`, `Payouts`). A ball
count n is searched for, m distinct balls are drawn by rejection, the balls numbered at most m are the
matches, every tier of matches has a price, and the price is shared over pools of tokens. Rationals are
Dafny reals. The chance of a tier is proved to be the chance of the draws themselves: the draws are counted
one by one, and so are the streams of random candidates that lead to each of them.

**The Solana compiler** (`SolanaMessage`, `SolanaLayout`, `SolanaHeader`, `SolanaOrder`, `SolanaCompiler`,
`SolanaWire`, `SolanaSigning`). `SolanaMessage` is the message on values; `SolanaCompiler` is the code on
shared, mutable account metas, proved to produce it and to change exactly the metas of the callers that
`SolanaOrder` says lead their keys. `SolanaLayout` and `SolanaHeader` prove what a validator relies on, the
latter of the message's own bytes and keys; `SolanaWire` and `SolanaSigning` prove the bytes and that they
can be read back.

**The queue** (`Queue`). Broker, retry counter and crashing consumers as a state machine; the properties are
about every run.

**Connectors** (`SlotWindow`, `LogConnector`). Two memories of bounded size, each compared with one that
never forgets, and the paging in front of them.

**Key rotation records** (`OracleText`, `OracleLog`). The printer of one service and the parser of another.

**Accounting** (`Wins`, `Lottery`, `Batching`, `Referrals`, `Ratio`, `MovingAverage`, `Powers`). `Lottery`
follows a drawn tier from the table of chances to the wins that are paid.

`Bytes` and `Options` declare the byte and the value that may be missing. Code that updates objects in place
is a class here too: `AccountMeta`, `Transaction`, the two `Connector`s, `Channel`, `Amounts`, `Activator`,
`Redis`, `Worker`, `DecimalsServer`.

## Where the code surprises

- `WinningChances` passes atx and the payout frequency to `calculateN` in swapped places; only their product
  is used (`common/calculation/probability/probability.go:137-150`, `:189-200`). The tiers are priced with
  `averageTransfersInBlock`, not with that atx.
- A meta that is a read-only signer becomes writable when another meta of its key is writable without
  signing, after the sort. `SolanaHeader.MessageSigned` says when the message header is then wrong.
- The header counters are bytes and wrap, so `SolanaHeader.HeaderExactly` needs fewer than 256 of each; the indices are
  written as bytes.
- The retry counter belongs to the message body. Whenever two messages share one and handlers may start at
  all, one of them can have its handler started too often while the other is given up too early
  (`SharedBodyBreaksLimit`); `RetryLimitExactly` says that nothing else breaks the limit short of expiry.
- `parseLogs` never asks its scanner for an error, so a line that is too long ends the file quietly. This is
  about what the parser may be given: the printer's own timestamps are never empty and always fit.
- The Ethereum cursor is written before the log is sent, and a restart begins after the cursor's block.
- Redis ranges include their end, so one entry more than the limit is summed; the average divides by the
  length before trimming.
- `NewTransaction` works on the callers' metas: of those of each key the first of least rank takes the flags
  of the message, and nothing undoes this when an instruction's data then fails to encode
  (`FailureRaisesPayer`). They are all as before if and only if no key is promoted after the sort and the fee
  payer, when some caller's meta names it, is named by one that is a writable signer.
- The comment beside the referral reward says 10 lootboxes; 5 are sent.
- The side that sets the pace in `allocateRatio` gets one unit less than its maximum unless its part of the
  ratio divides that maximum 10^40-fold (`PacerReachesMaximum`).
- `pickRatio` scales USDC by one power of ten more than WETH would be scaled in its place.

## Model

| member | source | states |
|---|---|---|
| Draws.AllIsEveryDraw | lib/util/random.go:60-90 | the sample space is exactly the sequences of k distinct balls from 1..n |
| Draws.WinningSize | common/calculation/probability/probability.go:322-342 | exactly C(m,b) * C(n-m,m-b) * m! ordered draws of m balls from 1..n have b matches |
| Draws.AllSize | common/calculation/probability/probability.go:34-46 | there are C(n,m) * m! draws in all |
| Draws.ClassesPartition | common/calculation/probability/probability.go:34-46 | the classes by number of matches cover every draw once |
| RandomIntegers.RandomIntegers | lib/util/random.go:36-93 | the three panics happen exactly when amount exceeds the wrapped span, is negative, or the range is empty; otherwise the array filled in place holds the first distinct candidates, all within min..max |
| RandomIntegers.AcceptExactly | lib/util/random.go:60-90 | the draw is completed if and only if there are enough distinct candidates, and then each number is the first candidate not among the earlier ones |
| RandomIntegers.AcceptKeepsDistinct | lib/util/random.go:60-90 | rejection keeps only distinct numbers within the range, whatever the candidates |
| RandomIntegers.IsDuplicate | lib/util/random.go:70-85 | the duplicate flag is set exactly when an earlier entry is equal |
| UniformDraws.EveryDrawEquallyLikely | lib/util/random.go:60-90 | every ordered draw is led to by equally many streams of candidates, rejections included |
| UniformDraws.LeadingSize | lib/util/random.go:60-90 | the number of streams that complete a draw depends only on how many balls are drawn and wanted |
| UniformDraws.RoundHasAcceptableDraws | lib/util/random.go:60-90 | a round that has kept i of n balls has exactly n - i acceptable candidates left, at least one |
| Rewards.NaiveIsWinning | common/calculation/probability/probability.go:322-342 | returns the number of balls numbered at most the number of balls |
| Rewards.ProbabilityIsFractionOfDraws | common/calculation/probability/probability.go:34-46 | `probability(m,n,b)` is the fraction of draws with b matches |
| Rewards.ProbabilityIsExactChance | common/calculation/probability/probability.go:34-46 | and the fraction of candidate streams, among those that finish, whose draw scores b |
| Rewards.ProbabilitiesSumToOne | common/calculation/probability/probability.go:34-46 | over b = 0..m the probabilities add up to exactly 1 |
| Rewards.ProbabilityZero | common/calculation/probability/probability.go:34-46 | a probability is zero exactly when the draw must have more than b matches |
| Rewards.GuardMeaning | common/calculation/probability/probability.go:137-186 | the loop's factorial comparison means C(n,m) is below the target |
| Rewards.CalculateN | common/calculation/probability/probability.go:137-186 | gives up exactly when the target exceeds C(m+1000,m); otherwise returns the least n from m on with C(n+1,m) at the target |
| Rewards.DrawBalls | lib/util/random.go:36-93 | with such an n the guards of the draw never fire and the result is a draw of m from 1..n |
| Payouts.RewardIsTiersTimesAllowance | common/calculation/probability/probability.go:77-122 | the expected reward is one allowance for each tier that can occur |
| Payouts.ExpectedRewardBound | common/calculation/probability/probability.go:77-122 | the expected reward is at most min(g, delta/atx), or delta/atx without the optimistic solution, and exactly that if and only if n >= 2m - 1 or that is nothing |
| Payouts.TierPrice | common/calculation/probability/probability.go:77-122 | a tier that can occur has probability times payout equal to an m-th of what there is to give, and one that cannot pays nothing |
| Payouts.PayoutNonNegative | common/calculation/probability/probability.go:77-122 | no payout is negative when atx is positive and the gas fee and rate are not negative |
| Payouts.StoreShares | common/calculation/probability/probability.go:257-295 | the inner loop writes one tier's row of the table under the pools' names, later pools of a name winning, and no other row |
| Payouts.WinningChances | common/calculation/probability/probability.go:189-318 | returns exactly when the ball count is found and no division is by zero; then n is the least count and every tier holds its probability and the shares of its price, which is set by the pools' worth over their weights |
| Payouts.PoolRelease | common/calculation/probability/probability.go:49-67 | over weight / blockTime blocks a pool releases exactly the worth of its size |
| Payouts.BlockIsPaid | common/calculation/probability/probability.go:189-318 | with n >= 2m - 1 a transfer expects from the returned table the lesser of its gas fee and its part of the block's release, so without the optimistic solution atx transfers expect exactly the block's part of the pools' worth |
| Payouts.ShareOfPool | common/calculation/probability/probability.go:260-295 | a pool's USD share is to the payout as its release is to all releases, and its native amount is the whole units that buys |
| Payouts.UsdOfShares | common/calculation/probability/probability.go:49-73 | the USD shares add up to the payout times the pools' part of the total rate |
| Payouts.TruncationLoss | common/calculation/probability/probability.go:270-295 | truncating a share to native units loses less than one unit's worth |
| Payouts.TierConserved | common/calculation/probability/probability.go:203-295 | a tier's USD shares add up to its payout exactly, and the native amounts are worth at most that and less than one unit per pool short of it |
| SolanaMessage.SortedAscending | common/solana/util.go:262-270 | the sorted metas are in the order of `less` |
| SolanaMessage.SortedIsStable | common/solana/util.go:316-319 | metas of equal rank keep their order, and none is lost |
| SolanaOrder.PlaceIsStable | common/solana/util.go:316-319 | those places are ordered by rank, and within a rank as before |
| SolanaOrder.LeaderPlace | common/solana/util.go:316-330 | the meta of a key that the sort puts first is the first one of least rank |
| SolanaOrder.LeadersKeptExactly | common/solana/util.go:321-357 | the callers' leading metas all have the message's flags already if and only if no key is promoted and the fee payer, if a caller names it, is named as a writable signer |
| SolanaOrder.FlagsOnlyRise | common/solana/util.go:321-357 | the message's flags of a key are no lower than those of any of its metas |
| SolanaCompiler.Gather | common/solana/util.go:298-314 | gathers the metas of all instructions, then a plain one for each distinct program |
| SolanaCompiler.SortStable | common/solana/util.go:316-319 | the sorted values are the stable sort of the values, and every object, not only its value, is at the place the sort gives it |
| SolanaCompiler.Merge | common/solana/util.go:321-330 | keeps the first object of each key and raises its writable flag in place iff a meta of the key is writable; touches nothing else |
| SolanaCompiler.MergedAccounts | common/solana/util.go:298-330 | of the callers' objects exactly the leaders are kept, with the merged flags, and no other changes |
| SolanaCompiler.PlacePayer | common/solana/util.go:332-367 | puts the fee payer first as a writable signer, adding it when absent, the others in order |
| SolanaCompiler.CompileInstructions | common/solana/util.go:390-405 | resolves every program and account to its index, up to the first instruction whose data fails to encode |
| SolanaCompiler.NewTransaction | common/solana/util.go:273-409 | the message is `Compile` of what the callers passed, with its two errors and then that of the first instruction whose data fails to encode; with or without the latter, each caller's object that leads its key takes the message's flags and no other changes, and nothing changes if and only if nothing is raised |
| SolanaCompiler.FailureRaisesPayer | common/solana/util.go:348-399 | a lone instruction whose data fails to encode: there is an error and no message, and the caller's read-only signer has become writable |
| SolanaLayout.ReferencesResolve | common/solana/util.go:390-405 | a compiled instruction resolves to the program, accounts, order and data of its source if and only if none of the keys it mentions stands at 65536 or beyond |
| SolanaLayout.SignersComeFirst | common/solana/util.go:316-357 | no signer follows a non-signer, and among non-signers no writable key follows a read-only one |
| SolanaHeader.KeysAreExact | common/solana/util.go:298-388 | the message's keys are exactly the fee payer and those the instructions mention, once each and the payer first, and it carries the blockhash given |
| SolanaHeader.MessageSigners | common/solana/util.go:372-388 | the keys that must sign are exactly the message's first NumRequiredSignatures keys if and only if they number fewer than 256 |
| SolanaHeader.MessageUnsigned | common/solana/util.go:372-388 | the read-only keys that do not sign are exactly its last NumReadonlyUnsignedAccounts keys if and only if they number fewer than 256 |
| SolanaHeader.MessageSigned | common/solana/util.go:321-388 | with fewer than 256 signers, the read-only ones are exactly the last NumReadonlySignedAccounts of them if and only if each key promoted after the sort signs before each read-only signer |
| SolanaHeader.HeaderExactly | common/solana/util.go:321-388 | for all instructions the message's three bytes describe all its keys if and only if no counter wraps and promotions come first |
| SolanaHeader.SignedWithoutConflicts | common/solana/util.go:321-388 | so the signers are described rightly when, fewer than 256, no key is named both as a read-only signer and as a writable non-signer |
| SolanaHeader.NoPayerIsZeros | common/solana/util.go:283-291 | no fee payer is one whose key is 32 zeros |
| SolanaLayout.SignedLayoutCanFail | common/solana/util.go:321-388 | three metas on which the signed block is wrong |
| SolanaWire.EncodeCompactU16Length | common/solana/util.go:415-427 | appends the length in groups of seven bits |
| SolanaWire.LengthRoundTrip | common/solana/util.go:415-427 | a length is read back and what follows it is left alone |
| SolanaWire.LengthGroups | common/solana/util.go:415-427 | byte i holds the i-th group of seven bits of the length, with the high bit set on all but the last |
| SolanaWire.LengthsPrefixFree | common/solana/util.go:415-427 | no encoded length is a prefix of another |
| SolanaWire.MessageBytes | common/solana/util.go:430-456 | the bytes of a message of two keys and one instruction, field by field in order |
| SolanaWire.MessageDecodes | common/solana/util.go:430-456 | any message is read back with its indices cut to bytes, any suffix left alone |
| SolanaWire.MessageRoundTrip | common/solana/util.go:430-456 | it is read back whole if and only if its indices are below 256 |
| SolanaWire.CompiledRoundTrip | common/solana/util.go:430-456 | a compiled message is read back whole if and only if every key its instructions mention has an index below 256, so always with at most 256 keys |
| SolanaSigning.MarshalMessage | common/solana/util.go:430-456 | the buffer grown field by field is the encoding |
| SolanaSigning.Transaction.Sign | common/solana/util.go:475-497 | appends a signature for each required key in order, stopping at the first key that is missing or cannot sign; panics exactly when the header asks for more than the keys' array holds |
| SolanaSigning.Transaction.MarshalBinary | common/solana/util.go:509-529 | refuses unless there are signatures and as many as the header requires |
| SolanaSigning.TransactionBytes | common/solana/util.go:509-529 | the bytes are the number of signatures, the signatures and the message, in this order |
| SolanaSigning.TransactionRoundTrip | common/solana/util.go:509-529 | message and signatures are read back, any suffix left alone, if and only if all indices are below 256 |
| SolanaSigning.CompileSignMarshal | common/solana/util.go:475-529 | a fresh compiled transaction never panics when signing; signed, it marshals if and only if its signers do not number a multiple of 256, and decodes to itself if and only if all its indices are below 256 |
| Queue.Conserved | lib/queue/queue.go:135-218 | after every run each message is in exactly one of ready, in flight, acked and dead, and an acked one had its handler return |
| Queue.RetryLimit | lib/queue/queue.go:153-168 | for a message with a body of its own, dead letters on and no expiry: its handler starts at most retries - 1 times, it is dead only after at least retries deliveries, and deliveries exceed the limit only by crashes outside the handler |
| Queue.RetryLimitExactly | lib/queue/queue.go:146-168 | every run without expiry keeps a message within that limit if and only if no other message has its body, or retries is at most 1 |
| Queue.AllWithinLimitExactly | lib/queue/queue.go:146-168 | all messages are kept within it if and only if all bodies differ, or retries is at most 1 |
| Queue.ExpiryBreaksLimit | lib/queue/queue.go:154-160 | when counters may expire, it is kept if and only if retries is at most 1 |
| Queue.WorkBounded | lib/queue/queue.go:135-218 | the events of a message are at most six for each time it became ready |
| Queue.NeverStuck | lib/queue/queue.go:135-218 | a message neither acked nor dead always has a step to take |
| Queue.ProcessMessage | lib/queue/queue.go:135-218 | the loop body is a run of these steps, ends in ack or dead letter by the counter, and clears the counter |
| Queue.SharedBodyBreaksLimit | lib/queue/queue.go:146-168 | for any two messages of one body and any retries of at least 2, a run in which one starts too often and the other is dead too early |
| Queue.IdleCrashesUnbounded | lib/queue/queue.go:131-168 | crashes before counting redeliver a message any number of times |
| SlotWindow.KeepHighestExactly | cmd/connector-solana-amqp/main.go:214-215 | trimming keeps a member exactly when fewer than k are above it |
| SlotWindow.WindowIsHighest | cmd/connector-solana-amqp/main.go:190-218 | after any history the set is the 100 largest slots ever processed |
| SlotWindow.SentExactly | cmd/connector-solana-amqp/main.go:196-217 | a slot is skipped exactly when it is positive, seen, and fewer than 100 seen slots are above it |
| SlotWindow.SentAgainOnlyFromBelow | cmd/connector-solana-amqp/main.go:196-217 | a slot is sent again only from below every slot of a full window |
| SlotWindow.WindowRefinesMemory | cmd/connector-solana-amqp/main.go:190-218 | the window sends what unbounded memory would if and only if no slot repeats as 0 or from below 100 greater ones |
| SlotWindow.Connector.ProcessSlot | cmd/connector-solana-amqp/main.go:190-218 | keeps the set and the queue those of the history with the slot added; records the slot under a listener's key |
| SlotWindow.Connector.UpdateConfirmedBlocksFrom | cmd/connector-solana-amqp/main.go:57-100 | returns exactly when no call it needs fails, having processed every confirmed block from the start once and in order; otherwise it has processed the whole pages before the first failing call |
| SlotWindow.FromExactly | cmd/connector-solana-amqp/main.go:57-100 | those are exactly the confirmed blocks not below the start |
| LogConnector.PaginateLogs | cmd/connector-ethereum-reward-logs-amqp/main.go:73-141 | ends once its pages reach the height last reported, or at an error; the pages tile the range and the channel has got their logs |
| LogConnector.PagesPartition | cmd/connector-ethereum-reward-logs-amqp/main.go:82-140 | every block of the range is in exactly one page, and no other block is in any |
| LogConnector.ForwardedIsChain | cmd/connector-ethereum-reward-logs-amqp/main.go:118-138 | for a faithful node the channel gets the chain's logs of the whole range, in order |
| LogConnector.TakenInOrder | cmd/connector-ethereum-reward-logs-amqp/main.go:118-132 | what is taken of the logs of a page, and of the chain in a range, is decided log by log and stays in order |
| LogConnector.Connector.Receive | cmd/connector-ethereum-reward-logs-amqp/main.go:350-398 | keeps the cursor the running maximum of the live logs' blocks in any order, and the queue what the last block's memory lets through |
| LogConnector.Connector.Note | cmd/connector-ethereum-reward-logs-amqp/main.go:350-394 | what is done before a log is sent: the cursor is written, and the log is due if and only if the memory lets it through |
| LogConnector.HighestIsMaximum | cmd/connector-ethereum-reward-logs-amqp/main.go:390-394 | that cursor is the greatest block received |
| LogConnector.OneBlockRefinesMemory | cmd/connector-ethereum-reward-logs-amqp/main.go:368-385 | one block of memory sends what a set of all (block, index) pairs would if and only if no log recurs with another block in between |
| LogConnector.OrderedRefinesMemory | cmd/connector-ethereum-reward-logs-amqp/main.go:368-385 | so always for logs in block order |
| LogConnector.CatchUpSendsChain | cmd/connector-ethereum-reward-logs-amqp/main.go:118-398 | for a faithful node the pages, put through the memory, send each log of the range once and in order |
| LogConnector.ReturnIsSentTwice | cmd/connector-ethereum-reward-logs-amqp/main.go:368-385 | a late log of another block lets a repeat through |
| LogConnector.RunAcrossCrash | cmd/connector-ethereum-reward-logs-amqp/main.go:213-398 | the service, stopped after any number of logs or between writing the cursor and sending, and run again from the cursor it left, sends in all the logs before the stop and those above the cursor's block |
| LogConnector.CrashLosesRestOfBlock | cmd/connector-ethereum-reward-logs-amqp/main.go:213-218 | a crash and restart from the cursor lose exactly the unsent logs up to the cursor's block |
| LogConnector.CrashIsSafeExactly | cmd/connector-ethereum-reward-logs-amqp/main.go:213-218 | nothing is lost if and only if the next log is of a block above the cursor |
| OracleText.AddressRoundTrip | cmd/microservice-key-rotation-generate-transaction/processing.go:125-127 | an address printed with any capitals is read back |
| OracleText.HexDigits | cmd/microservice-key-rotation-generate-transaction/processing.go:125-127 | the digits are those of base sixteen, in either case |
| OracleText.AddressIsNumber | cmd/microservice-key-rotation-generate-transaction/processing.go:125-127 | an address is the last twenty bytes of what the digits spell, zeros in front when there are fewer |
| OracleText.SplitRoundTrip | cmd/microservice-key-rotation-generate-transaction/processing.go:136 | splitting undoes joining by spaces |
| OracleText.AtoiExactly | cmd/microservice-key-rotation-generate-transaction/processing.go:138-148 | decimal text is read as its number |
| OracleText.LinesEnds | cmd/microservice-key-rotation-generate-transaction/processing.go:47-48 | the scanner ends a line at a line break and drops a carriage return before it |
| OracleLog.MatchInfoExactly | cmd/microservice-key-rotation-generate-transaction/processing.go:25-30 | the matcher accepts exactly the lines of the expression, with its captures |
| OracleLog.DigestsDiffer | cmd/microservice-key-rotation-generate-transaction/processing.go:155 | different new oracles have different digests to sign |
| OracleLog.BytesText | cmd/microservice-key-rotation/main.go:145-181 | a signature is printed as decimals between brackets |
| OracleLog.BytesWrap | cmd/microservice-key-rotation-generate-transaction/processing.go:138-151 | a number outside a byte is cut to one |
| OracleLog.ParseLogs | cmd/microservice-key-rotation-generate-transaction/processing.go:32-109 | the four-phase loop over the scanner's lines returns what the line-by-line machine does |
| OracleLog.UpdatesEndorsed | cmd/microservice-key-rotation-generate-transaction/processing.go:132-190 | for every update ever returned some signature over twelve zeros and its new oracle recovers to its old one |
| OracleLog.ForgeryRefused | cmd/microservice-key-rotation-generate-transaction/processing.go:132-190 | a record whose info line names another new oracle than was signed is refused unless the signature recovers to the old oracle for that one too |
| OracleLog.PrintLog | cmd/microservice-key-rotation/main.go:145-181 | the content built up in the loop is the records one after another |
| OracleLog.RecordText | cmd/microservice-key-rotation/main.go:145-181 | the text of a record, its signature being over twelve zeros and the new oracle |
| OracleLog.LogRoundTrip | cmd/microservice-key-rotation/main.go:145-181 | for timestamps without a line break, parsing any number of printed records returns their updates in order if and only if each timestamp is present and short enough for its line |
| OracleLog.LogParsed | cmd/microservice-key-rotation-generate-transaction/processing.go:32-109 | and otherwise exactly what: the updates before the first record that cannot be carried, or an error when that one has no timestamp |
| OracleLog.LongLineIgnored | cmd/microservice-key-rotation-generate-transaction/processing.go:47-108 | a record whose info line does not fit the scanner ends the parse without an error, whatever follows |
| OracleLog.EmptyTimestampFails | cmd/microservice-key-rotation-generate-transaction/processing.go:111-117 | a record without a timestamp is an error, whatever follows |
| Wins.CalculatePayoutsSplit | common/calculation/probability/payouts.go:36-77 | per utility the two shares add up to entry winningBalls - 1 of its list, the receiver's being a fifth rounded down; an index out of range exactly when some list is too short |
| Wins.CalculatePayoutsCombined | common/calculation/probability/payouts.go:15-33 | per utility entry winningBalls - 1 of its list, under the same condition |
| Wins.CombinedIsBoth | common/calculation/probability/payouts.go:15-77 | the two shares merged are the combined payouts |
| Wins.MergePayouts | cmd/microservice-ethereum-worker-client/main.go:67-81 | the shared destination gets the sum per utility |
| Wins.WinsConserved | cmd/microservice-ethereum-worker-client/main.go:85-189 | per transfer and utility sender plus receiver is the sum of the matched prizes, the sender has at least four times the receiver's, over by at most four units a win |
| Wins.PrizeTotalAdds | cmd/microservice-ethereum-worker-client/main.go:85-189 | the matched prizes of a transfer add up over the announcements |
| Wins.PrizeOfOne | cmd/microservice-ethereum-worker-client/main.go:100-145 | and of one announcement are entry b - 1 for b matching balls, nothing from or to the null address |
| Wins.FirstIsEarliest | cmd/microservice-ethereum-worker-client/main.go:147-175 | the particulars are those of the first winning announcement of the transfer |
| Lottery.WinIsTierPrice | cmd/microservice-ethereum-worker-server/special-payouts.go:118-144 | a transfer announced with the table of `WinningChances` and a draw from its balls, b of which match, is paid in each pool's token the pool's share of the price of tier b, by its chance; its lists are never too short |
| Lottery.DrawnTierIsPossible | cmd/microservice-ethereum-worker-server/special-payouts.go:118-144 | no draw matches a tier that the table holds to be impossible |
| Wins.ProcessAnnouncements | cmd/microservice-ethereum-worker-client/main.go:85-199 | sends one announcement per winning transfer holding those totals, the network and its first win's particulars, nothing when none wins, and crashes exactly on a tier list that is too short |
| Batching.BatchWinnings | common/ethereum/spooler/batch.go:19-81 | an error exactly when a category differs; else the least and greatest block and the exact sums per utility and user |
| Batching.WonAdds | common/ethereum/spooler/batch.go:58-72 | what a user won in a utility adds up over the winnings |
| Batching.WonOfOne | common/ethereum/spooler/batch.go:58-72 | and of one is its amount when the reward names that utility and that winner |
| Batching.BatchConserved | common/ethereum/spooler/batch.go:58-72 | a batch pays out exactly what its winnings add up to |
| Referrals.PouringConserves | cmd/microservice-lootbox-referral-activator/main.go:83-95 | progress added plus what is left is the lootbox count |
| Referrals.FillExactly | cmd/microservice-lootbox-referral-activator/main.go:83-98 | a referral gets what the count leaves over once all unclaimed ones before it are full, up to what it can take |
| Referrals.FillKeepsSound | cmd/microservice-lootbox-referral-activator/main.go:88-98 | progress stays within the threshold and a referral is active exactly when full |
| Referrals.FillKeepsPoured | cmd/microservice-lootbox-referral-activator/main.go:83-115 | only the earliest unclaimed referral is ever partly filled |
| Referrals.FetchedRowsSuffice | cmd/microservice-lootbox-referral-activator/main.go:73-79 | fetching floor(c/A)+2 rows does what fetching all would, and what is left over is what all unclaimed referrals could not take |
| Referrals.WholeCountIsUsed | cmd/microservice-lootbox-referral-activator/main.go:73-115 | when that many unclaimed referrals exist the whole count is used |
| Referrals.OneFewerFallsShort | cmd/microservice-lootbox-referral-activator/main.go:73 | for every threshold and every floor of count to threshold, a sound table and a count for which one row fewer would not do |
| Referrals.PouringAdds | cmd/microservice-lootbox-referral-activator/main.go:83-115 | two counts poured in turn do what their sum does |
| Referrals.ActivatedAreClaimed | cmd/microservice-lootbox-referral-activator/main.go:98-115 | the rows activated are the unclaimed ones that no longer are, and an active row is left as it is |
| Referrals.Activator.Receive | cmd/microservice-lootbox-referral-activator/main.go:40-116 | a transaction lootbox fills its owner's rows, and only those, and sends for each row that is no longer unclaimed one lootbox of count 5 to its owner; every message keeps the table sound; where the service dies nothing changed |
| Referrals.Activator.AddReferral | database/102-up-timescale/20230330022245_lootbox_referral_add_progress.sql:2-5 | a new referral starts inactive and empty, is refused exactly when the pair has one in any epoch, and keeps the table sound |
| Ratio.AllocationIsFair | contracts/ethereum/lootbox-utils.ts:196-209 | for a ratio strictly between none and all: within both maxima, one of them used up to a unit, and in proportion up to rounding |
| Ratio.PacerReachesMaximum | contracts/ethereum/lootbox-utils.ts:196-209 | the side that sets the pace gets its whole maximum if its part divides it 10^40-fold, and one less otherwise |
| Ratio.DivTowardsZero | contracts/ethereum/lootbox-utils.ts:196-209 | the division drops the remainder towards zero |
| Ratio.AllocationLopsided | contracts/ethereum/lootbox-utils.ts:196-209 | for a ratio outside none and all: one share is never positive, the other within its maximum |
| Ratio.ScalingKeepsFair | contracts/ethereum/lootbox-utils.ts:252-270 | the same after scaling both amounts up and both shares down |
| Ratio.UsdcUnit | contracts/ethereum/lootbox-utils.ts:237-243 | USDC is compared coin for coin with fUSDC if and only if fUSDC has no more decimals; else it counts ten times |
| Ratio.ScaleMeetsUnit | contracts/ethereum/lootbox-utils.ts:245-251 | WETH is compared coin for coin always |
| Ratio.PickRatio | contracts/ethereum/lootbox-utils.ts:211-279 | both pairs are shared so, for every ratio; throws exactly when a nonempty pair meets a ratio of none or all |
| MovingAverage.CalculateMovingAverageAndSumMaybePop | common/calculation/moving-average/moving-average.go:30-80 | the list after trimming, the sum of its newest limit + 1 entries, and the average such that average * length <= sum < (average + 1) * length for the length before, or the mirror image below zero |
| MovingAverage.CalculateMovingAverage | common/calculation/moving-average/moving-average.go:83-120 | averages the newest 501 entries, within the same bounds, and drops one beyond 500 |
| MovingAverage.StoreAndCalculate | common/calculation/moving-average/moving-average.go:165-168 | a key written only so holds the 500 newest values |
| MovingAverage.Worker.Block | cmd/microservice-ethereum-worker-server/main.go:258-314 | after every block the list is the newest max(atx, epoch) counts, and both results are those of stated numbers of newest counts |
| MovingAverage.SteadyAverage | common/calculation/moving-average/moving-average.go:42-77 | for constant counts the average is right exactly until more blocks than averaged have come, and low from then on |
| MovingAverage.AverageBetween | common/calculation/moving-average/moving-average.go:42-77 | for any counts the average lies between the least and the greatest while as many are summed as are divided by, and never passes a greatest that is not negative |
| MovingAverage.QuotientBrackets | common/calculation/moving-average/moving-average.go:76 | the division drops the remainder towards zero |
| MovingAverage.SumAdds | common/calculation/moving-average/moving-average.go:54-72 | the sum adds up over the parts of a list |
| MovingAverage.SumOfOne | common/calculation/moving-average/moving-average.go:54-72 | and of one entry is its number |
| MovingAverage.TransfersAdds | cmd/microservice-ethereum-worker-server/main.go:254-260 | a block's transfers add up over its transactions |
| MovingAverage.TransfersOfOne | cmd/microservice-ethereum-worker-server/main.go:254-260 | and of one transaction are its own |
| Powers.IntPowerSteps | common/ethereum/util.go:284-309 | the power takes one factor more for each exponent, above and below zero |
| Powers.BigPow | common/ethereum/util.go:284-309 | is that power for every integer, panicking exactly on zero to a negative one |
| Powers.Bernoulli | common/ethereum/aave/aave.go:253-263 | compounding gains at least the simple rate, more beyond one period |
| Powers.GetTokenApy | common/ethereum/aave/aave.go:241-263 | the yearly yield is at least the rate, and equal only at zero |
| Powers.DecimalsServer.Serve | common/ethereum/chainlink/server.go:27-86 | answers with, and caches, ten to the decimals of the feed |

## Left out

- Calls to nodes, AMQP, Redis, SQL, AWS and chat services, environment parsing, logging and emission records: their effects are modelled where a property names them (the node's answers, the lists and sorted sets, the queue's deliveries) and are otherwise absent.
- Keccak, SHA-256, ed25519, ECDSA, base58 and curve checks: functions given as parameters, with the one law needed stated in `OracleLog.Sound`.
- Floating point: USD amounts, exchange rates and referral progress are reals, so nothing is claimed about rounding. `Wins` and `Batching` have native amounts only.
- WinningSize: counts ordered draws, which are what is drawn; dividing by m! gives the subsets.
- RandomIntegers: the candidates are a finite sequence already reduced to the span, and running out of them is an outcome of its own; that the generator itself is uniform is not modelled.
- EveryDrawEquallyLikely: counts streams of equal length, each equally likely.
- SortStable: an insertion sort stands for the library's stable sort; its contract leaves only one possible result.
- RetryLimit: a nack always reaches the broker; what distinct bodies and expiry have to do with it is stated exactly by the lemmas beside it.
- UpdateConfirmedBlocksFrom: the chain does not grow while it is read, and slots are natural numbers, not floats; the goroutines that process slots at the same time are run one after another.
- PaginateLogs: block numbers do not pass 2^64, and the heights the node reports have a bound.
- Receive: the log connector's exit after thirty minutes is not modelled; the referral threshold is positive.
- TierConserved: for a payout that is not negative, which `Payouts.PayoutNonNegative` gives for a gas fee and rate that are not.
- LogRoundTrip: for timestamps that hold no line break; nothing is claimed for a file that ends within a record.
- ProcessAnnouncements: leaves out the application, which is only logged.
- PickRatio: the ratios read from the chain are parameters.
- Worker: the configuration is read once and does not change between blocks.
- DecimalsServer: the feeds' decimals are constant.
- `CalculateMovingAverageRat`, `StoreAndCalculateRat`, the spooler's other functions, the decoders of exchange logs, the web applications and deployment scripts would add easy members only.
- `getTransactionBlocks` (cmd/microservice-sui-user-actions/state.go), the pending-winner loop (cmd/microservice-user-transactions-aggregate/main.go) and the worker server's own `bigPow` are not part of this model.
