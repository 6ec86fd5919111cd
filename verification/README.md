# A verified model of the reserve auditor

The reserve auditor watches two sources. The MobileCoin ledger says which tokens were minted and burned; the
Gnosis API says which Ethereum tokens entered and left the safes that back them. Both are written to one SQLite
database by threads that take turns: each block, and each raw Gnosis transaction, is one exclusive database
transaction that commits whole or not at all. This project models that database, every step that changes it, and
proves what holds in every state it can reach.

## How the model is built

`Tables` gives the rows and the database as a value, `State`. A step is a function on states (`LedgerSync`,
`MintMatching`, `BurnMatching`, `WithdrawalParsing`, `GnosisIngest`), and `Runs.Run` is the state after any sequence
of blocks and Gnosis transactions, in any interleaving, where a failed step changes nothing. The class
`AuditorDb.AuditorDb` holds the tables as fields that its methods update in place, with savepoints and rollback as
in the program. Its invariant is that its contents are the outcome of a run, so every theorem about runs is a
theorem about the object after any calls.

The theorems come in layers. The single steps: `BalanceWalk`, `MintConfigLookup`, `MintTxNonce`, `GnosisUtils`,
`Decimal`, `WithdrawalParsing`, `MatchOutcomes`. Which steps are committed: `LedgerAcceptance`, `GnosisAcceptance`. What
a committed step leaves in the tables, in terms of its input alone: `LedgerContents`, `GnosisContents`. What each step
keeps: `LedgerInvariant`, `MintAuditInvariant`, `BurnAuditInvariant`, `GnosisInvariant`. What follows for whole runs:
`Runs`, `LedgerTheorems`, `MintLimits`, `MintLimitOvershoot`, `AuditTheorems`, `BurnOrder`, `ReserveBacking`, `History`.
`Scenario` and `MintLimitScenario` hold concrete runs that show what the general theorems leave possible.

Signature checks, view-key matching and the order in which SQLite returns the rows of an unordered query are the
three functions of `Oracles`; everything is proved for all of them. The configuration is fixed and always supplied.
Theorems about the audits assume `DistinctSafes`: no two configured safes share an address.

## Results that differ from what one might expect

Where an expected property fails, a concrete input shows it and an equivalence says exactly when it holds.

- A mint limit can be broken. A lookup only counts mints of strictly earlier blocks, so two mints of one block may
  each fill the limit (`MintLimitScenario.LimitBrokenWithinOneBlock`). `MintLimitOvershoot.LimitRespectedExactlyWhen`
  is the exact condition for one block, `LedgerTheorems.RunMintsWithinLimit` the bound over whole runs. A limit that is
  broken by 2^64 or more is open again (`MintLimitScenario.BrokenLimitOpensAgain`, `MintLimits.NothingFitsExactlyWhen`),
  since a release build wraps silently (`Cargo.toml:76`).
- The counter of exceeding burns can be wrong after a balance has overflowed: zero with a wrong balance
  (`Scenario.CounterHidesOverflow`), or positive with right ones (`BalanceWalk.OverflowCanCancelOut`); it can also stay
  right (`BalanceWalk.OverflowCanLeaveCounterRight`). The exact condition is
  `LedgerTheorems.OverBurnCounterExactlyWhen`.
- A scale of 39 or more orders of magnitude overflows the power of ten: `GnosisUtils.TruncateOverflows`,
  `TruncateExactlyWhen`.
- Burns are not paired independently of arrival order when several withdrawals carry one key
  (`Scenario.SharedKeyPairingDependsOnOrder`). `BurnOrder.SameBurnsExactlyWhen` and `SameRowsExactlyWhen` say exactly
  when they are.
- A multi-sig transaction with more than one transfer is meant to be rejected, but the error is built and dropped
  (`src/gnosis/sync.rs:387-392`), so it is read by its first transfer alone, whose value is stored
  (`Scenario.TwoTransfersAreRead`, `WithdrawalParsing.StoredValueIsFirst`). An empty list panics.
  `WithdrawalParsing.TransferCountRejectedExactlyWhen` is the exact condition.
- A transfer of an unknown token ends the loop over the transfers of its Ethereum transaction
  (`src/gnosis/sync.rs:185-192`, ignored by the caller at 109-119): deposits after it are not stored, and polling again
  does not help (`Scenario.DepositIsLost`). `GnosisAcceptance.AllStoredExactlyWhen` is the exact condition.
- An Ethereum transaction with two deposits violates the UNIQUE hash and stops every poll that reaches it
  (`Scenario.TwoDepositsBlockPolls`, `GnosisAcceptance.ProcessTxSucceedsExactlyWhen`).
- One that pays two safes is only processed for the safe that polls first (`Scenario.SecondSafeIsNotServed`,
  `GnosisAcceptance.SecondSafeServedExactlyWhen`).
- Repeating a match of a deposit raises a counter inside the savepoint that is then rolled back
  (`src/db/models/audited_mint.rs:65-70`); only the increment outside survives, so exactly one is counted, as it
  should be
  (`AuditorDb.AuditorDb.TryMatchDepositWithMint`).

## Model

| member | source | states |
|---|---|---|
| `AuditTheorems.MintAuditIsExact` | src/db/models/audited_mint.rs:34-199 | In every reachable state, a mint and a deposit are in the audit table if and only if the mint's nonce names the deposit's transaction and the configured token and the amount agree, whichever arrived first. |
| `AuditTheorems.MintAuditIsOneToOne` | src/db/models/audited_mint.rs:55-93 | Over whole runs no mint is audited twice and no deposit is audited twice, although the table has no UNIQUE constraint. |
| `AuditTheorems.MintCountersMean` | src/db/models/audited_mint.rs:98-112 | The mismatch counter is the number of stored pairs that name each other but disagree; the four counters for unknown tokens and unknown safes are zero in every reachable state. |
| `AuditTheorems.PairingDependsOnContentOnly` | src/bin/main.rs:381-396 | Two runs that stored the same mints and deposits, at whatever positions and blocks, pair the same nonces with the same Ethereum hashes. |
| `AuditTheorems.BurnAuditIsSound` | src/db/models/audited_burn.rs:56-96 | In every reachable state each audited burn agrees with its withdrawal on key, amount and configured token, and the table is one-to-one, however many withdrawals share a key. |
| `AuditTheorems.BurnAuditIsExactOnSoleKeys` | src/db/models/audited_burn.rs:35-211 | In every run, a burn and a withdrawal whose key no other withdrawal carries are audited if and only if they agree; `BurnOrder.PairExactlyWhen` shows that the condition on the key is needed. |
| `BurnOrder.SameBurnsExactlyWhen` | src/db/models/audited_burn.rs:35-211 | The same burns are paired in every interleaving of a run's blocks and Gnosis transactions, and under every order of unordered rows, if and only if for each stored burn no withdrawal with its key agrees with it, or all of them do. |
| `BurnOrder.SameRowsExactlyWhen` | src/db/models/audited_burn.rs:35-211 | The same pairs are recorded in every interleaving and under every order of rows, if and only if for each stored burn at most one withdrawal carries its key, or none of those agrees with it. |
| `BurnOrder.PairExactlyWhen` | src/db/models/audited_burn.rs:35-211 | A burn and a withdrawal of one key are recorded, in every interleaving and under every order of rows, exactly when they agree, if and only if they disagree or no other withdrawal carries the key. |
| `BurnOrder.AllAgreeIsPaired` | src/db/models/audited_burn.rs:56-96 | In every run, a burn with which all withdrawals on its key agree is paired as soon as there is one, whichever arrived first. |
| `Scenario.SharedKeyPairingDependsOnOrder` | src/db/models/gnosis_safe_withdrawal.rs:181-198 | Two concrete runs of one block and two multi-sig transactions, of which only the second agrees with the burn: paired when the block comes first, not paired when it comes last. |
| `ReserveBacking.AuditedSupplyIsBacked` | src/gnosis/sync.rs:143-217 | Per safe and token in every reachable state: the audited mints, scaled up to Ethereum precision, never exceed the raw values of their deposits, these never exceed all the safe received, and less than one unit is lost per audited pair. |
| `ReserveBacking.AuditedSupplyIsPaid` | src/gnosis/sync.rs:143-217 | The same bound over transfers: of the transfers to the safe, in committed transactions and of contracts listed under the token, some match the audited mints one-to-one, and the values they moved cover those mints. |
| `MatchOutcomes.MintAttemptDecides` | src/db/models/audited_mint.rs:122-199 | For any tables and configuration, which of the row and the four counters an attempt from a mint leaves, by whether it is audited, an open deposit expects its nonce, the safe is configured, the token is listed, and token and amount agree. |
| `MatchOutcomes.DepositAttemptDecides` | src/db/models/audited_mint.rs:34-115 | The same for an attempt from a deposit. |
| `MatchOutcomes.BurnAttemptDecides` | src/db/models/audited_burn.rs:125-211 | The same for an attempt from a burn, with any of several open withdrawals. |
| `MatchOutcomes.WithdrawalAttemptDecides` | src/db/models/audited_burn.rs:35-118 | The same for an attempt from a withdrawal. |
| `MatchOutcomes.UnsavedIsCounted` | src/db/models/audited_mint.rs:42-43 | An object that was never stored is counted as unexpected, each side in its own counter, and nothing else changes. |
| `Runs.RunOk` | src/bin/main.rs:342-402 | The invariant of ledger, Gnosis and audit tables holds after every sequence of steps. |
| `Runs.InterleavingDoesNotMatter` | src/bin/main.rs:381-396 | Two interleavings of the same blocks and Gnosis transactions end with equal ledger and Gnosis tables, the same audited mints and mismatches, and the same total of fruitless mint-side and deposit-side attempts. |
| `Runs.RunConserves` | src/bin/main.rs:405-462 | In every run, under any configuration, every mint and deposit accounts for exactly one audited pair or one counted failure, and so do burns and withdrawals. |
| `Runs.LedgerIsScan` | src/bin/main.rs:342-402 | The ledger tables of a run depend on its blocks alone, not on the Gnosis transactions between them. |
| `Runs.GnosisIsIngest` | src/gnosis/sync.rs:81-137 | The Gnosis tables of a run depend on its Gnosis transactions alone. |
| `Runs.LedgerStepKeeps` | src/bin/main.rs:381-396 | Syncing and auditing one block keeps the invariant of all tables. |
| `History.RowsAreForEver` | src/db/mod.rs:119-269 | However a run continues, every row, every audit link and every stored balance keeps its position and content. |
| `BalanceWalk.Conservation` | src/db/mod.rs:149-240 | Balance + burned + 2^64 times the overflows = minted + the shortfall of exceeding burns, for every sequence of mints and burns. |
| `BalanceWalk.ConservationExactlyWhen` | src/db/mod.rs:162-168 | Nothing but exceeding burns disturbs the balance, if and only if no mint overflowed. |
| `BalanceWalk.BalanceIsLargestSuffix` | src/db/mod.rs:149-240 | Without overflow, the clamped balance is the largest net amount over all suffixes of the mints and burns. |
| `BalanceWalk.ClosedFormExactlyWhen` | src/db/mod.rs:162-168 | That closed form holds at every point of a sequence if and only if no mint of it overflows. |
| `BalanceWalk.ClampsWitnessShortfall` | src/db/mod.rs:214-227 | The counter of exceeding burns is zero if and only if no token has a shortfall. |
| `BalanceWalk.ZeroCounterExactlyWhen` | src/db/mod.rs:214-227 | A zero counter means that every balance is minted minus burned if and only if no mint overflowed. |
| `BalanceWalk.PositiveCounterExactlyWhen` | src/db/mod.rs:214-227 | Some balance is wrong, as a positive counter says, if and only if some token's shortfall is not 2^64 times its overflows. |
| `BalanceWalk.CounterTellsTruthExactlyWhen` | src/db/mod.rs:214-227 | "The counter is zero exactly when every balance is minted minus burned" holds if and only if the condition for its value, zero or positive, does. |
| `BalanceWalk.OverBurnWitness` | src/db/mod.rs:214-227 | Without overflow, the counter is zero if and only if every token's balance is minted minus burned. |
| `BalanceWalk.OverBurnWitnessNeedsNoOverflow` | src/db/mod.rs:162-168 | Two mints that overflow leave a zero counter and a balance that is wrong by 2^64. |
| `BalanceWalk.OverflowCanLeaveCounterRight` | src/db/mod.rs:162-168 | The same two mints and one clamped burn leave a positive counter and a wrong balance, so an overflow need not make the counter lie. |
| `BalanceWalk.OverflowCanCancelOut` | src/db/mod.rs:214-227 | Two clamped burns that take away exactly what overflowed leave a positive counter and a right balance. |
| `BalanceWalk.TokensOnlyGrow` | src/db/mod.rs:149-153 | Further mints and burns never drop a token from the balances. |
| `LedgerTheorems.StoredBalanceClosedForm` | src/db/mod.rs:149-252 | The balance stored for any block of any run is the largest net amount over all suffixes of the mints and burns stored up to that block, each block's mints first, if none overflowed. |
| `LedgerTheorems.BalancesConserve` | src/http_api/service.rs:182-207 | In every run the current balance + all stored burns = all stored mints + shortfall - 2^64 times the overflows. |
| `LedgerTheorems.OverBurnCounterExactlyWhen` | src/db/mod.rs:214-240 | In every run, the stored counter is zero exactly when every current balance is total minted minus total burned, if and only if a zero counter comes without overflow and a positive one with a shortfall that no overflow cancels out. |
| `LedgerTheorems.ZeroOverBurnCounterExactlyWhen` | src/db/mod.rs:214-240 | In every run with a zero counter, every current balance is total minted minus total burned if and only if no mint overflowed. |
| `Scenario.CounterHidesOverflow` | src/db/mod.rs:162-168 | A run of one block with two mints ends with a total minted of 2^64, nothing burned, a balance of zero and a counter of zero. |
| `LedgerTheorems.OverBurnCounterIsExact` | src/db/mod.rs:214-240 | While each token's total minted is below 2^64, the stored counter is zero if and only if every current balance is total minted minus total burned. |
| `LedgerTheorems.TokensNeverVanish` | src/db/mod.rs:149-153 | The tokens of a block's stored balances are among those of the next block. |
| `LedgerTheorems.StoredConfigExactlyWhen` | src/db/mod.rs:272-335 | In every run, a stored mint carries a config if and only if that is the first one of the token's latest earlier config tx whose signers signed the mint and whose own and total limits leave room for it above the true amounts minted before; it carries none if and only if there is no such config. |
| `LedgerTheorems.CommittedBlockIsRecorded` | src/bin/main.rs:381-396 | In every run, the rows that the next committed block adds are exactly its contents. |
| `LedgerTheorems.StoredConfigsAreJustified` | src/db/mod.rs:272-335 | Every stored mint carries the config that a lookup would give it now; that config is from the token's latest config tx of an earlier block, signed the mint, had room under both limits by the sums of the code, and is the first such; without one, none qualified. |
| `LedgerTheorems.SupersededNeverMatches` | src/db/models/mint_config_tx.rs:153-165 | No stored mint carries a config whose config tx was superseded before the mint's block. |
| `LedgerTheorems.UnmatchedCounterIsExact` | src/db/mod.rs:179-190 | The counter of mints without a config equals the number of stored mints without one. |
| `LedgerTheorems.RunMintsWithinLimit` | src/db/mod.rs:288-331 | Over whole runs, with at most k recorded mints per block, what is recorded under a config or config tx is at most k times its limit, given that k is at most 1 or k times the limit is below 2^64. |
| `LedgerTheorems.BlockChain` | src/db/models/block_audit_data.rs:50-55 | The stored block indices are exactly 0 to n-1, so the index derived from the largest one is the one the counter demands, and a step fails with an unexpected index if and only if the block carries another. |
| `MintConfigLookup.LookupJustified` | src/db/mod.rs:272-335 | A found config belongs to the latest earlier config tx, signed the mint and has room under both limits, and no earlier config of its config tx does. |
| `MintConfigLookup.LookupFindsJustified` | src/db/mod.rs:272-335 | A lookup finds nothing if and only if no stored config signed the mint and has room under both limits of the latest earlier config tx. |
| `MintConfigLookup.LookupExactlyWhen` | src/db/mod.rs:272-335 | A lookup answers with a config if and only if that one qualifies and no earlier one does. |
| `MintLimits.LookupIsAllowedExactlyWhen` | src/db/mod.rs:272-335 | The same with the true amounts minted in place of the code's filtered, wrapping sums. |
| `MintConfigLookup.LookupStable` | src/db/models/mint_config.rs:114-129 | Rows of the same or later blocks never change the answer of a lookup. |
| `MintConfigLookup.MostRecentForToken` | src/db/models/mint_config_tx.rs:153-165 | Returns a config tx of the token from an earlier block such that none is later, or nothing if there is none. |
| `MintConfigLookup.ConfigsOf` | src/db/models/mint_config.rs:95-102 | Returns exactly the configs of a config tx, in the order of their ids. |
| `MintLimits.JoinNeverFilters` | src/db/models/mint_config.rs:121-128 | The filter on the config's block in the minted-so-far query is redundant: every stored mint with a config passes it. |
| `MintLimits.CodeSumIsExact` | src/db/models/mint_config_tx.rs:177-193 | The wrapped, filtered sum of the code is the true amount minted under a config or config tx modulo 2^64. |
| `MintLimits.MintedWithinLimit` | src/db/mod.rs:288-331 | With at most k recorded mints per block the true amount is at most k times the limit, given that k is at most 1 or k times the limit is below 2^64. |
| `MintLimits.ExhaustedStaysExhausted` | src/db/mod.rs:288-331 | Once the true amount, modulo 2^64, is above a limit, no mint of any later block is recorded under it. |
| `MintLimits.NothingFitsExactlyWhen` | src/db/mod.rs:288-331 | No amount passes the check of a limit any more if and only if the true amount, modulo 2^64, is above it. |
| `MintLimitScenario.BrokenLimitOpensAgain` | src/db/mod.rs:288-331 | Two mints of 2^63 in one block break a limit of 2^64 - 1, and a mint of the whole limit is recorded under it in the next block. |
| `MintLimitOvershoot.BlockAddsClaims` | src/db/mod.rs:161-200 | A block adds to a limit exactly the sum of its mints that would match it one by one before the block: they do not see each other, nor the block's own configs. |
| `MintLimitOvershoot.LimitRespectedExactlyWhen` | src/db/mod.rs:288-331 | After a committed block a limit is respected if and only if that sum fits in addition to what was recorded before. |
| `MintLimitScenario.LimitBrokenWithinOneBlock` | src/db/mod.rs:313-331 | Two mints of ten in one block are both recorded under a limit of ten. |
| `LedgerContents.CommittedBlockIsRecorded` | src/db/mod.rs:138-244 | A committed block adds exactly its config txs, linked to exactly their configs with limits and signers in order, its mints in order, and one burn for each output that the burn account can open, in order, with token, amount and key. |
| `LedgerContents.ConfigTxsRecorded` | src/db/models/mint_config_tx.rs:115-135 | After the config txs of a block are inserted, each row holds its columns and exactly its configs are linked to it, in order. |
| `LedgerContents.BurnsAreOpened` | src/db/mod.rs:206-212 | The burns of a block are exactly the outputs that the view key opens, in order, with the opened token and amount and the hex of the key. |
| `LedgerInvariant.SyncBlockKeeps` | src/db/mod.rs:119-269 | A committed block keeps the ledger invariant: constraints, reproducible lookups, exact counters, and stored balances equal to the walk over the stored mints and burns. |
| `LedgerInvariant.SyncBlockKeepsHistory` | src/db/mod.rs:252-252 | A committed block leaves the balances of earlier blocks as they were. |
| `LedgerInvariant.BalancesReadBack` | src/db/models/block_balance.rs:52-89 | Balances read back for a block are exactly the map written, for the whole 64-bit range, through the signed column. |
| `Numbers.CastsKeepBits` | src/db/models/block_balance.rs:67-81 | The casts to and from the signed column undo each other and change a value by a multiple of 2^64 only. |
| `LedgerAcceptance.SyncBlockSucceedsExactlyWhen` | src/db/mod.rs:119-269 | A block is committed if and only if it is the next one, its nonces and config tokens are new and distinct, and so are the keys of its outputs that the burn account can open; it fails with an unexpected index if and only if it is not the next one. |
| `MintAuditInvariant.AuditingMintKeeps` | src/db/models/audited_mint.rs:122-199 | Trying a new mint keeps the audit table exactly the set of matching pairs and the mismatch counter exact. |
| `MintAuditInvariant.AuditingDepositKeeps` | src/db/models/audited_mint.rs:34-115 | Trying a new deposit keeps the audit table exactly the set of matching pairs and the mismatch counter exact. |
| `BurnAuditInvariant.AuditingBurnKeeps` | src/db/models/audited_burn.rs:125-211 | Trying a new burn keeps the audited burns one-to-one, in agreement, and complete for keys that one withdrawal carries. |
| `BurnAuditInvariant.AuditingWithdrawalKeeps` | src/db/models/audited_burn.rs:35-118 | Trying a new withdrawal keeps the same, also when its key is shared. |
| `BurnAuditInvariant.NewBurnOutcome` | src/db/models/gnosis_safe_withdrawal.rs:181-198 | Only the one candidate that the unordered query lists first is tried: the burn is paired if and only if there is one and it passes the check, counted as a mismatch if it fails, and as unexpected if there is none. |
| `GnosisIngest.RepollIsIdempotent` | src/gnosis/sync.rs:81-137 | Once transactions are committed, polling them again after new ones does what the new ones alone do, whatever other threads did in between. |
| `GnosisIngest.RestartIsHarmless` | src/gnosis/sync.rs:81-137 | Stopping after any committed prefix and processing the whole list again ends in the state of one uninterrupted pass. |
| `GnosisIngest.PollRemembers` | src/gnosis/sync.rs:81-137 | A completed poll has stored the hash of every transaction in its list and forgotten none. |
| `GnosisIngest.ProcessTxRemembers` | src/db/models/gnosis_safe_tx.rs:27-38 | A committed transaction adds its hash to the de-duplication table and nothing else to it. |
| `GnosisAcceptance.ProcessTxSucceedsExactlyWhen` | src/gnosis/sync.rs:90-135 | A Gnosis transaction is committed if and only if it has a hash and was seen before, or decodes and brings transfers that can be read with new and distinct hashes, or a withdrawal that can be read and is new, or nothing for this safe. |
| `GnosisAcceptance.TransferReadExactlyWhen` | src/gnosis/sync.rs:152-183 | A transfer is read as a deposit if and only if the deposit has the transfer's hash, value, receiver and token, the nonce expected for that hash, and as amount the value in units of the first token that lists the contract, rounded down. |
| `GnosisAcceptance.UnknownExactlyWhen` | src/gnosis/sync.rs:153-168 | A transfer is of an unknown token if and only if no audited token lists its contract, and unreadable if and only if it names no contract, or one that is listed but no amount fits. |
| `GnosisContents.GnosisIsContents` | src/gnosis/sync.rs:81-137 | In every run the Gnosis tables and counters are exactly what the committed transactions say: their hashes, the deposits that their transfers record, the withdrawals that their batches record, and one count for each invalid one. |
| `GnosisContents.DepositsArePaid` | src/gnosis/sync.rs:143-194 | In every run each deposit records, column by column, a transfer of its own to an audited safe in a committed transaction. |
| `GnosisContents.WithdrawalHasBatch` | src/gnosis/sync.rs:252-260 | In every run each withdrawal records, column by column, a batch of an audited safe in a committed transaction; its amount is the number in the text, in units of the token, rounded down. |
| `GnosisContents.InvalidCountersMean` | src/gnosis/sync.rs:185-190 | In every run the two counters of invalid transactions count exactly the committed Ethereum transactions that move an unknown token to their safe, and the committed batches of their safe that are no withdrawals. |
| `GnosisAcceptance.AllStoredExactlyWhen` | src/gnosis/sync.rs:140-231 | Of the deposits among the transfers a first part is stored, and all of them if and only if none comes after a transfer of an unknown token to the safe. |
| `GnosisAcceptance.TransactionStoresAllExactlyWhen` | src/gnosis/sync.rs:90-120 | A committed Ethereum transaction stores all its deposits if and only if it has none, or is new and none comes after a transfer of an unknown token. |
| `GnosisAcceptance.NeverCommittedBlocksPolls` | src/gnosis/sync.rs:81-137 | A transaction with two deposits of one hash, or a transfer that cannot be read, stops every poll that reaches it; nothing listed after it is processed. |
| `GnosisAcceptance.SecondSafeServedExactlyWhen` | src/db/models/gnosis_safe_tx.rs:27-38 | Once the thread of one safe has committed a transaction, that of another skips it; the other safe has all its deposits if and only if there are none. |
| `Scenario.DepositIsLost` | src/gnosis/sync.rs:109-119 | A concrete transaction with a transfer of an unknown token before its one deposit leaves no deposit, and processing it again after any run changes nothing. |
| `Scenario.TwoDepositsBlockPolls` | src/gnosis/sync.rs:192-194 | A concrete transaction with two deposits ends every poll that reaches it, from any state that has not seen it. |
| `Scenario.SecondSafeIsNotServed` | src/db/models/gnosis_safe_tx.rs:27-38 | A concrete transaction that pays two safes, committed for the first, never changes anything for the second. |
| `History.CommittedOnceForAll` | src/gnosis/sync.rs:91-100 | A transaction committed in a run is skipped in every continuation of it, by the threads of all safes. |
| `GnosisInvariant.ProcessTxKeeps` | src/gnosis/sync.rs:90-135 | A committed Gnosis transaction keeps scaled amounts, foreign keys, uniqueness and both audits, and never touches the ledger tables. |
| `WithdrawalParsing.KeyRoundTripExactlyWhen` | src/gnosis/sync.rs:414-448 | Call data made of the function signature and the ABI encoding of a byte string is read back as that string if and only if it has 32 bytes ("Formal Specification of the Encoding", Solidity Contract ABI Specification). |
| `WithdrawalParsing.LinkedKeyExactlyWhen` | src/gnosis/sync.rs:414-448 | A key is read out of call data if and only if that is `0x` and hex digits of bytes that start with the function signature, are at least 36, and end in the key. |
| `WithdrawalParsing.WithdrawalReadExactlyWhen` | src/gnosis/sync.rs:307-480 | A multi-sig transaction is read as a withdrawal if and only if it passes every check and the withdrawal has its hash, safe, first transfer's value, token contract, recorded key, and as amount the number in the text in units of the token, rounded down. |
| `WithdrawalParsing.RejectedExactlyWhen` | src/gnosis/sync.rs:307-446 | It is rejected without a panic if and only if it fails a check before the transfers or, having a first transfer with a value, records no key. |
| `WithdrawalParsing.DocumentedBatchIsRead` | src/gnosis/sync.rs:307-480 | A batch of a transfer and a recorded key is read as a withdrawal with exactly that key, token and safe, and the number that the text denotes in units of the token, rounded down. |
| `Decimal.ParseExactlyWhen` | src/gnosis/sync.rs:462-463 | A text is read as a 128-bit number if and only if it is an optional plus sign, any zeros and the number's decimal numeral. |
| `Decimal.DigitsOfNumeral` | src/gnosis/sync.rs:462-463 | Reading the digits of a numeral gives the number back. |
| `WithdrawalParsing.OnlyFirstTransferIsRead` | src/gnosis/sync.rs:386-400 | A batch is read in the same way with its first transfer alone. |
| `WithdrawalParsing.TransferCountRejectedExactlyWhen` | src/gnosis/sync.rs:386-394 | A number of transfers other than one is rejected if and only if the batch fails a check before the transfers or, having a first one with a value, the check of its key; an empty list panics if and only if the earlier checks pass. |
| `WithdrawalParsing.StoredValueIsFirst` | src/gnosis/sync.rs:394-397 | The stored value is that of the first transfer, and the sum over all of them if and only if the others move nothing. |
| `WithdrawalParsing.FurtherTransfersAreIgnored` | src/gnosis/sync.rs:386-400 | A documented batch is read as the same withdrawal whatever transfers follow its first. |
| `Scenario.TwoTransfersAreRead` | src/gnosis/sync.rs:386-397 | A concrete batch with transfers of five and seven is read as a withdrawal that states a value of five. |
| `WithdrawalParsing.ParsedWithdrawalIsAudited` | src/gnosis/sync.rs:307-480 | Whatever is read as a withdrawal is of an audited token from the transaction's safe, with a key of 32 bytes. |
| `GnosisUtils.TruncateExactlyWhen` | src/gnosis/utils.rs:10-20 | The scaled amount is the quotient rounded down if and only if the power of ten fits 128 bits or the raw value is below the wrapped denominator. |
| `GnosisUtils.TruncateIsFloor` | src/gnosis/utils.rs:10-20 | The scaled amount is a given 64-bit number if and only if that is the value in units, rounded down, the unit being the power of ten modulo 2^128. |
| `GnosisUtils.UnitExactlyWhen` | src/gnosis/utils.rs:15-17 | That unit is the power of ten if and only if there are at most 38 orders of magnitude. |
| `GnosisUtils.TruncateOverflows` | src/gnosis/utils.rs:15-17 | With 39 orders of magnitude a value worth nothing scales to one. |
| `GnosisUtils.TruncateBacked` | src/gnosis/utils.rs:10-20 | Up to 38 orders, the scaled amount times the unit is at most the raw value and less than one unit short. |
| `MintTxNonce.ToBytes` | src/mint_tx_nonce.rs:22-33 | Filling the zeroed buffer in place gives the identifier, the hash, then zeros. |
| `MintTxNonce.Layout` | src/mint_tx_nonce.rs:17-33 | A nonce has 64 bytes: 1, the 32 bytes of the hash, zeros. |
| `MintTxNonce.FromBytesExactlyWhen` | src/mint_tx_nonce.rs:39-58 | Bytes are decoded if and only if there are 64 and the first is 1; the error says which is wrong. |
| `MintTxNonce.RoundTrip` | src/mint_tx_nonce.rs:22-59 | Decoding an encoded nonce gives the hash back. |
| `MintTxNonce.ReverseRoundTrip` | src/mint_tx_nonce.rs:39-58 | A decodable nonce is the encoding of what it decodes to if and only if its tail is zero. |
| `MintTxNonce.ExpectedNonceInjective` | src/db/models/gnosis_safe_deposit.rs:62-87 | Two deposits never expect the same mint nonce. |
| `EthDataTypes.TxHashRoundTrip` | src/gnosis/eth_data_types.rs:178-196 | Parsing a printed transaction hash gives it back. |
| `EthDataTypes.ParseAddrExactlyWhen` | src/gnosis/eth_data_types.rs:89-121 | A text is an address if and only if it is `0x` and 40 hex digits, and the address keeps the text. |
| `EthDataTypes.ParseTxHashExactlyWhen` | src/gnosis/eth_data_types.rs:178-190 | A text is a transaction hash if and only if it is `0x` and 64 hex digits. |
| `EthDataTypes.SameAddrIsSameBytes` | src/gnosis/eth_data_types.rs:89-134 | On parsed addresses, the case-insensitive comparison is equality of the twenty bytes. |
| `Hex.DecodeExactlyWhen` | src/gnosis/eth_data_types.rs:103-107 | A text is decoded if and only if it has even length and only hex digits. |
| `Hex.EncodeIsLower` | src/gnosis/eth_data_types.rs:192-196 | Encoded bytes are digits and lower-case letters a to f. |
| `Hex.DigitsInOrder` | src/gnosis/eth_data_types.rs:192-196 | The sixteen digits are 0 to 9 and a to f, in this order. |
| `Hex.EncodeInjective` | src/db/models/gnosis_safe_deposit.rs:73-74 | Distinct bytes have distinct hex text, so a UNIQUE text column is a UNIQUE byte column. |
| `SafeConfig.FindTokenExactlyWhen` | src/gnosis/config.rs:64-71 | A lookup by contract returns a token if and only if it is the first that lists the contract, in whatever case. |
| `SafeConfig.FindSafeExactlyWhen` | src/gnosis/config.rs:101-109 | A lookup by address returns a safe if and only if it is the first with the address. |
| `SafeConfig.FindSafeOfThread` | src/gnosis/config.rs:101-109 | With distinct safes, the lookup by address returns the very safe whose thread stored the row. |
| `Transaction.Transaction` | src/db/transaction.rs:20-40 | Of at most five attempts all but the last failed with an error worth retrying; only the last one's effect is kept, and only if it succeeded. |
| `Transaction.SettlesOnce` | src/db/transaction.rs:20-40 | What the contract of `Transaction` says admits one number of attempts, one result and one state. |
| `AuditorDb.AuditorDb.LookupMintConfig` | src/db/mod.rs:272-335 | The search loop returns the config that the lookup theorems describe. |
| `AuditorDb.AuditorDb.InsertMintConfigTx` | src/db/models/mint_config_tx.rs:115-150 | Stores the config tx and, one by one, all its configs under its id, column by column, or fails on a UNIQUE column and changes nothing. |
| `AuditorDb.AuditorDb.SetBalancesForBlock` | src/db/models/block_balance.rs:72-89 | Inserting the rows in any order stores the whole map, or fails on a missing block or an existing row. |
| `AuditorDb.AuditorDb.SyncBlock` | src/db/mod.rs:119-269 | Changes the ledger tables as one whole block or, on any error, leaves every table as it was. |
| `AuditorDb.AuditorDb.TryMatchDepositWithMint` | src/db/models/audited_mint.rs:34-115 | Adds exactly one audited row and nothing else, or raises exactly one counter by one and nothing else. |
| `AuditorDb.AuditorDb.TryMatchMintWithDeposit` | src/db/models/audited_mint.rs:122-199 | The same for an attempt that starts from a mint. |
| `AuditorDb.AuditorDb.TryMatchWithdrawalWithBurn` | src/db/models/audited_burn.rs:35-118 | The same for an attempt that starts from a withdrawal. |
| `AuditorDb.AuditorDb.TryMatchBurnWithWithdrawal` | src/db/models/audited_burn.rs:125-211 | The same for an attempt that starts from a burn. |
| `AuditorDb.AuditorDb.AuditBlockData` | src/bin/main.rs:405-462 | Tries each new mint and then each new burn of a block once, and touches no other table. |
| `AuditorDb.AuditorDb.SyncAndAuditBlock` | src/bin/main.rs:381-396 | One block is one step of a run: all of its contents, in order, or nothing and the error. |
| `AuditorDb.AuditorDb.SyncLoop` | src/bin/main.rs:342-402 | Terminates on every ledger, ends where syncing the missing blocks in order up to the first failure ends, and never meets an unexpected index when blocks carry their own positions. |
| `AuditorDb.AuditorDb.ProcessEthTransaction` | src/gnosis/sync.rs:140-231 | The loop stores and matches the deposits up to the first transfer it cannot use; an unknown token is counted and ends it without an error. |
| `AuditorDb.AuditorDb.ProcessMultiSigTransaction` | src/gnosis/sync.rs:234-302 | Stores and matches the withdrawal of a batch, or counts that it is none, or does nothing for another safe. |
| `AuditorDb.AuditorDb.ProcessTransaction` | src/gnosis/sync.rs:90-135 | One raw transaction is one step of a run: all of it, or nothing and the error; a known hash is skipped. |
| `AuditorDb.AuditorDb.ProcessTransactions` | src/gnosis/sync.rs:81-137 | A poll commits its transactions in order until one fails, and keeps what was committed. |

## Left out

- gRPC, HTTP routes, pagination, command line, Prometheus, logging and the TypeScript frontend: no state of their own.
- The Gnosis fetcher and the threads: arbitrary lists of transactions arrive at arbitrary times.
- Signature verification, view-key matching, protobuf and base58: `Oracles`, or data that is already decoded. Errors of
  decoding stored protobuf data do not occur in the model.
- JSON decoding: a raw transaction either decodes or does not.
- Dates, recipient and sender addresses, tombstone blocks, memos and Ethereum block numbers: stored, never read by a
  modelled step.
- SQLite itself: only rollback, UNIQUE and foreign-key behaviour. A row id is the position of the row, where SQLite
  counts from one; ids are taken to be consecutive and to fit their column.
- The configs of a config tx are searched in the order of their ids; their query names no order, and a scan of the table
  gives this one. The query for the latest config tx, and those for the mint, deposit or burn
  of a nonce or key, have at most one candidate to choose from, because of UNIQUE columns.
- The signed cast is modelled where a value is read back to be computed with, the balances. The other 64-bit columns
  hold their value directly; block indices are below 2^63, where the signed comparison of the queries agrees.
- Counters do not wrap around.
- A run without a Gnosis configuration: the ledger step then skips the audit. Theorems on the ledger tables do not
  depend on it.
- Panics are failed steps: the exclusive transaction is rolled back and the poll stops.
- Transaction.Transaction: is not wired into the class, because the errors it retries come from the connection pool and
  from locks, which the model has none of; the class models the attempt that settles the call.
- ReserveBacking.AuditedSupplyIsBacked: covers deposits only; the raw value and the amount of a withdrawal come from
  different fields of the API response, so no scaling relation holds between them.
- LedgerTheorems.StoredBalanceClosedForm: holds under the hypothesis that no mint of the token overflowed
  (`BalanceWalk.ClosedFormExactlyWhen` shows that it is needed).
