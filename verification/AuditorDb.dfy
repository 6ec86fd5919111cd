/** The database as the program changes it: tables as fields, one method per operation. */
module AuditorDb {
  import opened Wrappers
  import opened Numbers
  import opened EthDataTypes
  import opened SafeConfig
  import opened ApiDataTypes
  import opened Tables
  import opened BalanceWalk
  import opened MintConfigLookup
  import opened LedgerSync
  import opened GnosisIngest
  import opened Runs
  import LedgerInvariant
  import LedgerAcceptance
  import LedgerContents
  import LedgerTheorems
  import MintMatching
  import BurnMatching
  import WithdrawalParsing
  import Hex

  /** The single row of the counters table. */
  datatype Counters = Counters(
    numBlocksSynced: nat,
    numBurnsExceedingBalance: nat,
    numMintTxsWithoutMatchingMintConfig: nat,
    numMismatchingMintsAndDeposits: nat,
    numMismatchingBurnsAndWithdrawals: nat,
    numUnknownEthereumTokenDeposits: nat,
    numUnknownEthereumTokenWithdrawals: nat,
    numMintsToUnknownSafe: nat,
    numBurnsFromUnknownSafe: nat,
    numInvalidEthereumTransactions: nat,
    numInvalidMultiSigTransactions: nat,
    numUnexpectedErrorsMatchingDepositsToMints: nat,
    numUnexpectedErrorsMatchingMintsToDeposits: nat,
    numUnexpectedErrorsMatchingWithdrawalsToBurns: nat,
    numUnexpectedErrorsMatchingBurnsToWithdrawals: nat)

  /** The counters row of a database value. */
  function CountersOf(st: State): Counters {
    var (l, g, a, b) := (st.ledger, st.gnosis, st.mintAudit, st.burnAudit);
    Counters(
      l.numBlocksSynced, l.numBurnsExceedingBalance, l.numMintTxsWithoutMatchingMintConfig,
      a.numMismatchingMintsAndDeposits, b.numMismatchingBurnsAndWithdrawals, a.numUnknownEthereumTokenDeposits,
      b.numUnknownEthereumTokenWithdrawals, a.numMintsToUnknownSafe, b.numBurnsFromUnknownSafe,
      g.numInvalidEthereumTransactions, g.numInvalidMultiSigTransactions,
      a.numUnexpectedErrorsMatchingDepositsToMints, a.numUnexpectedErrorsMatchingMintsToDeposits,
      b.numUnexpectedErrorsMatchingWithdrawalsToBurns, b.numUnexpectedErrorsMatchingBurnsToWithdrawals)
  }

  const NO_COUNTS := Counters(0, 0, 0, 0, 0, 0, 0, 0, 0, 0, 0, 0, 0, 0, 0)

  /** What syncing a block reports: its balances, and where its mints and burns begin in their tables. */
  datatype SyncBlockData = SyncBlockData(blockIndex: nat, balances: map<U64, U64>, firstMint: nat, firstBurn: nat)

  class AuditorDb {
    const o: Oracles
    const config: Config

    var mintConfigTxs: seq<MintConfigTx>
    var mintConfigs: seq<MintConfig>
    var mintTxs: seq<MintTx>
    var burnTxOuts: seq<BurnTxOut>
    var blockAuditData: seq<nat>
    var blockBalances: map<(nat, U64), I64>
    var safeTxs: set<EthTxHash>
    var deposits: seq<Deposit>
    var withdrawals: seq<Withdrawal>
    var auditedMints: seq<AuditedMint>
    var auditedBurns: seq<AuditedBurn>
    var counters: Counters

    /** The blocks and transactions offered so far, successful or not. */
    ghost var history: seq<Event>

    /** The database is the outcome of a run, so all that is proved of runs holds of it. */
    ghost predicate Valid()
      reads this
    {
      Current() == Run(o, config, history)
    }

    /* The tables as values, grouped by writer */

    function LedgerTables(): Ledger
      reads this
    {
      Ledger(mintConfigTxs, mintConfigs, mintTxs, burnTxOuts, blockAuditData, blockBalances, counters.numBlocksSynced,
             counters.numBurnsExceedingBalance, counters.numMintTxsWithoutMatchingMintConfig)
    }

    function GnosisTables(): Gnosis
      reads this
    {
      Gnosis(safeTxs, deposits, withdrawals, counters.numInvalidEthereumTransactions,
             counters.numInvalidMultiSigTransactions)
    }

    function MintAuditTables(): MintAudit
      reads this
    {
      MintAudit(auditedMints, counters.numMismatchingMintsAndDeposits, counters.numUnknownEthereumTokenDeposits,
                counters.numMintsToUnknownSafe, counters.numUnexpectedErrorsMatchingDepositsToMints,
                counters.numUnexpectedErrorsMatchingMintsToDeposits)
    }

    function BurnAuditTables(): BurnAudit
      reads this
    {
      BurnAudit(auditedBurns, counters.numMismatchingBurnsAndWithdrawals, counters.numUnknownEthereumTokenWithdrawals,
                counters.numBurnsFromUnknownSafe, counters.numUnexpectedErrorsMatchingWithdrawalsToBurns,
                counters.numUnexpectedErrorsMatchingBurnsToWithdrawals)
    }

    function Current(): State
      reads this
    {
      State(LedgerTables(), GnosisTables(), MintAuditTables(), BurnAuditTables())
    }

    constructor (o: Oracles, config: Config)
      ensures this.o == o && this.config == config
      ensures Valid() && history == []
    {
      history := [];
      this.o, this.config := o, config;
      mintConfigTxs, mintConfigs, mintTxs, burnTxOuts := [], [], [], [];
      blockAuditData, blockBalances := [], map[];
      safeTxs, deposits, withdrawals := {}, [], [];
      auditedMints, auditedBurns := [], [];
      counters := NO_COUNTS;
    }

    /** Rolling back to a savepoint, or rolling back the transaction. */
    method RollBack(st: State)
      modifies this
      ensures Current() == st
    {
      RestoreTables(st);
      counters := CountersOf(st);
      assert LedgerTables() == st.ledger && GnosisTables() == st.gnosis;
      assert MintAuditTables() == st.mintAudit && BurnAuditTables() == st.burnAudit;
    }

    method RestoreTables(st: State)
      modifies this
      ensures mintConfigTxs == st.ledger.mintConfigTxs && mintConfigs == st.ledger.mintConfigs
      ensures mintTxs == st.ledger.mintTxs && burnTxOuts == st.ledger.burnTxOuts
      ensures blockAuditData == st.ledger.blockAuditData && blockBalances == st.ledger.blockBalances
      ensures safeTxs == st.gnosis.safeTxs && deposits == st.gnosis.deposits && withdrawals == st.gnosis.withdrawals
      ensures auditedMints == st.mintAudit.auditedMints && auditedBurns == st.burnAudit.auditedBurns
    {
      mintConfigTxs, mintConfigs := st.ledger.mintConfigTxs, st.ledger.mintConfigs;
      mintTxs, burnTxOuts := st.ledger.mintTxs, st.ledger.burnTxOuts;
      blockAuditData, blockBalances := st.ledger.blockAuditData, st.ledger.blockBalances;
      safeTxs, deposits, withdrawals := st.gnosis.safeTxs, st.gnosis.deposits, st.gnosis.withdrawals;
      auditedMints, auditedBurns := st.mintAudit.auditedMints, st.burnAudit.auditedBurns;
    }

    /* Mint configs */

    /** Inserts the config tx, then its configs one by one. */
    method InsertMintConfigTx(blockIndex: nat, tx: CoreMintConfigTx) returns (r: Result<nat, Error>)
      modifies this
      ensures match LedgerSync.InsertMintConfigTx(old(LedgerTables()), blockIndex, tx)
              case Err(error) => r == Err(error) && Current() == old(Current())
              case Ok(l) => r == Ok(old(|mintConfigTxs|)) && Current() == old(Current()).(ledger := l)
      ensures r.Ok? ==>
                && mintConfigTxs == old(mintConfigTxs) +
                     [MintConfigTx(blockIndex, tx.tokenId, Hex.Encode(tx.nonce), tx.totalMintLimit)]
                && |mintConfigs| == old(|mintConfigs|) + |tx.configs|
                && mintConfigs[..old(|mintConfigs|)] == old(mintConfigs)
                && forall k :: 0 <= k < |tx.configs| ==>
                     mintConfigs[old(|mintConfigs|) + k]
                     == MintConfig(old(|mintConfigTxs|), tx.configs[k].mintLimit, tx.configs[k].signerSet)
    {
      var row := MintConfigTx(blockIndex, tx.tokenId, Hex.Encode(tx.nonce), tx.totalMintLimit);
      if ConfigTxConflict(mintConfigTxs, row) {
        return Err(AlreadyExists);
      }
      var id := |mintConfigTxs|;
      ghost var before := Current();
      mintConfigTxs := mintConfigTxs + [row];
      var i := 0;
      while i < |tx.configs|
        invariant 0 <= i <= |tx.configs|
        invariant Current() == before.(ledger := before.ledger.(
                    mintConfigTxs := before.ledger.mintConfigTxs + [row],
                    mintConfigs := before.ledger.mintConfigs + ConfigRows(id, tx.configs[..i])))
      {
        mintConfigs := mintConfigs + [MintConfig(id, tx.configs[i].mintLimit, tx.configs[i].signerSet)];
        assert ConfigRows(id, tx.configs[..i + 1]) ==
               ConfigRows(id, tx.configs[..i]) + [MintConfig(id, tx.configs[i].mintLimit, tx.configs[i].signerSet)];
        i := i + 1;
      }
      assert tx.configs[..i] == tx.configs;
      r := Ok(id);
    }

    /** Searches the configs of the governing config tx for the first one that signed the mint and has room. */
    method LookupMintConfig(blockIndex: nat, tx: CoreMintTx) returns (r: Option<nat>)
      ensures r == MintConfigLookup.LookupMintConfig(o, LedgerTables(), blockIndex, tx)
    {
      var l := LedgerTables();
      var governing := GoverningTx(l, blockIndex, tx);
      if governing.None? {
        return None;
      }
      var ids := ConfigsOf(mintConfigs, governing.value);
      var i := 0;
      while i < |ids|
        invariant 0 <= i <= |ids|
        invariant FirstAccepting(o, l, ids, blockIndex, tx) == FirstAccepting(o, l, ids[i..], blockIndex, tx)
      {
        if Accepts(o, l, ids[i], blockIndex, tx) {
          return Some(ids[i]);
        }
        assert ids[i..][1..] == ids[i + 1..];
        i := i + 1;
      }
      r := None;
    }

    /* Blocks */

    method InsertMintConfigTxs(blockIndex: nat, txs: seq<CoreMintConfigTx>) returns (r: Result<(), Error>)
      modifies this
      ensures match LedgerSync.InsertMintConfigTxs(old(LedgerTables()), blockIndex, txs)
              case Err(error) => r == Err(error)
              case Ok(l) => r.Ok? && Current() == old(Current()).(ledger := l)
    {
      var i := 0;
      while i < |txs|
        invariant 0 <= i <= |txs|
        invariant LedgerSync.InsertMintConfigTxs(LedgerTables(), blockIndex, txs[i..])
                  == LedgerSync.InsertMintConfigTxs(old(LedgerTables()), blockIndex, txs)
        invariant Current() == old(Current()).(ledger := LedgerTables())
      {
        var inserted := InsertMintConfigTx(blockIndex, txs[i]);
        if inserted.Err? {
          return Err(inserted.error);
        }
        assert txs[i..][1..] == txs[i + 1..];
        i := i + 1;
      }
      r := Ok(());
    }

    /** Balance accounting, config lookup and storage of one mint. */
    method ProcessMint(blockIndex: nat, tx: CoreMintTx, balances: map<U64, U64>)
      returns (r: Result<map<U64, U64>, Error>)
      modifies this
      ensures match LedgerSync.ProcessMint(o, Progress(old(LedgerTables()), balances), blockIndex, tx)
              case Err(error) => r == Err(error)
              case Ok(p) => r == Ok(p.balances) && Current() == old(Current()).(ledger := p.ledger)
    {
      var configId := LookupMintConfig(blockIndex, tx);
      if configId.None? {
        counters := counters.(numMintTxsWithoutMatchingMintConfig := counters.numMintTxsWithoutMatchingMintConfig + 1);
      }
      var row := MintTx(blockIndex, tx, Hex.Encode(tx.nonce), configId);
      if NonceTaken(mintTxs, row.nonceHex) {
        return Err(AlreadyExists);
      }
      mintTxs := mintTxs + [row];
      r := Ok(balances[tx.tokenId := WrappingAdd(Get(balances, tx.tokenId), tx.amount)]);
    }

    /** The mints of a block; after an error the caller rolls back. */
    method ProcessMints(blockIndex: nat, txs: seq<CoreMintTx>, balances: map<U64, U64>)
      returns (r: Result<map<U64, U64>, Error>)
      modifies this
      ensures match LedgerSync.ProcessMints(o, Progress(old(LedgerTables()), balances), blockIndex, txs)
              case Err(error) => r == Err(error)
              case Ok(p) => r == Ok(p.balances) && Current() == old(Current()).(ledger := p.ledger)
    {
      var balanceMap: map<U64, U64> := balances;
      var i := 0;
      while i < |txs|
        invariant 0 <= i <= |txs|
        invariant LedgerSync.ProcessMints(o, Progress(LedgerTables(), balanceMap), blockIndex, txs[i..])
                  == LedgerSync.ProcessMints(o, Progress(old(LedgerTables()), balances), blockIndex, txs)
        invariant Current() == old(Current()).(ledger := LedgerTables())
      {
        var processed := ProcessMint(blockIndex, txs[i], balanceMap);
        if processed.Err? {
          return Err(processed.error);
        }
        balanceMap := processed.value;
        assert txs[i..][1..] == txs[i + 1..];
        i := i + 1;
      }
      r := Ok(balanceMap);
    }

    /** Clamped balance accounting and storage of one burn. */
    method ProcessBurn(burn: BurnTxOut, balances: map<U64, U64>) returns (r: Result<map<U64, U64>, Error>)
      modifies this
      ensures match LedgerSync.ProcessBurn(Progress(old(LedgerTables()), balances), burn)
              case Err(error) => r == Err(error)
              case Ok(p) => r == Ok(p.balances) && Current() == old(Current()).(ledger := p.ledger)
    {
      var balance := Get(balances, burn.tokenId);
      var left: U64 := 0;
      if burn.amount > balance {
        counters := counters.(numBurnsExceedingBalance := counters.numBurnsExceedingBalance + 1);
      } else {
        left := balance - burn.amount;
      }
      if KeyTaken(burnTxOuts, burn.publicKeyHex) {
        return Err(AlreadyExists);
      }
      burnTxOuts := burnTxOuts + [burn];
      r := Ok(balances[burn.tokenId := left]);
    }

    /** The burns of a block; after an error the caller rolls back. */
    method ProcessBurns(burns: seq<BurnTxOut>, balances: map<U64, U64>) returns (r: Result<map<U64, U64>, Error>)
      modifies this
      ensures match LedgerSync.ProcessBurns(Progress(old(LedgerTables()), balances), burns)
              case Err(error) => r == Err(error)
              case Ok(p) => r == Ok(p.balances) && Current() == old(Current()).(ledger := p.ledger)
    {
      var balanceMap: map<U64, U64> := balances;
      var i := 0;
      while i < |burns|
        invariant 0 <= i <= |burns|
        invariant LedgerSync.ProcessBurns(Progress(LedgerTables(), balanceMap), burns[i..])
                  == LedgerSync.ProcessBurns(Progress(old(LedgerTables()), balances), burns)
        invariant Current() == old(Current()).(ledger := LedgerTables())
      {
        var processed := ProcessBurn(burns[i], balanceMap);
        if processed.Err? {
          return Err(processed.error);
        }
        balanceMap := processed.value;
        assert burns[i..][1..] == burns[i + 1..];
        i := i + 1;
      }
      r := Ok(balanceMap);
    }

    /** Inserts one row per token, in no particular order; after an error the caller rolls back. */
    method SetBalancesForBlock(blockIndex: nat, balances: map<U64, U64>) returns (r: Result<(), Error>)
      modifies this
      ensures match LedgerSync.SetBalancesForBlock(old(LedgerTables()), blockIndex, balances)
              case Err(error) => r == Err(error)
              case Ok(l) => r.Ok? && Current() == old(Current()).(ledger := l)
    {
      var remaining := balances.Keys;
      while remaining != {}
        invariant remaining <= balances.Keys
        invariant Current() == old(Current()).(ledger := old(LedgerTables()).(blockBalances := blockBalances))
        invariant blockBalances == old(blockBalances) + WrittenRows(blockIndex, balances, remaining)
        invariant remaining != balances.Keys ==> blockIndex in blockAuditData
        invariant NoneTaken(old(blockBalances), blockIndex, balances, remaining)
        decreases remaining
      {
        var t :| t in remaining;
        if blockIndex !in blockAuditData {
          assert t in balances;
          return Err(ForeignKeyViolation);
        }
        if (blockIndex, t) in blockBalances {
          assert (blockIndex, t) in old(blockBalances);
          return Err(AlreadyExists);
        }
        WrittenOneMore(old(blockBalances), blockIndex, balances, remaining, t);
        blockBalances := blockBalances[(blockIndex, t) := AsI64(balances[t])];
        remaining := remaining - {t};
      }
      AllWritten(blockIndex, balances);
      r := Ok(());
    }

    /** The contents of a block: mint configs, then mints, then burns; after an error the caller rolls back. */
    method ProcessContents(block: Block) returns (r: Result<map<U64, U64>, Error>)
      modifies this
      ensures match LedgerInvariant.Processed(o, old(LedgerTables()), block)
              case Err(error) => r == Err(error)
              case Ok(p) => r == Ok(p.balances) && Current() == old(Current()).(ledger := p.ledger)
    {
      var configured := InsertMintConfigTxs(block.index, block.mintConfigTxs);
      if configured.Err? {
        return Err(configured.error);
      }
      ghost var afterConfigs := LedgerTables();
      var previous: map<U64, U64> :=
        if block.index == 0 then map[] else BalancesForBlock(blockBalances, block.index - 1);
      assert previous == PreviousBalances(afterConfigs, block.index);
      var minted := ProcessMints(block.index, block.mintTxs, previous);
      if minted.Err? {
        return Err(minted.error);
      }
      r := ProcessBurns(BurnsIn(o, block.index, block.outputs), minted.value);
    }

    /** Counts and records the block, then its balances; after an error the caller rolls back. */
    method FinishBlock(blockIndex: nat, balances: map<U64, U64>) returns (r: Result<(), Error>)
      modifies this
      ensures match LedgerSync.FinishBlock(Progress(old(LedgerTables()), balances), blockIndex)
              case Err(error) => r == Err(error)
              case Ok(p) => r.Ok? && Current() == old(Current()).(ledger := p.ledger)
    {
      counters := counters.(numBlocksSynced := counters.numBlocksSynced + 1);
      blockAuditData := ReplaceBlock(blockAuditData, blockIndex);
      r := SetBalancesForBlock(blockIndex, balances);
    }

    /** Syncs one block inside a savepoint. */
    method SyncBlock(block: Block) returns (r: Result<SyncBlockData, Error>)
      modifies this
      ensures match LedgerSync.SyncBlock(o, old(LedgerTables()), block)
              case Err(error) => r == Err(error) && Current() == old(Current())
              case Ok(p) =>
                && r == Ok(SyncBlockData(block.index, p.balances, old(|mintTxs|), old(|burnTxOuts|)))
                && Current() == old(Current()).(ledger := p.ledger)
    {
      var savepoint := Current();
      if block.index != counters.numBlocksSynced {
        return Err(UnexpectedBlockIndex);
      }
      LedgerAcceptance.SyncBlockUnfolds(o, savepoint.ledger, block);
      var processed := ProcessContents(block);
      if processed.Err? {
        RollBack(savepoint);
        return Err(processed.error);
      }
      var finished := FinishBlock(block.index, processed.value);
      if finished.Err? {
        RollBack(savepoint);
        return Err(finished.error);
      }
      r := Ok(SyncBlockData(block.index, processed.value, |savepoint.ledger.mintTxs|, |savepoint.ledger.burnTxOuts|));
    }

    /* Matching mints and deposits */

    method AssociateDepositWithMint(depositId: nat, mintTxId: nat) returns (r: Result<(), Error>)
      modifies this`auditedMints
      ensures match MintMatching.Associate(mintTxs, deposits, old(auditedMints), depositId, mintTxId)
              case Err(error) => r == Err(error) && auditedMints == old(auditedMints)
              case Ok(rows) => r.Ok? && auditedMints == rows
    {
      if mintTxId >= |mintTxs| || depositId >= |deposits| {
        return Err(ForeignKeyViolation);
      }
      auditedMints := auditedMints + [AuditedMint(mintTxId, depositId)];
      r := Ok(());
    }

    /** The savepoint of a deposit-side attempt; the counter it raises for a repeated attempt is rolled back with it. */
    method MatchDepositInSavepoint(id: nat, d: Deposit, safe: AuditedSafe) returns (r: Result<nat, Error>)
      modifies this
      ensures Current() ==
                if r.Ok? then old(Current()).(mintAudit := old(MintAuditTables()).(auditedMints := auditedMints))
                else old(Current())
      ensures SameAddr(d.safeAddr, safe.safeAddr) ==>
                match MintMatching.MatchDeposit(old(mintTxs), old(deposits), old(auditedMints), Some(id), d, safe)
                case Err(error) => r == Err(error)
                case Ok(matched) => r == Ok(matched.other) && auditedMints == matched.rows
    {
      var savepoint := Current();
      if MintMatching.DepositIsAudited(auditedMints, id) {
        counters := counters.(
          numUnexpectedErrorsMatchingDepositsToMints := counters.numUnexpectedErrorsMatchingDepositsToMints + 1);
        RollBack(savepoint);
        return Err(AlreadyExists);
      }
      var found := MintMatching.FindUnauditedMint(mintTxs, auditedMints, d.expectedNonceHex);
      if found.None? {
        return Err(NotFound);
      }
      var wrong := MintMatching.VerifyMint(mintTxs[found.value], d, safe);
      if wrong.Some? {
        return Err(wrong.value);
      }
      var associated := AssociateDepositWithMint(id, found.value);
      if associated.Err? {
        return Err(associated.error);
      }
      r := Ok(found.value);
    }

    /** Counts a failed attempt of a deposit. */
    method CountDepositError(error: Error)
      modifies this`counters
      ensures Current() == old(Current()).(mintAudit := MintMatching.CountDepositError(old(MintAuditTables()), error))
    {
      if error == Mismatch {
        counters := counters.(numMismatchingMintsAndDeposits := counters.numMismatchingMintsAndDeposits + 1);
      } else if error == EthereumTokenNotAudited {
        counters := counters.(numUnknownEthereumTokenDeposits := counters.numUnknownEthereumTokenDeposits + 1);
      } else {
        counters := counters.(
          numUnexpectedErrorsMatchingDepositsToMints := counters.numUnexpectedErrorsMatchingDepositsToMints + 1);
      }
    }

    /** Looks for the mint of a deposit and records the match, or counts the failure outside the savepoint. */
    method TryMatchDepositWithMint(id: Option<nat>, d: Deposit, safe: AuditedSafe) returns (r: Result<nat, Error>)
      modifies this
      ensures match MintMatching.MatchDeposit(old(mintTxs), old(deposits), old(auditedMints), id, d, safe)
              case Err(error) => r == Err(error)
              case Ok(matched) => r == Ok(matched.other)
      ensures Current() == old(Current()).(mintAudit :=
                MintMatching.TryMatchDeposit(old(mintTxs), old(deposits), old(MintAuditTables()), id, d, safe))
      ensures r.Ok? ==> MintMatching.OneRowAdded(old(MintAuditTables()), MintAuditTables())
      ensures r.Err? ==> MintMatching.OneCounterRaised(old(MintAuditTables()), MintAuditTables())
    {
      if id.None? {
        r := Err(ObjectNotSaved);
      } else if !SameAddr(d.safeAddr, safe.safeAddr) {
        r := Err(Other);
      } else {
        r := MatchDepositInSavepoint(id.value, d, safe);
      }
      if r.Err? {
        CountDepositError(r.error);
      }
    }

    /** The savepoint of a mint-side attempt. */
    method MatchMintInSavepoint(id: nat, m: MintTx) returns (r: Result<nat, Error>)
      modifies this`auditedMints
      ensures r.Err? ==> auditedMints == old(auditedMints)
      ensures match MintMatching.MatchMint(mintTxs, deposits, old(auditedMints), Some(id), m, config)
              case Err(error) => r == Err(error)
              case Ok(matched) => r == Ok(matched.other) && auditedMints == matched.rows
    {
      if MintMatching.MintIsAudited(auditedMints, id) {
        return Err(AlreadyExists);
      }
      var found := MintMatching.FindUnauditedDeposit(deposits, auditedMints, m.nonceHex);
      if found.None? {
        return Err(NotFound);
      }
      var safe := FindSafe(config.safes, deposits[found.value].safeAddr);
      if safe.None? {
        return Err(GnosisSafeNotAudited);
      }
      var wrong := MintMatching.VerifyMint(m, deposits[found.value], safe.value);
      if wrong.Some? {
        return Err(wrong.value);
      }
      var associated := AssociateDepositWithMint(found.value, id);
      if associated.Err? {
        return Err(associated.error);
      }
      r := Ok(found.value);
    }

    /** Counts a failed attempt of a mint. */
    method CountMintError(error: Error)
      modifies this`counters
      ensures Current() == old(Current()).(mintAudit := MintMatching.CountMintError(old(MintAuditTables()), error))
    {
      if error == GnosisSafeNotAudited {
        counters := counters.(numMintsToUnknownSafe := counters.numMintsToUnknownSafe + 1);
      } else if error == Mismatch {
        counters := counters.(numMismatchingMintsAndDeposits := counters.numMismatchingMintsAndDeposits + 1);
      } else if error == EthereumTokenNotAudited {
        counters := counters.(numUnknownEthereumTokenDeposits := counters.numUnknownEthereumTokenDeposits + 1);
      } else {
        counters := counters.(
          numUnexpectedErrorsMatchingMintsToDeposits := counters.numUnexpectedErrorsMatchingMintsToDeposits + 1);
      }
    }

    /** Looks for the deposit of a mint and records the match, or counts the failure outside the savepoint. */
    method TryMatchMintWithDeposit(id: Option<nat>, m: MintTx) returns (r: Result<nat, Error>)
      modifies this
      ensures match MintMatching.MatchMint(old(mintTxs), old(deposits), old(auditedMints), id, m, config)
              case Err(error) => r == Err(error)
              case Ok(matched) => r == Ok(matched.other)
      ensures Current() == old(Current()).(mintAudit :=
                MintMatching.TryMatchMint(old(mintTxs), old(deposits), old(MintAuditTables()), id, m, config))
      ensures r.Ok? ==> MintMatching.OneRowAdded(old(MintAuditTables()), MintAuditTables())
      ensures r.Err? ==> MintMatching.OneCounterRaised(old(MintAuditTables()), MintAuditTables())
    {
      if id.None? {
        r := Err(ObjectNotSaved);
      } else {
        r := MatchMintInSavepoint(id.value, m);
      }
      if r.Err? {
        CountMintError(r.error);
      }
    }

    /* Matching burns and withdrawals */

    method AssociateWithdrawalWithBurn(withdrawalId: nat, burnTxOutId: nat) returns (r: Result<(), Error>)
      modifies this`auditedBurns
      ensures match BurnMatching.Associate(burnTxOuts, withdrawals, old(auditedBurns), withdrawalId, burnTxOutId)
              case Err(error) => r == Err(error) && auditedBurns == old(auditedBurns)
              case Ok(rows) => r.Ok? && auditedBurns == rows
    {
      if burnTxOutId >= |burnTxOuts| || withdrawalId >= |withdrawals| {
        return Err(ForeignKeyViolation);
      }
      auditedBurns := auditedBurns + [AuditedBurn(burnTxOutId, withdrawalId)];
      r := Ok(());
    }

    /** The savepoint of a withdrawal-side attempt. */
    method MatchWithdrawalInSavepoint(id: nat, w: Withdrawal, safe: AuditedSafe) returns (r: Result<nat, Error>)
      requires SameAddr(w.safeAddr, safe.safeAddr)
      modifies this`auditedBurns
      ensures r.Err? ==> auditedBurns == old(auditedBurns)
      ensures match BurnMatching.MatchWithdrawal(burnTxOuts, withdrawals, old(auditedBurns), Some(id), w, safe)
              case Err(error) => r == Err(error)
              case Ok(matched) => r == Ok(matched.other) && auditedBurns == matched.rows
    {
      if BurnMatching.WithdrawalIsAudited(auditedBurns, id) {
        return Err(AlreadyExists);
      }
      var found := BurnMatching.FindUnauditedBurn(burnTxOuts, auditedBurns, w.publicKeyHex);
      if found.None? {
        return Err(NotFound);
      }
      var wrong := BurnMatching.VerifyBurn(burnTxOuts[found.value], w, safe);
      if wrong.Some? {
        return Err(wrong.value);
      }
      var associated := AssociateWithdrawalWithBurn(id, found.value);
      if associated.Err? {
        return Err(associated.error);
      }
      r := Ok(found.value);
    }

    /** Counts a failed attempt of a withdrawal. */
    method CountWithdrawalError(error: Error)
      modifies this`counters
      ensures Current() ==
                old(Current()).(burnAudit := BurnMatching.CountWithdrawalError(old(BurnAuditTables()), error))
    {
      if error == Mismatch {
        counters := counters.(numMismatchingBurnsAndWithdrawals := counters.numMismatchingBurnsAndWithdrawals + 1);
      } else if error == EthereumTokenNotAudited {
        counters := counters.(numUnknownEthereumTokenWithdrawals := counters.numUnknownEthereumTokenWithdrawals + 1);
      } else {
        counters := counters.(
          numUnexpectedErrorsMatchingWithdrawalsToBurns := counters.numUnexpectedErrorsMatchingWithdrawalsToBurns + 1);
      }
    }

    /** Looks for the burn of a withdrawal and records the match, or counts the failure outside the savepoint. */
    method TryMatchWithdrawalWithBurn(id: Option<nat>, w: Withdrawal, safe: AuditedSafe) returns (r: Result<nat, Error>)
      modifies this
      ensures match BurnMatching.MatchWithdrawal(old(burnTxOuts), old(withdrawals), old(auditedBurns), id, w, safe)
              case Err(error) => r == Err(error)
              case Ok(matched) => r == Ok(matched.other)
      ensures Current() == old(Current()).(burnAudit :=
                BurnMatching.TryMatchWithdrawal(old(burnTxOuts), old(withdrawals), old(BurnAuditTables()), id, w, safe))
      ensures r.Ok? ==> BurnMatching.OneRowAdded(old(BurnAuditTables()), BurnAuditTables())
      ensures r.Err? ==> BurnMatching.OneCounterRaised(old(BurnAuditTables()), BurnAuditTables())
    {
      if id.None? {
        r := Err(ObjectNotSaved);
      } else if !SameAddr(w.safeAddr, safe.safeAddr) {
        r := Err(Other);
      } else {
        r := MatchWithdrawalInSavepoint(id.value, w, safe);
      }
      if r.Err? {
        CountWithdrawalError(r.error);
      }
    }

    /** The savepoint of a burn-side attempt. */
    method MatchBurnInSavepoint(id: nat, b: BurnTxOut) returns (r: Result<nat, Error>)
      modifies this`auditedBurns
      ensures r.Err? ==> auditedBurns == old(auditedBurns)
      ensures match BurnMatching.MatchBurn(o, burnTxOuts, withdrawals, old(auditedBurns), Some(id), b, config)
              case Err(error) => r == Err(error)
              case Ok(matched) => r == Ok(matched.other) && auditedBurns == matched.rows
    {
      if BurnMatching.BurnIsAudited(auditedBurns, id) {
        return Err(AlreadyExists);
      }
      var found := BurnMatching.FindUnauditedWithdrawal(o, withdrawals, auditedBurns, b.publicKeyHex);
      if found.None? {
        return Err(NotFound);
      }
      var safe := FindSafe(config.safes, withdrawals[found.value].safeAddr);
      if safe.None? {
        return Err(GnosisSafeNotAudited);
      }
      var wrong := BurnMatching.VerifyBurn(b, withdrawals[found.value], safe.value);
      if wrong.Some? {
        return Err(wrong.value);
      }
      var associated := AssociateWithdrawalWithBurn(found.value, id);
      if associated.Err? {
        return Err(associated.error);
      }
      r := Ok(found.value);
    }

    /** Counts a failed attempt of a burn. */
    method CountBurnError(error: Error)
      modifies this`counters
      ensures Current() == old(Current()).(burnAudit := BurnMatching.CountBurnError(old(BurnAuditTables()), error))
    {
      if error == GnosisSafeNotAudited {
        counters := counters.(numBurnsFromUnknownSafe := counters.numBurnsFromUnknownSafe + 1);
      } else if error == Mismatch {
        counters := counters.(numMismatchingBurnsAndWithdrawals := counters.numMismatchingBurnsAndWithdrawals + 1);
      } else if error == EthereumTokenNotAudited {
        counters := counters.(numUnknownEthereumTokenWithdrawals := counters.numUnknownEthereumTokenWithdrawals + 1);
      } else {
        counters := counters.(
          numUnexpectedErrorsMatchingBurnsToWithdrawals := counters.numUnexpectedErrorsMatchingBurnsToWithdrawals + 1);
      }
    }

    /** Looks for the withdrawal of a burn and records the match, or counts the failure outside the savepoint. */
    method TryMatchBurnWithWithdrawal(id: Option<nat>, b: BurnTxOut) returns (r: Result<nat, Error>)
      modifies this
      ensures match BurnMatching.MatchBurn(o, old(burnTxOuts), old(withdrawals), old(auditedBurns), id, b, config)
              case Err(error) => r == Err(error)
              case Ok(matched) => r == Ok(matched.other)
      ensures Current() == old(Current()).(burnAudit :=
                BurnMatching.TryMatchBurn(o, old(burnTxOuts), old(withdrawals), old(BurnAuditTables()), id, b, config))
      ensures r.Ok? ==> BurnMatching.OneRowAdded(old(BurnAuditTables()), BurnAuditTables())
      ensures r.Err? ==> BurnMatching.OneCounterRaised(old(BurnAuditTables()), BurnAuditTables())
    {
      if id.None? {
        r := Err(ObjectNotSaved);
      } else {
        r := MatchBurnInSavepoint(id.value, b);
      }
      if r.Err? {
        CountBurnError(r.error);
      }
    }

    /* The ledger thread */

    method AuditMintsOfBlock(firstMint: nat)
      modifies this
      ensures Current() == old(Current()).(mintAudit :=
                MintMatching.AuditMints(old(mintTxs), old(deposits), old(MintAuditTables()), config, firstMint))
    {
      var i := firstMint;
      while i < |mintTxs|
        invariant mintTxs == old(mintTxs) && deposits == old(deposits)
        invariant Current() == old(Current()).(mintAudit := MintAuditTables())
        invariant MintMatching.AuditMints(mintTxs, deposits, MintAuditTables(), config, i)
                  == MintMatching.AuditMints(old(mintTxs), old(deposits), old(MintAuditTables()), config, firstMint)
      {
        ghost var before := MintAuditTables();
        var _ := TryMatchMintWithDeposit(Some(i), mintTxs[i]);
        assert MintAuditTables() == MintMatching.TryMatchMint(mintTxs, deposits, before, Some(i), mintTxs[i], config);
        i := i + 1;
      }
    }

    method AuditBurnsOfBlock(firstBurn: nat)
      modifies this
      ensures Current() == old(Current()).(burnAudit :=
                BurnMatching.AuditBurns(
                  o, old(burnTxOuts), old(withdrawals), old(BurnAuditTables()), config, firstBurn))
    {
      var i := firstBurn;
      while i < |burnTxOuts|
        invariant burnTxOuts == old(burnTxOuts) && withdrawals == old(withdrawals)
        invariant Current() == old(Current()).(burnAudit := BurnAuditTables())
        invariant BurnMatching.AuditBurns(o, burnTxOuts, withdrawals, BurnAuditTables(), config, i)
                  == BurnMatching.AuditBurns(
                       o, old(burnTxOuts), old(withdrawals), old(BurnAuditTables()), config, firstBurn)
      {
        ghost var before := BurnAuditTables();
        var _ := TryMatchBurnWithWithdrawal(Some(i), burnTxOuts[i]);
        assert BurnAuditTables() ==
               BurnMatching.TryMatchBurn(o, burnTxOuts, withdrawals, before, Some(i), burnTxOuts[i], config);
        i := i + 1;
      }
    }

    /** Gnosis auditing of the data found in a block. */
    method AuditBlockData(data: SyncBlockData)
      modifies this
      ensures Current() == Runs.AuditBlock(o, config, old(Current()), data.firstMint, data.firstBurn)
    {
      AuditMintsOfBlock(data.firstMint);
      AuditBurnsOfBlock(data.firstBurn);
    }

    /** Syncs and audits one block in one exclusive transaction. */
    method SyncAndAuditBlock(block: Block) returns (r: Result<(), Error>)
      requires Valid()
      modifies this
      ensures Valid() && history == old(history) + [LedgerBlock(block)]
      ensures match LedgerStep(o, config, old(Current()), block)
              case Err(error) => r == Err(error) && Current() == old(Current())
              case Ok(next) => r.Ok? && Current() == next
      ensures r.Ok? ==> exists positions: seq<nat> ::
                LedgerContents.RecordsBlock(o, old(LedgerTables()), LedgerTables(), block, positions)
    {
      ghost var offered := history + [LedgerBlock(block)];
      assert offered[..|offered| - 1] == history;
      if LedgerStep(o, config, Current(), block).Ok? {
        LedgerTheorems.CommittedBlockIsRecorded(o, config, history, block);
      }
      var synced := SyncBlock(block);
      if synced.Err? {
        r := Err(synced.error);
      } else {
        AuditBlockData(synced.value);
        r := Ok(());
      }
      history := offered;
    }

    /** The number of blocks synced so far, by the largest stored index. */
    method NumBlocksStored() returns (n: nat)
      requires Valid()
      ensures n == counters.numBlocksSynced
    {
      var last := LastSyncedBlockIndex(blockAuditData);
      RunLedgerOk(o, config, history);
      LedgerTheorems.LastOfChain(blockAuditData);
      n := if last.None? then 0 else last.value + 1;
    }

    /** One turn of the loop: the next block, if it is acceptable. */
    method SyncNextBlock(block: Block) returns (r: Result<(), Error>)
      requires Valid()
      modifies this
      ensures Valid() && history == old(history) + [LedgerBlock(block)]
      ensures match LedgerStep(o, config, old(Current()), block)
              case Err(error) => r == Err(error) && Current() == old(Current())
              case Ok(next) =>
                r.Ok? && Current() == next && counters.numBlocksSynced == old(counters.numBlocksSynced) + 1
      ensures block.index == old(counters.numBlocksSynced) ==> r != Err(UnexpectedBlockIndex)
    {
      LedgerTheorems.NextBlockCounts(o, config, history, block);
      r := SyncAndAuditBlock(block);
    }

    /**
      * Syncs and audits blocks until the database has caught up with the ledger. It terminates on every ledger,
      * and on a ledger whose blocks carry their own positions it never asks for the wrong block.
      */
    method SyncLoop(ledger: seq<Block>) returns (r: Result<(), Error>)
      requires Valid()
      modifies this
      ensures Valid()
      ensures (Current(), r)
              == CatchUp(o, config, old(Current()), Runs.NotSynced(ledger, old(counters.numBlocksSynced)))
      ensures r.Ok? ==> counters.numBlocksSynced >= |ledger|
      ensures (forall i :: 0 <= i < |ledger| ==> ledger[i].index == i) ==> r != Err(UnexpectedBlockIndex)
    {
      ghost var goal := CatchUp(o, config, Current(), Runs.NotSynced(ledger, counters.numBlocksSynced));
      while true
        invariant Valid()
        invariant CatchUp(o, config, Current(), Runs.NotSynced(ledger, counters.numBlocksSynced)) == goal
        decreases |ledger| - counters.numBlocksSynced
      {
        var numSynced := NumBlocksStored();
        if numSynced >= |ledger| {
          Runs.CaughtUp(o, config, Current(), ledger, numSynced);
          return Ok(());
        }
        Runs.CatchUpUnfolds(o, config, Current(), ledger, numSynced);
        ghost var before := Current();
        var synced := SyncNextBlock(ledger[numSynced]);
        if synced.Err? {
          assert goal == (before, synced) && Current() == before;
          return synced;
        }
        assert LedgerStep(o, config, before, ledger[numSynced]) == Ok(Current());
      }
    }

    /* The thread of one safe */

    method InsertDeposit(d: Deposit) returns (r: Result<nat, Error>)
      modifies this`deposits
      ensures match GnosisIngest.InsertDeposit(old(GnosisTables()), d)
              case Err(error) => r == Err(error) && Current() == old(Current())
              case Ok(g) => r == Ok(old(|deposits|)) && Current() == old(Current()).(gnosis := g)
    {
      if DepositTaken(deposits, d.ethTxHash) {
        return Err(AlreadyExists);
      }
      if d.ethTxHash !in safeTxs {
        return Err(ForeignKeyViolation);
      }
      r := Ok(|deposits|);
      deposits := deposits + [d];
    }

    method InsertWithdrawal(w: Withdrawal) returns (r: Result<nat, Error>)
      modifies this`withdrawals
      ensures match GnosisIngest.InsertWithdrawal(old(GnosisTables()), w)
              case Err(error) => r == Err(error) && Current() == old(Current())
              case Ok(g) => r == Ok(old(|withdrawals|)) && Current() == old(Current()).(gnosis := g)
    {
      if WithdrawalTaken(withdrawals, w.ethTxHash) {
        return Err(AlreadyExists);
      }
      if w.ethTxHash !in safeTxs {
        return Err(ForeignKeyViolation);
      }
      r := Ok(|withdrawals|);
      withdrawals := withdrawals + [w];
    }

    method StoreDeposit(safe: AuditedSafe, d: Deposit) returns (r: Result<(), Error>)
      modifies this
      ensures match GnosisIngest.StoreDeposit(old(Current()), safe, d)
              case Err(error) => r == Err(error)
              case Ok(next) => r.Ok? && Current() == next
    {
      var inserted := InsertDeposit(d);
      if inserted.Err? {
        return Err(inserted.error);
      }
      var _ := TryMatchDepositWithMint(Some(inserted.value), d, safe);
      r := Ok(());
    }

    method StoreWithdrawal(safe: AuditedSafe, w: Withdrawal) returns (r: Result<(), Error>)
      modifies this
      ensures match GnosisIngest.StoreWithdrawal(old(Current()), safe, w)
              case Err(error) => r == Err(error)
              case Ok(next) => r.Ok? && Current() == next
    {
      var inserted := InsertWithdrawal(w);
      if inserted.Err? {
        return Err(inserted.error);
      }
      var _ := TryMatchWithdrawalWithBurn(Some(inserted.value), w, safe);
      r := Ok(());
    }

    /** Stores and matches the deposits among the transfers; after an error the caller rolls back. */
    method ProcessEthTransaction(safe: AuditedSafe, tx: EthereumTransaction) returns (r: Result<(), Error>)
      modifies this
      ensures match ProcessTransfers(old(Current()), safe, tx.transfers)
              case Err(error) => r == Err(error)
              case Ok(next) => r.Ok? && Current() == next
    {
      var i := 0;
      while i < |tx.transfers|
        invariant 0 <= i <= |tx.transfers|
        invariant ProcessTransfers(Current(), safe, tx.transfers[i..])
                  == ProcessTransfers(old(Current()), safe, tx.transfers)
      {
        assert tx.transfers[i..][0] == tx.transfers[i] && tx.transfers[i..][1..] == tx.transfers[i + 1..];
        if SameAddr(tx.transfers[i].to, safe.safeAddr) {
          var read := ReadTransfer(safe, tx.transfers[i]);
          if !read.Deposited? {
            counters := counters.(numInvalidEthereumTransactions := counters.numInvalidEthereumTransactions + 1);
            return if read.UnknownToken? then Ok(()) else Err(read.error);
          }
          var stored := StoreDeposit(safe, read.deposit);
          if stored.Err? {
            return stored;
          }
        }
        i := i + 1;
      }
      r := Ok(());
    }

    /** Stores and matches the withdrawal of a multi-sig batch, or counts that it is none. */
    method ProcessMultiSigTransaction(safe: AuditedSafe, tx: MultiSigTransaction) returns (r: Result<(), Error>)
      modifies this
      ensures match ProcessMultiSig(old(Current()), safe, tx)
              case Err(error) => r == Err(error)
              case Ok(next) => r.Ok? && Current() == next
    {
      if !SameAddr(tx.safe, safe.safeAddr) {
        return Ok(());
      }
      match WithdrawalParsing.ParseWithdrawal(safe, tx)
      case Panics => r := Err(Panic);
      case Invalid =>
        counters := counters.(numInvalidMultiSigTransactions := counters.numInvalidMultiSigTransactions + 1);
        r := Ok(());
      case Withdrawn(w) => r := StoreWithdrawal(safe, w);
    }

    /** One raw transaction in one exclusive transaction; nothing of a failed one remains. */
    method ProcessTransaction(safe: AuditedSafe, raw: RawGnosisTransaction) returns (r: Result<(), Error>)
      requires Valid() && safe in config.safes
      modifies this
      ensures Valid() && history == old(history) + [SafeTx(safe, raw)]
      ensures match ProcessTx(old(Current()), safe, raw)
              case Err(error) => r == Err(error) && Current() == old(Current())
              case Ok(next) => r.Ok? && Current() == next
    {
      ghost var offered := history + [SafeTx(safe, raw)];
      assert offered[..|offered| - 1] == history;
      r := ProcessExclusively(safe, raw);
      history := offered;
    }

    method ProcessExclusively(safe: AuditedSafe, raw: RawGnosisTransaction) returns (r: Result<(), Error>)
      modifies this
      ensures match ProcessTx(old(Current()), safe, raw)
              case Err(error) => r == Err(error) && Current() == old(Current())
              case Ok(next) => r.Ok? && Current() == next
    {
      var before := Current();
      if raw.txHash.None? {
        return Err(BadTransaction);
      }
      if raw.txHash.value in safeTxs {
        return Ok(());
      }
      safeTxs := safeTxs + {raw.txHash.value};
      match raw.decoded {
        case None => r := Err(BadTransaction);
        case Some(Ethereum(eth)) => r := ProcessEthTransaction(safe, eth);
        case Some(MultiSig(multiSig)) => r := ProcessMultiSigTransaction(safe, multiSig);
        case Some(Module) => r := Ok(());
      }
      if r.Err? {
        RollBack(before);
      }
    }

    /** The transactions of one poll, in order, until one fails. */
    method ProcessTransactions(safe: AuditedSafe, txs: seq<RawGnosisTransaction>) returns (ok: bool)
      requires Valid() && safe in config.safes
      modifies this
      ensures Valid()
      ensures Polled(Current(), ok) == GnosisIngest.ProcessTransactions(old(Current()), safe, txs)
    {
      var i := 0;
      while i < |txs|
        invariant 0 <= i <= |txs|
        invariant Valid()
        invariant GnosisIngest.ProcessTransactions(Current(), safe, txs[i..])
                  == GnosisIngest.ProcessTransactions(old(Current()), safe, txs)
      {
        assert txs[i..][0] == txs[i] && txs[i..][1..] == txs[i + 1..];
        var processed := ProcessTransaction(safe, txs[i]);
        if processed.Err? {
          return false;
        }
        i := i + 1;
      }
      ok := true;
    }
  }

  /** The balance rows of the tokens that are no longer waiting. */
  function WrittenRows(blockIndex: nat, balances: map<U64, U64>, remaining: set<U64>): map<(nat, U64), I64> {
    map t: U64 | t in balances && t !in remaining :: (blockIndex, t) := AsI64(balances[t])
  }

  ghost predicate NoneTaken(rows: map<(nat, U64), I64>, blockIndex: nat, balances: map<U64, U64>, remaining: set<U64>) {
    forall t :: t in balances && t !in remaining ==> (blockIndex, t) !in rows
  }

  lemma WrittenOneMore(
    rows: map<(nat, U64), I64>, blockIndex: nat, balances: map<U64, U64>, remaining: set<U64>, t: U64)
    requires t in remaining && remaining <= balances.Keys
    ensures rows + WrittenRows(blockIndex, balances, remaining - {t})
            == (rows + WrittenRows(blockIndex, balances, remaining))[(blockIndex, t) := AsI64(balances[t])]
  {
  }

  lemma AllWritten(blockIndex: nat, balances: map<U64, U64>)
    ensures WrittenRows(blockIndex, balances, {}) == BalanceRows(blockIndex, balances)
  {
  }
}
