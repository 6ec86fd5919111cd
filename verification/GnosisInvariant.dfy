/** What every processed transaction keeps true of the Gnosis tables and of the audits. */
module GnosisInvariant {
  import opened Wrappers
  import opened EthDataTypes
  import opened SafeConfig
  import opened GnosisUtils
  import opened ApiDataTypes
  import opened Tables
  import opened WithdrawalParsing
  import opened GnosisIngest
  import opened LedgerInvariant
  import MI = MintAuditInvariant
  import BI = BurnAuditInvariant

  /** The stored amount is the scaled value of the transfer, by the configuration of its token. */
  ghost predicate ScaledOk(config: Config, d: Deposit) {
    match FindSafe(config.safes, d.safeAddr)
    case None => false
    case Some(safe) =>
      match FindToken(safe.tokens, d.tokenAddr)
      case None => false
      case Some(token) => TruncateValue(d.ethTxValue, token.decimals, safe.tokenDecimalsMax) == Some(d.amount)
  }

  ghost predicate AllScaled(config: Config, deposits: seq<Deposit>) {
    forall j :: 0 <= j < |deposits| ==> ScaledOk(config, deposits[j])
  }

  ghost predicate DistinctWithdrawals(withdrawals: seq<Withdrawal>) {
    forall i, j :: 0 <= i < j < |withdrawals| ==> withdrawals[i].ethTxHash != withdrawals[j].ethTxHash
  }

  /** Every stored transfer belongs to a transaction that was stored. */
  ghost predicate HashesKnown(g: Gnosis) {
    && (forall j :: 0 <= j < |g.deposits| ==> g.deposits[j].ethTxHash in g.safeTxs)
    && (forall j :: 0 <= j < |g.withdrawals| ==> g.withdrawals[j].ethTxHash in g.safeTxs)
  }

  ghost predicate GnosisOk(config: Config, g: Gnosis) {
    && MI.DepositsOk(config, g.deposits)
    && AllScaled(config, g.deposits)
    && BI.WithdrawalsOk(config, g.withdrawals)
    && DistinctWithdrawals(g.withdrawals)
    && HashesKnown(g)
  }

  ghost predicate AuditsOk(config: Config, st: State) {
    && MI.MintAuditOk(config, st.ledger.mintTxs, st.gnosis.deposits, st.mintAudit)
    && BI.BurnAuditOk(config, st.ledger.burnTxOuts, st.gnosis.withdrawals, st.burnAudit)
  }

  /** What the ledger side must have established for the Gnosis side to keep the audits right. */
  ghost predicate KeysOk(l: Ledger) {
    UniqueNonces(l.mintTxs) && UniqueKeys(l.burnTxOuts)
  }

  lemma ReadTransferOk(config: Config, safe: AuditedSafe, t: EthereumTransfer)
    requires DistinctSafes(config) && safe in config.safes && SameAddr(t.to, safe.safeAddr)
    requires ReadTransfer(safe, t).Deposited?
    ensures var d := ReadTransfer(safe, t).deposit;
            && MI.DepositOk(config, d) && ScaledOk(config, d)
            && FindSafe(config.safes, d.safeAddr) == Some(safe)
  {
    FindSafeOfThread(config, safe, t.to);
  }

  lemma StoreDepositKeeps(config: Config, st: State, safe: AuditedSafe, d: Deposit)
    requires KeysOk(st.ledger) && GnosisOk(config, st.gnosis) && AuditsOk(config, st)
    requires MI.DepositOk(config, d) && ScaledOk(config, d) && FindSafe(config.safes, d.safeAddr) == Some(safe)
    requires StoreDeposit(st, safe, d).Ok?
    ensures var next := StoreDeposit(st, safe, d).value;
            next.ledger == st.ledger && GnosisOk(config, next.gnosis) && AuditsOk(config, next)
  {
    DepositsAppend(config, st.gnosis.deposits, d);
    MI.AuditingDepositKeeps(config, st.ledger.mintTxs, st.gnosis.deposits, d, safe, st.mintAudit);
  }

  lemma DepositsAppend(config: Config, deposits: seq<Deposit>, d: Deposit)
    requires MI.DepositsOk(config, deposits) && AllScaled(config, deposits)
    requires MI.DepositOk(config, d) && ScaledOk(config, d) && !DepositTaken(deposits, d.ethTxHash)
    ensures MI.DepositsOk(config, deposits + [d]) && AllScaled(config, deposits + [d])
  {
  }

  lemma {:induction false} ProcessTransfersKeeps(
    config: Config, st: State, safe: AuditedSafe, transfers: seq<EthereumTransfer>)
    requires DistinctSafes(config) && safe in config.safes
    requires KeysOk(st.ledger) && GnosisOk(config, st.gnosis) && AuditsOk(config, st)
    requires ProcessTransfers(st, safe, transfers).Ok?
    ensures var next := ProcessTransfers(st, safe, transfers).value;
            next.ledger == st.ledger && GnosisOk(config, next.gnosis) && AuditsOk(config, next)
    decreases |transfers|
  {
    if transfers == [] {
    } else if !SameAddr(transfers[0].to, safe.safeAddr) {
      ProcessTransfersKeeps(config, st, safe, transfers[1..]);
    } else {
      match ReadTransfer(safe, transfers[0])
      case Deposited(d) =>
        ReadTransferOk(config, safe, transfers[0]);
        StoreDepositKeeps(config, st, safe, d);
        ProcessTransfersKeeps(config, StoreDeposit(st, safe, d).value, safe, transfers[1..]);
      case _ =>
    }
  }

  lemma WithdrawalsAppend(config: Config, withdrawals: seq<Withdrawal>, w: Withdrawal)
    requires BI.WithdrawalsOk(config, withdrawals) && DistinctWithdrawals(withdrawals)
    requires BI.WithdrawalOk(config, w) && !WithdrawalTaken(withdrawals, w.ethTxHash)
    ensures BI.WithdrawalsOk(config, withdrawals + [w]) && DistinctWithdrawals(withdrawals + [w])
  {
  }

  lemma StoreWithdrawalKeeps(config: Config, st: State, safe: AuditedSafe, w: Withdrawal)
    requires KeysOk(st.ledger) && GnosisOk(config, st.gnosis) && AuditsOk(config, st)
    requires BI.WithdrawalOk(config, w) && FindSafe(config.safes, w.safeAddr) == Some(safe)
    requires StoreWithdrawal(st, safe, w).Ok?
    ensures var next := StoreWithdrawal(st, safe, w).value;
            next.ledger == st.ledger && GnosisOk(config, next.gnosis) && AuditsOk(config, next)
  {
    WithdrawalsAppend(config, st.gnosis.withdrawals, w);
    BI.AuditingWithdrawalKeeps(config, st.ledger.burnTxOuts, st.gnosis.withdrawals, w, safe, st.burnAudit);
  }

  lemma ProcessMultiSigKeeps(config: Config, st: State, safe: AuditedSafe, tx: MultiSigTransaction)
    requires DistinctSafes(config) && safe in config.safes
    requires KeysOk(st.ledger) && GnosisOk(config, st.gnosis) && AuditsOk(config, st)
    requires ProcessMultiSig(st, safe, tx).Ok?
    ensures var next := ProcessMultiSig(st, safe, tx).value;
            next.ledger == st.ledger && GnosisOk(config, next.gnosis) && AuditsOk(config, next)
  {
    if SameAddr(tx.safe, safe.safeAddr) && ParseWithdrawal(safe, tx).Withdrawn? {
      ParsedWithdrawalIsAudited(safe, tx);
      FindSafeOfThread(config, safe, tx.safe);
      StoreWithdrawalKeeps(config, st, safe, ParseWithdrawal(safe, tx).withdrawal);
    }
  }

  /** Every committed Gnosis transaction keeps the tables and both audits right, and leaves the ledger alone. */
  lemma ProcessTxKeeps(config: Config, st: State, safe: AuditedSafe, raw: RawGnosisTransaction)
    requires DistinctSafes(config) && safe in config.safes
    requires KeysOk(st.ledger) && GnosisOk(config, st.gnosis) && AuditsOk(config, st)
    requires ProcessTx(st, safe, raw).Ok?
    ensures var next := ProcessTx(st, safe, raw).value;
            next.ledger == st.ledger && GnosisOk(config, next.gnosis) && AuditsOk(config, next)
  {
    var h := raw.txHash.value;
    if h !in st.gnosis.safeTxs {
      var inserted := st.(gnosis := st.gnosis.(safeTxs := st.gnosis.safeTxs + {h}));
      assert GnosisOk(config, inserted.gnosis) && AuditsOk(config, inserted);
      match raw.decoded.value
      case Ethereum(eth) => ProcessTransfersKeeps(config, inserted, safe, eth.transfers);
      case MultiSig(multiSig) => ProcessMultiSigKeeps(config, inserted, safe, multiSig);
      case Module =>
    }
  }

  lemma EmptyOk(config: Config)
    ensures GnosisOk(config, EMPTY_GNOSIS) && AuditsOk(config, EMPTY_STATE)
  {
  }
}
