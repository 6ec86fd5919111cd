/** Nothing is ever removed or changed: rows keep their ids and their content for ever. */
module History {
  import opened Wrappers
  import opened EthDataTypes
  import opened SafeConfig
  import opened ApiDataTypes
  import opened Tables
  import opened LedgerSync
  import opened LedgerInvariant
  import opened GnosisIngest
  import opened Runs
  import MintMatching
  import BurnMatching
  import WithdrawalParsing

  ghost predicate LedgerExtends(l: Ledger, m: Ledger) {
    && l.mintConfigTxs <= m.mintConfigTxs
    && l.mintConfigs <= m.mintConfigs
    && l.mintTxs <= m.mintTxs
    && l.burnTxOuts <= m.burnTxOuts
    && l.blockAuditData <= m.blockAuditData
    && l.numBlocksSynced <= m.numBlocksSynced
    && (forall b: nat :: b < l.numBlocksSynced ==>
          BalancesForBlock(m.blockBalances, b) == BalancesForBlock(l.blockBalances, b))
  }

  ghost predicate GnosisExtends(g: Gnosis, h: Gnosis) {
    g.safeTxs <= h.safeTxs && g.deposits <= h.deposits && g.withdrawals <= h.withdrawals
  }

  /** The later database has every row of the earlier one, at the same position. */
  ghost predicate Extends(s: State, t: State) {
    && LedgerExtends(s.ledger, t.ledger)
    && GnosisExtends(s.gnosis, t.gnosis)
    && s.mintAudit.auditedMints <= t.mintAudit.auditedMints
    && s.burnAudit.auditedBurns <= t.burnAudit.auditedBurns
  }

  lemma {:induction false} ConfigTxsExtend(l: Ledger, blockIndex: nat, txs: seq<CoreMintConfigTx>)
    requires InsertMintConfigTxs(l, blockIndex, txs).Ok?
    ensures var m := InsertMintConfigTxs(l, blockIndex, txs).value;
            && l.mintConfigTxs <= m.mintConfigTxs && l.mintConfigs <= m.mintConfigs
            && m == l.(mintConfigTxs := m.mintConfigTxs, mintConfigs := m.mintConfigs)
    decreases |txs|
  {
    if txs != [] {
      ConfigTxsExtend(InsertMintConfigTx(l, blockIndex, txs[0]).value, blockIndex, txs[1..]);
    }
  }

  lemma ContentsExtend(o: Oracles, l: Ledger, block: Block)
    requires Processed(o, l, block).Ok?
    ensures var m := Processed(o, l, block).value.ledger;
            && l.mintConfigTxs <= m.mintConfigTxs && l.mintConfigs <= m.mintConfigs
            && l.mintTxs <= m.mintTxs && l.burnTxOuts <= m.burnTxOuts
            && m.blockAuditData == l.blockAuditData && m.numBlocksSynced == l.numBlocksSynced
  {
    var configured := InsertMintConfigTxs(l, block.index, block.mintConfigTxs).value;
    var start := Progress(configured, PreviousBalances(configured, block.index));
    ConfigTxsExtend(l, block.index, block.mintConfigTxs);
    ProcessMintsFrame(o, start, block.index, block.mintTxs);
    ProcessBurnsFrame(ProcessMints(o, start, block.index, block.mintTxs).value, BurnsIn(o, block.index, block.outputs));
  }

  lemma SyncBlockExtendsTables(o: Oracles, l: Ledger, block: Block)
    requires LedgerOk(o, l) && SyncBlock(o, l, block).Ok?
    ensures var m := SyncBlock(o, l, block).value.ledger;
            && l.mintConfigTxs <= m.mintConfigTxs && l.mintConfigs <= m.mintConfigs
            && l.mintTxs <= m.mintTxs && l.burnTxOuts <= m.burnTxOuts
            && l.blockAuditData <= m.blockAuditData && l.numBlocksSynced <= m.numBlocksSynced
  {
    SyncBlockIs(o, l, block);
    ContentsExtend(o, l, block);
    ProcessedKeeps(o, l, block);
    FinishBlockIs(Processed(o, l, block).value);
  }

  lemma SyncBlockExtends(o: Oracles, l: Ledger, block: Block)
    requires LedgerOk(o, l) && SyncBlock(o, l, block).Ok?
    ensures LedgerExtends(l, SyncBlock(o, l, block).value.ledger)
  {
    SyncBlockExtendsTables(o, l, block);
    forall b: nat | b < l.numBlocksSynced
      ensures BalancesForBlock(SyncBlock(o, l, block).value.ledger.blockBalances, b)
              == BalancesForBlock(l.blockBalances, b)
    {
      SyncBlockKeepsHistory(o, l, block, b);
    }
  }

  lemma {:induction false} AuditMintsExtends(
    mints: seq<MintTx>, deposits: seq<Deposit>, a: MintAudit, config: Config, first: nat)
    ensures a.auditedMints <= MintMatching.AuditMints(mints, deposits, a, config, first).auditedMints
    decreases |mints| - first
  {
    if first < |mints| {
      MintMatching.TryMatchMintAllOrNothing(mints, deposits, a, Some(first), mints[first], config);
      AuditMintsExtends(
        mints, deposits, MintMatching.TryMatchMint(mints, deposits, a, Some(first), mints[first], config), config,
        first + 1);
    }
  }

  lemma {:induction false} AuditBurnsExtends(
    o: Oracles, burns: seq<BurnTxOut>, withdrawals: seq<Withdrawal>, a: BurnAudit, config: Config, first: nat)
    ensures a.auditedBurns <= BurnMatching.AuditBurns(o, burns, withdrawals, a, config, first).auditedBurns
    decreases |burns| - first
  {
    if first < |burns| {
      BurnMatching.TryMatchBurnAllOrNothing(o, burns, withdrawals, a, Some(first), burns[first], config);
      AuditBurnsExtends(
        o, burns, withdrawals, BurnMatching.TryMatchBurn(o, burns, withdrawals, a, Some(first), burns[first], config),
        config, first + 1);
    }
  }

  ghost predicate GnosisSideExtends(s: State, t: State) {
    && t.ledger == s.ledger
    && GnosisExtends(s.gnosis, t.gnosis)
    && s.mintAudit.auditedMints <= t.mintAudit.auditedMints
    && s.burnAudit.auditedBurns <= t.burnAudit.auditedBurns
  }

  lemma {:induction false} TransfersExtend(st: State, safe: AuditedSafe, transfers: seq<EthereumTransfer>)
    requires ProcessTransfers(st, safe, transfers).Ok?
    ensures GnosisSideExtends(st, ProcessTransfers(st, safe, transfers).value)
    decreases |transfers|
  {
    if transfers == [] {
    } else if !SameAddr(transfers[0].to, safe.safeAddr) {
      TransfersExtend(st, safe, transfers[1..]);
    } else {
      match ReadTransfer(safe, transfers[0])
      case Deposited(d) =>
        var next := StoreDeposit(st, safe, d).value;
        MintMatching.TryMatchDepositAllOrNothing(
          st.ledger.mintTxs, next.gnosis.deposits, st.mintAudit, Some(|st.gnosis.deposits|), d, safe);
        TransfersExtend(next, safe, transfers[1..]);
      case _ =>
    }
  }

  lemma StoreWithdrawalExtends(st: State, safe: AuditedSafe, w: Withdrawal)
    requires StoreWithdrawal(st, safe, w).Ok?
    ensures GnosisSideExtends(st, StoreWithdrawal(st, safe, w).value)
  {
    BurnMatching.TryMatchWithdrawalAllOrNothing(
      st.ledger.burnTxOuts, st.gnosis.withdrawals + [w], st.burnAudit, Some(|st.gnosis.withdrawals|), w, safe);
  }

  lemma ProcessTxExtends(st: State, safe: AuditedSafe, raw: RawGnosisTransaction)
    requires ProcessTx(st, safe, raw).Ok?
    ensures GnosisSideExtends(st, ProcessTx(st, safe, raw).value)
  {
    var h := raw.txHash.value;
    if h !in st.gnosis.safeTxs {
      var inserted := st.(gnosis := st.gnosis.(safeTxs := st.gnosis.safeTxs + {h}));
      match raw.decoded.value
      case Ethereum(eth) => TransfersExtend(inserted, safe, eth.transfers);
      case MultiSig(tx) =>
        if SameAddr(tx.safe, safe.safeAddr) {
          match WithdrawalParsing.ParseWithdrawal(safe, tx) {
            case Withdrawn(w) => StoreWithdrawalExtends(inserted, safe, w);
            case _ =>
          }
        }
      case Module =>
    }
  }

  lemma StepExtends(o: Oracles, config: Config, st: State, e: Event)
    requires LedgerOk(o, st.ledger)
    ensures Extends(st, Step(o, config, st, e))
  {
    if Attempt(o, config, st, e).Ok? {
      match e
      case LedgerBlock(block) =>
        var l := SyncBlock(o, st.ledger, block).value.ledger;
        SyncBlockExtends(o, st.ledger, block);
        AuditMintsExtends(l.mintTxs, st.gnosis.deposits, st.mintAudit, config, |st.ledger.mintTxs|);
        AuditBurnsExtends(o, l.burnTxOuts, st.gnosis.withdrawals, st.burnAudit, config, |st.ledger.burnTxOuts|);
      case SafeTx(safe, raw) => ProcessTxExtends(st, safe, raw);
    }
  }

  lemma ExtendsTransitive(s: State, t: State, u: State)
    requires Extends(s, t) && Extends(t, u)
    ensures Extends(s, u)
  {
  }

  /** However a run continues, every row of every table, every audit link and every stored balance stays as it is. */
  lemma {:induction false} RowsAreForEver(o: Oracles, config: Config, events: seq<Event>, more: seq<Event>)
    ensures Extends(Run(o, config, events), Run(o, config, events + more))
    decreases |more|
  {
    if more == [] {
      assert events + more == events;
    } else {
      var front, e := more[..|more| - 1], more[|more| - 1];
      RowsAreForEver(o, config, events, front);
      RunLedgerOk(o, config, events + front);
      var st := Run(o, config, events + front);
      StepExtends(o, config, st, e);
      assert (events + more)[..|events + more| - 1] == events + front;
      ExtendsTransitive(Run(o, config, events), st, Step(o, config, st, e));
    }
  }

  /** A transaction committed by the thread of any safe is skipped ever after, by the threads of all safes. */
  lemma CommittedOnceForAll(
    o: Oracles, config: Config, events: seq<Event>, more: seq<Event>, safe: AuditedSafe, raw: RawGnosisTransaction)
    requires raw.txHash.Some? && raw.txHash.value in Run(o, config, events).gnosis.safeTxs
    ensures Run(o, config, events + more + [SafeTx(safe, raw)]) == Run(o, config, events + more)
  {
    RowsAreForEver(o, config, events, more);
    var longer := events + more + [SafeTx(safe, raw)];
    assert longer[..|longer| - 1] == events + more;
  }
}
