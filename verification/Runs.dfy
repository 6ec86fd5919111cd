/** Whole runs: ledger blocks and Gnosis transactions, in any interleaving, with failing steps rolled back. */
module Runs {
  import opened Wrappers
  import opened EthDataTypes
  import opened SafeConfig
  import opened ApiDataTypes
  import opened Tables
  import opened LedgerSync
  import opened LedgerInvariant
  import opened GnosisIngest
  import opened GnosisInvariant
  import MintMatching
  import WithdrawalParsing
  import BurnMatching
  import MI = MintAuditInvariant
  import BI = BurnAuditInvariant

  /** The audit of the mints and burns that a block added. */
  function AuditBlock(o: Oracles, config: Config, st: State, firstMint: nat, firstBurn: nat): State {
    st.(mintAudit := MintMatching.AuditMints(st.ledger.mintTxs, st.gnosis.deposits, st.mintAudit, config, firstMint),
        burnAudit := BurnMatching.AuditBurns(
          o, st.ledger.burnTxOuts, st.gnosis.withdrawals, st.burnAudit, config, firstBurn))
  }

  /** One block, synced and audited in one exclusive database transaction. */
  function LedgerStep(o: Oracles, config: Config, st: State, block: Block): Result<State, Error> {
    var p :- SyncBlock(o, st.ledger, block);
    Ok(AuditBlock(o, config, st.(ledger := p.ledger), |st.ledger.mintTxs|, |st.ledger.burnTxOuts|))
  }

  /** A block offered by the ledger thread, or a transaction fetched by the thread of one safe. */
  datatype Event = LedgerBlock(block: Block) | SafeTx(safe: AuditedSafe, raw: RawGnosisTransaction)

  function Attempt(o: Oracles, config: Config, st: State, e: Event): Result<State, Error> {
    match e
    case LedgerBlock(block) => LedgerStep(o, config, st, block)
    case SafeTx(safe, raw) => if safe in config.safes then ProcessTx(st, safe, raw) else Err(GnosisSafeNotAudited)
  }

  /** A step that fails leaves the database as it was. */
  function Step(o: Oracles, config: Config, st: State, e: Event): State {
    match Attempt(o, config, st, e)
    case Ok(next) => next
    case Err(_) => st
  }

  function Run(o: Oracles, config: Config, events: seq<Event>): State {
    if events == [] then EMPTY_STATE
    else Step(o, config, Run(o, config, events[..|events| - 1]), events[|events| - 1])
  }

  lemma RunAppend(o: Oracles, config: Config, events: seq<Event>, e: Event)
    ensures Run(o, config, events + [e]) == Step(o, config, Run(o, config, events), e)
  {
    assert (events + [e])[..|events|] == events;
  }

  /** The blocks of the ledger that a database with the given number of synced blocks still lacks. */
  function NotSynced(ledger: seq<Block>, numBlocksSynced: nat): seq<Block> {
    if numBlocksSynced < |ledger| then ledger[numBlocksSynced..] else []
  }

  /** Syncing the given blocks one after the other, up to the first that fails. */
  function CatchUp(o: Oracles, config: Config, st: State, blocks: seq<Block>): (State, Result<(), Error>)
    decreases |blocks|
  {
    if blocks == [] then (st, Ok(()))
    else
      match LedgerStep(o, config, st, blocks[0])
      case Err(error) => (st, Err(error))
      case Ok(next) => CatchUp(o, config, next, blocks[1..])
  }

  lemma CatchUpUnfolds(o: Oracles, config: Config, st: State, ledger: seq<Block>, n: nat)
    requires n < |ledger|
    ensures CatchUp(o, config, st, NotSynced(ledger, n)) ==
            match LedgerStep(o, config, st, ledger[n])
            case Err(error) => (st, Err(error))
            case Ok(next) => CatchUp(o, config, next, NotSynced(ledger, n + 1))
  {
    assert NotSynced(ledger, n)[0] == ledger[n];
    assert NotSynced(ledger, n)[1..] == NotSynced(ledger, n + 1);
  }

  lemma CaughtUp(o: Oracles, config: Config, st: State, ledger: seq<Block>, n: nat)
    requires n >= |ledger|
    ensures CatchUp(o, config, st, NotSynced(ledger, n)) == (st, Ok(()))
  {
    assert NotSynced(ledger, n) == [];
  }

  /* The invariant of every reachable state */

  ghost predicate StateOk(o: Oracles, config: Config, st: State) {
    LedgerOk(o, st.ledger) && GnosisOk(config, st.gnosis) && AuditsOk(config, st)
  }

  lemma LedgerStepKeeps(o: Oracles, config: Config, st: State, block: Block)
    requires StateOk(o, config, st) && LedgerStep(o, config, st, block).Ok?
    ensures StateOk(o, config, LedgerStep(o, config, st, block).value)
  {
    SyncBlockKeeps(o, st.ledger, block);
    var l := SyncBlock(o, st.ledger, block).value.ledger;
    assert KeysOk(l);
    MI.AuditMintsKeeps(config, l.mintTxs, st.gnosis.deposits, st.mintAudit, |st.ledger.mintTxs|);
    BI.AuditBurnsKeeps(o, config, l.burnTxOuts, st.gnosis.withdrawals, st.burnAudit, |st.ledger.burnTxOuts|);
  }

  lemma StepKeeps(o: Oracles, config: Config, st: State, e: Event)
    requires DistinctSafes(config) && StateOk(o, config, st)
    ensures StateOk(o, config, Step(o, config, st, e))
  {
    if Attempt(o, config, st, e).Ok? {
      match e
      case LedgerBlock(block) => LedgerStepKeeps(o, config, st, block);
      case SafeTx(safe, raw) => ProcessTxKeeps(config, st, safe, raw);
    }
  }

  /** Every reachable state satisfies the invariant. */
  lemma {:induction false} RunOk(o: Oracles, config: Config, events: seq<Event>)
    requires DistinctSafes(config)
    ensures StateOk(o, config, Run(o, config, events))
  {
    if events == [] {
      EmptyLedgerOk(o);
      EmptyOk(config);
    } else {
      RunOk(o, config, events[..|events| - 1]);
      StepKeeps(o, config, Run(o, config, events[..|events| - 1]), events[|events| - 1]);
    }
  }

  /* The two threads do not influence each other's tables */

  /** The blocks of a run, in order. */
  function Blocks(events: seq<Event>): seq<Block> {
    if events == [] then []
    else
      Blocks(events[..|events| - 1]) +
      match events[|events| - 1]
      case LedgerBlock(block) => [block]
      case SafeTx(_, _) => []
  }

  /** The Gnosis transactions of a run, in order. */
  function SafeTxs(events: seq<Event>): seq<(AuditedSafe, RawGnosisTransaction)> {
    if events == [] then []
    else
      SafeTxs(events[..|events| - 1]) +
      match events[|events| - 1]
      case LedgerBlock(_) => []
      case SafeTx(safe, raw) => [(safe, raw)]
  }

  ghost function Scan(o: Oracles, blocks: seq<Block>): Ledger {
    if blocks == [] then EMPTY_LEDGER
    else
      var l := Scan(o, blocks[..|blocks| - 1]);
      match SyncBlock(o, l, blocks[|blocks| - 1])
      case Ok(p) => p.ledger
      case Err(_) => l
  }

  lemma {:induction false} TransfersIgnoreLedger(
    s: State, t: State, safe: AuditedSafe, transfers: seq<EthereumTransfer>)
    requires s.gnosis == t.gnosis
    ensures var a, b := ProcessTransfers(s, safe, transfers), ProcessTransfers(t, safe, transfers);
            a.Ok? == b.Ok? && (a.Ok? ==> a.value.gnosis == b.value.gnosis && a.value.ledger == s.ledger)
    decreases |transfers|
  {
    if transfers == [] {
    } else if !SameAddr(transfers[0].to, safe.safeAddr) {
      TransfersIgnoreLedger(s, t, safe, transfers[1..]);
    } else {
      match ReadTransfer(safe, transfers[0])
      case Deposited(d) =>
        if StoreDeposit(s, safe, d).Ok? {
          TransfersIgnoreLedger(StoreDeposit(s, safe, d).value, StoreDeposit(t, safe, d).value, safe, transfers[1..]);
        }
      case _ =>
    }
  }

  /** What a Gnosis transaction stores depends on the Gnosis tables alone, and it never writes the ledger tables. */
  lemma ProcessTxIgnoresLedger(s: State, t: State, safe: AuditedSafe, raw: RawGnosisTransaction)
    requires s.gnosis == t.gnosis
    ensures var a, b := ProcessTx(s, safe, raw), ProcessTx(t, safe, raw);
            a.Ok? == b.Ok? && (a.Ok? ==> a.value.gnosis == b.value.gnosis && a.value.ledger == s.ledger)
  {
    if raw.txHash.Some? && raw.txHash.value !in s.gnosis.safeTxs && raw.decoded.Some? {
      var h := raw.txHash.value;
      var g := s.gnosis.(safeTxs := s.gnosis.safeTxs + {h});
      match raw.decoded.value
      case Ethereum(eth) => TransfersIgnoreLedger(s.(gnosis := g), t.(gnosis := g), safe, eth.transfers);
      case _ =>
    }
  }

  lemma {:induction false} LedgerIsScan(o: Oracles, config: Config, events: seq<Event>)
    ensures Run(o, config, events).ledger == Scan(o, Blocks(events))
  {
    if events != [] {
      var before, e := events[..|events| - 1], events[|events| - 1];
      LedgerIsScan(o, config, before);
      var st := Run(o, config, before);
      match e
      case LedgerBlock(block) =>
        assert Blocks(events)[..|Blocks(events)| - 1] == Blocks(before);
      case SafeTx(safe, raw) =>
        assert Blocks(events) == Blocks(before);
        ProcessTxIgnoresLedger(st, st, safe, raw);
    }
  }

  ghost function IngestOne(config: Config, g: Gnosis, safe: AuditedSafe, raw: RawGnosisTransaction): Gnosis {
    if safe !in config.safes then g
    else
      match ProcessTx(EMPTY_STATE.(gnosis := g), safe, raw)
      case Ok(next) => next.gnosis
      case Err(_) => g
  }

  ghost function Ingest(config: Config, txs: seq<(AuditedSafe, RawGnosisTransaction)>): Gnosis {
    if txs == [] then EMPTY_GNOSIS
    else IngestOne(config, Ingest(config, txs[..|txs| - 1]), txs[|txs| - 1].0, txs[|txs| - 1].1)
  }

  lemma StepIngests(o: Oracles, config: Config, st: State, e: Event)
    ensures Step(o, config, st, e).gnosis ==
            match e
            case LedgerBlock(_) => st.gnosis
            case SafeTx(safe, raw) => IngestOne(config, st.gnosis, safe, raw)
  {
    match e
    case LedgerBlock(_) =>
    case SafeTx(safe, raw) => ProcessTxIgnoresLedger(st, EMPTY_STATE.(gnosis := st.gnosis), safe, raw);
  }

  lemma {:induction false} GnosisIsIngest(o: Oracles, config: Config, events: seq<Event>)
    ensures Run(o, config, events).gnosis == Ingest(config, SafeTxs(events))
  {
    if events != [] {
      var before, e := events[..|events| - 1], events[|events| - 1];
      GnosisIsIngest(o, config, before);
      StepIngests(o, config, Run(o, config, before), e);
      match e
      case LedgerBlock(block) =>
        assert SafeTxs(events) == SafeTxs(before);
      case SafeTx(safe, raw) =>
        assert SafeTxs(events)[..|SafeTxs(events)| - 1] == SafeTxs(before);
    }
  }

  /**
    * Order of arrival does not matter: two runs with the same blocks and the same Gnosis transactions, interleaved
    * in any two ways, end with equal ledger and Gnosis tables, the same audited pairs of mints and deposits, the
    * same number of mismatches, and the same total number of attempts that found nothing.
    */
  lemma InterleavingDoesNotMatter(o: Oracles, config: Config, one: seq<Event>, two: seq<Event>)
    requires DistinctSafes(config)
    requires Blocks(one) == Blocks(two) && SafeTxs(one) == SafeTxs(two)
    ensures var s, t := Run(o, config, one), Run(o, config, two);
            && s.ledger == t.ledger
            && s.gnosis == t.gnosis
            && MI.RowPairs(s.mintAudit.auditedMints) == MI.RowPairs(t.mintAudit.auditedMints)
            && |s.mintAudit.auditedMints| == |t.mintAudit.auditedMints|
            && s.mintAudit.numMismatchingMintsAndDeposits == t.mintAudit.numMismatchingMintsAndDeposits
            && s.mintAudit.numUnexpectedErrorsMatchingDepositsToMints
               + s.mintAudit.numUnexpectedErrorsMatchingMintsToDeposits
               == t.mintAudit.numUnexpectedErrorsMatchingDepositsToMints
                  + t.mintAudit.numUnexpectedErrorsMatchingMintsToDeposits
  {
    LedgerIsScan(o, config, one);
    LedgerIsScan(o, config, two);
    GnosisIsIngest(o, config, one);
    GnosisIsIngest(o, config, two);
    RunOk(o, config, one);
    RunOk(o, config, two);
  }

  /* Conservation of match attempts, under any configuration */

  ghost predicate Conserved(st: State) {
    && MintMatching.Recorded(st.mintAudit) == |st.ledger.mintTxs| + |st.gnosis.deposits|
    && BurnMatching.Recorded(st.burnAudit) == |st.ledger.burnTxOuts| + |st.gnosis.withdrawals|
  }

  lemma {:induction false} TransfersConserve(st: State, safe: AuditedSafe, transfers: seq<EthereumTransfer>)
    requires Conserved(st) && ProcessTransfers(st, safe, transfers).Ok?
    ensures Conserved(ProcessTransfers(st, safe, transfers).value)
    decreases |transfers|
  {
    if transfers == [] {
    } else if !SameAddr(transfers[0].to, safe.safeAddr) {
      TransfersConserve(st, safe, transfers[1..]);
    } else {
      match ReadTransfer(safe, transfers[0])
      case Deposited(d) =>
        var next := StoreDeposit(st, safe, d).value;
        MintMatching.TryMatchDepositAllOrNothing(
          st.ledger.mintTxs, next.gnosis.deposits, st.mintAudit, Some(|st.gnosis.deposits|), d, safe);
        TransfersConserve(next, safe, transfers[1..]);
      case _ =>
    }
  }

  lemma StoreWithdrawalConserves(st: State, safe: AuditedSafe, w: Withdrawal)
    requires Conserved(st) && StoreWithdrawal(st, safe, w).Ok?
    ensures Conserved(StoreWithdrawal(st, safe, w).value)
  {
    BurnMatching.TryMatchWithdrawalAllOrNothing(
      st.ledger.burnTxOuts, st.gnosis.withdrawals + [w], st.burnAudit, Some(|st.gnosis.withdrawals|), w, safe);
  }

  lemma ProcessTxConserves(st: State, safe: AuditedSafe, raw: RawGnosisTransaction)
    requires Conserved(st) && ProcessTx(st, safe, raw).Ok?
    ensures Conserved(ProcessTx(st, safe, raw).value)
  {
    var h := raw.txHash.value;
    if h !in st.gnosis.safeTxs {
      var inserted := st.(gnosis := st.gnosis.(safeTxs := st.gnosis.safeTxs + {h}));
      match raw.decoded.value
      case Ethereum(eth) => TransfersConserve(inserted, safe, eth.transfers);
      case MultiSig(tx) =>
        match WithdrawalParsing.ParseWithdrawal(safe, tx) {
          case Withdrawn(w) =>
            if SameAddr(tx.safe, safe.safeAddr) {
              StoreWithdrawalConserves(inserted, safe, w);
            }
          case _ =>
        }
      case Module =>
    }
  }

  lemma LedgerStepConserves(o: Oracles, config: Config, st: State, block: Block)
    requires Conserved(st) && LedgerOk(o, st.ledger) && LedgerStep(o, config, st, block).Ok?
    ensures Conserved(LedgerStep(o, config, st, block).value)
  {
    SyncBlockKeeps(o, st.ledger, block);
    var l := SyncBlock(o, st.ledger, block).value.ledger;
    MintMatching.AuditMintsRecords(l.mintTxs, st.gnosis.deposits, st.mintAudit, config, |st.ledger.mintTxs|);
    BurnMatching.AuditBurnsRecords(
      o, l.burnTxOuts, st.gnosis.withdrawals, st.burnAudit, config, |st.ledger.burnTxOuts|);
  }

  lemma {:induction false} RunLedgerOk(o: Oracles, config: Config, events: seq<Event>)
    ensures LedgerOk(o, Run(o, config, events).ledger)
  {
    if events == [] {
      EmptyLedgerOk(o);
    } else {
      var before := Run(o, config, events[..|events| - 1]);
      RunLedgerOk(o, config, events[..|events| - 1]);
      match events[|events| - 1]
      case LedgerBlock(block) =>
        if SyncBlock(o, before.ledger, block).Ok? {
          SyncBlockKeeps(o, before.ledger, block);
        }
      case SafeTx(safe, raw) => ProcessTxIgnoresLedger(before, before, safe, raw);
    }
  }

  /**
    * Over whole runs every stored mint and deposit accounts for exactly one audited pair or one counted failure,
    * and so does every stored burn and withdrawal.
    */
  lemma {:induction false} RunConserves(o: Oracles, config: Config, events: seq<Event>)
    ensures Conserved(Run(o, config, events))
  {
    if events != [] {
      var before := Run(o, config, events[..|events| - 1]);
      RunConserves(o, config, events[..|events| - 1]);
      if Attempt(o, config, before, events[|events| - 1]).Ok? {
        match events[|events| - 1]
        case LedgerBlock(block) =>
          RunLedgerOk(o, config, events[..|events| - 1]);
          LedgerStepConserves(o, config, before, block);
        case SafeTx(safe, raw) => ProcessTxConserves(before, safe, raw);
      }
    }
  }
}
