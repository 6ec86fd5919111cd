/** What the Gnosis tables of a run hold, in terms of the committed transactions alone. */
module GnosisContents {
  import opened Wrappers
  import opened EthDataTypes
  import opened SafeConfig
  import opened ApiDataTypes
  import opened Tables
  import opened WithdrawalParsing
  import opened GnosisIngest
  import opened GnosisAcceptance
  import opened Runs

  /* What one transaction adds */

  ghost function DepositsIn(safe: AuditedSafe, tx: Transaction): seq<Deposit> {
    match tx
    case Ethereum(eth) => DepositsAmong(safe, Reached(safe, eth.transfers))
    case _ => []
  }

  /** A batch of the safe that records a withdrawal. */
  ghost predicate Withdraws(safe: AuditedSafe, tx: MultiSigTransaction) {
    SameAddr(tx.safe, safe.safeAddr) && exists w :: RecordsWithdrawal(safe, tx, w)
  }

  ghost function WithdrawalOf(safe: AuditedSafe, tx: MultiSigTransaction): Withdrawal
    requires Withdraws(safe, tx)
  {
    var w :| RecordsWithdrawal(safe, tx, w);
    w
  }

  ghost function WithdrawalsIn(safe: AuditedSafe, tx: Transaction): seq<Withdrawal> {
    match tx
    case MultiSig(multiSig) => if Withdraws(safe, multiSig) then [WithdrawalOf(safe, multiSig)] else []
    case _ => []
  }

  /** An Ethereum transaction that is counted as invalid: it moves an unknown token to the safe. */
  ghost predicate IsInvalidEthereum(safe: AuditedSafe, tx: Transaction) {
    tx.Ethereum? && exists i :: 0 <= i < |tx.eth.transfers| && OfUnknownToken(safe, tx.eth.transfers[i])
  }

  /** A multi-sig transaction that is counted as invalid: one of the safe that is no withdrawal. */
  ghost predicate IsInvalidMultiSig(safe: AuditedSafe, tx: Transaction) {
    tx.MultiSig? && SameAddr(tx.multiSig.safe, safe.safeAddr) && IsNoWithdrawal(safe, tx.multiSig)
  }

  ghost function Added(g: Gnosis, safe: AuditedSafe, h: EthTxHash, tx: Transaction): Gnosis {
    Gnosis(
      g.safeTxs + {h},
      g.deposits + DepositsIn(safe, tx),
      g.withdrawals + WithdrawalsIn(safe, tx),
      g.numInvalidEthereumTransactions + (if IsInvalidEthereum(safe, tx) then 1 else 0),
      g.numInvalidMultiSigTransactions + (if IsInvalidMultiSig(safe, tx) then 1 else 0))
  }

  lemma UnknownLater(safe: AuditedSafe, ts: seq<EthereumTransfer>)
    requires ts != [] && !OfUnknownToken(safe, ts[0])
    ensures (exists i :: 0 <= i < |ts| && OfUnknownToken(safe, ts[i])) <==>
            exists i :: 0 <= i < |ts[1..]| && OfUnknownToken(safe, ts[1..][i])
  {
    if i :| 0 <= i < |ts| && OfUnknownToken(safe, ts[i]) {
      assert ts[1..][i - 1] == ts[i];
    }
    if i :| 0 <= i < |ts[1..]| && OfUnknownToken(safe, ts[1..][i]) {
      assert ts[i + 1] == ts[1..][i];
    }
  }

  /** The loop over the transfers writes deposits and one counter. */
  lemma {:induction false} TransfersAdd(st: State, safe: AuditedSafe, ts: seq<EthereumTransfer>)
    requires ProcessTransfers(st, safe, ts).Ok?
    ensures var g, h := st.gnosis, ProcessTransfers(st, safe, ts).value.gnosis;
            h == g.(deposits := h.deposits,
                    numInvalidEthereumTransactions := g.numInvalidEthereumTransactions +
                      if exists i :: 0 <= i < |ts| && OfUnknownToken(safe, ts[i]) then 1 else 0)
    decreases |ts|
  {
    if ts != [] {
      if Incoming(safe, ts[0]) {
        Reading(safe, ts[0]);
      }
      if !OfUnknownToken(safe, ts[0]) {
        UnknownLater(safe, ts);
        if Incoming(safe, ts[0]) {
          TransfersAdd(StoreDeposit(st, safe, DepositOf(safe, ts[0])).value, safe, ts[1..]);
        } else {
          TransfersAdd(st, safe, ts[1..]);
        }
      }
    }
  }

  lemma TransfersAddAll(st: State, safe: AuditedSafe, h: EthTxHash, eth: EthereumTransaction)
    requires ProcessTransfers(st, safe, eth.transfers).Ok? && h in st.gnosis.safeTxs
    ensures ProcessTransfers(st, safe, eth.transfers).value.gnosis == Added(st.gnosis, safe, h, Ethereum(eth))
  {
    TransfersAdd(st, safe, eth.transfers);
    StoredAreReached(st, safe, eth.transfers);
    assert st.gnosis.safeTxs + {h} == st.gnosis.safeTxs;
  }

  /** What a batch adds, in terms of how it is read. */
  lemma BatchParts(safe: AuditedSafe, tx: MultiSigTransaction)
    ensures WithdrawalsIn(safe, MultiSig(tx)) ==
            if SameAddr(tx.safe, safe.safeAddr) && ParseWithdrawal(safe, tx).Withdrawn?
            then [ParseWithdrawal(safe, tx).withdrawal] else []
    ensures IsInvalidMultiSig(safe, MultiSig(tx)) <==>
            SameAddr(tx.safe, safe.safeAddr) && ParseWithdrawal(safe, tx) == Invalid
  {
    BatchReading(safe, tx);
    if Withdraws(safe, tx) {
      assert RecordsWithdrawal(safe, tx, WithdrawalOf(safe, tx));
    }
  }

  /** What storing a batch writes to the Gnosis tables. */
  lemma BatchWrites(st: State, safe: AuditedSafe, tx: MultiSigTransaction)
    requires ProcessMultiSig(st, safe, tx).Ok?
    ensures var g, h := st.gnosis, ProcessMultiSig(st, safe, tx).value.gnosis;
            if !SameAddr(tx.safe, safe.safeAddr) then h == g
            else
              match ParseWithdrawal(safe, tx)
              case Withdrawn(w) => h == g.(withdrawals := g.withdrawals + [w])
              case Invalid => h == g.(numInvalidMultiSigTransactions := g.numInvalidMultiSigTransactions + 1)
              case Panics => false
  {
  }

  lemma BatchAdds(st: State, safe: AuditedSafe, h: EthTxHash, tx: MultiSigTransaction)
    requires ProcessMultiSig(st, safe, tx).Ok? && h in st.gnosis.safeTxs
    ensures ProcessMultiSig(st, safe, tx).value.gnosis == Added(st.gnosis, safe, h, MultiSig(tx))
  {
    assert st.gnosis.safeTxs + {h} == st.gnosis.safeTxs;
    BatchParts(safe, tx);
    BatchWrites(st, safe, tx);
  }

  /** A new committed transaction adds exactly its hash, its deposits or withdrawal, and its share of the counters. */
  lemma ProcessTxAdds(st: State, safe: AuditedSafe, raw: RawGnosisTransaction)
    requires ProcessTx(st, safe, raw).Ok? && raw.txHash.value !in st.gnosis.safeTxs
    ensures ProcessTx(st, safe, raw).value.gnosis == Added(st.gnosis, safe, raw.txHash.value, raw.decoded.value)
  {
    var h := raw.txHash.value;
    var inserted := st.(gnosis := st.gnosis.(safeTxs := st.gnosis.safeTxs + {h}));
    assert inserted.gnosis.safeTxs + {h} == st.gnosis.safeTxs + {h};
    match raw.decoded.value
    case Ethereum(eth) => TransfersAddAll(inserted, safe, h, eth);
    case MultiSig(tx) => BatchAdds(inserted, safe, h, tx);
    case Module =>
  }

  /* Whole runs */

  /** The transaction is new, of an audited safe, and acceptable. */
  ghost predicate IsCommitted(config: Config, g: Gnosis, safe: AuditedSafe, raw: RawGnosisTransaction) {
    && safe in config.safes
    && AcceptableTx(g, safe, raw) && raw.txHash.value !in g.safeTxs
  }

  /** The transactions that a sequence of polls commits, each for the safe that polled it first. */
  ghost function Committed(config: Config, txs: seq<(AuditedSafe, RawGnosisTransaction)>)
    : (committed: seq<(AuditedSafe, RawGnosisTransaction)>)
    ensures forall k :: 0 <= k < |committed| ==>
              committed[k] in txs && committed[k].0 in config.safes && committed[k].1.txHash.Some?
              && committed[k].1.decoded.Some?
  {
    if txs == [] then []
    else
      var before, last := Committed(config, txs[..|txs| - 1]), txs[|txs| - 1];
      before + if IsCommitted(config, Contents(before), last.0, last.1) then [last] else []
  }

  /** What the committed transactions leave in the tables. */
  ghost function Contents(committed: seq<(AuditedSafe, RawGnosisTransaction)>): Gnosis
    requires forall k :: 0 <= k < |committed| ==> committed[k].1.txHash.Some? && committed[k].1.decoded.Some?
  {
    if committed == [] then EMPTY_GNOSIS
    else
      var last := committed[|committed| - 1];
      Added(Contents(committed[..|committed| - 1]), last.0, last.1.txHash.value, last.1.decoded.value)
  }

  lemma IngestOneAdds(config: Config, g: Gnosis, safe: AuditedSafe, raw: RawGnosisTransaction)
    ensures IngestOne(config, g, safe, raw) ==
            if IsCommitted(config, g, safe, raw) then Added(g, safe, raw.txHash.value, raw.decoded.value) else g
  {
    var st := EMPTY_STATE.(gnosis := g);
    ProcessTxSucceedsExactlyWhen(st, safe, raw);
    if IsCommitted(config, g, safe, raw) {
      ProcessTxAdds(st, safe, raw);
    }
  }

  lemma {:induction false} IngestIsContents(config: Config, txs: seq<(AuditedSafe, RawGnosisTransaction)>)
    ensures Ingest(config, txs) == Contents(Committed(config, txs))
  {
    if txs != [] {
      var front, last := txs[..|txs| - 1], txs[|txs| - 1];
      var before := Committed(config, front);
      IngestIsContents(config, front);
      IngestOneAdds(config, Ingest(config, front), last.0, last.1);
      if IsCommitted(config, Contents(before), last.0, last.1) {
        assert (before + [last])[..|before|] == before;
      } else {
        assert before + [] == before;
      }
    }
  }

  /**
    * In every run, the Gnosis tables and their counters are exactly what the committed transactions say: one hash
    * each, the deposits that their transfers record, the withdrawal that a batch records, and one count for each
    * that is invalid.
    */
  lemma GnosisIsContents(o: Oracles, config: Config, events: seq<Event>)
    ensures Run(o, config, events).gnosis == Contents(Committed(config, SafeTxs(events)))
  {
    GnosisIsIngest(o, config, events);
    IngestIsContents(config, SafeTxs(events));
  }

  /* Where the rows come from */

  /** The transfers that are stored as deposits, with their safes, in order. */
  ghost function PaidAmong(safe: AuditedSafe, ts: seq<EthereumTransfer>): seq<(AuditedSafe, EthereumTransfer)> {
    if ts == [] then []
    else (if IsDeposit(safe, ts[0]) then [(safe, ts[0])] else []) + PaidAmong(safe, ts[1..])
  }

  ghost function Paid(committed: seq<(AuditedSafe, RawGnosisTransaction)>): seq<(AuditedSafe, EthereumTransfer)>
    requires forall k :: 0 <= k < |committed| ==> committed[k].1.decoded.Some?
  {
    if committed == [] then []
    else
      var (safe, raw) := committed[|committed| - 1];
      Paid(committed[..|committed| - 1]) +
      match raw.decoded.value
      case Ethereum(eth) => PaidAmong(safe, Reached(safe, eth.transfers))
      case _ => []
  }

  /** Each deposit records its transfer, to its safe. */
  ghost predicate AllRecorded(paid: seq<(AuditedSafe, EthereumTransfer)>, deposits: seq<Deposit>) {
    && |paid| == |deposits|
    && forall j :: 0 <= j < |paid| ==>
         Incoming(paid[j].0, paid[j].1) && RecordsDeposit(paid[j].0, paid[j].1, deposits[j])
  }

  lemma {:induction false} PaidAmongRecorded(safe: AuditedSafe, ts: seq<EthereumTransfer>)
    ensures AllRecorded(PaidAmong(safe, ts), DepositsAmong(safe, ts))
  {
    if ts != [] {
      PaidAmongRecorded(safe, ts[1..]);
    }
  }

  lemma {:induction false} PaidIsRecorded(committed: seq<(AuditedSafe, RawGnosisTransaction)>)
    requires forall k :: 0 <= k < |committed| ==> committed[k].1.txHash.Some? && committed[k].1.decoded.Some?
    ensures AllRecorded(Paid(committed), Contents(committed).deposits)
  {
    if committed != [] {
      var last := committed[|committed| - 1];
      PaidIsRecorded(committed[..|committed| - 1]);
      match last.1.decoded.value
      case Ethereum(eth) => PaidAmongRecorded(last.0, Reached(last.0, eth.transfers));
      case _ =>
    }
  }

  /** In every run, each deposit records a transfer of its own, in a committed transaction, to an audited safe. */
  lemma DepositsArePaid(o: Oracles, config: Config, events: seq<Event>)
    ensures AllRecorded(Paid(Committed(config, SafeTxs(events))), Run(o, config, events).gnosis.deposits)
  {
    GnosisIsContents(o, config, events);
    PaidIsRecorded(Committed(config, SafeTxs(events)));
  }

  /** A batch of the safe that the withdrawal records, in a committed transaction. */
  ghost predicate HasBatch(committed: seq<(AuditedSafe, RawGnosisTransaction)>, w: Withdrawal) {
    exists k, tx :: 0 <= k < |committed| && committed[k].1.decoded == Some(MultiSig(tx))
                    && SameAddr(tx.safe, committed[k].0.safeAddr) && RecordsWithdrawal(committed[k].0, tx, w)
  }

  lemma HasBatchStays(
    committed: seq<(AuditedSafe, RawGnosisTransaction)>, more: seq<(AuditedSafe, RawGnosisTransaction)>, w: Withdrawal)
    requires committed <= more && HasBatch(committed, w)
    ensures HasBatch(more, w)
  {
    var k, tx :| 0 <= k < |committed| && committed[k].1.decoded == Some(MultiSig(tx))
                 && SameAddr(tx.safe, committed[k].0.safeAddr) && RecordsWithdrawal(committed[k].0, tx, w);
    assert more[k] == committed[k];
  }

  /** The withdrawal that the last transaction adds, if any, has its batch. */
  lemma LastHasBatch(committed: seq<(AuditedSafe, RawGnosisTransaction)>, w: Withdrawal)
    requires committed != [] && committed[|committed| - 1].1.decoded.Some?
    requires WithdrawalsIn(committed[|committed| - 1].0, committed[|committed| - 1].1.decoded.value) == [w]
    ensures HasBatch(committed, w)
  {
    var last := committed[|committed| - 1];
    var tx := last.1.decoded.value.multiSig;
    assert last.1.decoded == Some(MultiSig(tx)) && RecordsWithdrawal(last.0, tx, w);
  }

  ghost function WithdrawalsOf(committed: seq<(AuditedSafe, RawGnosisTransaction)>): seq<Withdrawal>
    requires forall k :: 0 <= k < |committed| ==> committed[k].1.decoded.Some?
  {
    if committed == [] then []
    else
      var last := committed[|committed| - 1];
      WithdrawalsOf(committed[..|committed| - 1]) + WithdrawalsIn(last.0, last.1.decoded.value)
  }

  lemma {:induction false} ContentsWithdrawals(committed: seq<(AuditedSafe, RawGnosisTransaction)>)
    requires forall k :: 0 <= k < |committed| ==> committed[k].1.txHash.Some? && committed[k].1.decoded.Some?
    ensures Contents(committed).withdrawals == WithdrawalsOf(committed)
  {
    if committed != [] {
      ContentsWithdrawals(committed[..|committed| - 1]);
    }
  }

  lemma {:induction false} WithdrawalsHaveBatches(committed: seq<(AuditedSafe, RawGnosisTransaction)>, w: Withdrawal)
    requires forall k :: 0 <= k < |committed| ==> committed[k].1.decoded.Some?
    requires w in WithdrawalsOf(committed)
    ensures HasBatch(committed, w)
  {
    var front, last := committed[..|committed| - 1], committed[|committed| - 1];
    if w in WithdrawalsOf(front) {
      WithdrawalsHaveBatches(front, w);
      HasBatchStays(front, committed, w);
    } else {
      LastHasBatch(committed, w);
    }
  }

  /**
    * In every run, each withdrawal records a batch of an audited safe in a committed transaction: in particular its
    * amount is the number in the text of the batched transfer, in units of its token, rounded down.
    */
  lemma WithdrawalHasBatch(o: Oracles, config: Config, events: seq<Event>, j: nat)
    requires j < |Run(o, config, events).gnosis.withdrawals|
    ensures HasBatch(Committed(config, SafeTxs(events)), Run(o, config, events).gnosis.withdrawals[j])
  {
    GnosisIsContents(o, config, events);
    ContentsWithdrawals(Committed(config, SafeTxs(events)));
    WithdrawalsHaveBatches(Committed(config, SafeTxs(events)), Run(o, config, events).gnosis.withdrawals[j]);
  }

  /** The transaction is counted as invalid, as one kind or the other. */
  ghost predicate Counts(tx: (AuditedSafe, RawGnosisTransaction), ethereum: bool) {
    && tx.1.decoded.Some?
    && if ethereum then IsInvalidEthereum(tx.0, tx.1.decoded.value) else IsInvalidMultiSig(tx.0, tx.1.decoded.value)
  }

  /** The number of committed transactions that are counted as invalid. */
  ghost function CountInvalid(committed: seq<(AuditedSafe, RawGnosisTransaction)>, ethereum: bool): nat {
    |set k | 0 <= k < |committed| && Counts(committed[k], ethereum)|
  }

  lemma {:induction false} ContentsCount(committed: seq<(AuditedSafe, RawGnosisTransaction)>)
    requires forall k :: 0 <= k < |committed| ==> committed[k].1.txHash.Some? && committed[k].1.decoded.Some?
    ensures Contents(committed).numInvalidEthereumTransactions == CountInvalid(committed, true)
    ensures Contents(committed).numInvalidMultiSigTransactions == CountInvalid(committed, false)
  {
    if committed != [] {
      ContentsCount(committed[..|committed| - 1]);
      OneMoreInvalid(committed, true);
      OneMoreInvalid(committed, false);
    }
  }

  lemma OneMoreInvalid(committed: seq<(AuditedSafe, RawGnosisTransaction)>, ethereum: bool)
    requires committed != []
    ensures CountInvalid(committed, ethereum) == CountInvalid(committed[..|committed| - 1], ethereum) +
              if Counts(committed[|committed| - 1], ethereum) then 1 else 0
  {
    var n := |committed| - 1;
    var front := committed[..n];
    var before := set k | 0 <= k < |front| && Counts(front[k], ethereum);
    var after := set k | 0 <= k < |committed| && Counts(committed[k], ethereum);
    if n in after {
      assert after == before + {n};
    } else {
      assert after == before;
    }
  }

  /**
    * In every run, the two counters of invalid transactions are the numbers of committed Ethereum transactions that
    * move an unknown token to their safe, and of committed batches of their safe that are no withdrawals.
    */
  lemma InvalidCountersMean(o: Oracles, config: Config, events: seq<Event>)
    ensures var g, committed := Run(o, config, events).gnosis, Committed(config, SafeTxs(events));
            && g.numInvalidEthereumTransactions == CountInvalid(committed, true)
            && g.numInvalidMultiSigTransactions == CountInvalid(committed, false)
  {
    GnosisIsContents(o, config, events);
    ContentsCount(Committed(config, SafeTxs(events)));
  }
}
