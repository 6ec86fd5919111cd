/** What processing the transactions of a safe does: de-duplication, deposits, withdrawals, matching. */
module GnosisIngest {
  import opened Wrappers
  import opened Numbers
  import opened EthDataTypes
  import opened SafeConfig
  import opened GnosisUtils
  import opened ApiDataTypes
  import opened Tables
  import opened WithdrawalParsing
  import MintMatching
  import BurnMatching
  import MintTxNonce

  predicate DepositTaken(deposits: seq<Deposit>, h: EthTxHash) {
    exists i :: 0 <= i < |deposits| && deposits[i].ethTxHash == h
  }

  predicate WithdrawalTaken(withdrawals: seq<Withdrawal>, h: EthTxHash) {
    exists i :: 0 <= i < |withdrawals| && withdrawals[i].ethTxHash == h
  }

  function InsertDeposit(g: Gnosis, d: Deposit): Result<Gnosis, Error> {
    if DepositTaken(g.deposits, d.ethTxHash) then Err(AlreadyExists)
    else if d.ethTxHash !in g.safeTxs then Err(ForeignKeyViolation)
    else Ok(g.(deposits := g.deposits + [d]))
  }

  function InsertWithdrawal(g: Gnosis, w: Withdrawal): Result<Gnosis, Error> {
    if WithdrawalTaken(g.withdrawals, w.ethTxHash) then Err(AlreadyExists)
    else if w.ethTxHash !in g.safeTxs then Err(ForeignKeyViolation)
    else Ok(g.(withdrawals := g.withdrawals + [w]))
  }

  function NewDeposit(t: EthereumTransfer, tokenAddr: EthAddr, value: U128, amount: U64): Deposit {
    Deposit(t.txHash, value, t.to, tokenAddr, amount, MintTxNonce.ExpectedNonceHex(t.txHash))
  }

  /** A transfer becomes a deposit, is of a token nobody audits, or is an error (a missing token address, a panic). */
  datatype Read = Deposited(deposit: Deposit) | UnknownToken | Unreadable(error: Error)

  function ReadTransfer(safe: AuditedSafe, t: EthereumTransfer): Read {
    match t.tokenAddr
    case None => Unreadable(BadTransaction)
    case Some(tokenAddr) =>
      match FindToken(safe.tokens, tokenAddr)
      case None => UnknownToken
      case Some(token) =>
        if t.value.None? then Unreadable(Panic)
        else
          match TruncateValue(t.value.value, token.decimals, safe.tokenDecimalsMax)
          case None => Unreadable(Panic)
          case Some(amount) => Deposited(NewDeposit(t, tokenAddr, t.value.value, amount))
  }

  function StoreDeposit(st: State, safe: AuditedSafe, d: Deposit): Result<State, Error> {
    var g :- InsertDeposit(st.gnosis, d);
    Ok(st.(gnosis := g,
           mintAudit := MintMatching.TryMatchDeposit(
             st.ledger.mintTxs, g.deposits, st.mintAudit, Some(|st.gnosis.deposits|), d, safe)))
  }

  function CountInvalidEthereum(st: State): State {
    st.(gnosis := st.gnosis.(numInvalidEthereumTransactions := st.gnosis.numInvalidEthereumTransactions + 1))
  }

  /** An unknown token ends the loop early, keeping what was done so far and raising a counter. */
  function ProcessTransfers(st: State, safe: AuditedSafe, transfers: seq<EthereumTransfer>): Result<State, Error>
    decreases |transfers|
  {
    if transfers == [] then Ok(st)
    else if !SameAddr(transfers[0].to, safe.safeAddr) then ProcessTransfers(st, safe, transfers[1..])
    else
      match ReadTransfer(safe, transfers[0])
      case Unreadable(error) => Err(error)
      case UnknownToken => Ok(CountInvalidEthereum(st))
      case Deposited(d) =>
        var next :- StoreDeposit(st, safe, d);
        ProcessTransfers(next, safe, transfers[1..])
  }

  function StoreWithdrawal(st: State, safe: AuditedSafe, w: Withdrawal): Result<State, Error> {
    var g :- InsertWithdrawal(st.gnosis, w);
    Ok(st.(gnosis := g,
           burnAudit := BurnMatching.TryMatchWithdrawal(
             st.ledger.burnTxOuts, g.withdrawals, st.burnAudit, Some(|st.gnosis.withdrawals|), w, safe)))
  }

  function ProcessMultiSig(st: State, safe: AuditedSafe, tx: MultiSigTransaction): Result<State, Error> {
    if !SameAddr(tx.safe, safe.safeAddr) then Ok(st)
    else
      match ParseWithdrawal(safe, tx)
      case Panics => Err(Panic)
      case Invalid =>
        Ok(st.(gnosis := st.gnosis.(numInvalidMultiSigTransactions := st.gnosis.numInvalidMultiSigTransactions + 1)))
      case Withdrawn(w) => StoreWithdrawal(st, safe, w)
  }

  function ProcessDecoded(st: State, safe: AuditedSafe, tx: Transaction): Result<State, Error> {
    match tx
    case Ethereum(eth) => ProcessTransfers(st, safe, eth.transfers)
    case MultiSig(multiSig) => ProcessMultiSig(st, safe, multiSig)
    case Module => Ok(st)
  }

  /** One raw transaction, in one exclusive database transaction. A hash seen before is skipped. */
  function ProcessTx(st: State, safe: AuditedSafe, raw: RawGnosisTransaction): Result<State, Error> {
    match raw.txHash
    case None => Err(BadTransaction)
    case Some(h) =>
      if h in st.gnosis.safeTxs then Ok(st)
      else
        match raw.decoded
        case None => Err(BadTransaction)
        case Some(tx) => ProcessDecoded(st.(gnosis := st.gnosis.(safeTxs := st.gnosis.safeTxs + {h})), safe, tx)
  }

  /** A poll stops (panics) at the first transaction that fails; what was committed before it stays. */
  datatype Polled = Polled(state: State, ok: bool)

  function ProcessTransactions(st: State, safe: AuditedSafe, txs: seq<RawGnosisTransaction>): Polled
    decreases |txs|
  {
    if txs == [] then Polled(st, true)
    else
      match ProcessTx(st, safe, txs[0])
      case Err(_) => Polled(st, false)
      case Ok(next) => ProcessTransactions(next, safe, txs[1..])
  }

  /* Re-polling */

  ghost predicate Seen(g: Gnosis, txs: seq<RawGnosisTransaction>) {
    forall i :: 0 <= i < |txs| ==> txs[i].txHash.Some? && txs[i].txHash.value in g.safeTxs
  }

  lemma {:induction false} ProcessTransfersKeepsHashes(st: State, safe: AuditedSafe, transfers: seq<EthereumTransfer>)
    requires ProcessTransfers(st, safe, transfers).Ok?
    ensures ProcessTransfers(st, safe, transfers).value.gnosis.safeTxs == st.gnosis.safeTxs
    decreases |transfers|
  {
    if transfers != [] {
      if !SameAddr(transfers[0].to, safe.safeAddr) {
        ProcessTransfersKeepsHashes(st, safe, transfers[1..]);
      } else {
        match ReadTransfer(safe, transfers[0])
        case Deposited(d) => ProcessTransfersKeepsHashes(StoreDeposit(st, safe, d).value, safe, transfers[1..]);
        case _ =>
      }
    }
  }

  /** A committed transaction is remembered, and nothing else is. */
  lemma ProcessTxRemembers(st: State, safe: AuditedSafe, raw: RawGnosisTransaction)
    requires ProcessTx(st, safe, raw).Ok?
    ensures raw.txHash.Some?
    ensures ProcessTx(st, safe, raw).value.gnosis.safeTxs == st.gnosis.safeTxs + {raw.txHash.value}
  {
    var h := raw.txHash.value;
    if h !in st.gnosis.safeTxs {
      var inserted := st.(gnosis := st.gnosis.(safeTxs := st.gnosis.safeTxs + {h}));
      match raw.decoded.value
      case Ethereum(eth) => ProcessTransfersKeepsHashes(inserted, safe, eth.transfers);
      case _ =>
    }
  }

  lemma {:induction false} PollRemembers(st: State, safe: AuditedSafe, txs: seq<RawGnosisTransaction>)
    ensures st.gnosis.safeTxs <= ProcessTransactions(st, safe, txs).state.gnosis.safeTxs
    ensures ProcessTransactions(st, safe, txs).ok ==> Seen(ProcessTransactions(st, safe, txs).state.gnosis, txs)
    decreases |txs|
  {
    if txs != [] {
      match ProcessTx(st, safe, txs[0])
      case Err(_) =>
      case Ok(next) =>
        ProcessTxRemembers(st, safe, txs[0]);
        PollRemembers(next, safe, txs[1..]);
    }
  }

  lemma {:induction false} SeenIsSkipped(st: State, safe: AuditedSafe, txs: seq<RawGnosisTransaction>)
    requires Seen(st.gnosis, txs)
    ensures ProcessTransactions(st, safe, txs) == Polled(st, true)
    decreases |txs|
  {
    if txs != [] {
      SeenIsSkipped(st, safe, txs[1..]);
    }
  }

  lemma {:induction false} PollConcat(
    st: State, safe: AuditedSafe, first: seq<RawGnosisTransaction>, rest: seq<RawGnosisTransaction>)
    ensures var p := ProcessTransactions(st, safe, first);
            ProcessTransactions(st, safe, first + rest) == if p.ok then ProcessTransactions(p.state, safe, rest) else p
    decreases |first|
  {
    if first == [] {
      assert first + rest == rest;
    } else {
      assert (first + rest)[1..] == first[1..] + rest;
      match ProcessTx(st, safe, first[0])
      case Err(_) =>
      case Ok(next) => PollConcat(next, safe, first[1..], rest);
    }
  }

  /**
    * Polling again is idempotent: whenever all of `older` has been committed, at any later time and whatever the
    * other threads did in between, a poll that returns new transactions before the old ones does what the new
    * ones alone would do.
    */
  lemma RepollIsIdempotent(
    st: State, safe: AuditedSafe, newer: seq<RawGnosisTransaction>, older: seq<RawGnosisTransaction>)
    requires Seen(st.gnosis, older)
    ensures ProcessTransactions(st, safe, newer + older) == ProcessTransactions(st, safe, newer)
  {
    PollConcat(st, safe, newer, older);
    PollRemembers(st, safe, newer);
    var p := ProcessTransactions(st, safe, newer);
    if p.ok {
      SeenIsSkipped(p.state, safe, older);
    }
  }

  /** Crash safety: stopping after any committed prefix and processing the whole list again changes nothing. */
  lemma RestartIsHarmless(st: State, safe: AuditedSafe, txs: seq<RawGnosisTransaction>, k: nat)
    requires k <= |txs| && ProcessTransactions(st, safe, txs[..k]).ok
    ensures ProcessTransactions(ProcessTransactions(st, safe, txs[..k]).state, safe, txs)
            == ProcessTransactions(st, safe, txs)
  {
    assert txs == txs[..k] + txs[k..];
    var p := ProcessTransactions(st, safe, txs[..k]);
    PollConcat(st, safe, txs[..k], txs[k..]);
    PollRemembers(st, safe, txs[..k]);
    SeenIsSkipped(p.state, safe, txs[..k]);
    PollConcat(p.state, safe, txs[..k], txs[k..]);
  }
}
