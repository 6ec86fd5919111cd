/** Exactly which Gnosis transactions are committed, and which of their deposits are stored. */
module GnosisAcceptance {
  import opened Wrappers
  import opened EthDataTypes
  import opened SafeConfig
  import opened ApiDataTypes
  import opened Tables
  import opened WithdrawalParsing
  import opened GnosisIngest
  import opened GnosisUtils
  import Hex
  import MintTxNonce

  /* The deposits of a transaction */

  ghost predicate Incoming(safe: AuditedSafe, t: EthereumTransfer) {
    SameAddr(t.to, safe.safeAddr)
  }

  /** A transfer to the safe of a token that nobody audits. */
  ghost predicate OfUnknownToken(safe: AuditedSafe, t: EthereumTransfer) {
    && Incoming(safe, t)
    && t.tokenAddr.Some?
    && forall k :: 0 <= k < |safe.tokens| ==> !Lists(safe.tokens[k], t.tokenAddr.value)
  }

  /** The deposit is what the transfer says, column by column; its amount is the value moved, in units of the token. */
  ghost predicate RecordsDeposit(safe: AuditedSafe, t: EthereumTransfer, d: Deposit) {
    && d.ethTxHash == t.txHash && d.safeAddr == t.to
    && t.value == Some(d.ethTxValue) && t.tokenAddr == Some(d.tokenAddr)
    && d.expectedNonceHex == Hex.Encode(MintTxNonce.Bytes(t.txHash))
    && exists token :: FirstListing(safe.tokens, d.tokenAddr, token)
                       && IsWorth(d.ethTxValue, token.decimals, safe.tokenDecimalsMax, d.amount)
  }

  /** A transfer to the safe that is some deposit. */
  ghost predicate IsDeposit(safe: AuditedSafe, t: EthereumTransfer) {
    Incoming(safe, t) && exists d :: RecordsDeposit(safe, t, d)
  }

  ghost function DepositOf(safe: AuditedSafe, t: EthereumTransfer): Deposit
    requires IsDeposit(safe, t)
  {
    var d :| RecordsDeposit(safe, t, d);
    d
  }

  /** A transfer is read as a deposit exactly when it is recorded by it, and there is only one such deposit. */
  lemma TransferReadExactlyWhen(safe: AuditedSafe, t: EthereumTransfer, d: Deposit)
    ensures ReadTransfer(safe, t) == Deposited(d) <==> RecordsDeposit(safe, t, d)
  {
    if t.tokenAddr.Some? && t.value.Some? {
      if token :| FirstListing(safe.tokens, t.tokenAddr.value, token)
                  && IsWorth(t.value.value, token.decimals, safe.tokenDecimalsMax, d.amount) {
        FindTokenExactlyWhen(safe.tokens, t.tokenAddr.value, token);
        TruncateIsFloor(t.value.value, token.decimals, safe.tokenDecimalsMax, d.amount);
      }
      var found := FindToken(safe.tokens, t.tokenAddr.value);
      if found.Some? {
        FindTokenExactlyWhen(safe.tokens, t.tokenAddr.value, found.value);
        TruncateIsFloor(t.value.value, found.value.decimals, safe.tokenDecimalsMax, d.amount);
      }
    }
  }

  /** It is of an unknown token exactly when no audited token lists its token, and unreadable in all other cases. */
  lemma UnknownExactlyWhen(safe: AuditedSafe, t: EthereumTransfer)
    ensures ReadTransfer(safe, t) == UnknownToken <==>
            t.tokenAddr.Some? && forall k :: 0 <= k < |safe.tokens| ==> !Lists(safe.tokens[k], t.tokenAddr.value)
    ensures ReadTransfer(safe, t).Unreadable? <==>
            || t.tokenAddr.None?
            || ((exists k :: 0 <= k < |safe.tokens| && Lists(safe.tokens[k], t.tokenAddr.value))
                && forall d :: !RecordsDeposit(safe, t, d))
  {
    if t.tokenAddr.Some? {
      var found := FindToken(safe.tokens, t.tokenAddr.value);
      if found.Some? {
        FindTokenExactlyWhen(safe.tokens, t.tokenAddr.value, found.value);
      } else if safe.tokens != [] {
        FindTokenExactlyWhen(safe.tokens, t.tokenAddr.value, safe.tokens[0]);
      }
    }
    forall d
      ensures ReadTransfer(safe, t) == Deposited(d) <==> RecordsDeposit(safe, t, d)
    {
      TransferReadExactlyWhen(safe, t, d);
    }
  }

  /** How the transfers of a safe's thread are told apart. */
  lemma Reading(safe: AuditedSafe, t: EthereumTransfer)
    requires Incoming(safe, t)
    ensures OfUnknownToken(safe, t) <==> ReadTransfer(safe, t) == UnknownToken
    ensures IsDeposit(safe, t) <==> ReadTransfer(safe, t).Deposited?
    ensures IsDeposit(safe, t) ==> ReadTransfer(safe, t) == Deposited(DepositOf(safe, t))
  {
    UnknownExactlyWhen(safe, t);
    if ReadTransfer(safe, t).Deposited? {
      TransferReadExactlyWhen(safe, t, ReadTransfer(safe, t).deposit);
    }
    if IsDeposit(safe, t) {
      TransferReadExactlyWhen(safe, t, DepositOf(safe, t));
    }
  }

  /** All deposits among the transfers, in order. */
  ghost function DepositsAmong(safe: AuditedSafe, ts: seq<EthereumTransfer>): seq<Deposit> {
    if ts == [] then []
    else (if IsDeposit(safe, ts[0]) then [DepositOf(safe, ts[0])] else []) + DepositsAmong(safe, ts[1..])
  }

  /** The transfers before the first one of an unknown token. */
  ghost function Reached(safe: AuditedSafe, ts: seq<EthereumTransfer>): seq<EthereumTransfer> {
    if ts == [] || OfUnknownToken(safe, ts[0]) then []
    else [ts[0]] + Reached(safe, ts[1..])
  }

  /** What is stored are the deposits before the first transfer of an unknown token. */
  lemma {:induction false} StoredAreReached(st: State, safe: AuditedSafe, ts: seq<EthereumTransfer>)
    requires ProcessTransfers(st, safe, ts).Ok?
    ensures ProcessTransfers(st, safe, ts).value.gnosis.deposits
            == st.gnosis.deposits + DepositsAmong(safe, Reached(safe, ts))
    decreases |ts|
  {
    if ts != [] && Incoming(safe, ts[0]) {
      Reading(safe, ts[0]);
    }
    if ts != [] && !OfUnknownToken(safe, ts[0]) {
      assert ([ts[0]] + Reached(safe, ts[1..]))[1..] == Reached(safe, ts[1..]);
      if Incoming(safe, ts[0]) {
        StoredAreReached(StoreDeposit(st, safe, DepositOf(safe, ts[0])).value, safe, ts[1..]);
      } else {
        StoredAreReached(st, safe, ts[1..]);
      }
    }
  }

  /** Some deposit comes after a transfer of an unknown token. */
  ghost predicate LosesDeposit(safe: AuditedSafe, ts: seq<EthereumTransfer>) {
    exists i, j :: 0 <= i < j < |ts| && OfUnknownToken(safe, ts[i]) && IsDeposit(safe, ts[j])
  }

  lemma {:induction false} NoDepositsExactlyWhen(safe: AuditedSafe, ts: seq<EthereumTransfer>)
    ensures DepositsAmong(safe, ts) == [] <==> forall j :: 0 <= j < |ts| ==> !IsDeposit(safe, ts[j])
  {
    if ts != [] {
      NoDepositsExactlyWhen(safe, ts[1..]);
      assert ts == [ts[0]] + ts[1..];
    }
  }

  lemma ReachedFirst(safe: AuditedSafe, ts: seq<EthereumTransfer>)
    requires ts != [] && !OfUnknownToken(safe, ts[0])
    ensures DepositsAmong(safe, Reached(safe, ts)) ==
            (if IsDeposit(safe, ts[0]) then [DepositOf(safe, ts[0])] else [])
            + DepositsAmong(safe, Reached(safe, ts[1..]))
  {
    assert Reached(safe, ts)[1..] == Reached(safe, ts[1..]);
  }

  lemma SameFront(front: seq<Deposit>, a: seq<Deposit>, b: seq<Deposit>)
    requires a <= b
    ensures front + a <= front + b && (front + a == front + b <==> a == b)
  {
    assert (front + a)[|front|..] == a && (front + b)[|front|..] == b;
  }

  /** The transfers reached hold the first of the deposits, and all of them unless one is lost. */
  lemma {:induction false} ReachedDeposits(safe: AuditedSafe, ts: seq<EthereumTransfer>)
    ensures DepositsAmong(safe, Reached(safe, ts)) <= DepositsAmong(safe, ts)
    ensures DepositsAmong(safe, Reached(safe, ts)) == DepositsAmong(safe, ts) <==> !LosesDeposit(safe, ts)
  {
    if ts == [] {
    } else if OfUnknownToken(safe, ts[0]) {
      UnknownIsNoDeposit(safe, ts[0]);
      NoDepositsExactlyWhen(safe, ts);
    } else {
      ReachedDeposits(safe, ts[1..]);
      ReachedFirst(safe, ts);
      SameFront(if IsDeposit(safe, ts[0]) then [DepositOf(safe, ts[0])] else [],
                DepositsAmong(safe, Reached(safe, ts[1..])), DepositsAmong(safe, ts[1..]));
      LosesLater(safe, ts);
    }
  }

  lemma UnknownIsNoDeposit(safe: AuditedSafe, t: EthereumTransfer)
    requires OfUnknownToken(safe, t)
    ensures !IsDeposit(safe, t)
  {
    Reading(safe, t);
  }

  lemma LosesLater(safe: AuditedSafe, ts: seq<EthereumTransfer>)
    requires ts != [] && !OfUnknownToken(safe, ts[0])
    ensures LosesDeposit(safe, ts) <==> LosesDeposit(safe, ts[1..])
  {
    if i, j :| 0 <= i < j < |ts| && OfUnknownToken(safe, ts[i]) && IsDeposit(safe, ts[j]) {
      assert ts[1..][i - 1] == ts[i] && ts[1..][j - 1] == ts[j];
    }
    if i, j :| 0 <= i < j < |ts[1..]| && OfUnknownToken(safe, ts[1..][i]) && IsDeposit(safe, ts[1..][j]) {
      assert ts[1..][i] == ts[i + 1] && ts[1..][j] == ts[j + 1];
    }
  }

  /** Every deposit among the transfers is stored exactly when none comes after a transfer of an unknown token. */
  lemma AllStoredExactlyWhen(st: State, safe: AuditedSafe, ts: seq<EthereumTransfer>)
    requires ProcessTransfers(st, safe, ts).Ok?
    ensures var after := ProcessTransfers(st, safe, ts).value.gnosis.deposits;
            && st.gnosis.deposits <= after <= st.gnosis.deposits + DepositsAmong(safe, ts)
            && (after == st.gnosis.deposits + DepositsAmong(safe, ts) <==> !LosesDeposit(safe, ts))
  {
    StoredAreReached(st, safe, ts);
    ReachedDeposits(safe, ts);
    var stored, among := DepositsAmong(safe, Reached(safe, ts)), DepositsAmong(safe, ts);
    assert (st.gnosis.deposits + stored)[|st.gnosis.deposits|..] == stored;
    assert (st.gnosis.deposits + among)[|st.gnosis.deposits|..] == among;
  }

  /** The same of a whole transaction that is new; one that is not new stores nothing. */
  lemma TransactionStoresAllExactlyWhen(
    st: State, safe: AuditedSafe, raw: RawGnosisTransaction, ts: seq<EthereumTransfer>)
    requires raw.decoded == Some(Ethereum(EthereumTransaction(ts))) && ProcessTx(st, safe, raw).Ok?
    ensures var after := ProcessTx(st, safe, raw).value.gnosis.deposits;
            && st.gnosis.deposits <= after <= st.gnosis.deposits + DepositsAmong(safe, ts)
            && (after == st.gnosis.deposits + DepositsAmong(safe, ts)
                <==>
                DepositsAmong(safe, ts) == [] || (raw.txHash.value !in st.gnosis.safeTxs && !LosesDeposit(safe, ts)))
  {
    var h := raw.txHash.value;
    if h !in st.gnosis.safeTxs {
      AllStoredExactlyWhen(st.(gnosis := st.gnosis.(safeTxs := st.gnosis.safeTxs + {h})), safe, ts);
      NoDepositsExactlyWhen(safe, ts);
    }
  }

  /* What is committed */

  /** Every transfer to the safe can be read. */
  ghost predicate AllReadable(safe: AuditedSafe, ts: seq<EthereumTransfer>) {
    forall i :: 0 <= i < |ts| && Incoming(safe, ts[i]) ==> IsDeposit(safe, ts[i])
  }

  /** The deposits are of stored transactions, and have new and pairwise distinct hashes. */
  ghost predicate Insertable(g: Gnosis, deposits: seq<Deposit>) {
    && (forall i :: 0 <= i < |deposits| ==>
          deposits[i].ethTxHash in g.safeTxs && !DepositTaken(g.deposits, deposits[i].ethTxHash))
    && (forall i, j :: 0 <= i < j < |deposits| ==> deposits[i].ethTxHash != deposits[j].ethTxHash)
  }

  lemma TakenAppend(deposits: seq<Deposit>, d: Deposit, h: EthTxHash)
    ensures DepositTaken(deposits + [d], h) <==> DepositTaken(deposits, h) || d.ethTxHash == h
  {
    assert (deposits + [d])[|deposits|] == d;
    if DepositTaken(deposits, h) {
      var i :| 0 <= i < |deposits| && deposits[i].ethTxHash == h;
      assert (deposits + [d])[i] == deposits[i];
    }
  }

  lemma InsertableSplit(g: Gnosis, d: Deposit, rest: seq<Deposit>)
    ensures Insertable(g, [d] + rest) <==>
            InsertDeposit(g, d).Ok? && Insertable(g.(deposits := g.deposits + [d]), rest)
  {
    var all := [d] + rest;
    var g' := g.(deposits := g.deposits + [d]);
    forall i | 0 <= i < |rest|
      ensures all[i + 1] == rest[i]
      ensures DepositTaken(g'.deposits, rest[i].ethTxHash) <==>
              DepositTaken(g.deposits, rest[i].ethTxHash) || d.ethTxHash == rest[i].ethTxHash
    {
      TakenAppend(g.deposits, d, rest[i].ethTxHash);
    }
    if Insertable(g, all) {
      assert all[0] == d;
      forall i, j | 0 <= i < j < |rest|
        ensures rest[i].ethTxHash != rest[j].ethTxHash
      {
        assert all[i + 1].ethTxHash != all[j + 1].ethTxHash;
      }
    }
    if InsertDeposit(g, d).Ok? && Insertable(g', rest) {
      forall i, j | 0 <= i < j < |all|
        ensures all[i].ethTxHash != all[j].ethTxHash
      {
        assert all[j] == rest[j - 1];
        if i > 0 {
          assert all[i] == rest[i - 1];
        }
      }
    }
  }

  lemma ReadableSplit(safe: AuditedSafe, t: EthereumTransfer, rest: seq<EthereumTransfer>)
    ensures AllReadable(safe, [t] + rest) <==> (Incoming(safe, t) ==> IsDeposit(safe, t)) && AllReadable(safe, rest)
  {
    var all := [t] + rest;
    assert all[0] == t;
    assert forall i :: 0 <= i < |rest| ==> all[i + 1] == rest[i];
  }

  lemma ReachedReadable(safe: AuditedSafe, ts: seq<EthereumTransfer>)
    requires ts != [] && !OfUnknownToken(safe, ts[0])
    ensures AllReadable(safe, Reached(safe, ts)) <==>
            AllReadable(safe, Reached(safe, ts[1..])) && (Incoming(safe, ts[0]) ==> IsDeposit(safe, ts[0]))
  {
    ReadableSplit(safe, ts[0], Reached(safe, ts[1..]));
  }

  lemma ReachedInsertable(g: Gnosis, safe: AuditedSafe, ts: seq<EthereumTransfer>)
    requires ts != [] && !OfUnknownToken(safe, ts[0])
    ensures IsDeposit(safe, ts[0]) ==>
              (Insertable(g, DepositsAmong(safe, Reached(safe, ts))) <==>
               && InsertDeposit(g, DepositOf(safe, ts[0])).Ok?
               && Insertable(g.(deposits := g.deposits + [DepositOf(safe, ts[0])]),
                             DepositsAmong(safe, Reached(safe, ts[1..]))))
    ensures !IsDeposit(safe, ts[0]) ==>
              DepositsAmong(safe, Reached(safe, ts)) == DepositsAmong(safe, Reached(safe, ts[1..]))
  {
    var rest := DepositsAmong(safe, Reached(safe, ts[1..]));
    ReachedFirst(safe, ts);
    if IsDeposit(safe, ts[0]) {
      InsertableSplit(g, DepositOf(safe, ts[0]), rest);
    } else {
      assert [] + rest == rest;
    }
  }

  lemma {:induction false} TransfersAcceptedExactlyWhen(st: State, safe: AuditedSafe, ts: seq<EthereumTransfer>)
    ensures ProcessTransfers(st, safe, ts).Ok? <==>
            AllReadable(safe, Reached(safe, ts)) && Insertable(st.gnosis, DepositsAmong(safe, Reached(safe, ts)))
    decreases |ts|
  {
    if ts != [] && Incoming(safe, ts[0]) {
      Reading(safe, ts[0]);
    }
    if ts != [] && !OfUnknownToken(safe, ts[0]) {
      ReachedReadable(safe, ts);
      ReachedInsertable(st.gnosis, safe, ts);
      if IsDeposit(safe, ts[0]) {
        var d := DepositOf(safe, ts[0]);
        if StoreDeposit(st, safe, d).Ok? {
          TransfersAcceptedExactlyWhen(StoreDeposit(st, safe, d).value, safe, ts[1..]);
        }
      } else if !Incoming(safe, ts[0]) {
        TransfersAcceptedExactlyWhen(st, safe, ts[1..]);
      }
    }
  }

  /** A batch is one of three things: no withdrawal, a withdrawal of its own hash, or a panic. */
  lemma BatchReading(safe: AuditedSafe, tx: MultiSigTransaction)
    ensures ParseWithdrawal(safe, tx) == Invalid <==> IsNoWithdrawal(safe, tx)
    ensures ParseWithdrawal(safe, tx).Withdrawn? <==> exists w :: RecordsWithdrawal(safe, tx, w)
    ensures ParseWithdrawal(safe, tx).Withdrawn? ==>
              RecordsWithdrawal(safe, tx, ParseWithdrawal(safe, tx).withdrawal)
    ensures forall w :: RecordsWithdrawal(safe, tx, w) ==> ParseWithdrawal(safe, tx) == Withdrawn(w)
  {
    RejectedExactlyWhen(safe, tx);
    forall w
      ensures ParseWithdrawal(safe, tx) == Withdrawn(w) <==> RecordsWithdrawal(safe, tx, w)
    {
      WithdrawalReadExactlyWhen(safe, tx, w);
    }
  }

  /** What a new transaction must bring to be committed; `g` has its hash already. */
  ghost predicate AcceptableContent(g: Gnosis, safe: AuditedSafe, tx: Transaction) {
    match tx
    case Ethereum(eth) =>
      && AllReadable(safe, Reached(safe, eth.transfers))
      && Insertable(g, DepositsAmong(safe, Reached(safe, eth.transfers)))
    case MultiSig(multiSig) =>
      SameAddr(multiSig.safe, safe.safeAddr) ==>
        || IsNoWithdrawal(safe, multiSig)
        || ((exists w :: RecordsWithdrawal(safe, multiSig, w))
            && !WithdrawalTaken(g.withdrawals, multiSig.txHash) && multiSig.txHash in g.safeTxs)
    case Module => true
  }

  ghost predicate AcceptableTx(g: Gnosis, safe: AuditedSafe, raw: RawGnosisTransaction) {
    && raw.txHash.Some?
    && (raw.txHash.value in g.safeTxs
        || (raw.decoded.Some?
            && AcceptableContent(g.(safeTxs := g.safeTxs + {raw.txHash.value}), safe, raw.decoded.value)))
  }

  /**
    * A Gnosis transaction is committed exactly when it has a hash and was seen before, or decodes and every transfer
    * to the safe before one of an unknown token can be read and has a new hash of its own, or its withdrawal is new.
    */
  lemma ProcessTxSucceedsExactlyWhen(st: State, safe: AuditedSafe, raw: RawGnosisTransaction)
    ensures ProcessTx(st, safe, raw).Ok? <==> AcceptableTx(st.gnosis, safe, raw)
  {
    if raw.txHash.Some? && raw.txHash.value !in st.gnosis.safeTxs && raw.decoded.Some? {
      var inserted := st.(gnosis := st.gnosis.(safeTxs := st.gnosis.safeTxs + {raw.txHash.value}));
      match raw.decoded.value
      case Ethereum(eth) => TransfersAcceptedExactlyWhen(inserted, safe, eth.transfers);
      case MultiSig(multiSig) =>
        BatchReading(safe, multiSig);
      case Module =>
    }
  }

  /* A transaction that can never be committed */

  /** Two deposits of one hash, which a UNIQUE column forbids, or a transfer that cannot be read. */
  ghost predicate NeverInsertable(safe: AuditedSafe, ts: seq<EthereumTransfer>) {
    || !AllReadable(safe, Reached(safe, ts))
    || exists i, j :: 0 <= i < j < |DepositsAmong(safe, Reached(safe, ts))|
         && DepositsAmong(safe, Reached(safe, ts))[i].ethTxHash == DepositsAmong(safe, Reached(safe, ts))[j].ethTxHash
  }

  lemma NeverCommitted(st: State, safe: AuditedSafe, raw: RawGnosisTransaction, ts: seq<EthereumTransfer>)
    requires raw.decoded == Some(Ethereum(EthereumTransaction(ts))) && NeverInsertable(safe, ts)
    ensures ProcessTx(st, safe, raw).Ok? <==> raw.txHash.Some? && raw.txHash.value in st.gnosis.safeTxs
  {
    ProcessTxSucceedsExactlyWhen(st, safe, raw);
  }

  /** Such a transaction stops every poll that reaches it: nothing listed after it is ever processed. */
  lemma NeverCommittedBlocksPolls(
    st: State, safe: AuditedSafe, before: seq<RawGnosisTransaction>, raw: RawGnosisTransaction,
    after: seq<RawGnosisTransaction>, ts: seq<EthereumTransfer>)
    requires raw.decoded == Some(Ethereum(EthereumTransaction(ts))) && NeverInsertable(safe, ts)
    ensures var p := ProcessTransactions(st, safe, before);
            raw.txHash.None? || raw.txHash.value !in p.state.gnosis.safeTxs ==>
              ProcessTransactions(st, safe, before + [raw] + after) == Polled(p.state, false)
  {
    PollConcat(st, safe, before, [raw] + after);
    assert before + [raw] + after == before + ([raw] + after);
    NeverCommitted(ProcessTransactions(st, safe, before).state, safe, raw, ts);
  }

  /* One transaction, two safes */

  /** The stored deposits to a safe. */
  ghost function DepositsTo(safe: AuditedSafe, deposits: seq<Deposit>): seq<Deposit> {
    if deposits == [] then []
    else
      DepositsTo(safe, deposits[..|deposits| - 1]) +
      if SameAddr(deposits[|deposits| - 1].safeAddr, safe.safeAddr) then [deposits[|deposits| - 1]] else []
  }

  lemma DepositsToAppend(safe: AuditedSafe, deposits: seq<Deposit>, d: Deposit)
    ensures DepositsTo(safe, deposits + [d]) ==
            DepositsTo(safe, deposits) + if SameAddr(d.safeAddr, safe.safeAddr) then [d] else []
  {
    assert (deposits + [d])[..|deposits|] == deposits;
  }

  lemma StoreDepositForOneSafe(st: State, first: AuditedSafe, second: AuditedSafe, d: Deposit)
    requires !SameAddr(first.safeAddr, second.safeAddr) && SameAddr(d.safeAddr, first.safeAddr)
    requires StoreDeposit(st, first, d).Ok?
    ensures DepositsTo(second, StoreDeposit(st, first, d).value.gnosis.deposits)
            == DepositsTo(second, st.gnosis.deposits)
  {
    DepositsToAppend(second, st.gnosis.deposits, d);
  }

  /** The thread of one safe never stores a deposit to another. */
  lemma {:induction false} TransfersStoreForOneSafe(
    st: State, first: AuditedSafe, second: AuditedSafe, ts: seq<EthereumTransfer>)
    requires !SameAddr(first.safeAddr, second.safeAddr) && ProcessTransfers(st, first, ts).Ok?
    ensures DepositsTo(second, ProcessTransfers(st, first, ts).value.gnosis.deposits)
            == DepositsTo(second, st.gnosis.deposits)
    decreases |ts|
  {
    if ts != [] && Incoming(first, ts[0]) {
      Reading(first, ts[0]);
    }
    if ts == [] || OfUnknownToken(first, ts[0]) {
    } else if !Incoming(first, ts[0]) {
      TransfersStoreForOneSafe(st, first, second, ts[1..]);
    } else {
      var d := DepositOf(first, ts[0]);
      StoreDepositForOneSafe(st, first, second, d);
      TransfersStoreForOneSafe(StoreDeposit(st, first, d).value, first, second, ts[1..]);
    }
  }

  lemma SecondSafeGetsNothing(
    st: State, first: AuditedSafe, second: AuditedSafe, raw: RawGnosisTransaction, ts: seq<EthereumTransfer>)
    requires raw.decoded == Some(Ethereum(EthereumTransaction(ts)))
    requires !SameAddr(first.safeAddr, second.safeAddr) && ProcessTx(st, first, raw).Ok?
    ensures DepositsTo(second, ProcessTx(st, first, raw).value.gnosis.deposits)
            == DepositsTo(second, st.gnosis.deposits)
  {
    var h := raw.txHash.value;
    if h !in st.gnosis.safeTxs {
      TransfersStoreForOneSafe(st.(gnosis := st.gnosis.(safeTxs := st.gnosis.safeTxs + {h})), first, second, ts);
    }
  }

  /**
    * De-duplication is by hash across all safes: once the thread of one safe has committed a new transaction, the
    * thread of another skips it for ever, so the other safe has its deposits exactly when there are none to have.
    */
  lemma SecondSafeServedExactlyWhen(
    st: State, first: AuditedSafe, second: AuditedSafe, raw: RawGnosisTransaction, ts: seq<EthereumTransfer>)
    requires raw.decoded == Some(Ethereum(EthereumTransaction(ts)))
    requires !SameAddr(first.safeAddr, second.safeAddr) && ProcessTx(st, first, raw).Ok?
    requires raw.txHash.value !in st.gnosis.safeTxs
    ensures var next := ProcessTx(st, first, raw).value;
            && ProcessTx(next, second, raw) == Ok(next)
            && (DepositsTo(second, next.gnosis.deposits)
                == DepositsTo(second, st.gnosis.deposits) + DepositsAmong(second, ts)
                <==> DepositsAmong(second, ts) == [])
  {
    ProcessTxRemembers(st, first, raw);
    SecondSafeGetsNothing(st, first, second, raw, ts);
  }
}
