/** Concrete runs that show what the general theorems leave possible. */
module Scenario {
  import opened Wrappers
  import opened Numbers
  import opened EthDataTypes
  import opened SafeConfig
  import opened ApiDataTypes
  import opened Tables
  import opened BalanceWalk
  import opened LedgerSync
  import opened LedgerInvariant
  import opened WithdrawalParsing
  import opened Decimal
  import opened GnosisIngest
  import opened GnosisUtils
  import opened GnosisAcceptance
  import opened Runs
  import opened AuditTheorems
  import opened BurnOrder
  import BM = BurnMatching
  import BI = BurnAuditInvariant
  import LedgerAcceptance
  import LedgerContents
  import History
  import LedgerTheorems
  import MintConfigLookup
  import Hex
  import MintTxNonce

  /* A configuration: two safes, each auditing one token */

  const SAFE_ADDR := EthAddr("0x5afe000000000000000000000000000000000001")
  const SECOND_ADDR := EthAddr("0x5afe000000000000000000000000000000000002")
  const TOKEN_ADDR := EthAddr("0xa000000000000000000000000000000000000001")
  const OTHER_ADDR := EthAddr("0xb000000000000000000000000000000000000001")
  const AUX_ADDR := EthAddr("0xc000000000000000000000000000000000000001")

  const TOKEN := AuditedToken(1, [TOKEN_ADDR], 6, AUX_ADDR, [0xc7, 0x6f, 0x06, 0x35])
  const SAFE := AuditedSafe(SAFE_ADDR, [TOKEN], 6)
  const SECOND := AuditedSafe(SECOND_ADDR, [TOKEN], 6)
  const CONFIG := Config([SAFE, SECOND])

  function Bytes32(n: U8): (b: seq<U8>)
    ensures |b| == 32 && b[0] == n
  {
    seq(32, _ => n)
  }

  lemma OtherLetter(a: EthAddr, b: EthAddr, i: nat)
    requires i < |a.text| && i < |b.text| && LowerChar(a.text[i]) != LowerChar(b.text[i])
    ensures !SameAddr(a, b)
  {
    assert Lower(a.text)[i] == LowerChar(a.text[i]) && Lower(b.text)[i] == LowerChar(b.text[i]);
  }

  lemma SafesDiffer()
    ensures !SameAddr(SAFE_ADDR, SECOND_ADDR) && !SameAddr(SECOND_ADDR, SAFE_ADDR) && DistinctSafes(CONFIG)
  {
    assert SAFE_ADDR.text[41] == '1' && SECOND_ADDR.text[41] == '2';
    OtherLetter(SAFE_ADDR, SECOND_ADDR, 41);
    OtherLetter(SECOND_ADDR, SAFE_ADDR, 41);
  }

  lemma OnlyTokenFound(token: AuditedToken, tokenAddr: EthAddr, other: EthAddr)
    requires token.ethTokenContractAddrs == [tokenAddr] && !SameAddr(tokenAddr, other)
    ensures FindToken([token], tokenAddr) == Some(token) && FindToken([token], other) == None
  {
    assert SameAddr(token.ethTokenContractAddrs[0], tokenAddr);
    assert FindToken([token][1..], other) == None;
  }

  lemma TokensKnown()
    ensures FindToken([TOKEN], TOKEN_ADDR) == Some(TOKEN) && FindToken([TOKEN], OTHER_ADDR) == None
    ensures FirstListing([TOKEN], TOKEN_ADDR, TOKEN) && !Lists(TOKEN, OTHER_ADDR)
  {
    FindTokenExactlyWhen([TOKEN], TOKEN_ADDR, TOKEN);
    FindTokenExactlyWhen([TOKEN], OTHER_ADDR, TOKEN);
    assert [TOKEN][0] == TOKEN;
    assert TOKEN_ADDR.text[2] == 'a' && OTHER_ADDR.text[2] == 'b';
    OtherLetter(TOKEN_ADDR, OTHER_ADDR, 2);
    OnlyTokenFound(TOKEN, TOKEN_ADDR, OTHER_ADDR);
  }

  function Moved(to: EthAddr, tokenAddr: EthAddr, hash: EthTxHash, value: U64): EthereumTransfer {
    EthereumTransfer(to, Some(tokenAddr), hash, Some(value))
  }

  /* Two withdrawals on one key */

  const KEY := Bytes32(9)
  const BURNING := Block(0, [], [], [CoreTxOut(KEY, [])])
  const BURN := BurnTxOut(0, 1, 5, Hex.Encode(KEY))

  /** The burn account opens every output as five units of the token; unordered queries list the oldest row first. */
  const OLDEST_FIRST := Oracles((_, _) => true, _ => Some(TokenAmount(1, 5)), _ => 0)

  function Batch(n: U8, amountText: string): MultiSigTransaction {
    DocumentedBatch(SAFE, TOKEN, TOKEN_ADDR, OTHER_ADDR, amountText, KEY, Bytes32(n),
                    Moved(OTHER_ADDR, TOKEN_ADDR, Bytes32(n), 5))
  }

  function RawBatch(n: U8, amountText: string): RawGnosisTransaction {
    RawGnosisTransaction(Some(Bytes32(n)), Some(MultiSig(Batch(n, amountText))))
  }

  function WithdrawalOf(n: U8, amount: U64): Withdrawal {
    Withdrawal(Bytes32(n), 5, SAFE_ADDR, TOKEN_ADDR, amount, Hex.Encode(KEY))
  }

  lemma AmountsAreRead()
    ensures Denotes("4", 4) && Denotes("5", 5)
    ensures IsWorth(4, 6, 6, 4) && IsWorth(5, 6, 6, 5)
  {
    assert Numeral(4) == "4" && Numeral(5) == "5";
    NumeralDenotes(4);
    NumeralDenotes(5);
    OneUnit(6, 6);
  }

  lemma WithdrawalIsIngested(
    config: Config, g: Gnosis, safe: AuditedSafe, h: EthTxHash, tx: MultiSigTransaction, w: Withdrawal)
    requires safe in config.safes && SameAddr(tx.safe, safe.safeAddr)
    requires ParseWithdrawal(safe, tx) == Withdrawn(w) && w.ethTxHash == h
    requires h !in g.safeTxs && !WithdrawalTaken(g.withdrawals, h)
    ensures var after := IngestOne(config, g, safe, RawGnosisTransaction(Some(h), Some(MultiSig(tx))));
            after.withdrawals == g.withdrawals + [w] && after.safeTxs == g.safeTxs + {h}
  {
  }

  /** A new batch of the safe becomes one more withdrawal. */
  lemma BatchIsIngested(g: Gnosis, n: U8, amountText: string, amount: U64)
    requires Bytes32(n) !in g.safeTxs && !WithdrawalTaken(g.withdrawals, Bytes32(n))
    requires Denotes(amountText, amount) && IsWorth(amount, 6, 6, amount)
    ensures var after := IngestOne(CONFIG, g, SAFE, RawBatch(n, amountText));
            after.withdrawals == g.withdrawals + [WithdrawalOf(n, amount)] && after.safeTxs == g.safeTxs + {Bytes32(n)}
  {
    TokensKnown();
    DocumentedBatchIsRead(SAFE, TOKEN, TOKEN_ADDR, OTHER_ADDR, amountText, KEY, Bytes32(n),
                          Moved(OTHER_ADDR, TOKEN_ADDR, Bytes32(n), 5), amount, amount);
    assert CONFIG.safes[0] == SAFE;
    WithdrawalIsIngested(CONFIG, g, SAFE, Bytes32(n), Batch(n, amountText), WithdrawalOf(n, amount));
  }

  const WRONG_THEN_RIGHT := [(SAFE, RawBatch(1, "4")), (SAFE, RawBatch(2, "5"))]

  lemma IngestAppend(
    config: Config, txs: seq<(AuditedSafe, RawGnosisTransaction)>, safe: AuditedSafe, raw: RawGnosisTransaction)
    ensures Ingest(config, txs + [(safe, raw)]) == IngestOne(config, Ingest(config, txs), safe, raw)
  {
    assert (txs + [(safe, raw)])[..|txs|] == txs;
  }

  lemma FirstWithdrawalStored()
    ensures var g := Ingest(CONFIG, [(SAFE, RawBatch(1, "4"))]);
            g.withdrawals == [WithdrawalOf(1, 4)] && g.safeTxs == {Bytes32(1)}
  {
    AmountsAreRead();
    IngestAppend(CONFIG, [], SAFE, RawBatch(1, "4"));
    assert [] + [(SAFE, RawBatch(1, "4"))] == [(SAFE, RawBatch(1, "4"))];
    BatchIsIngested(EMPTY_GNOSIS, 1, "4", 4);
  }

  lemma SecondWithdrawalIsNew(g: Gnosis)
    requires g.withdrawals == [WithdrawalOf(1, 4)] && g.safeTxs == {Bytes32(1)}
    ensures Bytes32(2) !in g.safeTxs && !WithdrawalTaken(g.withdrawals, Bytes32(2))
  {
    assert Bytes32(1)[0] != Bytes32(2)[0];
  }

  lemma BothWithdrawalsStored()
    ensures Ingest(CONFIG, WRONG_THEN_RIGHT).withdrawals == [WithdrawalOf(1, 4), WithdrawalOf(2, 5)]
  {
    FirstWithdrawalStored();
    SecondIsIngested(Ingest(CONFIG, [(SAFE, RawBatch(1, "4"))]));
    IngestAppend(CONFIG, [(SAFE, RawBatch(1, "4"))], SAFE, RawBatch(2, "5"));
    assert [(SAFE, RawBatch(1, "4"))] + [(SAFE, RawBatch(2, "5"))] == WRONG_THEN_RIGHT;
  }

  lemma SecondIsIngested(g: Gnosis)
    requires g.withdrawals == [WithdrawalOf(1, 4)] && g.safeTxs == {Bytes32(1)}
    ensures IngestOne(CONFIG, g, SAFE, RawBatch(2, "5")).withdrawals == [WithdrawalOf(1, 4), WithdrawalOf(2, 5)]
  {
    AmountsAreRead();
    SecondWithdrawalIsNew(g);
    BatchIsIngested(g, 2, "5", 5);
  }

  lemma BurningHasOneBurn()
    ensures BurnsIn(OLDEST_FIRST, 0, BURNING.outputs) == [BURN]
    ensures LedgerAcceptance.Acceptable(OLDEST_FIRST, EMPTY_LEDGER, BURNING)
  {
    assert BURNING.outputs[1..] == [];
    assert BurnsIn(OLDEST_FIRST, 0, []) == [];
    assert [BURN][1..] == [];
    assert LedgerAcceptance.BurnKeys([BURN]) == [BURN.publicKeyHex];
  }

  lemma BurnIsStored()
    ensures Scan(OLDEST_FIRST, [BURNING]).burnTxOuts == [BURN]
  {
    EmptyLedgerOk(OLDEST_FIRST);
    BurningHasOneBurn();
    LedgerAcceptance.SyncBlockSucceedsExactlyWhen(OLDEST_FIRST, EMPTY_LEDGER, BURNING);
    LedgerContents.BlockAppendsBurns(OLDEST_FIRST, EMPTY_LEDGER, BURNING);
    assert [BURNING][..0] == [];
    assert Scan(OLDEST_FIRST, []) == EMPTY_LEDGER;
  }

  const BURN_FIRST :=
    [LedgerBlock(BURNING), SafeTx(SAFE, RawBatch(1, "4")), SafeTx(SAFE, RawBatch(2, "5"))]
  const BURN_LAST :=
    [SafeTx(SAFE, RawBatch(1, "4")), SafeTx(SAFE, RawBatch(2, "5")), LedgerBlock(BURNING)]

  lemma EventOfOneBlock(block: Block)
    ensures OfBlocks([block]) == [LedgerBlock(block)]
  {
  }

  lemma EventsOfTwoTxs(s: AuditedSafe, first: RawGnosisTransaction, t: AuditedSafe, second: RawGnosisTransaction)
    ensures OfSafeTxs([(s, first), (t, second)]) == [SafeTx(s, first), SafeTx(t, second)]
  {
  }

  lemma EventsOfScenario()
    ensures BURN_FIRST == OfBlocks([BURNING]) + OfSafeTxs(WRONG_THEN_RIGHT)
    ensures BURN_LAST == OfSafeTxs(WRONG_THEN_RIGHT) + OfBlocks([BURNING])
  {
    EventOfOneBlock(BURNING);
    EventsOfTwoTxs(SAFE, RawBatch(1, "4"), SAFE, RawBatch(2, "5"));
  }

  lemma PartsOfScenario()
    ensures Blocks(BURN_FIRST) == [BURNING] && SafeTxs(BURN_FIRST) == WRONG_THEN_RIGHT
    ensures BlocksFirst(BURN_FIRST) == BURN_FIRST && BlocksLast(BURN_FIRST) == BURN_LAST
  {
    EventsOfScenario();
    PartsOfBlocks([BURNING]);
    PartsOfSafeTxs(WRONG_THEN_RIGHT);
    PartsOfConcat(OfBlocks([BURNING]), OfSafeTxs(WRONG_THEN_RIGHT));
  }

  lemma ScenarioTables(events: seq<Event>)
    requires Blocks(events) == [BURNING] && SafeTxs(events) == WRONG_THEN_RIGHT
    ensures var st := Run(OLDEST_FIRST, CONFIG, events);
            st.ledger.burnTxOuts == [BURN] && st.gnosis.withdrawals == [WithdrawalOf(1, 4), WithdrawalOf(2, 5)]
  {
    LedgerIsScan(OLDEST_FIRST, CONFIG, events);
    GnosisIsIngest(OLDEST_FIRST, CONFIG, events);
    BurnIsStored();
    BothWithdrawalsStored();
  }

  /** Of the two withdrawals, only the second agrees with the burn. */
  lemma OnlySecondAgrees(st: State)
    requires st.ledger.burnTxOuts == [BURN] && st.gnosis.withdrawals == [WithdrawalOf(1, 4), WithdrawalOf(2, 5)]
    ensures forall i: nat, j: nat :: Agrees(CONFIG, st, i, j) <==> i == 0 && j == 1
  {
    TokensKnown();
    assert SAFE in CONFIG.safes && SameAddr(SAFE_ADDR, SAFE.safeAddr);
    assert TokenOf(CONFIG, SAFE_ADDR, TOKEN_ADDR, TOKEN);
    assert Covers(CONFIG, BURN, WithdrawalOf(2, 5));
  }

  lemma OneRowAtMost(o: Oracles, events: seq<Event>, j: nat)
    requires forall i: nat, k: nat :: Agrees(CONFIG, Run(o, CONFIG, events), i, k) <==> i == 0 && k == j
    requires 0 in PairedBurns(Run(o, CONFIG, events))
    ensures Run(o, CONFIG, events).burnAudit.auditedBurns == [AuditedBurn(0, j)]
  {
    SafesDiffer();
    BurnAuditIsSound(o, CONFIG, events);
    var rows := Run(o, CONFIG, events).burnAudit.auditedBurns;
    forall k | 0 <= k < |rows|
      ensures rows[k] == AuditedBurn(0, j)
    {
      RowAgrees(o, CONFIG, events, rows[k]);
    }
    assert |rows| > 1 ==> rows[0].burnTxOutId != rows[1].burnTxOutId;
  }

  lemma BurnFirstIsPaired()
    ensures Run(OLDEST_FIRST, CONFIG, BURN_FIRST).burnAudit.auditedBurns == [AuditedBurn(0, 1)]
  {
    SafesDiffer();
    PartsOfScenario();
    ScenarioTables(BURN_FIRST);
    OnlySecondAgrees(Run(OLDEST_FIRST, CONFIG, BURN_FIRST));
    BlocksFirstPairsBurn(OLDEST_FIRST, CONFIG, BURN_FIRST, 0, 1);
    OneRowAtMost(OLDEST_FIRST, BURN_FIRST, 1);
  }

  lemma CandidatesOfTwo(first: Withdrawal, second: Withdrawal)
    requires first.publicKeyHex == second.publicKeyHex
    ensures BM.Candidates([first, second], [], first.publicKeyHex) == [0, 1]
  {
    var both := [first, second];
    assert both[..1] == [first] && [first][..0] == [];
    assert BM.Candidates([first], [], first.publicKeyHex) == [0];
  }

  lemma FirstIsTried(first: Withdrawal, second: Withdrawal)
    requires first.publicKeyHex == second.publicKeyHex
    ensures BI.Tried(OLDEST_FIRST, [first, second], [], first.publicKeyHex) == 0
  {
    CandidatesOfTwo(first, second);
  }

  /** A burn that was only tried against a withdrawal that does not agree is not audited. */
  lemma NoRowWithoutAgreement(o: Oracles, events: seq<Event>, tried: nat)
    requires StateOnlyTried(o, Run(o, CONFIG, events)) && Run(o, CONFIG, events).ledger.burnTxOuts == [BURN]
    requires BI.Tried(o, Run(o, CONFIG, events).gnosis.withdrawals, [], BURN.publicKeyHex) == tried
    requires !Agrees(CONFIG, Run(o, CONFIG, events), 0, tried)
    ensures Run(o, CONFIG, events).burnAudit.auditedBurns == []
  {
    SafesDiffer();
    var rows := Run(o, CONFIG, events).burnAudit.auditedBurns;
    if rows != [] {
      RowAgrees(o, CONFIG, events, rows[0]);
      assert false;
    }
  }

  lemma BurnLastIsNotPaired()
    ensures Run(OLDEST_FIRST, CONFIG, BURN_LAST).burnAudit.auditedBurns == []
  {
    SafesDiffer();
    PartsOfScenario();
    BothAreRearranged(BURN_FIRST);
    ScenarioTables(BURN_LAST);
    OnlySecondAgrees(Run(OLDEST_FIRST, CONFIG, BURN_LAST));
    BlocksLastOnlyTries(OLDEST_FIRST, CONFIG, BURN_FIRST);
    FirstIsTried(WithdrawalOf(1, 4), WithdrawalOf(2, 5));
    NoRowWithoutAgreement(OLDEST_FIRST, BURN_LAST, 0);
  }

  /**
    * Two runs of the same block and the same two withdrawals, of which only the second agrees with the burn: the
    * burn is paired when it arrives first, and never when it arrives last.
    */
  lemma SharedKeyPairingDependsOnOrder()
    ensures Rearranged(BURN_FIRST, BURN_LAST)
    ensures Run(OLDEST_FIRST, CONFIG, BURN_FIRST).burnAudit.auditedBurns == [AuditedBurn(0, 1)]
    ensures Run(OLDEST_FIRST, CONFIG, BURN_LAST).burnAudit.auditedBurns == []
  {
    PartsOfScenario();
    BothAreRearranged(BURN_FIRST);
    BurnFirstIsPaired();
    BurnLastIsNotPaired();
  }

  /* A batch with two transfers */

  lemma TotalOfTwo(first: EthereumTransfer, second: EthereumTransfer)
    requires first.value.Some? && second.value.Some?
    ensures TotalValue([first, second]) == first.value.value + second.value.value
  {
    assert [first, second][1..] == [second] && [second][1..] == [];
    assert TotalValue([second]) == second.value.value;
  }

  lemma SecondTransferIsIgnored(first: EthereumTransfer, second: EthereumTransfer)
    requires first == Moved(OTHER_ADDR, TOKEN_ADDR, Bytes32(2), 5)
    ensures ParseWithdrawal(SAFE, Batch(2, "5").(transfers := [first, second])) == Withdrawn(WithdrawalOf(2, 5))
  {
    TokensKnown();
    AmountsAreRead();
    assert [first] + [second] == [first, second];
    FurtherTransfersAreIgnored(SAFE, TOKEN, TOKEN_ADDR, OTHER_ADDR, "5", KEY, Bytes32(2), first, [second],
                               5, 5);
  }

  /** It is read as a withdrawal that states the value of the first transfer, five of the twelve that were moved. */
  lemma TwoTransfersAreRead()
    ensures var first := Moved(OTHER_ADDR, TOKEN_ADDR, Bytes32(2), 5);
            var second := Moved(OTHER_ADDR, TOKEN_ADDR, Bytes32(2), 7);
            && TotalValue([first, second]) == 12
            && ParseWithdrawal(SAFE, Batch(2, "5").(transfers := [first, second])) == Withdrawn(WithdrawalOf(2, 5))
            && WithdrawalOf(2, 5).ethTxValue == 5
  {
    var first, second := Moved(OTHER_ADDR, TOKEN_ADDR, Bytes32(2), 5), Moved(OTHER_ADDR, TOKEN_ADDR, Bytes32(2), 7);
    TotalOfTwo(first, second);
    SecondTransferIsIgnored(first, second);
  }

  /* A deposit behind a transfer of an unknown token, two deposits of one hash, a payment to two safes */

  const UNKNOWN_THEN_DEPOSIT :=
    [Moved(SAFE_ADDR, OTHER_ADDR, Bytes32(3), 1), Moved(SAFE_ADDR, TOKEN_ADDR, Bytes32(3), 5)]
  const TWO_DEPOSITS :=
    [Moved(SAFE_ADDR, TOKEN_ADDR, Bytes32(4), 1), Moved(SAFE_ADDR, TOKEN_ADDR, Bytes32(4), 5)]
  const TWO_SAFES :=
    [Moved(SAFE_ADDR, TOKEN_ADDR, Bytes32(5), 1), Moved(SECOND_ADDR, TOKEN_ADDR, Bytes32(5), 5)]

  function RawTransfers(n: U8, transfers: seq<EthereumTransfer>): RawGnosisTransaction {
    RawGnosisTransaction(Some(Bytes32(n)), Some(Ethereum(EthereumTransaction(transfers))))
  }

  lemma DepositIsRead(safe: AuditedSafe, hash: EthTxHash, value: U64)
    requires safe.tokens == [TOKEN] && safe.tokenDecimalsMax == 6
    ensures var t := Moved(safe.safeAddr, TOKEN_ADDR, hash, value);
            IsDeposit(safe, t) && DepositOf(safe, t).ethTxHash == hash
  {
    var t := Moved(safe.safeAddr, TOKEN_ADDR, hash, value);
    TokensKnown();
    OneUnit(6, 6);
    assert RecordsDeposit(safe, t, Deposit(hash, value, safe.safeAddr, TOKEN_ADDR, value,
                                           Hex.Encode(MintTxNonce.Bytes(hash))));
  }

  lemma UnknownIsRead(safe: AuditedSafe, hash: EthTxHash, value: U64)
    requires safe.tokens == [TOKEN]
    ensures OfUnknownToken(safe, Moved(safe.safeAddr, OTHER_ADDR, hash, value))
  {
    TokensKnown();
  }

  /** A transaction with one deposit leaves no deposit at all, however often it is polled and whatever comes between. */
  lemma DepositIsLost(o: Oracles, more: seq<Event>)
    ensures var e := SafeTx(SAFE, RawTransfers(3, UNKNOWN_THEN_DEPOSIT));
            && |DepositsAmong(SAFE, UNKNOWN_THEN_DEPOSIT)| == 1
            && Run(o, CONFIG, [e]).gnosis.deposits == []
            && Run(o, CONFIG, [e] + more + [e]) == Run(o, CONFIG, [e] + more)
  {
    var ts := UNKNOWN_THEN_DEPOSIT;
    var raw := RawTransfers(3, ts);
    var e := SafeTx(SAFE, raw);
    UnknownIsRead(SAFE, Bytes32(3), 1);
    DepositIsRead(SAFE, Bytes32(3), 5);
    assert ts[1..][0] == ts[1] && ts[1..][1..] == [];
    assert !IsDeposit(SAFE, ts[0]);
    RunAppend(o, CONFIG, [], e);
    assert [] + [e] == [e] && SAFE in CONFIG.safes;
    ProcessTxSucceedsExactlyWhen(EMPTY_STATE, SAFE, raw);
    assert Reached(SAFE, ts) == [];
    StoredAreReached(EMPTY_STATE.(gnosis := EMPTY_GNOSIS.(safeTxs := {Bytes32(3)})), SAFE, ts);
    ProcessTxRemembers(EMPTY_STATE, SAFE, raw);
    History.CommittedOnceForAll(o, CONFIG, [e], more, SAFE, raw);
  }

  /** One transaction with two deposits is rejected by every poll, and stops it. */
  lemma TwoDepositsBlockPolls(st: State, before: seq<RawGnosisTransaction>, after: seq<RawGnosisTransaction>)
    ensures var p := ProcessTransactions(st, SAFE, before);
            Bytes32(4) !in p.state.gnosis.safeTxs ==>
              ProcessTransactions(st, SAFE, before + [RawTransfers(4, TWO_DEPOSITS)] + after) == Polled(p.state, false)
  {
    var ts := TWO_DEPOSITS;
    DepositIsRead(SAFE, Bytes32(4), 1);
    DepositIsRead(SAFE, Bytes32(4), 5);
    assert ts[1..] == [ts[1]] && [ts[1]][1..] == [];
    assert Reached(SAFE, [ts[1]]) == [ts[1]];
    assert Reached(SAFE, ts) == ts;
    assert DepositsAmong(SAFE, [ts[1]]) == [DepositOf(SAFE, ts[1])];
    assert DepositsAmong(SAFE, ts)[0].ethTxHash == DepositsAmong(SAFE, ts)[1].ethTxHash;
    NeverCommittedBlocksPolls(st, SAFE, before, RawTransfers(4, ts), after, ts);
  }

  lemma SecondSafeHasDeposit()
    ensures |DepositsAmong(SECOND, TWO_SAFES)| == 1
  {
    var ts := TWO_SAFES;
    SafesDiffer();
    DepositIsRead(SECOND, Bytes32(5), 5);
    assert ts[1..] == [ts[1]] && [ts[1]][1..] == [];
    assert DepositsAmong(SECOND, [ts[1]]) == [DepositOf(SECOND, ts[1])];
  }

  lemma RunOfOne(o: Oracles, safe: AuditedSafe, raw: RawGnosisTransaction)
    requires safe in CONFIG.safes && ProcessTx(EMPTY_STATE, safe, raw).Ok?
    ensures Run(o, CONFIG, [SafeTx(safe, raw)]) == ProcessTx(EMPTY_STATE, safe, raw).value
  {
    assert [] + [SafeTx(safe, raw)] == [SafeTx(safe, raw)];
    RunAppend(o, CONFIG, [], SafeTx(safe, raw));
  }

  /** One transaction that pays both safes is stored for the one that polls first, and never for the other. */
  lemma SecondSafeIsNotServed(o: Oracles, more: seq<Event>)
    ensures var raw := RawTransfers(5, TWO_SAFES);
            var first := [SafeTx(SAFE, raw)];
            && |DepositsAmong(SECOND, TWO_SAFES)| == 1
            && DepositsTo(SECOND, Run(o, CONFIG, first).gnosis.deposits) == []
            && Run(o, CONFIG, first + more + [SafeTx(SECOND, raw)]) == Run(o, CONFIG, first + more)
  {
    var raw := RawTransfers(5, TWO_SAFES);
    SafesDiffer();
    SecondSafeHasDeposit();
    FirstSafeCommits();
    assert CONFIG.safes[0] == SAFE;
    RunOfOne(o, SAFE, raw);
    SecondSafeGetsNothing(EMPTY_STATE, SAFE, SECOND, raw, TWO_SAFES);
    ProcessTxRemembers(EMPTY_STATE, SAFE, raw);
    History.CommittedOnceForAll(o, CONFIG, [SafeTx(SAFE, raw)], more, SECOND, raw);
  }

  lemma OneDepositAmongTwo(safe: AuditedSafe, t: EthereumTransfer, u: EthereumTransfer)
    requires IsDeposit(safe, t) && !Incoming(safe, u)
    ensures Reached(safe, [t, u]) == [t, u] && AllReadable(safe, [t, u])
    ensures DepositsAmong(safe, [t, u]) == [DepositOf(safe, t)]
  {
    assert [t, u][1..] == [u] && [u][1..] == [];
    assert Reached(safe, [u]) == [u];
    assert DepositsAmong(safe, [u]) == [];
  }

  lemma OneDepositCommits(safe: AuditedSafe, h: EthTxHash, t: EthereumTransfer, u: EthereumTransfer)
    requires IsDeposit(safe, t) && DepositOf(safe, t).ethTxHash == h && !Incoming(safe, u)
    ensures ProcessTx(EMPTY_STATE, safe, RawGnosisTransaction(Some(h), Some(Ethereum(EthereumTransaction([t, u]))))).Ok?
  {
    OneDepositAmongTwo(safe, t, u);
    assert Insertable(EMPTY_GNOSIS.(safeTxs := {h}), [DepositOf(safe, t)]);
    assert EMPTY_GNOSIS.safeTxs + {h} == {h};
    ProcessTxSucceedsExactlyWhen(
      EMPTY_STATE, safe, RawGnosisTransaction(Some(h), Some(Ethereum(EthereumTransaction([t, u])))));
  }

  lemma FirstSafeCommits()
    ensures ProcessTx(EMPTY_STATE, SAFE, RawTransfers(5, TWO_SAFES)).Ok?
  {
    SafesDiffer();
    DepositIsRead(SAFE, Bytes32(5), 1);
    OneDepositCommits(SAFE, Bytes32(5), TWO_SAFES[0], TWO_SAFES[1]);
  }

  /* A balance that overflows without any burn */

  const FULL_THEN_ONE := [CoreMintTx(1, TWO_64 - 1, Bytes32(1), []), CoreMintTx(1, 1, Bytes32(2), [])]
  const OVERFLOWING := Block(0, [], FULL_THEN_ONE, [])

  function FlowsOf(txs: seq<CoreMintTx>): seq<Flow> {
    if txs == [] then [] else [Minted(txs[0].tokenId, txs[0].amount)] + FlowsOf(txs[1..])
  }

  lemma OneMintFlows(o: Oracles, p: Progress, n: nat, tx: CoreMintTx)
    requires ProcessMint(o, p, n, tx).Ok?
    ensures MintFlowsAt(ProcessMint(o, p, n, tx).value.ledger.mintTxs, n)
            == MintFlowsAt(p.ledger.mintTxs, n) + [Minted(tx.tokenId, tx.amount)]
  {
    MintFlowsAppend(p.ledger.mintTxs, MintTx(n, tx, Hex.Encode(tx.nonce),
                                             MintConfigLookup.LookupMintConfig(o, p.ledger, n, tx)), n);
  }

  lemma Regroup(a: seq<Flow>, f: Flow, b: seq<Flow>)
    ensures a + [f] + b == a + ([f] + b)
  {
  }

  lemma {:induction false} MintsFlow(o: Oracles, p: Progress, n: nat, txs: seq<CoreMintTx>)
    requires ProcessMints(o, p, n, txs).Ok?
    ensures MintFlowsAt(ProcessMints(o, p, n, txs).value.ledger.mintTxs, n)
            == MintFlowsAt(p.ledger.mintTxs, n) + FlowsOf(txs)
    decreases |txs|
  {
    if txs == [] {
      assert MintFlowsAt(p.ledger.mintTxs, n) + [] == MintFlowsAt(p.ledger.mintTxs, n);
    } else {
      OneMintFlows(o, p, n, txs[0]);
      MintsFlow(o, ProcessMint(o, p, n, txs[0]).value, n, txs[1..]);
      Regroup(MintFlowsAt(p.ledger.mintTxs, n), Minted(txs[0].tokenId, txs[0].amount), FlowsOf(txs[1..]));
    }
  }

  lemma FullThenOneFlows()
    ensures FlowsOf(FULL_THEN_ONE) == [Minted(1, TWO_64 - 1), Minted(1, 1)]
  {
    var txs := FULL_THEN_ONE;
    assert txs[1..] == [txs[1]] && [txs[1]][1..] == [];
    assert FlowsOf([txs[1]]) == [Minted(1, 1)];
  }

  lemma FullThenOneNonces()
    ensures LedgerAcceptance.CoreNonces(FULL_THEN_ONE) == [Hex.Encode(Bytes32(1)), Hex.Encode(Bytes32(2))]
    ensures Hex.Encode(Bytes32(1)) != Hex.Encode(Bytes32(2))
  {
    var txs := FULL_THEN_ONE;
    assert txs[1..] == [txs[1]] && [txs[1]][1..] == [];
    assert LedgerAcceptance.CoreNonces([txs[1]]) == [Hex.Encode(Bytes32(2))];
    if Hex.Encode(Bytes32(1)) == Hex.Encode(Bytes32(2)) {
      Hex.EncodeInjective(Bytes32(1), Bytes32(2));
      assert false;
    }
  }

  lemma OverflowingIsAcceptable(o: Oracles)
    ensures LedgerAcceptance.Acceptable(o, EMPTY_LEDGER, OVERFLOWING)
  {
    FullThenOneNonces();
  }

  lemma OverflowingIsSynced(o: Oracles)
    ensures SyncBlock(o, EMPTY_LEDGER, OVERFLOWING).Ok?
  {
    EmptyLedgerOk(o);
    OverflowingIsAcceptable(o);
    LedgerAcceptance.SyncBlockSucceedsExactlyWhen(o, EMPTY_LEDGER, OVERFLOWING);
  }

  lemma MintsOnlyFlow(o: Oracles, block: Block)
    requires block.index == 0 && block.mintConfigTxs == [] && block.outputs == []
    requires Processed(o, EMPTY_LEDGER, block).Ok?
    ensures Flows(Processed(o, EMPTY_LEDGER, block).value.ledger, 1) == FlowsOf(block.mintTxs)
  {
    var start := Progress(EMPTY_LEDGER, map[]);
    var m := Processed(o, EMPTY_LEDGER, block).value.ledger;
    MintsFlow(o, start, 0, block.mintTxs);
    ProcessMintsFrame(o, start, 0, block.mintTxs);
    assert MintFlowsAt(m.mintTxs, 0) == FlowsOf(block.mintTxs);
    assert FlowsThrough(m.mintTxs, [], 0) == [] && BurnFlowsAt([], 0) == [];
  }

  lemma FinishKeepsRows(p: Progress, n: nat)
    requires FinishBlock(p, n).Ok?
    ensures var m := FinishBlock(p, n).value.ledger;
            && m.mintTxs == p.ledger.mintTxs && m.burnTxOuts == p.ledger.burnTxOuts
            && m.numBlocksSynced == p.ledger.numBlocksSynced + 1
  {
  }

  lemma MintsOnlyCount(o: Oracles, block: Block)
    requires block.index == 0 && block.mintConfigTxs == [] && block.outputs == []
    requires Processed(o, EMPTY_LEDGER, block).Ok?
    ensures Processed(o, EMPTY_LEDGER, block).value.ledger.numBlocksSynced == 0
  {
    ProcessMintsFrame(o, Progress(EMPTY_LEDGER, map[]), 0, block.mintTxs);
  }

  /** A first block with nothing but mints leaves exactly their flows. */
  lemma FirstBlockFlows(o: Oracles, block: Block)
    requires block.index == 0 && block.mintConfigTxs == [] && block.outputs == []
    requires SyncBlock(o, EMPTY_LEDGER, block).Ok?
    ensures var l := SyncBlock(o, EMPTY_LEDGER, block).value.ledger;
            l.numBlocksSynced == 1 && Flows(l, 1) == FlowsOf(block.mintTxs)
  {
    LedgerAcceptance.SyncBlockUnfolds(o, EMPTY_LEDGER, block);
    FinishKeepsRows(Processed(o, EMPTY_LEDGER, block).value, 0);
    MintsOnlyCount(o, block);
    MintsOnlyFlow(o, block);
  }

  lemma OverflowingFlows(o: Oracles)
    ensures var l := Run(o, CONFIG, [LedgerBlock(OVERFLOWING)]).ledger;
            l.numBlocksSynced == 1 && Flows(l, 1) == [Minted(1, TWO_64 - 1), Minted(1, 1)]
  {
    OverflowingIsSynced(o);
    FirstBlockFlows(o, OVERFLOWING);
    FullThenOneFlows();
    RunAppend(o, CONFIG, [], LedgerBlock(OVERFLOWING));
    assert [] + [LedgerBlock(OVERFLOWING)] == [LedgerBlock(OVERFLOWING)];
  }

  /** One block with two mints leaves a balance that is wrong by 2^64 and a counter of exceeding burns that is zero. */
  lemma CounterHidesOverflow(o: Oracles)
    ensures var l := Run(o, CONFIG, [LedgerBlock(OVERFLOWING)]).ledger;
            && l.numBurnsExceedingBalance == 0
            && LedgerTheorems.CurrentBalance(l, 1) == 0 && LedgerTheorems.MintTotal(l.mintTxs, 1) == TWO_64
            && LedgerTheorems.BurnTotal(l.burnTxOuts, 1) == 0
  {
    var events := [LedgerBlock(OVERFLOWING)];
    OverflowingFlows(o);
    LedgerTheorems.CounterIsClamps(o, CONFIG, events);
    RunLedgerOk(o, CONFIG, events);
    LedgerTheorems.CurrentBalanceIs(o, Run(o, CONFIG, events).ledger, 1);
    LedgerTheorems.NetIsTotals(o, Run(o, CONFIG, events).ledger, 1);
    FullThenOne(1);
    TotalsOfFullThenOne();
  }

  lemma TotalsOfFullThenOne()
    ensures TotalMinted([Minted(1, TWO_64 - 1), Minted(1, 1)], 1) == TWO_64
    ensures TotalBurned([Minted(1, TWO_64 - 1), Minted(1, 1)], 1) == 0
  {
    var one: seq<Flow> := [Minted(1, TWO_64 - 1)];
    TotalsAppend([], one[0], 1);
    assert [] + one == one;
    TotalsAppend(one, Minted(1, 1), 1);
    assert one + [Minted(1, 1)] == [Minted(1, TWO_64 - 1), Minted(1, 1)];
  }
}
