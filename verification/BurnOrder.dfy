/** When the audit of burns depends on the order of arrival, and on the order in which the database lists rows. */
module BurnOrder {
  import opened Wrappers
  import opened EthDataTypes
  import opened SafeConfig
  import opened ApiDataTypes
  import opened Tables
  import opened LedgerSync
  import opened LedgerInvariant
  import opened GnosisIngest
  import opened GnosisInvariant
  import opened Runs
  import opened AuditTheorems
  import MintConfigLookup
  import WithdrawalParsing
  import BM = BurnMatching
  import BI = BurnAuditInvariant

  /* The same world, another order of rows */

  /** The same database and keys, where unordered queries return their rows in another order. */
  function Listing(o: Oracles, f: seq<nat> -> nat): Oracles {
    o.(firstOf := f)
  }

  lemma {:induction false} AcceptingIgnoresListing(
    o: Oracles, f: seq<nat> -> nat, l: Ledger, ids: seq<nat>, blockIndex: nat, tx: CoreMintTx)
    requires forall i :: 0 <= i < |ids| ==> ids[i] < |l.mintConfigs|
    ensures MintConfigLookup.FirstAccepting(Listing(o, f), l, ids, blockIndex, tx)
            == MintConfigLookup.FirstAccepting(o, l, ids, blockIndex, tx)
  {
    if ids != [] {
      AcceptingIgnoresListing(o, f, l, ids[1..], blockIndex, tx);
    }
  }

  lemma LookupIgnoresListing(o: Oracles, f: seq<nat> -> nat, l: Ledger, blockIndex: nat, tx: CoreMintTx)
    ensures MintConfigLookup.LookupMintConfig(Listing(o, f), l, blockIndex, tx)
            == MintConfigLookup.LookupMintConfig(o, l, blockIndex, tx)
  {
    var governing := MintConfigLookup.GoverningTx(l, blockIndex, tx);
    if governing.Some? {
      AcceptingIgnoresListing(o, f, l, MintConfigLookup.ConfigsOf(l.mintConfigs, governing.value), blockIndex, tx);
    }
  }

  lemma {:induction false} MintsIgnoreListing(
    o: Oracles, f: seq<nat> -> nat, p: Progress, blockIndex: nat, txs: seq<CoreMintTx>)
    ensures ProcessMints(Listing(o, f), p, blockIndex, txs) == ProcessMints(o, p, blockIndex, txs)
    decreases |txs|
  {
    if txs != [] {
      LookupIgnoresListing(o, f, p.ledger, blockIndex, txs[0]);
      if ProcessMint(o, p, blockIndex, txs[0]).Ok? {
        MintsIgnoreListing(o, f, ProcessMint(o, p, blockIndex, txs[0]).value, blockIndex, txs[1..]);
      }
    }
  }

  lemma {:induction false} BurnsIgnoreListing(o: Oracles, f: seq<nat> -> nat, blockIndex: nat, outputs: seq<CoreTxOut>)
    ensures BurnsIn(Listing(o, f), blockIndex, outputs) == BurnsIn(o, blockIndex, outputs)
  {
    if outputs != [] {
      BurnsIgnoreListing(o, f, blockIndex, outputs[1..]);
    }
  }

  lemma SyncIgnoresListing(o: Oracles, f: seq<nat> -> nat, l: Ledger, block: Block)
    ensures SyncBlock(Listing(o, f), l, block) == SyncBlock(o, l, block)
  {
    BurnsIgnoreListing(o, f, block.index, block.outputs);
    var configured := InsertMintConfigTxs(l, block.index, block.mintConfigTxs);
    if configured.Ok? {
      var start := Progress(configured.value, PreviousBalances(configured.value, block.index));
      MintsIgnoreListing(o, f, start, block.index, block.mintTxs);
    }
  }

  lemma {:induction false} ScanIgnoresListing(o: Oracles, f: seq<nat> -> nat, blocks: seq<Block>)
    ensures Scan(Listing(o, f), blocks) == Scan(o, blocks)
  {
    if blocks != [] {
      var before := blocks[..|blocks| - 1];
      ScanIgnoresListing(o, f, before);
      SyncIgnoresListing(o, f, Scan(o, before), blocks[|blocks| - 1]);
    }
  }

  /* Rearrangements of a run */

  /** The same blocks and the same Gnosis transactions, interleaved in any way. */
  ghost predicate Rearranged(events: seq<Event>, other: seq<Event>) {
    Blocks(other) == Blocks(events) && SafeTxs(other) == SafeTxs(events)
  }

  lemma SameTables(o: Oracles, config: Config, events: seq<Event>, f: seq<nat> -> nat, other: seq<Event>)
    requires Rearranged(events, other)
    ensures Run(Listing(o, f), config, other).ledger == Run(o, config, events).ledger
    ensures Run(Listing(o, f), config, other).gnosis == Run(o, config, events).gnosis
  {
    LedgerIsScan(o, config, events);
    LedgerIsScan(Listing(o, f), config, other);
    ScanIgnoresListing(o, f, Blocks(events));
    GnosisIsIngest(o, config, events);
    GnosisIsIngest(Listing(o, f), config, other);
  }

  function OfBlocks(blocks: seq<Block>): seq<Event> {
    seq(|blocks|, i requires 0 <= i < |blocks| => LedgerBlock(blocks[i]))
  }

  function OfSafeTxs(txs: seq<(AuditedSafe, RawGnosisTransaction)>): seq<Event> {
    seq(|txs|, i requires 0 <= i < |txs| => SafeTx(txs[i].0, txs[i].1))
  }

  lemma PartsAppend(events: seq<Event>, e: Event)
    ensures Blocks(events + [e]) == Blocks(events) + match e case LedgerBlock(block) => [block] case SafeTx(_, _) => []
    ensures SafeTxs(events + [e]) ==
            SafeTxs(events) + match e case LedgerBlock(_) => [] case SafeTx(safe, raw) => [(safe, raw)]
  {
    assert (events + [e])[..|events|] == events;
  }

  lemma {:induction false} BlocksOfConcat(a: seq<Event>, b: seq<Event>)
    ensures Blocks(a + b) == Blocks(a) + Blocks(b)
    decreases |b|
  {
    if b == [] {
      assert a + b == a;
    } else {
      var front, e := b[..|b| - 1], b[|b| - 1];
      BlocksOfConcat(a, front);
      PartsAppend(a + front, e);
      assert a + b == a + front + [e];
    }
  }

  lemma {:induction false} SafeTxsOfConcat(a: seq<Event>, b: seq<Event>)
    ensures SafeTxs(a + b) == SafeTxs(a) + SafeTxs(b)
    decreases |b|
  {
    if b == [] {
      assert a + b == a;
    } else {
      var front, e := b[..|b| - 1], b[|b| - 1];
      SafeTxsOfConcat(a, front);
      PartsAppend(a + front, e);
      assert a + b == a + front + [e];
    }
  }

  lemma PartsOfConcat(a: seq<Event>, b: seq<Event>)
    ensures Blocks(a + b) == Blocks(a) + Blocks(b) && SafeTxs(a + b) == SafeTxs(a) + SafeTxs(b)
  {
    BlocksOfConcat(a, b);
    SafeTxsOfConcat(a, b);
  }

  lemma {:induction false} PartsOfBlocks(blocks: seq<Block>)
    ensures Blocks(OfBlocks(blocks)) == blocks && SafeTxs(OfBlocks(blocks)) == []
  {
    if blocks != [] {
      var last := |blocks| - 1;
      PartsOfBlocks(blocks[..last]);
      assert OfBlocks(blocks)[..last] == OfBlocks(blocks[..last]);
      assert blocks == blocks[..last] + [blocks[last]];
    }
  }

  lemma {:induction false} PartsOfSafeTxs(txs: seq<(AuditedSafe, RawGnosisTransaction)>)
    ensures Blocks(OfSafeTxs(txs)) == [] && SafeTxs(OfSafeTxs(txs)) == txs
  {
    if txs != [] {
      var last := |txs| - 1;
      PartsOfSafeTxs(txs[..last]);
      assert OfSafeTxs(txs)[..last] == OfSafeTxs(txs[..last]);
      assert txs == txs[..last] + [(txs[last].0, txs[last].1)];
    }
  }

  /** All blocks before all Gnosis transactions. */
  function BlocksFirst(events: seq<Event>): seq<Event> {
    OfBlocks(Blocks(events)) + OfSafeTxs(SafeTxs(events))
  }

  /** All Gnosis transactions before all blocks. */
  function BlocksLast(events: seq<Event>): seq<Event> {
    OfSafeTxs(SafeTxs(events)) + OfBlocks(Blocks(events))
  }

  lemma BothAreRearranged(events: seq<Event>)
    ensures Rearranged(events, BlocksFirst(events)) && Rearranged(events, BlocksLast(events))
  {
    PartsOfBlocks(Blocks(events));
    PartsOfSafeTxs(SafeTxs(events));
    PartsOfConcat(OfBlocks(Blocks(events)), OfSafeTxs(SafeTxs(events)));
    PartsOfConcat(OfSafeTxs(SafeTxs(events)), OfBlocks(Blocks(events)));
  }

  /* Blocks first: a burn waits, and the first withdrawal that agrees with it is paired */

  /** Every burn that agrees with some withdrawal is audited. */
  ghost predicate AgreeingBurnsAudited(config: Config, st: State) {
    forall i, j :: 0 <= i < |st.ledger.burnTxOuts| && 0 <= j < |st.gnosis.withdrawals|
                   && BI.Pairs(config, st.ledger.burnTxOuts[i], st.gnosis.withdrawals[j])
                   ==> BM.BurnIsAudited(st.burnAudit.auditedBurns, i)
  }

  lemma StoreWithdrawalPairs(config: Config, st: State, safe: AuditedSafe, w: Withdrawal)
    requires StateRight(config, st) && AgreeingBurnsAudited(config, st)
    requires BI.WithdrawalOk(config, w) && FindSafe(config.safes, w.safeAddr) == Some(safe)
    requires StoreWithdrawal(st, safe, w).Ok?
    ensures AgreeingBurnsAudited(config, StoreWithdrawal(st, safe, w).value)
  {
    var burns, withdrawals, a := st.ledger.burnTxOuts, st.gnosis.withdrawals, st.burnAudit;
    var next := StoreWithdrawal(st, safe, w).value;
    var i := BI.NewWithdrawalOutcome(config, burns, withdrawals, w, safe, a);
    var rows := next.burnAudit.auditedBurns;
    forall k, j | 0 <= k < |burns| && 0 <= j < |withdrawals| + 1
                  && BI.Pairs(config, burns[k], next.gnosis.withdrawals[j])
      ensures BM.BurnIsAudited(rows, k)
    {
      assert j < |withdrawals| ==> next.gnosis.withdrawals[j] == withdrawals[j];
      if BM.BurnIsAudited(a.auditedBurns, k) {
        BI.AuditedStays(a.auditedBurns, rows, k);
      } else {
        assert j == |withdrawals| && k == i && rows[|a.auditedBurns|].burnTxOutId == k;
      }
    }
  }

  /** What the pairing of burns rests on. */
  ghost predicate StateRight(config: Config, st: State) {
    KeysOk(st.ledger) && AuditsOk(config, st)
  }

  lemma {:induction false} TransfersKeepBurnSide(st: State, safe: AuditedSafe, transfers: seq<EthereumTransfer>)
    requires ProcessTransfers(st, safe, transfers).Ok?
    ensures var next := ProcessTransfers(st, safe, transfers).value;
            && next.ledger == st.ledger && next.burnAudit == st.burnAudit
            && next.gnosis.withdrawals == st.gnosis.withdrawals
    decreases |transfers|
  {
    if transfers == [] {
    } else if !SameAddr(transfers[0].to, safe.safeAddr) {
      TransfersKeepBurnSide(st, safe, transfers[1..]);
    } else {
      match ReadTransfer(safe, transfers[0])
      case Deposited(d) => TransfersKeepBurnSide(StoreDeposit(st, safe, d).value, safe, transfers[1..]);
      case _ =>
    }
  }

  lemma ProcessTxPairs(config: Config, st: State, safe: AuditedSafe, raw: RawGnosisTransaction)
    requires DistinctSafes(config) && safe in config.safes
    requires StateRight(config, st) && AgreeingBurnsAudited(config, st)
    requires ProcessTx(st, safe, raw).Ok?
    ensures AgreeingBurnsAudited(config, ProcessTx(st, safe, raw).value)
  {
    var h := raw.txHash.value;
    if h !in st.gnosis.safeTxs {
      var inserted := st.(gnosis := st.gnosis.(safeTxs := st.gnosis.safeTxs + {h}));
      assert AgreeingBurnsAudited(config, inserted) && StateRight(config, inserted);
      match raw.decoded.value
      case Ethereum(eth) => TransfersKeepBurnSide(inserted, safe, eth.transfers);
      case MultiSig(tx) =>
        if SameAddr(tx.safe, safe.safeAddr) && WithdrawalParsing.ParseWithdrawal(safe, tx).Withdrawn? {
          WithdrawalParsing.ParsedWithdrawalIsAudited(safe, tx);
          FindSafeOfThread(config, safe, tx.safe);
          StoreWithdrawalPairs(config, inserted, safe, WithdrawalParsing.ParseWithdrawal(safe, tx).withdrawal);
        }
      case Module =>
    }
  }

  lemma SafeTxPairs(o: Oracles, config: Config, st: State, safe: AuditedSafe, raw: RawGnosisTransaction)
    requires DistinctSafes(config) && StateOk(o, config, st) && AgreeingBurnsAudited(config, st)
    ensures AgreeingBurnsAudited(config, Step(o, config, st, SafeTx(safe, raw)))
  {
    if Attempt(o, config, st, SafeTx(safe, raw)).Ok? {
      ProcessTxPairs(config, st, safe, raw);
    }
  }

  lemma {:induction false} SafeTxsPair(
    o: Oracles, config: Config, start: seq<Event>, txs: seq<(AuditedSafe, RawGnosisTransaction)>)
    requires DistinctSafes(config) && AgreeingBurnsAudited(config, Run(o, config, start))
    ensures AgreeingBurnsAudited(config, Run(o, config, start + OfSafeTxs(txs)))
  {
    if txs == [] {
      assert start + OfSafeTxs(txs) == start;
    } else {
      var front := txs[..|txs| - 1];
      var (safe, raw) := txs[|txs| - 1];
      SafeTxsPair(o, config, start, front);
      assert start + OfSafeTxs(txs) == start + OfSafeTxs(front) + [SafeTx(safe, raw)];
      RunOk(o, config, start + OfSafeTxs(front));
      RunAppend(o, config, start + OfSafeTxs(front), SafeTx(safe, raw));
      SafeTxPairs(o, config, Run(o, config, start + OfSafeTxs(front)), safe, raw);
    }
  }

  /** With all blocks first, every burn that agrees with some withdrawal is audited in the end. */
  lemma BlocksFirstPairs(o: Oracles, config: Config, events: seq<Event>)
    requires DistinctSafes(config)
    ensures AgreeingBurnsAudited(config, Run(o, config, BlocksFirst(events)))
  {
    var blocks := OfBlocks(Blocks(events));
    PartsOfBlocks(Blocks(events));
    GnosisIsIngest(o, config, blocks);
    assert Run(o, config, blocks).gnosis.withdrawals == [];
    SafeTxsPair(o, config, blocks, SafeTxs(events));
  }

  /* Blocks last: all withdrawals wait, and a burn is tried against the one that the query lists first */

  /** Every audited burn is paired with the one withdrawal that it was tried against. */
  ghost predicate OnlyTried(o: Oracles, burns: seq<BurnTxOut>, withdrawals: seq<Withdrawal>, rows: seq<AuditedBurn>) {
    forall k :: 0 <= k < |rows| ==>
      && rows[k].burnTxOutId < |burns|
      && rows[k].withdrawalId == BI.Tried(o, withdrawals, [], burns[rows[k].burnTxOutId].publicKeyHex)
  }

  lemma {:induction false} AllCandidatesFree(withdrawals: seq<Withdrawal>, rows: seq<AuditedBurn>, keyHex: string)
    requires forall k :: 0 <= k < |withdrawals| && withdrawals[k].publicKeyHex == keyHex ==>
               !BM.WithdrawalIsAudited(rows, k)
    ensures BM.Candidates(withdrawals, rows, keyHex) == BM.Candidates(withdrawals, [], keyHex)
  {
    if withdrawals != [] {
      AllCandidatesFree(withdrawals[..|withdrawals| - 1], rows, keyHex);
    }
  }

  lemma NewBurnOnlyTried(
    o: Oracles, config: Config, all: seq<BurnTxOut>, n: nat, withdrawals: seq<Withdrawal>, a: BurnAudit)
    requires n < |all| && UniqueKeys(all) && BI.WithdrawalsOk(config, withdrawals)
    requires BI.BurnAuditOk(config, all[..n], withdrawals, a)
    requires OnlyTried(o, all, withdrawals, a.auditedBurns)
    ensures OnlyTried(o, all, withdrawals,
                      BM.TryMatchBurn(o, all, withdrawals, a, Some(n), all[n], config).auditedBurns)
  {
    var j := BI.NewBurnOutcome(o, config, all, n, withdrawals, a);
    assert all[..n + 1] == all[..n] + [all[n]];
    forall k | 0 <= k < |withdrawals| && withdrawals[k].publicKeyHex == all[n].publicKeyHex
      ensures !BM.WithdrawalIsAudited(a.auditedBurns, k)
    {
      BI.SoleTwinIsFree(config, all[..n], all[n], withdrawals, a.auditedBurns, k);
    }
    AllCandidatesFree(withdrawals, a.auditedBurns, all[n].publicKeyHex);
  }

  lemma {:induction false} AuditBurnsOnlyTried(
    o: Oracles, config: Config, all: seq<BurnTxOut>, withdrawals: seq<Withdrawal>, a: BurnAudit, first: nat)
    requires first <= |all| && UniqueKeys(all) && BI.WithdrawalsOk(config, withdrawals)
    requires BI.BurnAuditOk(config, all[..first], withdrawals, a)
    requires OnlyTried(o, all, withdrawals, a.auditedBurns)
    ensures OnlyTried(o, all, withdrawals, BM.AuditBurns(o, all, withdrawals, a, config, first).auditedBurns)
    decreases |all| - first
  {
    if first < |all| {
      NewBurnOnlyTried(o, config, all, first, withdrawals, a);
      BI.AuditingBurnKeeps(o, config, all, first, withdrawals, a);
      AuditBurnsOnlyTried(
        o, config, all, withdrawals, BM.TryMatchBurn(o, all, withdrawals, a, Some(first), all[first], config),
        first + 1);
    }
  }

  ghost predicate StateOnlyTried(o: Oracles, st: State) {
    OnlyTried(o, st.ledger.burnTxOuts, st.gnosis.withdrawals, st.burnAudit.auditedBurns)
  }

  lemma BlockOnlyTried(o: Oracles, config: Config, st: State, block: Block)
    requires StateOk(o, config, st) && StateOnlyTried(o, st)
    ensures StateOnlyTried(o, Step(o, config, st, LedgerBlock(block)))
  {
    if LedgerStep(o, config, st, block).Ok? {
      LedgerStepOnlyTried(o, config, st, block);
    }
  }

  lemma OnlyTriedKept(
    o: Oracles, burns: seq<BurnTxOut>, more: seq<BurnTxOut>, withdrawals: seq<Withdrawal>, rows: seq<AuditedBurn>)
    requires |burns| <= |more| && more[..|burns|] == burns && OnlyTried(o, burns, withdrawals, rows)
    ensures OnlyTried(o, more, withdrawals, rows)
  {
    forall k | 0 <= k < |rows|
      ensures more[rows[k].burnTxOutId] == burns[rows[k].burnTxOutId]
    {
      assert more[..|burns|][rows[k].burnTxOutId] == more[rows[k].burnTxOutId];
    }
  }

  lemma LedgerStepOnlyTried(o: Oracles, config: Config, st: State, block: Block)
    requires StateOk(o, config, st) && StateOnlyTried(o, st) && LedgerStep(o, config, st, block).Ok?
    ensures StateOnlyTried(o, LedgerStep(o, config, st, block).value)
  {
    SyncBlockKeeps(o, st.ledger, block);
    var l := SyncBlock(o, st.ledger, block).value.ledger;
    OnlyTriedKept(o, st.ledger.burnTxOuts, l.burnTxOuts, st.gnosis.withdrawals, st.burnAudit.auditedBurns);
    AuditBurnsOnlyTried(o, config, l.burnTxOuts, st.gnosis.withdrawals, st.burnAudit, |st.ledger.burnTxOuts|);
  }

  lemma {:induction false} LaterBlocksOnlyTried(o: Oracles, config: Config, start: seq<Event>, blocks: seq<Block>)
    requires DistinctSafes(config) && StateOnlyTried(o, Run(o, config, start))
    ensures StateOnlyTried(o, Run(o, config, start + OfBlocks(blocks)))
  {
    if blocks == [] {
      assert start + OfBlocks(blocks) == start;
    } else {
      var front, block := blocks[..|blocks| - 1], blocks[|blocks| - 1];
      LaterBlocksOnlyTried(o, config, start, front);
      assert start + OfBlocks(blocks) == start + OfBlocks(front) + [LedgerBlock(block)];
      RunOk(o, config, start + OfBlocks(front));
      RunAppend(o, config, start + OfBlocks(front), LedgerBlock(block));
      BlockOnlyTried(o, config, Run(o, config, start + OfBlocks(front)), block);
    }
  }

  lemma NoBurnsNoRows(o: Oracles, config: Config, events: seq<Event>)
    requires DistinctSafes(config) && Run(o, config, events).ledger.burnTxOuts == []
    ensures Run(o, config, events).burnAudit.auditedBurns == []
  {
    BurnAuditIsSound(o, config, events);
    var rows := Run(o, config, events).burnAudit.auditedBurns;
    assert rows != [] ==> rows[0].burnTxOutId < 0;
  }

  /** With all blocks last, a burn is audited against the withdrawal that the query lists first, or not at all. */
  lemma BlocksLastOnlyTries(o: Oracles, config: Config, events: seq<Event>)
    requires DistinctSafes(config)
    ensures StateOnlyTried(o, Run(o, config, BlocksLast(events)))
  {
    var txs := OfSafeTxs(SafeTxs(events));
    PartsOfSafeTxs(SafeTxs(events));
    LedgerIsScan(o, config, txs);
    NoBurnsNoRows(o, config, txs);
    LaterBlocksOnlyTried(o, config, txs, Blocks(events));
  }

  /* The exact conditions */

  /** The stored withdrawal carries the key of the stored burn. */
  ghost predicate Carries(st: State, i: nat, j: nat) {
    && i < |st.ledger.burnTxOuts| && j < |st.gnosis.withdrawals|
    && BI.Twins(st.ledger.burnTxOuts[i], st.gnosis.withdrawals[j])
  }

  /** The two belong together. */
  ghost predicate Agrees(config: Config, st: State, i: nat, j: nat) {
    && i < |st.ledger.burnTxOuts| && j < |st.gnosis.withdrawals|
    && Covers(config, st.ledger.burnTxOuts[i], st.gnosis.withdrawals[j])
  }

  /** No withdrawal with the burn's key agrees with the burn. */
  ghost predicate NoneAgrees(config: Config, st: State, i: nat) {
    forall j: nat :: !Agrees(config, st, i, j)
  }

  /** Every withdrawal with the burn's key agrees with the burn. */
  ghost predicate AllAgree(config: Config, st: State, i: nat) {
    forall j: nat :: Carries(st, i, j) ==> Agrees(config, st, i, j)
  }

  ghost predicate AtMostOneCarries(st: State, i: nat) {
    forall j: nat, k: nat :: Carries(st, i, j) && Carries(st, i, k) ==> j == k
  }

  ghost function PairedBurns(st: State): set<nat> {
    set r | r in st.burnAudit.auditedBurns :: r.burnTxOutId
  }

  ghost function BurnRows(st: State): set<AuditedBurn> {
    set r | r in st.burnAudit.auditedBurns
  }

  lemma AgreesIsPairs(o: Oracles, config: Config, events: seq<Event>, i: nat, j: nat)
    requires DistinctSafes(config)
    ensures var st := Run(o, config, events);
            Agrees(config, st, i, j) <==>
            Carries(st, i, j) && BI.Pairs(config, st.ledger.burnTxOuts[i], st.gnosis.withdrawals[j])
  {
    RunOk(o, config, events);
    var st := Run(o, config, events);
    if i < |st.ledger.burnTxOuts| && j < |st.gnosis.withdrawals| {
      CoversIsPairs(config, st.ledger.burnTxOuts[i], st.gnosis.withdrawals[j]);
    }
  }

  /** Whatever is audited agrees. */
  lemma RowAgrees(o: Oracles, config: Config, events: seq<Event>, r: AuditedBurn)
    requires DistinctSafes(config) && r in Run(o, config, events).burnAudit.auditedBurns
    ensures Agrees(config, Run(o, config, events), r.burnTxOutId, r.withdrawalId)
  {
    BurnAuditIsSound(o, config, events);
    var rows := Run(o, config, events).burnAudit.auditedBurns;
    var k :| 0 <= k < |rows| && rows[k] == r;
  }

  lemma PairedIsAudited(st: State, i: nat)
    ensures i in PairedBurns(st) <==> BM.BurnIsAudited(st.burnAudit.auditedBurns, i)
  {
    var rows := st.burnAudit.auditedBurns;
    if k :| 0 <= k < |rows| && rows[k].burnTxOutId == i {
      assert rows[k] in rows;
    }
  }

  /** In every run, a burn with which every carrier of its key agrees is audited once there is such a carrier. */
  lemma AllAgreeIsPaired(o: Oracles, config: Config, events: seq<Event>, i: nat, j: nat)
    requires DistinctSafes(config)
    requires AllAgree(config, Run(o, config, events), i) && Carries(Run(o, config, events), i, j)
    ensures i in PairedBurns(Run(o, config, events))
  {
    RunOk(o, config, events);
    var st := Run(o, config, events);
    forall k | 0 <= k < |st.gnosis.withdrawals| && BI.Twins(st.ledger.burnTxOuts[i], st.gnosis.withdrawals[k])
      ensures BI.Verified(config, st.ledger.burnTxOuts[i], st.gnosis.withdrawals[k])
    {
      assert Carries(st, i, k);
      AgreesIsPairs(o, config, events, i, k);
    }
    assert BI.AllCarriersAgree(config, st.ledger.burnTxOuts[i], st.gnosis.withdrawals);
    PairedIsAudited(st, i);
  }

  lemma BlocksFirstPairsBurn(o: Oracles, config: Config, events: seq<Event>, i: nat, j: nat)
    requires DistinctSafes(config) && Agrees(config, Run(o, config, events), i, j)
    ensures i in PairedBurns(Run(o, config, BlocksFirst(events)))
  {
    BothAreRearranged(events);
    SameTables(o, config, events, o.firstOf, BlocksFirst(events));
    BlocksFirstPairs(o, config, events);
    AgreesIsPairs(o, config, events, i, j);
    PairedIsAudited(Run(o, config, BlocksFirst(events)), i);
  }

  lemma SmallRemainder(p: nat, n: nat)
    requires p < n
    ensures p % n == p
  {
  }

  /** An order of rows that puts the given carrier of a key first. */
  lemma ListedFirst(o: Oracles, withdrawals: seq<Withdrawal>, keyHex: string, j: nat) returns (f: seq<nat> -> nat)
    requires j < |withdrawals| && withdrawals[j].publicKeyHex == keyHex
    ensures BI.Tried(Listing(o, f), withdrawals, [], keyHex) == j
  {
    var ids := BM.Candidates(withdrawals, [], keyHex);
    assert !BM.WithdrawalIsAudited([], j) && j in ids;
    var p: nat :| p < |ids| && ids[p] == j;
    f := _ => p;
    SmallRemainder(p, |ids|);
  }

  /** With all blocks last, a burn can be made to be tried against any carrier of its key, and no other. */
  lemma BlocksLastTriesOnly(o: Oracles, config: Config, events: seq<Event>, i: nat, j: nat)
    returns (f: seq<nat> -> nat)
    requires DistinctSafes(config) && Carries(Run(o, config, events), i, j)
    ensures var rows := Run(Listing(o, f), config, BlocksLast(events)).burnAudit.auditedBurns;
            forall r :: r in rows && r.burnTxOutId == i ==>
                          r.withdrawalId == j && Agrees(config, Run(o, config, events), i, j)
  {
    var st := Run(o, config, events);
    f := ListedFirst(o, st.gnosis.withdrawals, st.ledger.burnTxOuts[i].publicKeyHex, j);
    BothAreRearranged(events);
    SameTables(o, config, events, f, BlocksLast(events));
    BlocksLastOnlyTries(Listing(o, f), config, events);
    var rows := Run(Listing(o, f), config, BlocksLast(events)).burnAudit.auditedBurns;
    forall r | r in rows && r.burnTxOutId == i
      ensures r.withdrawalId == j && Agrees(config, st, i, j)
    {
      var k :| 0 <= k < |rows| && rows[k] == r;
      RowAgrees(Listing(o, f), config, BlocksLast(events), r);
    }
  }

  /** However the events are interleaved and the rows listed, the same burns are paired. */
  ghost predicate SameBurnsInEveryOrder(o: Oracles, config: Config, events: seq<Event>) {
    forall f: seq<nat> -> nat, other: seq<Event> :: Rearranged(events, other) ==>
      PairedBurns(Run(Listing(o, f), config, other)) == PairedBurns(Run(o, config, events))
  }

  /** However the events are interleaved and the rows listed, the same pairs are recorded. */
  ghost predicate SameRowsInEveryOrder(o: Oracles, config: Config, events: seq<Event>) {
    forall f: seq<nat> -> nat, other: seq<Event> :: Rearranged(events, other) ==>
      BurnRows(Run(Listing(o, f), config, other)) == BurnRows(Run(o, config, events))
  }

  /** However the events are interleaved and the rows listed, the pair is recorded exactly when it belongs together. */
  ghost predicate ExactInEveryOrder(o: Oracles, config: Config, events: seq<Event>, i: nat, j: nat) {
    forall f: seq<nat> -> nat, other: seq<Event> :: Rearranged(events, other) ==>
      (AuditedBurn(i, j) in BurnRows(Run(Listing(o, f), config, other))
       <==> Agrees(config, Run(o, config, events), i, j))
  }

  lemma ListingItself(o: Oracles)
    ensures Listing(o, o.firstOf) == o
  {
  }

  lemma PairedWhenAllOrNone(o: Oracles, config: Config, events: seq<Event>, i: nat)
    requires DistinctSafes(config)
    requires NoneAgrees(config, Run(o, config, events), i) || AllAgree(config, Run(o, config, events), i)
    ensures i in PairedBurns(Run(o, config, events)) <==> !NoneAgrees(config, Run(o, config, events), i)
  {
    var st := Run(o, config, events);
    if i in PairedBurns(st) {
      var r :| r in st.burnAudit.auditedBurns && r.burnTxOutId == i;
      RowAgrees(o, config, events, r);
    }
    if j: nat :| Agrees(config, st, i, j) {
      AgreesIsPairs(o, config, events, i, j);
      AllAgreeIsPaired(o, config, events, i, j);
    }
  }

  lemma NoneBeyondTable(config: Config, st: State, i: nat)
    requires i >= |st.ledger.burnTxOuts|
    ensures NoneAgrees(config, st, i)
  {
  }

  lemma MixedCarriersDisagree(o: Oracles, config: Config, events: seq<Event>, i: nat)
    requires DistinctSafes(config)
    requires !NoneAgrees(config, Run(o, config, events), i) && !AllAgree(config, Run(o, config, events), i)
    ensures !SameBurnsInEveryOrder(o, config, events)
  {
    var st := Run(o, config, events);
    var j: nat :| Agrees(config, st, i, j);
    var k: nat :| Carries(st, i, k) && !Agrees(config, st, i, k);
    BothAreRearranged(events);
    ListingItself(o);
    BlocksFirstPairsBurn(o, config, events, i, j);
    var f := BlocksLastTriesOnly(o, config, events, i, k);
    var one := Run(Listing(o, o.firstOf), config, BlocksFirst(events));
    var two := Run(Listing(o, f), config, BlocksLast(events));
    assert i in PairedBurns(one) && i !in PairedBurns(two);
  }

  /**
    * The same burns are paired in every interleaving and under every order of rows exactly when, for each stored
    * burn, no withdrawal with its key agrees with it, or all of them do.
    */
  lemma SameBurnsExactlyWhen(o: Oracles, config: Config, events: seq<Event>)
    requires DistinctSafes(config)
    ensures var st := Run(o, config, events);
            SameBurnsInEveryOrder(o, config, events) <==>
            forall i: nat :: i < |st.ledger.burnTxOuts| ==> NoneAgrees(config, st, i) || AllAgree(config, st, i)
  {
    var st := Run(o, config, events);
    if forall i: nat :: i < |st.ledger.burnTxOuts| ==> NoneAgrees(config, st, i) || AllAgree(config, st, i) {
      forall f: seq<nat> -> nat, other: seq<Event> | Rearranged(events, other)
        ensures PairedBurns(Run(Listing(o, f), config, other)) == PairedBurns(st)
      {
        SamePairedBurns(o, config, events, f, other);
      }
    } else {
      var i: nat :| i < |st.ledger.burnTxOuts| && !NoneAgrees(config, st, i) && !AllAgree(config, st, i);
      MixedCarriersDisagree(o, config, events, i);
    }
  }

  lemma AgreementIsOfTables(config: Config, s: State, t: State, i: nat)
    requires s.ledger == t.ledger && s.gnosis == t.gnosis
    ensures NoneAgrees(config, s, i) <==> NoneAgrees(config, t, i)
    ensures AllAgree(config, s, i) <==> AllAgree(config, t, i)
  {
    assert forall j: nat :: Agrees(config, s, i, j) <==> Agrees(config, t, i, j);
    assert forall j: nat :: Carries(s, i, j) <==> Carries(t, i, j);
  }

  lemma SamePairedBurns(o: Oracles, config: Config, events: seq<Event>, f: seq<nat> -> nat, other: seq<Event>)
    requires DistinctSafes(config) && Rearranged(events, other)
    requires forall i: nat :: i < |Run(o, config, events).ledger.burnTxOuts| ==>
               NoneAgrees(config, Run(o, config, events), i) || AllAgree(config, Run(o, config, events), i)
    ensures PairedBurns(Run(Listing(o, f), config, other)) == PairedBurns(Run(o, config, events))
  {
    var s, t := Run(o, config, events), Run(Listing(o, f), config, other);
    SameTables(o, config, events, f, other);
    forall i: nat
      ensures i in PairedBurns(t) <==> i in PairedBurns(s)
    {
      AgreementIsOfTables(config, s, t, i);
      if i >= |s.ledger.burnTxOuts| {
        NoneBeyondTable(config, s, i);
      }
      PairedWhenAllOrNone(o, config, events, i);
      PairedWhenAllOrNone(Listing(o, f), config, other, i);
    }
  }

  /**
    * A pair of one key is recorded in every order exactly when it belongs together, if and only if it does not
    * belong together or no other withdrawal carries its key.
    */
  lemma PairExactlyWhen(o: Oracles, config: Config, events: seq<Event>, i: nat, j: nat)
    requires DistinctSafes(config) && Carries(Run(o, config, events), i, j)
    ensures var st := Run(o, config, events);
            ExactInEveryOrder(o, config, events, i, j) <==>
            !Agrees(config, st, i, j) || BI.SoleCarrier(st.gnosis.withdrawals, j)
  {
    var st := Run(o, config, events);
    if !Agrees(config, st, i, j) || BI.SoleCarrier(st.gnosis.withdrawals, j) {
      forall f: seq<nat> -> nat, other: seq<Event> | Rearranged(events, other)
        ensures AuditedBurn(i, j) in BurnRows(Run(Listing(o, f), config, other)) <==> Agrees(config, st, i, j)
      {
        PairIsExact(o, config, events, f, other, i, j);
      }
    } else {
      var k :| 0 <= k < |st.gnosis.withdrawals| && k != j
               && st.gnosis.withdrawals[k].publicKeyHex == st.gnosis.withdrawals[j].publicKeyHex;
      assert Carries(st, i, k);
      BothAreRearranged(events);
      var f := BlocksLastTriesOnly(o, config, events, i, k);
      assert AuditedBurn(i, j) !in BurnRows(Run(Listing(o, f), config, BlocksLast(events)));
    }
  }

  lemma PairIsExact(
    o: Oracles, config: Config, events: seq<Event>, f: seq<nat> -> nat, other: seq<Event>, i: nat, j: nat)
    requires DistinctSafes(config) && Rearranged(events, other) && Carries(Run(o, config, events), i, j)
    requires Agrees(config, Run(o, config, events), i, j) ==>
               BI.SoleCarrier(Run(o, config, events).gnosis.withdrawals, j)
    ensures AuditedBurn(i, j) in BurnRows(Run(Listing(o, f), config, other))
            <==> Agrees(config, Run(o, config, events), i, j)
  {
    SameTables(o, config, events, f, other);
    if Agrees(config, Run(o, config, events), i, j) {
      BurnAuditIsExactOnSoleKeys(Listing(o, f), config, other, i, j);
    } else if AuditedBurn(i, j) in BurnRows(Run(Listing(o, f), config, other)) {
      RowAgrees(Listing(o, f), config, other, AuditedBurn(i, j));
    }
  }

  lemma CompetitorsDisagree(o: Oracles, config: Config, events: seq<Event>, i: nat)
    requires DistinctSafes(config)
    requires !NoneAgrees(config, Run(o, config, events), i) && !AtMostOneCarries(Run(o, config, events), i)
    ensures !SameRowsInEveryOrder(o, config, events)
  {
    var st := Run(o, config, events);
    var j: nat :| Agrees(config, st, i, j);
    BothAreRearranged(events);
    ListingItself(o);
    BlocksFirstPairsBurn(o, config, events, i, j);
    var one := Run(Listing(o, o.firstOf), config, BlocksFirst(events));
    var r :| r in one.burnAudit.auditedBurns && r.burnTxOutId == i;
    var k: nat, l: nat :| Carries(st, i, k) && Carries(st, i, l) && k != l;
    var rival := if k == r.withdrawalId then l else k;
    var f := BlocksLastTriesOnly(o, config, events, i, rival);
    assert r in BurnRows(one) && r !in BurnRows(Run(Listing(o, f), config, BlocksLast(events)));
  }

  /**
    * The same pairs are recorded in every interleaving and under every order of rows exactly when, for each stored
    * burn, at most one withdrawal carries its key, or none of those that do agrees with it.
    */
  lemma SameRowsExactlyWhen(o: Oracles, config: Config, events: seq<Event>)
    requires DistinctSafes(config)
    ensures var st := Run(o, config, events);
            SameRowsInEveryOrder(o, config, events) <==>
            forall i: nat :: i < |st.ledger.burnTxOuts| ==> AtMostOneCarries(st, i) || NoneAgrees(config, st, i)
  {
    var st := Run(o, config, events);
    if forall i: nat :: i < |st.ledger.burnTxOuts| ==> AtMostOneCarries(st, i) || NoneAgrees(config, st, i) {
      forall f: seq<nat> -> nat, other: seq<Event> | Rearranged(events, other)
        ensures BurnRows(Run(Listing(o, f), config, other)) == BurnRows(st)
      {
        SameRows(o, config, events, f, other);
      }
    } else {
      var i: nat :| i < |st.ledger.burnTxOuts| && !AtMostOneCarries(st, i) && !NoneAgrees(config, st, i);
      CompetitorsDisagree(o, config, events, i);
    }
  }

  lemma OnlyCarrierIsSole(st: State, i: nat, j: nat)
    requires AtMostOneCarries(st, i) && Carries(st, i, j)
    ensures BI.SoleCarrier(st.gnosis.withdrawals, j)
  {
    forall k | 0 <= k < |st.gnosis.withdrawals| && k != j
      ensures st.gnosis.withdrawals[k].publicKeyHex != st.gnosis.withdrawals[j].publicKeyHex
    {
      assert !Carries(st, i, k);
    }
  }

  lemma SameRows(o: Oracles, config: Config, events: seq<Event>, f: seq<nat> -> nat, other: seq<Event>)
    requires DistinctSafes(config) && Rearranged(events, other)
    requires forall i: nat :: i < |Run(o, config, events).ledger.burnTxOuts| ==>
               AtMostOneCarries(Run(o, config, events), i) || NoneAgrees(config, Run(o, config, events), i)
    ensures BurnRows(Run(Listing(o, f), config, other)) == BurnRows(Run(o, config, events))
  {
    var s, t := Run(o, config, events), Run(Listing(o, f), config, other);
    SameTables(o, config, events, f, other);
    ListingItself(o);
    forall r
      ensures r in BurnRows(t) <==> r in BurnRows(s)
    {
      if r in BurnRows(s) {
        RowAgrees(o, config, events, r);
      }
      if r in BurnRows(t) {
        RowAgrees(Listing(o, f), config, other, r);
        assert Agrees(config, s, r.burnTxOutId, r.withdrawalId);
      }
      if r in BurnRows(s) || r in BurnRows(t) {
        AgreesIsPairs(o, config, events, r.burnTxOutId, r.withdrawalId);
        OnlyCarrierIsSole(s, r.burnTxOutId, r.withdrawalId);
        PairIsExact(o, config, events, f, other, r.burnTxOutId, r.withdrawalId);
        PairIsExact(o, config, events, o.firstOf, events, r.burnTxOutId, r.withdrawalId);
      }
    }
  }
}
