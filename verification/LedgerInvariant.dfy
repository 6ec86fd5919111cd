/** What every synced block keeps true of the ledger tables. */
module LedgerInvariant {
  import opened Wrappers
  import opened Numbers
  import opened Tables
  import opened BalanceWalk
  import opened MintConfigLookup
  import opened LedgerSync
  import Hex

  /* The mints and burns of a block range, read back from the tables */

  ghost function MintFlowsAt(mints: seq<MintTx>, blockIndex: nat): seq<Flow> {
    if mints == [] then []
    else
      var m := mints[|mints| - 1];
      MintFlowsAt(mints[..|mints| - 1], blockIndex) +
      if m.blockIndex == blockIndex then [Minted(m.core.tokenId, m.core.amount)] else []
  }

  ghost function BurnFlowsAt(burns: seq<BurnTxOut>, blockIndex: nat): seq<Flow> {
    if burns == [] then []
    else
      var b := burns[|burns| - 1];
      BurnFlowsAt(burns[..|burns| - 1], blockIndex) +
      if b.blockIndex == blockIndex then [Burned(b.tokenId, b.amount)] else []
  }

  /** All flows of the first `n` blocks: block by block, the mints of a block before its burns. */
  ghost function FlowsThrough(mints: seq<MintTx>, burns: seq<BurnTxOut>, n: nat): seq<Flow> {
    if n == 0 then []
    else FlowsThrough(mints, burns, n - 1) + (MintFlowsAt(mints, n - 1) + BurnFlowsAt(burns, n - 1))
  }

  ghost function Flows(l: Ledger, n: nat): seq<Flow> {
    FlowsThrough(l.mintTxs, l.burnTxOuts, n)
  }

  lemma MintFlowsAppend(mints: seq<MintTx>, m: MintTx, blockIndex: nat)
    ensures MintFlowsAt(mints + [m], blockIndex) ==
            MintFlowsAt(mints, blockIndex) +
            if m.blockIndex == blockIndex then [Minted(m.core.tokenId, m.core.amount)] else []
  {
    assert (mints + [m])[..|mints|] == mints;
  }

  lemma BurnFlowsAppend(burns: seq<BurnTxOut>, b: BurnTxOut, blockIndex: nat)
    ensures BurnFlowsAt(burns + [b], blockIndex) ==
            BurnFlowsAt(burns, blockIndex) +
            if b.blockIndex == blockIndex then [Burned(b.tokenId, b.amount)] else []
  {
    assert (burns + [b])[..|burns|] == burns;
  }

  /** A mint of a later block does not touch the history. */
  lemma {:induction false} FlowsIgnoreLaterMint(mints: seq<MintTx>, burns: seq<BurnTxOut>, m: MintTx, n: nat)
    requires n <= m.blockIndex
    ensures FlowsThrough(mints + [m], burns, n) == FlowsThrough(mints, burns, n)
  {
    if n > 0 {
      FlowsIgnoreLaterMint(mints, burns, m, n - 1);
      MintFlowsAppend(mints, m, n - 1);
    }
  }

  lemma {:induction false} FlowsIgnoreLaterBurn(mints: seq<MintTx>, burns: seq<BurnTxOut>, b: BurnTxOut, n: nat)
    requires n <= b.blockIndex
    ensures FlowsThrough(mints, burns + [b], n) == FlowsThrough(mints, burns, n)
  {
    if n > 0 {
      FlowsIgnoreLaterBurn(mints, burns, b, n - 1);
      BurnFlowsAppend(burns, b, n - 1);
    }
  }

  lemma {:induction false} NoMintsNoFlows(mints: seq<MintTx>, blockIndex: nat)
    requires forall i :: 0 <= i < |mints| ==> mints[i].blockIndex < blockIndex
    ensures MintFlowsAt(mints, blockIndex) == []
  {
    if mints != [] {
      NoMintsNoFlows(mints[..|mints| - 1], blockIndex);
    }
  }

  lemma {:induction false} NoBurnsNoFlows(burns: seq<BurnTxOut>, blockIndex: nat)
    requires forall i :: 0 <= i < |burns| ==> burns[i].blockIndex < blockIndex
    ensures BurnFlowsAt(burns, blockIndex) == []
  {
    if burns != [] {
      NoBurnsNoFlows(burns[..|burns| - 1], blockIndex);
    }
  }

  lemma FlowsAppendMint(mints: seq<MintTx>, burns: seq<BurnTxOut>, m: MintTx, n: nat)
    requires m.blockIndex == n && forall i :: 0 <= i < |burns| ==> burns[i].blockIndex < n
    ensures FlowsThrough(mints + [m], burns, n + 1)
            == FlowsThrough(mints, burns, n + 1) + [Minted(m.core.tokenId, m.core.amount)]
  {
    FlowsIgnoreLaterMint(mints, burns, m, n);
    MintFlowsAppend(mints, m, n);
    NoBurnsNoFlows(burns, n);
    AppendNested(FlowsThrough(mints, burns, n), MintFlowsAt(mints, n), [], Minted(m.core.tokenId, m.core.amount));
  }

  lemma FlowsAppendBurn(mints: seq<MintTx>, burns: seq<BurnTxOut>, b: BurnTxOut, n: nat)
    requires b.blockIndex == n
    ensures FlowsThrough(mints, burns + [b], n + 1) == FlowsThrough(mints, burns, n + 1) + [Burned(b.tokenId, b.amount)]
  {
    FlowsIgnoreLaterBurn(mints, burns, b, n);
    BurnFlowsAppend(burns, b, n);
    AppendNested(
      FlowsThrough(mints, burns, n), MintFlowsAt(mints, n), BurnFlowsAt(burns, n), Burned(b.tokenId, b.amount));
  }

  lemma AppendNested(a: seq<Flow>, b: seq<Flow>, c: seq<Flow>, f: Flow)
    ensures a + (b + (c + [f])) == (a + (b + c)) + [f]
    ensures c == [] ==> a + ((b + [f]) + c) == (a + (b + c)) + [f]
  {
  }

  /* The invariant */

  function Unmatched(mints: seq<MintTx>): nat {
    if mints == [] then 0
    else Unmatched(mints[..|mints| - 1]) + if mints[|mints| - 1].mintConfigId.None? then 1 else 0
  }

  ghost predicate UniqueNonces(mints: seq<MintTx>) {
    forall i, j :: 0 <= i < j < |mints| ==> mints[i].nonceHex != mints[j].nonceHex
  }

  ghost predicate UniqueKeys(burns: seq<BurnTxOut>) {
    forall i, j :: 0 <= i < j < |burns| ==> burns[i].publicKeyHex != burns[j].publicKeyHex
  }

  /** No row is from a block later than the given one. */
  ghost predicate RowsUpTo(l: Ledger, blockIndex: nat) {
    && (forall i :: 0 <= i < |l.mintConfigTxs| ==> l.mintConfigTxs[i].blockIndex <= blockIndex)
    && (forall i :: 0 <= i < |l.mintTxs| ==> l.mintTxs[i].blockIndex <= blockIndex)
    && (forall i :: 0 <= i < |l.burnTxOuts| ==> l.burnTxOuts[i].blockIndex <= blockIndex)
  }

  /** Every stored mint carries the config id that looking it up now would give. */
  ghost predicate LookupsReproducible(o: Oracles, l: Ledger) {
    forall i :: 0 <= i < |l.mintTxs| ==>
      l.mintTxs[i].mintConfigId == LookupMintConfig(o, l, l.mintTxs[i].blockIndex, l.mintTxs[i].core)
  }

  /** The constraints and the config bookkeeping, true after every single insert. */
  ghost predicate RowsOk(o: Oracles, l: Ledger) {
    && Linked(l)
    && OneConfigTxPerBlock(l.mintConfigTxs)
    && UniqueNonces(l.mintTxs)
    && UniqueKeys(l.burnTxOuts)
    && RowsUpTo(l, l.numBlocksSynced)
    && LookupsReproducible(o, l)
    && l.numMintTxsWithoutMatchingMintConfig == Unmatched(l.mintTxs)
    && (forall i :: 0 <= i < |l.mintTxs| ==> l.mintTxs[i].nonceHex == Hex.Encode(l.mintTxs[i].core.nonce))
  }

  /** The stored balances of every synced block are the balances of the flows up to and including that block. */
  ghost predicate HistoryOk(l: Ledger) {
    && |l.blockAuditData| == l.numBlocksSynced
    && (forall i :: 0 <= i < l.numBlocksSynced ==> l.blockAuditData[i] == i)
    && BalancesBelow(l.blockBalances, l.numBlocksSynced)
    && (forall b: nat :: b < l.numBlocksSynced ==> BlockBalanceOk(l, b))
  }

  ghost predicate BalancesBelow(rows: map<(nat, U64), I64>, n: nat) {
    forall k :: k in rows ==> k.0 < n
  }

  ghost predicate BlockBalanceOk(l: Ledger, blockIndex: nat) {
    BalancesForBlock(l.blockBalances, blockIndex) == BalancesOf(Flows(l, blockIndex + 1))
  }

  /** Within a block: the counter of exceeding burns and the running balances agree with the flows so far. */
  ghost predicate Running(o: Oracles, p: Progress) {
    && RowsOk(o, p.ledger)
    && HistoryOk(p.ledger)
    && p.balances == BalancesOf(Flows(p.ledger, p.ledger.numBlocksSynced + 1))
    && p.ledger.numBurnsExceedingBalance == Clamps(Flows(p.ledger, p.ledger.numBlocksSynced + 1))
  }

  /** Between blocks there are no rows of the next block yet. */
  ghost predicate Quiet(l: Ledger) {
    && (forall i :: 0 <= i < |l.mintConfigTxs| ==> l.mintConfigTxs[i].blockIndex < l.numBlocksSynced)
    && (forall i :: 0 <= i < |l.mintTxs| ==> l.mintTxs[i].blockIndex < l.numBlocksSynced)
    && (forall i :: 0 <= i < |l.burnTxOuts| ==> l.burnTxOuts[i].blockIndex < l.numBlocksSynced)
  }

  ghost predicate LedgerOk(o: Oracles, l: Ledger) {
    && RowsOk(o, l)
    && HistoryOk(l)
    && Quiet(l)
    && l.numBurnsExceedingBalance == Clamps(Flows(l, l.numBlocksSynced))
  }

  /* Its preservation, step by step */

  lemma QuietFlows(l: Ledger)
    requires Quiet(l)
    ensures Flows(l, l.numBlocksSynced + 1) == Flows(l, l.numBlocksSynced)
  {
    NoMintsNoFlows(l.mintTxs, l.numBlocksSynced);
    NoBurnsNoFlows(l.burnTxOuts, l.numBlocksSynced);
  }

  /** Rows of the current block leave every recorded lookup reproducible. */
  lemma LookupsStayReproducible(o: Oracles, l: Ledger, m: Ledger, n: nat)
    requires LookupsReproducible(o, l) && Linked(l) && ExtendsFrom(l, m, n)
    requires forall i :: 0 <= i < |m.mintTxs| ==> m.mintTxs[i].blockIndex <= n
    requires forall i :: |l.mintTxs| <= i < |m.mintTxs| ==>
               m.mintTxs[i].mintConfigId == LookupMintConfig(o, l, m.mintTxs[i].blockIndex, m.mintTxs[i].core)
    ensures LookupsReproducible(o, m)
  {
    forall i | 0 <= i < |m.mintTxs|
      ensures m.mintTxs[i].mintConfigId == LookupMintConfig(o, m, m.mintTxs[i].blockIndex, m.mintTxs[i].core)
    {
      LookupStable(o, l, m, n, m.mintTxs[i].blockIndex, m.mintTxs[i].core);
      if i < |l.mintTxs| {
        assert m.mintTxs[i] == l.mintTxs[i];
      }
    }
  }

  lemma OneConfigTxPerBlockAppend(txs: seq<MintConfigTx>, row: MintConfigTx)
    requires OneConfigTxPerBlock(txs) && !ConfigTxConflict(txs, row)
    ensures OneConfigTxPerBlock(txs + [row])
  {
  }

  lemma LinkedWithConfigTx(l: Ledger, row: MintConfigTx, configs: seq<CoreMintConfig>)
    requires Linked(l)
    ensures var m := l.(mintConfigTxs := l.mintConfigTxs + [row],
                        mintConfigs := l.mintConfigs + ConfigRows(|l.mintConfigTxs|, configs));
            Linked(m) && (row.blockIndex >= l.numBlocksSynced ==> ExtendsFrom(l, m, l.numBlocksSynced))
  {
  }

  lemma InsertMintConfigTxKeeps(o: Oracles, l: Ledger, tx: CoreMintConfigTx)
    requires RowsOk(o, l)
    requires InsertMintConfigTx(l, l.numBlocksSynced, tx).Ok?
    ensures RowsOk(o, InsertMintConfigTx(l, l.numBlocksSynced, tx).value)
    ensures var m := InsertMintConfigTx(l, l.numBlocksSynced, tx).value;
            && ExtendsFrom(l, m, l.numBlocksSynced)
            && m == l.(mintConfigTxs := m.mintConfigTxs, mintConfigs := m.mintConfigs)
  {
    var m := InsertMintConfigTx(l, l.numBlocksSynced, tx).value;
    var row := m.mintConfigTxs[|l.mintConfigTxs|];
    OneConfigTxPerBlockAppend(l.mintConfigTxs, row);
    LinkedWithConfigTx(l, row, tx.configs);
    LookupsStayReproducible(o, l, m, l.numBlocksSynced);
  }

  lemma {:induction false} InsertMintConfigTxsKeeps(o: Oracles, l: Ledger, txs: seq<CoreMintConfigTx>)
    requires RowsOk(o, l)
    requires InsertMintConfigTxs(l, l.numBlocksSynced, txs).Ok?
    ensures var m := InsertMintConfigTxs(l, l.numBlocksSynced, txs).value;
            && RowsOk(o, m)
            && m == l.(mintConfigTxs := m.mintConfigTxs, mintConfigs := m.mintConfigs)
    decreases |txs|
  {
    if txs != [] {
      InsertMintConfigTxKeeps(o, l, txs[0]);
      InsertMintConfigTxsKeeps(o, InsertMintConfigTx(l, l.numBlocksSynced, txs[0]).value, txs[1..]);
    }
  }

  lemma UnmatchedAppend(mints: seq<MintTx>, m: MintTx)
    ensures Unmatched(mints + [m]) == Unmatched(mints) + if m.mintConfigId.None? then 1 else 0
  {
    assert (mints + [m])[..|mints|] == mints;
  }

  lemma UniqueNoncesAppend(mints: seq<MintTx>, m: MintTx)
    requires UniqueNonces(mints) && !NonceTaken(mints, m.nonceHex)
    ensures UniqueNonces(mints + [m])
  {
  }

  /** A new mint with the config that a lookup gives it. */
  lemma MintExtends(o: Oracles, l: Ledger, m: Ledger, tx: CoreMintTx)
    requires Linked(l)
    requires m == l.(mintTxs := m.mintTxs, numMintTxsWithoutMatchingMintConfig := m.numMintTxsWithoutMatchingMintConfig)
    requires m.mintTxs == l.mintTxs + [MintTx(l.numBlocksSynced, tx, Hex.Encode(tx.nonce),
                                              LookupMintConfig(o, l, l.numBlocksSynced, tx))]
    ensures Linked(m) && ExtendsFrom(l, m, l.numBlocksSynced)
  {
    if LookupMintConfig(o, l, l.numBlocksSynced, tx).Some? {
      LookupJustified(o, l, l.numBlocksSynced, tx);
    }
  }

  lemma ProcessMintKeepsRows(o: Oracles, p: Progress, tx: CoreMintTx)
    requires RowsOk(o, p.ledger)
    requires ProcessMint(o, p, p.ledger.numBlocksSynced, tx).Ok?
    ensures RowsOk(o, ProcessMint(o, p, p.ledger.numBlocksSynced, tx).value.ledger)
  {
    var l := p.ledger;
    var m := ProcessMint(o, p, l.numBlocksSynced, tx).value.ledger;
    MintExtends(o, l, m, tx);
    UnmatchedAppend(l.mintTxs, m.mintTxs[|l.mintTxs|]);
    UniqueNoncesAppend(l.mintTxs, m.mintTxs[|l.mintTxs|]);
    LookupsStayReproducible(o, l, m, l.numBlocksSynced);
  }

  lemma HistoryKept(l: Ledger, m: Ledger)
    requires HistoryOk(l)
    requires m.blockAuditData == l.blockAuditData && m.blockBalances == l.blockBalances
    requires m.numBlocksSynced == l.numBlocksSynced
    requires forall n: nat :: n <= l.numBlocksSynced ==> Flows(m, n) == Flows(l, n)
    ensures HistoryOk(m)
  {
    forall b: nat | b < l.numBlocksSynced
      ensures BlockBalanceOk(m, b)
    {
      assert BlockBalanceOk(l, b);
    }
  }

  lemma ProcessMintKeeps(o: Oracles, p: Progress, tx: CoreMintTx)
    requires Running(o, p)
    requires BurnsBefore(p.ledger.burnTxOuts, p.ledger.numBlocksSynced)
    requires ProcessMint(o, p, p.ledger.numBlocksSynced, tx).Ok?
    ensures Running(o, ProcessMint(o, p, p.ledger.numBlocksSynced, tx).value)
  {
    var l := p.ledger;
    var q := ProcessMint(o, p, l.numBlocksSynced, tx).value;
    var row := q.ledger.mintTxs[|l.mintTxs|];
    ProcessMintKeepsRows(o, p, tx);
    forall n: nat | n <= l.numBlocksSynced
      ensures Flows(q.ledger, n) == Flows(l, n)
    {
      FlowsIgnoreLaterMint(l.mintTxs, l.burnTxOuts, row, n);
    }
    HistoryKept(l, q.ledger);
    var n := l.numBlocksSynced;
    var flow := Minted(tx.tokenId, tx.amount);
    FlowsAppendMint(l.mintTxs, l.burnTxOuts, row, n);
    assert Flows(q.ledger, n + 1) == Flows(l, n + 1) + [flow];
    BalancesOfAppend(Flows(l, n + 1), flow);
  }

  /** What processing mints leaves alone. */
  lemma {:induction false} ProcessMintsFrame(o: Oracles, p: Progress, blockIndex: nat, txs: seq<CoreMintTx>)
    requires ProcessMints(o, p, blockIndex, txs).Ok?
    ensures var l, m := p.ledger, ProcessMints(o, p, blockIndex, txs).value.ledger;
            && m == l.(mintTxs := m.mintTxs,
                       numMintTxsWithoutMatchingMintConfig := m.numMintTxsWithoutMatchingMintConfig)
            && |l.mintTxs| <= |m.mintTxs| && m.mintTxs[..|l.mintTxs|] == l.mintTxs
    decreases |txs|
  {
    if txs != [] {
      var next := ProcessMint(o, p, blockIndex, txs[0]).value;
      ProcessMintsFrame(o, next, blockIndex, txs[1..]);
      assert next.ledger.mintTxs[..|p.ledger.mintTxs|] == p.ledger.mintTxs;
    }
  }

  ghost predicate BurnsBefore(burns: seq<BurnTxOut>, blockIndex: nat) {
    forall i :: 0 <= i < |burns| ==> burns[i].blockIndex < blockIndex
  }

  lemma {:induction false} ProcessMintsKeeps(o: Oracles, p: Progress, blockIndex: nat, txs: seq<CoreMintTx>)
    requires Running(o, p) && p.ledger.numBlocksSynced == blockIndex
    requires BurnsBefore(p.ledger.burnTxOuts, blockIndex)
    requires ProcessMints(o, p, blockIndex, txs).Ok?
    ensures Running(o, ProcessMints(o, p, blockIndex, txs).value)
    decreases |txs|
  {
    if txs != [] {
      ProcessMintKeeps(o, p, txs[0]);
      ProcessMintsKeeps(o, ProcessMint(o, p, blockIndex, txs[0]).value, blockIndex, txs[1..]);
    }
  }

  lemma ProcessBurnKeepsRows(o: Oracles, p: Progress, burn: BurnTxOut)
    requires RowsOk(o, p.ledger) && burn.blockIndex == p.ledger.numBlocksSynced
    requires ProcessBurn(p, burn).Ok?
    ensures RowsOk(o, ProcessBurn(p, burn).value.ledger)
  {
    var l := p.ledger;
    var m := ProcessBurn(p, burn).value.ledger;
    assert m.mintTxs[..|l.mintTxs|] == l.mintTxs && m.mintConfigs[..|l.mintConfigs|] == l.mintConfigs;
    assert m.mintConfigTxs[..|l.mintConfigTxs|] == l.mintConfigTxs;
    LookupsStayReproducible(o, l, m, l.numBlocksSynced);
  }

  lemma ProcessBurnKeeps(o: Oracles, p: Progress, burn: BurnTxOut)
    requires Running(o, p) && burn.blockIndex == p.ledger.numBlocksSynced
    requires ProcessBurn(p, burn).Ok?
    ensures Running(o, ProcessBurn(p, burn).value)
  {
    var l := p.ledger;
    var m := ProcessBurn(p, burn).value.ledger;
    ProcessBurnKeepsRows(o, p, burn);
    forall n: nat | n <= l.numBlocksSynced
      ensures Flows(m, n) == Flows(l, n)
    {
      FlowsIgnoreLaterBurn(l.mintTxs, l.burnTxOuts, burn, n);
    }
    HistoryKept(l, m);
    var n := l.numBlocksSynced;
    var flow := Burned(burn.tokenId, burn.amount);
    FlowsAppendBurn(l.mintTxs, l.burnTxOuts, burn, n);
    assert Flows(m, n + 1) == Flows(l, n + 1) + [flow];
    BalancesOfAppend(Flows(l, n + 1), flow);
  }

  /** What processing burns leaves alone. */
  lemma {:induction false} ProcessBurnsFrame(p: Progress, burns: seq<BurnTxOut>)
    requires ProcessBurns(p, burns).Ok?
    ensures var l, m := p.ledger, ProcessBurns(p, burns).value.ledger;
            && m == l.(burnTxOuts := m.burnTxOuts, numBurnsExceedingBalance := m.numBurnsExceedingBalance)
            && |l.burnTxOuts| <= |m.burnTxOuts| && m.burnTxOuts[..|l.burnTxOuts|] == l.burnTxOuts
    decreases |burns|
  {
    if burns != [] {
      var next := ProcessBurn(p, burns[0]).value;
      ProcessBurnsFrame(next, burns[1..]);
      assert next.ledger.burnTxOuts[..|p.ledger.burnTxOuts|] == p.ledger.burnTxOuts;
    }
  }

  lemma {:induction false} ProcessBurnsKeeps(o: Oracles, p: Progress, blockIndex: nat, burns: seq<BurnTxOut>)
    requires Running(o, p) && p.ledger.numBlocksSynced == blockIndex
    requires forall i :: 0 <= i < |burns| ==> burns[i].blockIndex == blockIndex
    requires ProcessBurns(p, burns).Ok?
    ensures Running(o, ProcessBurns(p, burns).value)
    decreases |burns|
  {
    if burns != [] {
      ProcessBurnKeeps(o, p, burns[0]);
      ProcessBurnsKeeps(o, ProcessBurn(p, burns[0]).value, blockIndex, burns[1..]);
    }
  }

  lemma {:induction false} BurnsInBlock(o: Oracles, blockIndex: nat, outputs: seq<CoreTxOut>)
    ensures forall i :: 0 <= i < |BurnsIn(o, blockIndex, outputs)| ==>
                          BurnsIn(o, blockIndex, outputs)[i].blockIndex == blockIndex
  {
    if outputs != [] {
      BurnsInBlock(o, blockIndex, outputs[1..]);
    }
  }

  lemma {:induction false} ReplaceFreshBlock(rows: seq<nat>, blockIndex: nat)
    requires blockIndex !in rows
    ensures ReplaceBlock(rows, blockIndex) == rows + [blockIndex]
  {
    if rows != [] {
      ReplaceFreshBlock(rows[1..], blockIndex);
      assert rows == [rows[0]] + rows[1..];
    }
  }

  lemma CastRoundTrip(x: U64)
    ensures AsU64(AsI64(x)) == x
  {
  }

  lemma BalanceCell(rows: map<(nat, U64), I64>, blockIndex: nat, t: U64)
    ensures t in BalancesForBlock(rows, blockIndex) <==> (blockIndex, t) in rows
    ensures (blockIndex, t) in rows ==> BalancesForBlock(rows, blockIndex)[t] == AsU64(rows[(blockIndex, t)])
  {
  }

  /** Balances read back for a block are the balances written, for the whole `u64` range. */
  lemma BalancesReadBack(rows: map<(nat, U64), I64>, blockIndex: nat, balances: map<U64, U64>)
    requires BalancesBelow(rows, blockIndex)
    ensures BalancesForBlock(rows + BalanceRows(blockIndex, balances), blockIndex) == balances
  {
    var all := rows + BalanceRows(blockIndex, balances);
    forall t: U64
      ensures t in BalancesForBlock(all, blockIndex) <==> t in balances
      ensures t in balances ==> BalancesForBlock(all, blockIndex)[t] == balances[t]
    {
      BalanceCell(all, blockIndex, t);
      if t in balances {
        CastRoundTrip(balances[t]);
      }
    }
  }

  /** Writing one block's balances leaves every other block's balances as they were. */
  lemma OtherBalancesKept(rows: map<(nat, U64), I64>, blockIndex: nat, balances: map<U64, U64>, other: nat)
    requires other != blockIndex
    ensures BalancesForBlock(rows + BalanceRows(blockIndex, balances), other) == BalancesForBlock(rows, other)
  {
    var all := rows + BalanceRows(blockIndex, balances);
    forall t: U64
      ensures t in BalancesForBlock(all, other) <==> t in BalancesForBlock(rows, other)
      ensures t in BalancesForBlock(rows, other) ==> BalancesForBlock(all, other)[t] == BalancesForBlock(rows, other)[t]
    {
      BalanceCell(all, other, t);
      BalanceCell(rows, other, t);
    }
  }

  /** Bookkeeping that leaves the mint tables alone leaves their invariant alone. */
  lemma RowsKept(o: Oracles, l: Ledger, m: Ledger)
    requires RowsOk(o, l) && l.numBlocksSynced <= m.numBlocksSynced
    requires m.mintConfigTxs == l.mintConfigTxs && m.mintConfigs == l.mintConfigs
    requires m.mintTxs == l.mintTxs && m.burnTxOuts == l.burnTxOuts
    requires m.numMintTxsWithoutMatchingMintConfig == l.numMintTxsWithoutMatchingMintConfig
    ensures RowsOk(o, m)
  {
    assert m.mintTxs[..|l.mintTxs|] == l.mintTxs && m.mintConfigs[..|l.mintConfigs|] == l.mintConfigs;
    assert m.mintConfigTxs[..|l.mintConfigTxs|] == l.mintConfigTxs;
    LookupsStayReproducible(o, l, m, l.numBlocksSynced);
  }

  lemma FinishBlockIs(p: Progress)
    requires HistoryOk(p.ledger)
    requires FinishBlock(p, p.ledger.numBlocksSynced).Ok?
    ensures var n := p.ledger.numBlocksSynced;
            FinishBlock(p, n).value.ledger ==
              p.ledger.(numBlocksSynced := n + 1,
                        blockAuditData := p.ledger.blockAuditData + [n],
                        blockBalances := p.ledger.blockBalances + BalanceRows(n, p.balances))
  {
    ReplaceFreshBlock(p.ledger.blockAuditData, p.ledger.numBlocksSynced);
  }

  lemma BalancesBelowNext(rows: map<(nat, U64), I64>, n: nat, balances: map<U64, U64>)
    requires BalancesBelow(rows, n)
    ensures BalancesBelow(rows + BalanceRows(n, balances), n + 1)
  {
  }

  lemma BlockBalanceWritten(l: Ledger, m: Ledger, balances: map<U64, U64>, blockIndex: nat)
    requires HistoryOk(l) && blockIndex <= l.numBlocksSynced
    requires balances == BalancesOf(Flows(l, l.numBlocksSynced + 1))
    requires m.mintTxs == l.mintTxs && m.burnTxOuts == l.burnTxOuts
    requires m.blockBalances == l.blockBalances + BalanceRows(l.numBlocksSynced, balances)
    ensures BlockBalanceOk(m, blockIndex)
  {
    assert Flows(m, blockIndex + 1) == Flows(l, blockIndex + 1);
    if blockIndex < l.numBlocksSynced {
      OtherBalancesKept(l.blockBalances, l.numBlocksSynced, balances, blockIndex);
      assert BlockBalanceOk(l, blockIndex);
    } else {
      BalancesReadBack(l.blockBalances, l.numBlocksSynced, balances);
    }
  }

  lemma FinishBlockHistory(l: Ledger, m: Ledger, balances: map<U64, U64>)
    requires HistoryOk(l)
    requires balances == BalancesOf(Flows(l, l.numBlocksSynced + 1))
    requires m == l.(numBlocksSynced := l.numBlocksSynced + 1,
                     blockAuditData := l.blockAuditData + [l.numBlocksSynced],
                     blockBalances := l.blockBalances + BalanceRows(l.numBlocksSynced, balances))
    ensures HistoryOk(m)
  {
    BalancesBelowNext(l.blockBalances, l.numBlocksSynced, balances);
    forall b: nat | b < m.numBlocksSynced
      ensures BlockBalanceOk(m, b)
    {
      BlockBalanceWritten(l, m, balances, b);
    }
  }

  lemma FinishBlockKeeps(o: Oracles, p: Progress)
    requires Running(o, p)
    requires FinishBlock(p, p.ledger.numBlocksSynced).Ok?
    ensures LedgerOk(o, FinishBlock(p, p.ledger.numBlocksSynced).value.ledger)
  {
    var m := FinishBlock(p, p.ledger.numBlocksSynced).value.ledger;
    FinishBlockIs(p);
    RowsKept(o, p.ledger, m);
    FinishBlockHistory(p.ledger, m, p.balances);
    assert Flows(m, m.numBlocksSynced) == Flows(p.ledger, p.ledger.numBlocksSynced + 1);
  }

  lemma EmptyLedgerOk(o: Oracles)
    ensures LedgerOk(o, EMPTY_LEDGER)
  {
  }

  /** Balances enter a block as the previous block left them. */
  lemma PreviousBalancesAre(o: Oracles, l: Ledger)
    requires LedgerOk(o, l)
    ensures PreviousBalances(l, l.numBlocksSynced) == BalancesOf(Flows(l, l.numBlocksSynced + 1))
  {
    QuietFlows(l);
    if l.numBlocksSynced > 0 {
      assert BlockBalanceOk(l, l.numBlocksSynced - 1);
    }
  }

  /** The state of a block that is about to be finished. */
  function Processed(o: Oracles, l: Ledger, block: Block): Result<Progress, Error> {
    var configured :- InsertMintConfigTxs(l, block.index, block.mintConfigTxs);
    var start := Progress(configured, PreviousBalances(configured, block.index));
    var minted :- ProcessMints(o, start, block.index, block.mintTxs);
    ProcessBurns(minted, BurnsIn(o, block.index, block.outputs))
  }

  lemma ProcessedKeeps(o: Oracles, l: Ledger, block: Block)
    requires LedgerOk(o, l) && block.index == l.numBlocksSynced
    requires Processed(o, l, block).Ok?
    ensures var p := Processed(o, l, block).value;
            && Running(o, p)
            && p.ledger.numBlocksSynced == l.numBlocksSynced
            && |l.mintTxs| <= |p.ledger.mintTxs| && p.ledger.mintTxs[..|l.mintTxs|] == l.mintTxs
            && |l.burnTxOuts| <= |p.ledger.burnTxOuts| && p.ledger.burnTxOuts[..|l.burnTxOuts|] == l.burnTxOuts
            && p.ledger.blockBalances == l.blockBalances
  {
    var n := l.numBlocksSynced;
    var configured := InsertMintConfigTxs(l, n, block.mintConfigTxs).value;
    InsertMintConfigTxsKeeps(o, l, block.mintConfigTxs);
    PreviousBalancesAre(o, l);
    QuietFlows(l);
    HistoryKept(l, configured);
    var start := Progress(configured, PreviousBalances(configured, n));
    ProcessMintsFrame(o, start, n, block.mintTxs);
    ProcessMintsKeeps(o, start, n, block.mintTxs);
    var minted := ProcessMints(o, start, n, block.mintTxs).value;
    BurnsInBlock(o, n, block.outputs);
    ProcessBurnsFrame(minted, BurnsIn(o, n, block.outputs));
    ProcessBurnsKeeps(o, minted, n, BurnsIn(o, n, block.outputs));
  }

  lemma SyncBlockIs(o: Oracles, l: Ledger, block: Block)
    requires LedgerOk(o, l) && SyncBlock(o, l, block).Ok?
    ensures block.index == l.numBlocksSynced && Processed(o, l, block).Ok?
    ensures SyncBlock(o, l, block) == FinishBlock(Processed(o, l, block).value, l.numBlocksSynced)
  {
  }

  /** Every committed block keeps the invariant and only adds rows. */
  lemma SyncBlockKeeps(o: Oracles, l: Ledger, block: Block)
    requires LedgerOk(o, l) && SyncBlock(o, l, block).Ok?
    ensures LedgerOk(o, SyncBlock(o, l, block).value.ledger)
    ensures var m := SyncBlock(o, l, block).value.ledger;
            && m.numBlocksSynced == l.numBlocksSynced + 1
            && |l.mintTxs| <= |m.mintTxs| && m.mintTxs[..|l.mintTxs|] == l.mintTxs
            && |l.burnTxOuts| <= |m.burnTxOuts| && m.burnTxOuts[..|l.burnTxOuts|] == l.burnTxOuts
  {
    SyncBlockIs(o, l, block);
    ProcessedKeeps(o, l, block);
    FinishBlockKeeps(o, Processed(o, l, block).value);
    FinishBlockIs(Processed(o, l, block).value);
  }

  /** The stored balances of a block are never changed by later blocks. */
  lemma SyncBlockKeepsHistory(o: Oracles, l: Ledger, block: Block, b: nat)
    requires LedgerOk(o, l) && SyncBlock(o, l, block).Ok? && b < l.numBlocksSynced
    ensures BalancesForBlock(SyncBlock(o, l, block).value.ledger.blockBalances, b)
            == BalancesForBlock(l.blockBalances, b)
  {
    SyncBlockIs(o, l, block);
    ProcessedKeeps(o, l, block);
    var p := Processed(o, l, block).value;
    FinishBlockIs(p);
    OtherBalancesKept(l.blockBalances, l.numBlocksSynced, p.balances, b);
  }
}
