/** What a committed block leaves in the ledger tables, in terms of the block alone. */
module LedgerContents {
  import opened Wrappers
  import opened Tables
  import opened MintConfigLookup
  import opened LedgerSync
  import opened LedgerInvariant
  import opened MintLimitOvershoot
  import Hex

  /* Mint configs */

  /** The row records the config tx. */
  ghost predicate RecordsConfigTx(row: MintConfigTx, blockIndex: nat, tx: CoreMintConfigTx) {
    && row.blockIndex == blockIndex
    && row.tokenId == tx.tokenId
    && row.nonceHex == Hex.Encode(tx.nonce)
    && row.totalMintLimit == tx.totalMintLimit
  }

  /** The configs from the given one on are those of the config tx, in order, and no others are linked to it. */
  ghost predicate ConfigsFrom(configs: seq<MintConfig>, start: nat, txId: nat, tx: CoreMintConfigTx) {
    && start + |tx.configs| <= |configs|
    && (forall i :: start <= i < start + |tx.configs| ==>
          && configs[i].mintConfigTxId == txId
          && configs[i].mintLimit == tx.configs[i - start].mintLimit
          && configs[i].signerSet == tx.configs[i - start].signerSet)
    && (forall i :: 0 <= i < |configs| && configs[i].mintConfigTxId == txId ==> start <= i < start + |tx.configs|)
  }

  /** The configs linked to the config tx are exactly those it introduces, in order. */
  ghost predicate RecordsConfigs(configs: seq<MintConfig>, txId: nat, tx: CoreMintConfigTx) {
    exists start: nat :: ConfigsFrom(configs, start, txId, tx)
  }

  /** From the given row on, the config tx table holds the given config txs, each with its configs. */
  ghost predicate RecordsConfigTxs(l: Ledger, from: nat, blockIndex: nat, txs: seq<CoreMintConfigTx>) {
    && |l.mintConfigTxs| == from + |txs|
    && forall k :: 0 <= k < |txs| ==>
         && RecordsConfigTx(l.mintConfigTxs[from + k], blockIndex, txs[k])
         && RecordsConfigs(l.mintConfigs, from + k, txs[k])
  }

  lemma OneConfigTxRecorded(l: Ledger, blockIndex: nat, tx: CoreMintConfigTx)
    requires Linked(l) && InsertMintConfigTx(l, blockIndex, tx).Ok?
    ensures var m := InsertMintConfigTx(l, blockIndex, tx).value;
            && Linked(m)
            && |m.mintConfigTxs| == |l.mintConfigTxs| + 1
            && RecordsConfigTx(m.mintConfigTxs[|l.mintConfigTxs|], blockIndex, tx)
            && RecordsConfigs(m.mintConfigs, |l.mintConfigTxs|, tx)
  {
    var m := InsertMintConfigTx(l, blockIndex, tx).value;
    LinkedWithConfigTx(l, m.mintConfigTxs[|l.mintConfigTxs|], tx.configs);
    assert ConfigsFrom(m.mintConfigs, |l.mintConfigs|, |l.mintConfigTxs|, tx);
  }

  lemma ConfigsStay(l: Ledger, m: Ledger, start: nat, id: nat, n: nat, tx: CoreMintConfigTx)
    requires ExtendsFrom(l, m, n) && id < |l.mintConfigTxs| && ConfigsFrom(l.mintConfigs, start, id, tx)
    ensures ConfigsFrom(m.mintConfigs, start, id, tx)
  {
    forall i | 0 <= i < |l.mintConfigs|
      ensures m.mintConfigs[i] == l.mintConfigs[i]
    {
      assert m.mintConfigs[..|l.mintConfigs|][i] == m.mintConfigs[i];
    }
  }

  lemma RecordedStays(l: Ledger, m: Ledger, blockIndex: nat, id: nat, n: nat, tx: CoreMintConfigTx)
    requires ExtendsFrom(l, m, n) && id < |l.mintConfigTxs|
    requires RecordsConfigTx(l.mintConfigTxs[id], blockIndex, tx) && RecordsConfigs(l.mintConfigs, id, tx)
    ensures RecordsConfigTx(m.mintConfigTxs[id], blockIndex, tx) && RecordsConfigs(m.mintConfigs, id, tx)
  {
    assert m.mintConfigTxs[id] == m.mintConfigTxs[..|l.mintConfigTxs|][id];
    var start: nat :| ConfigsFrom(l.mintConfigs, start, id, tx);
    ConfigsStay(l, m, start, id, n, tx);
  }

  lemma {:induction false} ConfigTxsRecorded(l: Ledger, blockIndex: nat, txs: seq<CoreMintConfigTx>)
    requires Linked(l) && InsertMintConfigTxs(l, blockIndex, txs).Ok?
    ensures RecordsConfigTxs(InsertMintConfigTxs(l, blockIndex, txs).value, |l.mintConfigTxs|, blockIndex, txs)
    decreases |txs|
  {
    if txs != [] {
      var next := InsertMintConfigTx(l, blockIndex, txs[0]).value;
      var m := InsertMintConfigTxs(l, blockIndex, txs).value;
      OneConfigTxRecorded(l, blockIndex, txs[0]);
      ConfigTxsRecorded(next, blockIndex, txs[1..]);
      assert ExtendsFrom(next, next, blockIndex);
      ConfigTxsExtendFrom(next, next, blockIndex, txs[1..]);
      RecordedStays(next, m, blockIndex, |l.mintConfigTxs|, blockIndex, txs[0]);
      RecordedFromFirst(m, |l.mintConfigTxs|, blockIndex, txs);
    }
  }

  lemma RecordedFromFirst(m: Ledger, from: nat, blockIndex: nat, txs: seq<CoreMintConfigTx>)
    requires txs != [] && from < |m.mintConfigTxs|
    requires RecordsConfigTx(m.mintConfigTxs[from], blockIndex, txs[0]) && RecordsConfigs(m.mintConfigs, from, txs[0])
    requires RecordsConfigTxs(m, from + 1, blockIndex, txs[1..])
    ensures RecordsConfigTxs(m, from, blockIndex, txs)
  {
    forall k | 0 <= k < |txs|
      ensures RecordsConfigTx(m.mintConfigTxs[from + k], blockIndex, txs[k])
      ensures RecordsConfigs(m.mintConfigs, from + k, txs[k])
    {
      if k > 0 {
        assert txs[1..][k - 1] == txs[k];
        assert RecordsConfigTx(m.mintConfigTxs[from + 1 + (k - 1)], blockIndex, txs[1..][k - 1]);
        assert RecordsConfigs(m.mintConfigs, from + 1 + (k - 1), txs[1..][k - 1]);
      }
    }
  }

  /* Mints */

  ghost predicate RecordsMint(row: MintTx, blockIndex: nat, tx: CoreMintTx) {
    row.blockIndex == blockIndex && row.core == tx && row.nonceHex == Hex.Encode(tx.nonce)
  }

  /** From the given row on, the table holds the given mints. */
  ghost predicate RecordsMints(mints: seq<MintTx>, from: nat, blockIndex: nat, txs: seq<CoreMintTx>) {
    && |mints| == from + |txs|
    && forall k :: 0 <= k < |txs| ==> RecordsMint(mints[from + k], blockIndex, txs[k])
  }

  lemma {:induction false} MintsRecorded(o: Oracles, p: Progress, blockIndex: nat, txs: seq<CoreMintTx>)
    requires ProcessMints(o, p, blockIndex, txs).Ok?
    ensures RecordsMints(ProcessMints(o, p, blockIndex, txs).value.ledger.mintTxs, |p.ledger.mintTxs|, blockIndex, txs)
    decreases |txs|
  {
    if txs != [] {
      var from := |p.ledger.mintTxs|;
      var next := ProcessMint(o, p, blockIndex, txs[0]).value;
      var mints := ProcessMints(o, p, blockIndex, txs).value.ledger.mintTxs;
      ProcessMintsFrame(o, next, blockIndex, txs[1..]);
      assert mints[from] == mints[..from + 1][from] == next.ledger.mintTxs[from];
      MintsRecorded(o, next, blockIndex, txs[1..]);
      MintsRecordedFromFirst(mints, from, blockIndex, txs);
    }
  }

  lemma MintsRecordedFromFirst(mints: seq<MintTx>, from: nat, blockIndex: nat, txs: seq<CoreMintTx>)
    requires txs != [] && from < |mints| && RecordsMint(mints[from], blockIndex, txs[0])
    requires RecordsMints(mints, from + 1, blockIndex, txs[1..])
    ensures RecordsMints(mints, from, blockIndex, txs)
  {
    forall k | 0 <= k < |txs|
      ensures RecordsMint(mints[from + k], blockIndex, txs[k])
    {
      if k > 0 {
        assert RecordsMint(mints[from + 1 + (k - 1)], blockIndex, txs[1..][k - 1]);
      }
    }
  }

  /* Burns */

  /** The positions of the outputs that the burn account can open, in order. */
  ghost predicate OpenedAt(o: Oracles, outputs: seq<CoreTxOut>, positions: seq<nat>) {
    && (forall k, l :: 0 <= k < l < |positions| ==> positions[k] < positions[l])
    && (forall i: nat :: i in positions <==> i < |outputs| && o.viewKeyMatch(outputs[i]).Some?)
  }

  ghost predicate RecordsBurn(o: Oracles, row: BurnTxOut, blockIndex: nat, output: CoreTxOut) {
    && row.blockIndex == blockIndex
    && o.viewKeyMatch(output) == Some(TokenAmount(row.tokenId, row.amount))
    && row.publicKeyHex == Hex.Encode(output.publicKey)
  }

  /** From the given row on, the rows record the outputs at the given positions. */
  ghost predicate BurnsAt(
    o: Oracles, burns: seq<BurnTxOut>, from: nat, blockIndex: nat, outputs: seq<CoreTxOut>, positions: seq<nat>)
  {
    && |burns| == from + |positions|
    && forall k :: 0 <= k < |positions| ==>
         positions[k] < |outputs| && RecordsBurn(o, burns[from + k], blockIndex, outputs[positions[k]])
  }

  /** From the given row on, the table holds exactly the outputs that the burn account can open. */
  ghost predicate RecordsBurns(
    o: Oracles, burns: seq<BurnTxOut>, from: nat, blockIndex: nat, outputs: seq<CoreTxOut>, positions: seq<nat>)
  {
    OpenedAt(o, outputs, positions) && BurnsAt(o, burns, from, blockIndex, outputs, positions)
  }

  /** One output before others: the positions of the others move up by one. */
  lemma OpenedBefore(o: Oracles, outputs: seq<CoreTxOut>, later: seq<nat>) returns (positions: seq<nat>)
    requires outputs != [] && OpenedAt(o, outputs[1..], later)
    ensures OpenedAt(o, outputs, positions)
    ensures o.viewKeyMatch(outputs[0]).Some? ==>
              && |positions| == |later| + 1 && positions[0] == 0
              && forall k :: 0 <= k < |later| ==> positions[k + 1] == later[k] + 1
    ensures o.viewKeyMatch(outputs[0]).None? ==>
              |positions| == |later| && forall k :: 0 <= k < |later| ==> positions[k] == later[k] + 1
  {
    var moved := seq(|later|, k requires 0 <= k < |later| => later[k] + 1);
    assert forall i: nat :: i in moved <==> i > 0 && i - 1 in later by {
      forall i: nat
        ensures i in moved <==> i > 0 && i - 1 in later
      {
        if i > 0 && i - 1 in later {
          var k :| 0 <= k < |later| && later[k] == i - 1;
          assert moved[k] == i;
        }
      }
    }
    positions := if o.viewKeyMatch(outputs[0]).Some? then [0] + moved else moved;
    forall i: nat
      ensures i in positions <==> i < |outputs| && o.viewKeyMatch(outputs[i]).Some?
    {
      if 0 < i < |outputs| {
        assert outputs[1..][i - 1] == outputs[i];
      }
    }
  }

  /** The rows of later outputs, seen from one output earlier. */
  lemma BurnsBefore(
    o: Oracles, burns: seq<BurnTxOut>, blockIndex: nat, outputs: seq<CoreTxOut>, later: seq<nat>, positions: seq<nat>)
    requires outputs != [] && BurnsAt(o, burns, 0, blockIndex, outputs[1..], later)
    requires |positions| == |later| && forall k :: 0 <= k < |later| ==> positions[k] == later[k] + 1
    ensures BurnsAt(o, burns, 0, blockIndex, outputs, positions)
  {
    forall k | 0 <= k < |positions|
      ensures positions[k] < |outputs| && RecordsBurn(o, burns[0 + k], blockIndex, outputs[positions[k]])
    {
      assert positions[k] == later[k] + 1;
      assert RecordsBurn(o, burns[0 + k], blockIndex, outputs[1..][later[k]]);
    }
  }

  lemma BurnFirst(
    o: Oracles, first: BurnTxOut, rest: seq<BurnTxOut>, blockIndex: nat, outputs: seq<CoreTxOut>, later: seq<nat>,
    positions: seq<nat>)
    requires outputs != [] && BurnsAt(o, rest, 0, blockIndex, outputs[1..], later)
    requires RecordsBurn(o, first, blockIndex, outputs[0])
    requires |positions| == |later| + 1 && positions[0] == 0
    requires forall k :: 0 <= k < |later| ==> positions[k + 1] == later[k] + 1
    ensures BurnsAt(o, [first] + rest, 0, blockIndex, outputs, positions)
  {
    forall k | 0 <= k < |positions|
      ensures positions[k] < |outputs| && RecordsBurn(o, ([first] + rest)[0 + k], blockIndex, outputs[positions[k]])
    {
      if k > 0 {
        var i := k - 1;
        assert positions[i + 1] == later[i] + 1;
        assert RecordsBurn(o, rest[0 + i], blockIndex, outputs[1..][later[i]]);
      }
    }
  }

  lemma {:induction false} BurnsAreOpened(o: Oracles, blockIndex: nat, outputs: seq<CoreTxOut>)
    returns (positions: seq<nat>)
    ensures RecordsBurns(o, BurnsIn(o, blockIndex, outputs), 0, blockIndex, outputs, positions)
  {
    if outputs == [] {
      positions := [];
    } else {
      var later := BurnsAreOpened(o, blockIndex, outputs[1..]);
      var rest := BurnsIn(o, blockIndex, outputs[1..]);
      positions := OpenedBefore(o, outputs, later);
      match o.viewKeyMatch(outputs[0])
      case Some(a) =>
        var first := BurnTxOut(blockIndex, a.tokenId, a.amount, Hex.Encode(outputs[0].publicKey));
        BurnFirst(o, first, rest, blockIndex, outputs, later, positions);
        assert BurnsIn(o, blockIndex, outputs) == [first] + rest;
      case None =>
        BurnsBefore(o, rest, blockIndex, outputs, later, positions);
        assert BurnsIn(o, blockIndex, outputs) == rest;
    }
  }

  lemma {:induction false} BurnsAppended(p: Progress, burns: seq<BurnTxOut>)
    requires ProcessBurns(p, burns).Ok?
    ensures ProcessBurns(p, burns).value.ledger.burnTxOuts == p.ledger.burnTxOuts + burns
    decreases |burns|
  {
    if burns != [] {
      BurnsAppended(ProcessBurn(p, burns[0]).value, burns[1..]);
    }
  }

  lemma ContentsAppendBurns(o: Oracles, l: Ledger, block: Block)
    requires block.index == l.numBlocksSynced && Processed(o, l, block).Ok?
    ensures Processed(o, l, block).value.ledger.burnTxOuts == l.burnTxOuts + BurnsIn(o, block.index, block.outputs)
  {
    var configured := Configured(l, block).value;
    ConfiguredExtends(l, block);
    ConfigTxsExtendFrom(l, l, l.numBlocksSynced, block.mintConfigTxs);
    ProcessMintsFrame(o, Progress(configured, PreviousBalances(configured, block.index)), block.index, block.mintTxs);
    BurnsAppended(AfterMints(o, configured, block).value, BurnsIn(o, block.index, block.outputs));
  }

  /** A committed block stores all its burns, in order. */
  lemma BlockAppendsBurns(o: Oracles, l: Ledger, block: Block)
    requires LedgerOk(o, l) && SyncBlock(o, l, block).Ok?
    ensures SyncBlock(o, l, block).value.ledger.burnTxOuts == l.burnTxOuts + BurnsIn(o, block.index, block.outputs)
  {
    SyncBlockIs(o, l, block);
    ContentsAppendBurns(o, l, block);
    ProcessedKeeps(o, l, block);
    FinishBlockIs(Processed(o, l, block).value);
  }

  /* The whole block */

  /** What the tables of a ledger gained, compared with an earlier one, is what the block holds. */
  ghost predicate RecordsBlock(o: Oracles, l: Ledger, m: Ledger, block: Block, positions: seq<nat>) {
    && RecordsConfigTxs(m, |l.mintConfigTxs|, block.index, block.mintConfigTxs)
    && RecordsMints(m.mintTxs, |l.mintTxs|, block.index, block.mintTxs)
    && RecordsBurns(o, m.burnTxOuts, |l.burnTxOuts|, block.index, block.outputs, positions)
  }

  lemma ConfigsOfBlockRecorded(o: Oracles, l: Ledger, block: Block)
    requires LedgerOk(o, l) && SyncBlock(o, l, block).Ok?
    ensures var m := SyncBlock(o, l, block).value.ledger;
            RecordsConfigTxs(m, |l.mintConfigTxs|, block.index, block.mintConfigTxs)
  {
    TablesAfter(o, l, block);
    ConfigTxsRecorded(l, block.index, block.mintConfigTxs);
  }

  lemma MintsOfBlockRecorded(o: Oracles, l: Ledger, block: Block)
    requires LedgerOk(o, l) && SyncBlock(o, l, block).Ok?
    ensures RecordsMints(SyncBlock(o, l, block).value.ledger.mintTxs, |l.mintTxs|, block.index, block.mintTxs)
  {
    TablesAfter(o, l, block);
    ConfiguredExtends(l, block);
    AfterMintsRecorded(o, Configured(l, block).value, block);
  }

  lemma AfterMintsRecorded(o: Oracles, configured: Ledger, block: Block)
    requires AfterMints(o, configured, block).Ok?
    ensures RecordsMints(AfterMints(o, configured, block).value.ledger.mintTxs, |configured.mintTxs|, block.index,
                         block.mintTxs)
  {
    MintsRecorded(o, Progress(configured, PreviousBalances(configured, block.index)), block.index, block.mintTxs);
  }

  lemma BurnsOfBlockRecorded(o: Oracles, l: Ledger, block: Block) returns (positions: seq<nat>)
    requires LedgerOk(o, l) && SyncBlock(o, l, block).Ok?
    ensures RecordsBurns(o, SyncBlock(o, l, block).value.ledger.burnTxOuts, |l.burnTxOuts|, block.index, block.outputs,
                         positions)
  {
    BlockAppendsBurns(o, l, block);
    positions := BurnsAreOpened(o, block.index, block.outputs);
    RecordedBehind(o, l.burnTxOuts, BurnsIn(o, block.index, block.outputs), block.index, block.outputs, positions);
  }

  lemma RecordedBehind(
    o: Oracles, before: seq<BurnTxOut>, burns: seq<BurnTxOut>, blockIndex: nat, outputs: seq<CoreTxOut>,
    positions: seq<nat>)
    requires RecordsBurns(o, burns, 0, blockIndex, outputs, positions)
    ensures RecordsBurns(o, before + burns, |before|, blockIndex, outputs, positions)
  {
    forall k | 0 <= k < |positions|
      ensures RecordsBurn(o, (before + burns)[|before| + k], blockIndex, outputs[positions[k]])
    {
      assert RecordsBurn(o, burns[0 + k], blockIndex, outputs[positions[k]]);
    }
  }

  /**
    * A committed block leaves exactly its own contents: its config txs, each linked to exactly its configs with
    * their limits and signers, its mints, and one burn for each output that the burn account can open, all in order.
    */
  lemma CommittedBlockIsRecorded(o: Oracles, l: Ledger, block: Block) returns (positions: seq<nat>)
    requires LedgerOk(o, l) && SyncBlock(o, l, block).Ok?
    ensures RecordsBlock(o, l, SyncBlock(o, l, block).value.ledger, block, positions)
  {
    ConfigsOfBlockRecorded(o, l, block);
    MintsOfBlockRecorded(o, l, block);
    positions := BurnsOfBlockRecorded(o, l, block);
  }
}
