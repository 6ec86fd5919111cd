/** Exactly which blocks are accepted. */
module LedgerAcceptance {
  import opened Wrappers
  import opened Tables
  import opened LedgerSync
  import opened LedgerInvariant
  import Hex

  /** New and pairwise distinct names for a UNIQUE column. */
  ghost predicate Fresh(taken: set<string>, names: seq<string>) {
    && (forall i :: 0 <= i < |names| ==> names[i] !in taken)
    && (forall i, j :: 0 <= i < j < |names| ==> names[i] != names[j])
  }

  lemma FreshSplit(taken: set<string>, names: seq<string>)
    requires names != []
    ensures Fresh(taken, names) <==> names[0] !in taken && Fresh(taken + {names[0]}, names[1..])
  {
    if names[0] !in taken && Fresh(taken + {names[0]}, names[1..]) {
      forall i, j | 0 <= i < j < |names|
        ensures names[i] != names[j]
      {
        assert names[j] == names[1..][j - 1];
        if i > 0 {
          assert names[i] == names[1..][i - 1];
        }
      }
      forall i | 0 <= i < |names|
        ensures names[i] !in taken
      {
        if i > 0 {
          assert names[i] == names[1..][i - 1];
        }
      }
    }
  }

  ghost function ConfigNonces(txs: seq<MintConfigTx>): set<string> {
    set t | t in txs :: t.nonceHex
  }

  ghost function Nonces(mints: seq<MintTx>): set<string> {
    set m | m in mints :: m.nonceHex
  }

  ghost function Keys(burns: seq<BurnTxOut>): set<string> {
    set b | b in burns :: b.publicKeyHex
  }

  function CoreConfigNonces(txs: seq<CoreMintConfigTx>): seq<string> {
    if txs == [] then [] else [Hex.Encode(txs[0].nonce)] + CoreConfigNonces(txs[1..])
  }

  function CoreNonces(txs: seq<CoreMintTx>): seq<string> {
    if txs == [] then [] else [Hex.Encode(txs[0].nonce)] + CoreNonces(txs[1..])
  }

  function BurnKeys(burns: seq<BurnTxOut>): seq<string> {
    if burns == [] then [] else [burns[0].publicKeyHex] + BurnKeys(burns[1..])
  }

  /** No two config txs of the block are for one token, and no stored one of the same block is for any of theirs. */
  ghost predicate FreshTokens(stored: seq<MintConfigTx>, blockIndex: nat, txs: seq<CoreMintConfigTx>) {
    && (forall i, k :: 0 <= i < |txs| && 0 <= k < |stored| ==>
          stored[k].blockIndex != blockIndex || stored[k].tokenId != txs[i].tokenId)
    && (forall i, j :: 0 <= i < j < |txs| ==> txs[i].tokenId != txs[j].tokenId)
  }

  lemma FreshTokensSplit(stored: seq<MintConfigTx>, row: MintConfigTx, blockIndex: nat, txs: seq<CoreMintConfigTx>)
    requires txs != [] && row.blockIndex == blockIndex && row.tokenId == txs[0].tokenId
    ensures FreshTokens(stored, blockIndex, txs) <==>
            FreshTokens(stored, blockIndex, [txs[0]]) && FreshTokens(stored + [row], blockIndex, txs[1..])
  {
    if FreshTokens(stored, blockIndex, [txs[0]]) && FreshTokens(stored + [row], blockIndex, txs[1..]) {
      forall i, k | 0 <= i < |txs| && 0 <= k < |stored|
        ensures stored[k].blockIndex != blockIndex || stored[k].tokenId != txs[i].tokenId
      {
        assert (stored + [row])[k] == stored[k];
        if i == 0 {
          assert [txs[0]][0] == txs[0];
        } else {
          assert txs[i] == txs[1..][i - 1];
        }
      }
      forall i, j | 0 <= i < j < |txs|
        ensures txs[i].tokenId != txs[j].tokenId
      {
        assert txs[j] == txs[1..][j - 1];
        if i == 0 {
          assert (stored + [row])[|stored|] == row;
        } else {
          assert txs[i] == txs[1..][i - 1];
        }
      }
    }
    if FreshTokens(stored, blockIndex, txs) {
      forall i, k | 0 <= i < |txs[1..]| && 0 <= k < |stored + [row]|
        ensures (stored + [row])[k].blockIndex != blockIndex || (stored + [row])[k].tokenId != txs[1..][i].tokenId
      {
        assert txs[1..][i] == txs[i + 1];
      }
    }
  }

  lemma ConfigNoncesAppend(txs: seq<MintConfigTx>, row: MintConfigTx)
    ensures ConfigNonces(txs + [row]) == ConfigNonces(txs) + {row.nonceHex}
  {
    assert forall x :: x in txs + [row] <==> x in txs || x == row;
  }

  lemma NoncesAppend(mints: seq<MintTx>, row: MintTx)
    ensures Nonces(mints + [row]) == Nonces(mints) + {row.nonceHex}
  {
    assert forall x :: x in mints + [row] <==> x in mints || x == row;
  }

  lemma KeysAppend(burns: seq<BurnTxOut>, row: BurnTxOut)
    ensures Keys(burns + [row]) == Keys(burns) + {row.publicKeyHex}
  {
    assert forall x :: x in burns + [row] <==> x in burns || x == row;
  }

  lemma ConflictMeans(stored: seq<MintConfigTx>, blockIndex: nat, tx: CoreMintConfigTx)
    ensures ConfigTxConflict(stored, MintConfigTx(blockIndex, tx.tokenId, Hex.Encode(tx.nonce), tx.totalMintLimit))
            <==> Hex.Encode(tx.nonce) in ConfigNonces(stored) || !FreshTokens(stored, blockIndex, [tx])
  {
    var row := MintConfigTx(blockIndex, tx.tokenId, Hex.Encode(tx.nonce), tx.totalMintLimit);
    assert row.nonceHex in ConfigNonces(stored) <==>
           exists k :: 0 <= k < |stored| && stored[k].nonceHex == row.nonceHex;
    assert [tx][0] == tx;
    if FreshTokens(stored, blockIndex, [tx]) {
      forall k | 0 <= k < |stored|
        ensures stored[k].blockIndex != blockIndex || stored[k].tokenId != tx.tokenId
      {
        assert [tx][0].tokenId == tx.tokenId;
      }
    }
  }

  lemma {:induction false} ConfigTxsAcceptedExactlyWhen(l: Ledger, blockIndex: nat, txs: seq<CoreMintConfigTx>)
    ensures InsertMintConfigTxs(l, blockIndex, txs).Ok? <==>
            Fresh(ConfigNonces(l.mintConfigTxs), CoreConfigNonces(txs)) && FreshTokens(l.mintConfigTxs, blockIndex, txs)
    decreases |txs|
  {
    if txs != [] {
      var row := MintConfigTx(blockIndex, txs[0].tokenId, Hex.Encode(txs[0].nonce), txs[0].totalMintLimit);
      FreshSplit(ConfigNonces(l.mintConfigTxs), CoreConfigNonces(txs));
      FreshTokensSplit(l.mintConfigTxs, row, blockIndex, txs);
      ConflictMeans(l.mintConfigTxs, blockIndex, txs[0]);
      ConfigNoncesAppend(l.mintConfigTxs, row);
      if InsertMintConfigTx(l, blockIndex, txs[0]).Ok? {
        ConfigTxsAcceptedExactlyWhen(InsertMintConfigTx(l, blockIndex, txs[0]).value, blockIndex, txs[1..]);
      }
    }
  }

  lemma {:induction false} MintsAcceptedExactlyWhen(o: Oracles, p: Progress, blockIndex: nat, txs: seq<CoreMintTx>)
    ensures ProcessMints(o, p, blockIndex, txs).Ok? <==> Fresh(Nonces(p.ledger.mintTxs), CoreNonces(txs))
    decreases |txs|
  {
    if txs != [] {
      var mints := p.ledger.mintTxs;
      var name := Hex.Encode(txs[0].nonce);
      FreshSplit(Nonces(mints), CoreNonces(txs));
      assert NonceTaken(mints, name) <==> name in Nonces(mints);
      if ProcessMint(o, p, blockIndex, txs[0]).Ok? {
        var next := ProcessMint(o, p, blockIndex, txs[0]).value;
        NoncesAppend(mints, next.ledger.mintTxs[|mints|]);
        MintsAcceptedExactlyWhen(o, next, blockIndex, txs[1..]);
      }
    }
  }

  lemma {:induction false} BurnsAcceptedExactlyWhen(p: Progress, burns: seq<BurnTxOut>)
    ensures ProcessBurns(p, burns).Ok? <==> Fresh(Keys(p.ledger.burnTxOuts), BurnKeys(burns))
    decreases |burns|
  {
    if burns != [] {
      var stored := p.ledger.burnTxOuts;
      FreshSplit(Keys(stored), BurnKeys(burns));
      assert KeyTaken(stored, burns[0].publicKeyHex) <==> burns[0].publicKeyHex in Keys(stored);
      if ProcessBurn(p, burns[0]).Ok? {
        KeysAppend(stored, burns[0]);
        BurnsAcceptedExactlyWhen(ProcessBurn(p, burns[0]).value, burns[1..]);
      }
    }
  }

  /** The output is addressed to the burn account. */
  ghost predicate Opens(o: Oracles, output: CoreTxOut) {
    o.viewKeyMatch(output).Some?
  }

  /** The outputs that the burn account can open have new and pairwise distinct keys. */
  ghost predicate FreshOutputs(o: Oracles, taken: set<string>, outputs: seq<CoreTxOut>) {
    && (forall i :: 0 <= i < |outputs| && Opens(o, outputs[i]) ==> Hex.Encode(outputs[i].publicKey) !in taken)
    && (forall i, j :: 0 <= i < j < |outputs| && Opens(o, outputs[i]) && Opens(o, outputs[j]) ==>
          outputs[i].publicKey != outputs[j].publicKey)
  }

  lemma FreshOutputsSkip(o: Oracles, taken: set<string>, outputs: seq<CoreTxOut>)
    requires outputs != [] && !Opens(o, outputs[0])
    ensures FreshOutputs(o, taken, outputs) <==> FreshOutputs(o, taken, outputs[1..])
  {
    var rest := outputs[1..];
    assert forall i :: 0 <= i < |rest| ==> rest[i] == outputs[i + 1];
    assert forall i :: 1 <= i < |outputs| ==> outputs[i] == rest[i - 1];
  }

  lemma FreshOutputsSplit(o: Oracles, taken: set<string>, outputs: seq<CoreTxOut>)
    requires outputs != [] && Opens(o, outputs[0])
    ensures var key := Hex.Encode(outputs[0].publicKey);
            FreshOutputs(o, taken, outputs) <==> key !in taken && FreshOutputs(o, taken + {key}, outputs[1..])
  {
    var rest, key := outputs[1..], Hex.Encode(outputs[0].publicKey);
    assert forall i :: 0 <= i < |rest| ==> rest[i] == outputs[i + 1];
    assert forall i :: 1 <= i < |outputs| ==> outputs[i] == rest[i - 1];
    forall i | 0 <= i < |rest|
      ensures Hex.Encode(rest[i].publicKey) == key <==> rest[i].publicKey == outputs[0].publicKey
    {
      if Hex.Encode(rest[i].publicKey) == key {
        Hex.EncodeInjective(rest[i].publicKey, outputs[0].publicKey);
      }
    }
  }

  lemma {:induction false} FreshBurnsExactlyWhen(
    o: Oracles, taken: set<string>, blockIndex: nat, outputs: seq<CoreTxOut>)
    ensures Fresh(taken, BurnKeys(BurnsIn(o, blockIndex, outputs))) <==> FreshOutputs(o, taken, outputs)
    decreases |outputs|
  {
    if outputs != [] {
      var rest := BurnsIn(o, blockIndex, outputs[1..]);
      if Opens(o, outputs[0]) {
        var key := Hex.Encode(outputs[0].publicKey);
        var all := BurnsIn(o, blockIndex, outputs);
        assert all[0].publicKeyHex == key && all[1..] == rest;
        FreshSplit(taken, BurnKeys(all));
        FreshOutputsSplit(o, taken, outputs);
        FreshBurnsExactlyWhen(o, taken + {key}, blockIndex, outputs[1..]);
      } else {
        assert BurnsIn(o, blockIndex, outputs) == rest;
        FreshOutputsSkip(o, taken, outputs);
        FreshBurnsExactlyWhen(o, taken, blockIndex, outputs[1..]);
      }
    }
  }

  /** The block is the next one, and brings no name that a UNIQUE column already has. */
  ghost predicate Acceptable(o: Oracles, l: Ledger, block: Block) {
    && block.index == l.numBlocksSynced
    && Fresh(ConfigNonces(l.mintConfigTxs), CoreConfigNonces(block.mintConfigTxs))
    && FreshTokens(l.mintConfigTxs, block.index, block.mintConfigTxs)
    && Fresh(Nonces(l.mintTxs), CoreNonces(block.mintTxs))
    && FreshOutputs(o, Keys(l.burnTxOuts), block.outputs)
  }

  lemma ProcessedExactlyWhen(o: Oracles, l: Ledger, block: Block)
    requires LedgerOk(o, l) && block.index == l.numBlocksSynced
    ensures Processed(o, l, block).Ok? <==> Acceptable(o, l, block)
  {
    ConfigTxsAcceptedExactlyWhen(l, block.index, block.mintConfigTxs);
    if InsertMintConfigTxs(l, block.index, block.mintConfigTxs).Ok? {
      InsertMintConfigTxsKeeps(o, l, block.mintConfigTxs);
      var configured := InsertMintConfigTxs(l, block.index, block.mintConfigTxs).value;
      var start := Progress(configured, PreviousBalances(configured, block.index));
      MintsAcceptedExactlyWhen(o, start, block.index, block.mintTxs);
      if ProcessMints(o, start, block.index, block.mintTxs).Ok? {
        ProcessMintsFrame(o, start, block.index, block.mintTxs);
        BurnsAcceptedExactlyWhen(ProcessMints(o, start, block.index, block.mintTxs).value,
                                 BurnsIn(o, block.index, block.outputs));
        FreshBurnsExactlyWhen(o, Keys(l.burnTxOuts), block.index, block.outputs);
      }
    }
  }

  /** The bookkeeping at the end of a block never fails. */
  lemma FinishBlockSucceeds(p: Progress)
    requires HistoryOk(p.ledger)
    ensures FinishBlock(p, p.ledger.numBlocksSynced).Ok?
  {
    ReplaceFreshBlock(p.ledger.blockAuditData, p.ledger.numBlocksSynced);
  }

  /** A block is committed exactly when it is the next one and all its nonces, keys and config tokens are new. */
  lemma SyncBlockSucceedsExactlyWhen(o: Oracles, l: Ledger, block: Block)
    requires LedgerOk(o, l)
    ensures SyncBlock(o, l, block).Ok? <==> Acceptable(o, l, block)
    ensures SyncBlock(o, l, block) == Err(UnexpectedBlockIndex) <==> block.index != l.numBlocksSynced
  {
    if block.index == l.numBlocksSynced {
      ProcessedExactlyWhen(o, l, block);
      SyncBlockUnfolds(o, l, block);
      if Processed(o, l, block).Ok? {
        ProcessedKeeps(o, l, block);
        FinishBlockSucceeds(Processed(o, l, block).value);
      } else {
        ProcessedErrors(o, l, block);
      }
    }
  }

  lemma SyncBlockUnfolds(o: Oracles, l: Ledger, block: Block)
    requires block.index == l.numBlocksSynced
    ensures SyncBlock(o, l, block) ==
            match Processed(o, l, block)
            case Err(error) => Err(error)
            case Ok(p) => FinishBlock(p, block.index)
  {
  }

  lemma {:induction false} InsertErrors(l: Ledger, blockIndex: nat, txs: seq<CoreMintConfigTx>)
    ensures InsertMintConfigTxs(l, blockIndex, txs).Err? ==>
              InsertMintConfigTxs(l, blockIndex, txs).error == AlreadyExists
    decreases |txs|
  {
    if txs != [] && InsertMintConfigTx(l, blockIndex, txs[0]).Ok? {
      InsertErrors(InsertMintConfigTx(l, blockIndex, txs[0]).value, blockIndex, txs[1..]);
    }
  }

  lemma {:induction false} MintErrors(o: Oracles, p: Progress, blockIndex: nat, txs: seq<CoreMintTx>)
    ensures ProcessMints(o, p, blockIndex, txs).Err? ==> ProcessMints(o, p, blockIndex, txs).error == AlreadyExists
    decreases |txs|
  {
    if txs != [] && ProcessMint(o, p, blockIndex, txs[0]).Ok? {
      MintErrors(o, ProcessMint(o, p, blockIndex, txs[0]).value, blockIndex, txs[1..]);
    }
  }

  lemma {:induction false} BurnErrors(p: Progress, burns: seq<BurnTxOut>)
    ensures ProcessBurns(p, burns).Err? ==> ProcessBurns(p, burns).error == AlreadyExists
    decreases |burns|
  {
    if burns != [] && ProcessBurn(p, burns[0]).Ok? {
      BurnErrors(ProcessBurn(p, burns[0]).value, burns[1..]);
    }
  }

  lemma ProcessedErrors(o: Oracles, l: Ledger, block: Block)
    requires Processed(o, l, block).Err?
    ensures Processed(o, l, block).error == AlreadyExists
  {
    InsertErrors(l, block.index, block.mintConfigTxs);
    if InsertMintConfigTxs(l, block.index, block.mintConfigTxs).Ok? {
      var configured := InsertMintConfigTxs(l, block.index, block.mintConfigTxs).value;
      var start := Progress(configured, PreviousBalances(configured, block.index));
      MintErrors(o, start, block.index, block.mintTxs);
      if ProcessMints(o, start, block.index, block.mintTxs).Ok? {
        BurnErrors(ProcessMints(o, start, block.index, block.mintTxs).value, BurnsIn(o, block.index, block.outputs));
      }
    }
  }
}
