/** What one block adds to a limit, and exactly when it breaks the limit. */
module MintLimitOvershoot {
  import opened Wrappers
  import opened Tables
  import opened MintConfigLookup
  import opened LedgerSync
  import opened LedgerInvariant
  import opened MintLimits
  import Hex

  /** A mint is put down to the scope when it is looked up by itself, in the ledger as it is before its block. */
  predicate FallsIn(o: Oracles, l: Ledger, blockIndex: nat, tx: CoreMintTx, scope: Scope) {
    InScope(l.mintConfigs, MintTx(blockIndex, tx, Hex.Encode(tx.nonce), LookupMintConfig(o, l, blockIndex, tx)), scope)
  }

  /** The sum of a block's mints that fall in the scope, each judged as if it were alone. */
  function Claimed(o: Oracles, l: Ledger, blockIndex: nat, txs: seq<CoreMintTx>, scope: Scope): nat {
    if txs == [] then 0
    else
      (if FallsIn(o, l, blockIndex, txs[0], scope) then txs[0].amount else 0)
      + Claimed(o, l, blockIndex, txs[1..], scope)
  }

  lemma {:induction false} ConfigTxsExtendFrom(l: Ledger, m: Ledger, blockIndex: nat, txs: seq<CoreMintConfigTx>)
    requires ExtendsFrom(l, m, blockIndex) && InsertMintConfigTxs(m, blockIndex, txs).Ok?
    ensures var n := InsertMintConfigTxs(m, blockIndex, txs).value;
            ExtendsFrom(l, n, blockIndex) && n == m.(mintConfigTxs := n.mintConfigTxs, mintConfigs := n.mintConfigs)
    decreases |txs|
  {
    if txs != [] {
      ConfigTxsExtendFrom(l, InsertMintConfigTx(m, blockIndex, txs[0]).value, blockIndex, txs[1..]);
    }
  }

  /** More configs do not change what is put down to the old ones. */
  lemma {:induction false} MoreConfigsSameSum(
    configs: seq<MintConfig>, more: seq<MintConfig>, mints: seq<MintTx>, scope: Scope, blockIndex: nat)
    requires configs <= more
    requires forall i :: 0 <= i < |mints| && mints[i].mintConfigId.Some? ==> mints[i].mintConfigId.value < |configs|
    ensures ExactMinted(more, mints, scope, blockIndex) == ExactMinted(configs, mints, scope, blockIndex)
  {
    if mints != [] {
      MoreConfigsSameSum(configs, more, mints[..|mints| - 1], scope, blockIndex);
    }
  }

  lemma ExactMintedAppend(configs: seq<MintConfig>, mints: seq<MintTx>, m: MintTx, scope: Scope, blockIndex: nat)
    ensures ExactMinted(configs, mints + [m], scope, blockIndex) ==
            ExactMinted(configs, mints, scope, blockIndex) +
            if InScope(configs, m, scope) && m.blockIndex < blockIndex then m.core.amount else 0
  {
    assert (mints + [m])[..|mints|] == mints;
  }

  /** Within a block a lookup still gives what it gave before the block. */
  lemma LookupWithinBlock(o: Oracles, l: Ledger, m: Ledger, n: nat, tx: CoreMintTx)
    requires Linked(l) && ExtendsFrom(l, m, n)
    ensures LookupMintConfig(o, m, n, tx) == LookupMintConfig(o, l, n, tx)
    ensures LookupMintConfig(o, l, n, tx).Some? ==> LookupMintConfig(o, l, n, tx).value < |l.mintConfigs|
  {
    LookupStable(o, l, m, n, n, tx);
    if LookupMintConfig(o, l, n, tx).Some? {
      LookupJustified(o, l, n, tx);
    }
  }

  lemma ScopeKept(configs: seq<MintConfig>, more: seq<MintConfig>, m: MintTx, scope: Scope)
    requires |configs| <= |more| && configs == more[..|configs|]
    requires m.mintConfigId.Some? ==> m.mintConfigId.value < |configs|
    ensures InScope(more, m, scope) <==> InScope(configs, m, scope)
  {
  }

  lemma ExtendsWithMint(l: Ledger, m: Ledger, n: nat, row: MintTx, withoutConfig: nat)
    requires ExtendsFrom(l, m, n) && row.blockIndex == n
    ensures ExtendsFrom(l, m.(mintTxs := m.mintTxs + [row], numMintTxsWithoutMatchingMintConfig := withoutConfig), n)
  {
    assert (m.mintTxs + [row])[..|l.mintTxs|] == m.mintTxs[..|l.mintTxs|];
  }

  /** The row of one mint, and what it adds. */
  lemma RowAdds(o: Oracles, l: Ledger, m: Ledger, n: nat, tx: CoreMintTx, scope: Scope)
    requires Linked(l) && ExtendsFrom(l, m, n)
    ensures var row := MintTx(n, tx, Hex.Encode(tx.nonce), LookupMintConfig(o, m, n, tx));
            ExactMinted(m.mintConfigs, m.mintTxs + [row], scope, n + 1)
            == ExactMinted(m.mintConfigs, m.mintTxs, scope, n + 1)
               + if FallsIn(o, l, n, tx, scope) then tx.amount else 0
  {
    var row := MintTx(n, tx, Hex.Encode(tx.nonce), LookupMintConfig(o, m, n, tx));
    LookupWithinBlock(o, l, m, n, tx);
    ScopeKept(l.mintConfigs, m.mintConfigs, row, scope);
    ExactMintedAppend(m.mintConfigs, m.mintTxs, row, scope, n + 1);
  }

  lemma OneMintAdds(o: Oracles, l: Ledger, p: Progress, n: nat, tx: CoreMintTx, scope: Scope)
    requires Linked(l) && ExtendsFrom(l, p.ledger, n) && ProcessMint(o, p, n, tx).Ok?
    ensures var m := ProcessMint(o, p, n, tx).value.ledger;
            && ExtendsFrom(l, m, n)
            && m.mintConfigs == p.ledger.mintConfigs
            && ExactMinted(m.mintConfigs, m.mintTxs, scope, n + 1)
               == ExactMinted(m.mintConfigs, p.ledger.mintTxs, scope, n + 1)
                  + if FallsIn(o, l, n, tx, scope) then tx.amount else 0
  {
    var m := ProcessMint(o, p, n, tx).value.ledger;
    var row := MintTx(n, tx, Hex.Encode(tx.nonce), LookupMintConfig(o, p.ledger, n, tx));
    ExtendsWithMint(l, p.ledger, n, row, m.numMintTxsWithoutMatchingMintConfig);
    RowAdds(o, l, p.ledger, n, tx, scope);
  }

  lemma {:induction false} MintsAdd(o: Oracles, l: Ledger, p: Progress, n: nat, txs: seq<CoreMintTx>, scope: Scope)
    requires Linked(l) && ExtendsFrom(l, p.ledger, n) && ProcessMints(o, p, n, txs).Ok?
    ensures var m := ProcessMints(o, p, n, txs).value.ledger;
            && m.mintConfigs == p.ledger.mintConfigs
            && ExactMinted(m.mintConfigs, m.mintTxs, scope, n + 1)
               == ExactMinted(m.mintConfigs, p.ledger.mintTxs, scope, n + 1) + Claimed(o, l, n, txs, scope)
    decreases |txs|
  {
    if txs != [] {
      OneMintAdds(o, l, p, n, txs[0], scope);
      MintsAdd(o, l, ProcessMint(o, p, n, txs[0]).value, n, txs[1..], scope);
    }
  }

  function Configured(l: Ledger, block: Block): Result<Ledger, Error> {
    InsertMintConfigTxs(l, block.index, block.mintConfigTxs)
  }

  function AfterMints(o: Oracles, configured: Ledger, block: Block): Result<Progress, Error> {
    ProcessMints(o, Progress(configured, PreviousBalances(configured, block.index)), block.index, block.mintTxs)
  }

  lemma ConfiguredExtends(l: Ledger, block: Block)
    requires block.index == l.numBlocksSynced && Configured(l, block).Ok?
    ensures ExtendsFrom(l, Configured(l, block).value, l.numBlocksSynced)
    ensures Configured(l, block).value.mintTxs == l.mintTxs
    ensures Configured(l, block).value.numBlocksSynced == l.numBlocksSynced
  {
    assert ExtendsFrom(l, l, l.numBlocksSynced);
    ConfigTxsExtendFrom(l, l, l.numBlocksSynced, block.mintConfigTxs);
  }

  lemma ContentsAfter(o: Oracles, l: Ledger, block: Block)
    requires Processed(o, l, block).Ok?
    ensures Configured(l, block).Ok? && AfterMints(o, Configured(l, block).value, block).Ok?
    ensures var configured := Configured(l, block).value;
            var m := Processed(o, l, block).value.ledger;
            && m.mintConfigTxs == configured.mintConfigTxs
            && m.mintConfigs == configured.mintConfigs
            && m.mintTxs == AfterMints(o, configured, block).value.ledger.mintTxs
  {
    var configured := Configured(l, block).value;
    var start := Progress(configured, PreviousBalances(configured, block.index));
    ProcessMintsFrame(o, start, block.index, block.mintTxs);
    ProcessBurnsFrame(AfterMints(o, configured, block).value, BurnsIn(o, block.index, block.outputs));
  }

  /** Where the tables that limits are about get their rows from. */
  lemma TablesAfter(o: Oracles, l: Ledger, block: Block)
    requires LedgerOk(o, l) && SyncBlock(o, l, block).Ok?
    ensures block.index == l.numBlocksSynced
    ensures Configured(l, block).Ok? && AfterMints(o, Configured(l, block).value, block).Ok?
    ensures var configured := Configured(l, block).value;
            var m := SyncBlock(o, l, block).value.ledger;
            && m.mintConfigTxs == configured.mintConfigTxs
            && m.mintConfigs == configured.mintConfigs
            && m.mintTxs == AfterMints(o, configured, block).value.ledger.mintTxs
            && m.numBlocksSynced == l.numBlocksSynced + 1
  {
    SyncBlockIs(o, l, block);
    ContentsAfter(o, l, block);
    ProcessedKeeps(o, l, block);
    FinishBlockIs(Processed(o, l, block).value);
  }

  lemma NoneYet(l: Ledger, scope: Scope)
    requires Quiet(l)
    ensures ExactMinted(l.mintConfigs, l.mintTxs, scope, l.numBlocksSynced + 1)
            == ExactMinted(l.mintConfigs, l.mintTxs, scope, l.numBlocksSynced)
  {
    NoneMatchedNoneAdded(l, l.mintTxs, scope, l.numBlocksSynced);
  }

  lemma BlockStartsFrom(l: Ledger, configured: Ledger, scope: Scope)
    requires Linked(l) && Quiet(l) && ExtendsFrom(l, configured, l.numBlocksSynced)
    ensures ExactMinted(configured.mintConfigs, l.mintTxs, scope, l.numBlocksSynced + 1)
            == ExactMinted(l.mintConfigs, l.mintTxs, scope, l.numBlocksSynced)
  {
    NoneYet(l, scope);
    MoreConfigsSameSum(l.mintConfigs, configured.mintConfigs, l.mintTxs, scope, l.numBlocksSynced + 1);
  }

  lemma AfterMintsAdd(o: Oracles, l: Ledger, configured: Ledger, block: Block, scope: Scope)
    requires Linked(l) && ExtendsFrom(l, configured, block.index) && AfterMints(o, configured, block).Ok?
    ensures var m := AfterMints(o, configured, block).value.ledger;
            ExactMinted(configured.mintConfigs, m.mintTxs, scope, block.index + 1)
            == ExactMinted(configured.mintConfigs, configured.mintTxs, scope, block.index + 1)
               + Claimed(o, l, block.index, block.mintTxs, scope)
  {
    MintsAdd(o, l, Progress(configured, PreviousBalances(configured, block.index)), block.index, block.mintTxs, scope);
  }

  lemma TablesAddClaims(o: Oracles, l: Ledger, m: Ledger, block: Block, scope: Scope)
    requires Linked(l) && Quiet(l) && block.index == l.numBlocksSynced
    requires Configured(l, block).Ok? && AfterMints(o, Configured(l, block).value, block).Ok?
    requires m.mintConfigs == Configured(l, block).value.mintConfigs
    requires m.mintTxs == AfterMints(o, Configured(l, block).value, block).value.ledger.mintTxs
    requires m.numBlocksSynced == l.numBlocksSynced + 1
    ensures ExactMinted(m.mintConfigs, m.mintTxs, scope, m.numBlocksSynced)
            == ExactMinted(l.mintConfigs, l.mintTxs, scope, l.numBlocksSynced)
               + Claimed(o, l, l.numBlocksSynced, block.mintTxs, scope)
  {
    ConfiguredExtends(l, block);
    var configured := Configured(l, block).value;
    BlockStartsFrom(l, configured, scope);
    AfterMintsAdd(o, l, configured, block, scope);
  }

  /**
    * A block adds to a scope exactly the sum of its mints that fall in it one by one: no mint of the block sees
    * another, nor the configs that the block itself brings.
    */
  lemma BlockAddsClaims(o: Oracles, l: Ledger, block: Block, scope: Scope)
    requires LedgerOk(o, l) && SyncBlock(o, l, block).Ok?
    ensures var m := SyncBlock(o, l, block).value.ledger;
            ExactMinted(m.mintConfigs, m.mintTxs, scope, m.numBlocksSynced)
            == ExactMinted(l.mintConfigs, l.mintTxs, scope, l.numBlocksSynced)
               + Claimed(o, l, l.numBlocksSynced, block.mintTxs, scope)
  {
    TablesAfter(o, l, block);
    TablesAddClaims(o, l, SyncBlock(o, l, block).value.ledger, block, scope);
  }

  lemma LimitUnchanged(o: Oracles, l: Ledger, block: Block, scope: Scope)
    requires LedgerOk(o, l) && SyncBlock(o, l, block).Ok? && ValidScope(l, scope)
    ensures var m := SyncBlock(o, l, block).value.ledger;
            ValidScope(m, scope) && Limit(m, scope) == Limit(l, scope)
  {
    TablesAfter(o, l, block);
    ConfiguredExtends(l, block);
  }

  /** A committed block leaves a limit respected exactly when its mints, judged one by one, fit under it together. */
  lemma LimitRespectedExactlyWhen(o: Oracles, l: Ledger, block: Block, scope: Scope)
    requires LedgerOk(o, l) && SyncBlock(o, l, block).Ok? && ValidScope(l, scope)
    ensures var m := SyncBlock(o, l, block).value.ledger;
            && ValidScope(m, scope)
            && (ExactMinted(m.mintConfigs, m.mintTxs, scope, m.numBlocksSynced) <= Limit(m, scope)
                <==> ExactMinted(l.mintConfigs, l.mintTxs, scope, l.numBlocksSynced)
                     + Claimed(o, l, l.numBlocksSynced, block.mintTxs, scope) <= Limit(l, scope))
  {
    BlockAddsClaims(o, l, block, scope);
    LimitUnchanged(o, l, block, scope);
  }
}
