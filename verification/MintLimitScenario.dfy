/** Ledgers that break a limit, and one that breaks it so far that it opens again. */
module MintLimitScenario {
  import opened Wrappers
  import opened Numbers
  import opened Tables
  import opened MintConfigLookup
  import opened LedgerSync
  import opened LedgerInvariant
  import opened MintLimits
  import opened MintLimitOvershoot
  import LedgerAcceptance
  import Hex

  const ANY_SIGNER := Oracles((_, _) => true, _ => None, _ => 0)

  function Nonce(n: U8): seq<U8> {
    [n]
  }

  /** One config tx with one config, both with the same limit. */
  function Configuring(limit: U64): Block {
    Block(0, [CoreMintConfigTx(1, Nonce(0), limit, [CoreMintConfig(limit, [])])], [], [])
  }

  /** Two equal mints. */
  function Twice(amount: U64): Block {
    Block(1, [], [CoreMintTx(1, amount, Nonce(1), []), CoreMintTx(1, amount, Nonce(2), [])], [])
  }

  function Once(amount: U64): Block {
    Block(2, [], [CoreMintTx(1, amount, Nonce(3), [])], [])
  }

  /** The only mint config there is has this limit, as has its config tx. */
  ghost predicate OnlyLimit(l: Ledger, limit: U64) {
    && l.mintConfigTxs == [MintConfigTx(0, 1, Hex.Encode(Nonce(0)), limit)]
    && l.mintConfigs == [MintConfig(0, limit, [])]
  }

  ghost predicate HasOnlyConfig(l: Ledger, limit: U64) {
    LedgerOk(ANY_SIGNER, l) && OnlyLimit(l, limit) && l.numBlocksSynced == 1 && l.mintTxs == []
  }

  lemma ConfigTxInserted(limit: U64)
    ensures var r := InsertMintConfigTxs(EMPTY_LEDGER, 0, Configuring(limit).mintConfigTxs);
            r.Ok? && OnlyLimit(r.value, limit)
  {
    var tx := Configuring(limit).mintConfigTxs[0];
    assert Configuring(limit).mintConfigTxs[1..] == [];
    assert ConfigRows(0, tx.configs) == [MintConfig(0, limit, [])];
  }

  lemma ConfiguringIsSynced(limit: U64)
    ensures SyncBlock(ANY_SIGNER, EMPTY_LEDGER, Configuring(limit)).Ok?
    ensures HasOnlyConfig(SyncBlock(ANY_SIGNER, EMPTY_LEDGER, Configuring(limit)).value.ledger, limit)
  {
    EmptyLedgerOk(ANY_SIGNER);
    ConfigTxInserted(limit);
    LedgerAcceptance.ConfigTxsAcceptedExactlyWhen(EMPTY_LEDGER, 0, Configuring(limit).mintConfigTxs);
    LedgerAcceptance.SyncBlockSucceedsExactlyWhen(ANY_SIGNER, EMPTY_LEDGER, Configuring(limit));
    SyncBlockKeeps(ANY_SIGNER, EMPTY_LEDGER, Configuring(limit));
    TablesAfter(ANY_SIGNER, EMPTY_LEDGER, Configuring(limit));
  }

  /** A mint that fits both sums finds the only config. */
  lemma OnlyConfigFound(l: Ledger, limit: U64, n: nat, tx: CoreMintTx)
    requires OnlyLimit(l, limit) && n > 0 && tx.tokenId == 1
    requires Fits(MintedBefore(l.mintConfigTxs, l.mintConfigs, l.mintTxs, OfConfigTx(0), n), tx.amount, limit)
    requires Fits(MintedBefore(l.mintConfigTxs, l.mintConfigs, l.mintTxs, OfConfig(0), n), tx.amount, limit)
    ensures FallsIn(ANY_SIGNER, l, n, tx, OfConfig(0)) && FallsIn(ANY_SIGNER, l, n, tx, OfConfigTx(0))
  {
    assert Active(l.mintConfigTxs[0], n, 1);
    assert l.mintConfigs[0].mintConfigTxId == 0;
    assert MostRecentForToken(l.mintConfigTxs, n, 1) == Some(0);
    assert GoverningTx(l, n, tx) == Some(0);
    assert ConfigsOf(l.mintConfigs, 0) == [0];
    assert Accepts(ANY_SIGNER, l, 0, n, tx);
  }

  lemma TwiceNonces(amount: U64)
    ensures LedgerAcceptance.CoreNonces(Twice(amount).mintTxs) == [Hex.Encode(Nonce(1)), Hex.Encode(Nonce(2))]
    ensures Hex.Encode(Nonce(1)) != Hex.Encode(Nonce(2))
  {
    var txs := Twice(amount).mintTxs;
    assert txs[1..] == [txs[1]] && [txs[1]][1..] == [];
    assert LedgerAcceptance.CoreNonces([txs[1]]) == [Hex.Encode(Nonce(2))];
    Hex.DecodeEncode(Nonce(1));
    Hex.DecodeEncode(Nonce(2));
  }

  lemma TwiceIsAcceptable(l: Ledger, amount: U64)
    requires l.numBlocksSynced == 1 && l.mintTxs == []
    ensures LedgerAcceptance.Acceptable(ANY_SIGNER, l, Twice(amount))
  {
    TwiceNonces(amount);
  }

  lemma TwiceIsClaimed(l: Ledger, limit: U64, amount: U64, scope: Scope)
    requires OnlyLimit(l, limit) && l.mintTxs == [] && amount <= limit && scope in {OfConfig(0), OfConfigTx(0)}
    ensures Claimed(ANY_SIGNER, l, 1, Twice(amount).mintTxs, scope) == amount + amount
  {
    var txs := Twice(amount).mintTxs;
    OnlyConfigFound(l, limit, 1, txs[0]);
    OnlyConfigFound(l, limit, 1, txs[1]);
    assert txs == [txs[0]] + [txs[1]] && txs[1..] == [txs[1]] && [txs[1]][1..] == [];
    assert Claimed(ANY_SIGNER, l, 1, [txs[1]], scope) == amount;
  }

  lemma {:induction false} MintsAreThoseOf(o: Oracles, p: Progress, n: nat, txs: seq<CoreMintTx>)
    requires ProcessMints(o, p, n, txs).Ok?
    ensures LedgerAcceptance.Nonces(ProcessMints(o, p, n, txs).value.ledger.mintTxs)
            == LedgerAcceptance.Nonces(p.ledger.mintTxs) + set name | name in LedgerAcceptance.CoreNonces(txs)
    decreases |txs|
  {
    if txs != [] {
      var next := ProcessMint(o, p, n, txs[0]).value;
      LedgerAcceptance.NoncesAppend(p.ledger.mintTxs, next.ledger.mintTxs[|p.ledger.mintTxs|]);
      MintsAreThoseOf(o, next, n, txs[1..]);
    }
  }

  /** The ledger after two mints of the amount, whatever the limit. */
  ghost predicate MintedTwice(l: Ledger, limit: U64, amount: U64) {
    && LedgerOk(ANY_SIGNER, l) && OnlyLimit(l, limit) && l.numBlocksSynced == 2
    && LedgerAcceptance.Nonces(l.mintTxs) == {Hex.Encode(Nonce(1)), Hex.Encode(Nonce(2))}
    && ExactMinted(l.mintConfigs, l.mintTxs, OfConfig(0), 2) == amount + amount
    && ExactMinted(l.mintConfigs, l.mintTxs, OfConfigTx(0), 2) == amount + amount
  }

  lemma NothingRecorded(l: Ledger, scope: Scope)
    requires l.mintTxs == []
    ensures ExactMinted(l.mintConfigs, l.mintTxs, scope, l.numBlocksSynced) == 0
  {
  }

  lemma NoncesAfter(o: Oracles, l: Ledger, block: Block)
    requires LedgerOk(o, l) && SyncBlock(o, l, block).Ok?
    ensures LedgerAcceptance.Nonces(SyncBlock(o, l, block).value.ledger.mintTxs)
            == LedgerAcceptance.Nonces(l.mintTxs) + set name | name in LedgerAcceptance.CoreNonces(block.mintTxs)
  {
    TablesAfter(o, l, block);
    ConfiguredExtends(l, block);
    AfterMintsAreThoseOf(o, Configured(l, block).value, block);
  }

  lemma AfterMintsAreThoseOf(o: Oracles, l: Ledger, block: Block)
    requires AfterMints(o, l, block).Ok?
    ensures LedgerAcceptance.Nonces(AfterMints(o, l, block).value.ledger.mintTxs)
            == LedgerAcceptance.Nonces(l.mintTxs) + set name | name in LedgerAcceptance.CoreNonces(block.mintTxs)
  {
    MintsAreThoseOf(o, Progress(l, PreviousBalances(l, block.index)), block.index, block.mintTxs);
  }

  lemma OnlyLimitKept(o: Oracles, l: Ledger, limit: U64, block: Block)
    requires LedgerOk(o, l) && OnlyLimit(l, limit) && block.mintConfigTxs == [] && SyncBlock(o, l, block).Ok?
    ensures OnlyLimit(SyncBlock(o, l, block).value.ledger, limit)
  {
    TablesAfter(o, l, block);
  }

  lemma TwiceIsStored(l: Ledger, limit: U64, amount: U64)
    requires HasOnlyConfig(l, limit) && SyncBlock(ANY_SIGNER, l, Twice(amount)).Ok?
    ensures LedgerAcceptance.Nonces(SyncBlock(ANY_SIGNER, l, Twice(amount)).value.ledger.mintTxs)
            == {Hex.Encode(Nonce(1)), Hex.Encode(Nonce(2))}
  {
    NoncesAfter(ANY_SIGNER, l, Twice(amount));
    TwiceNonces(amount);
    assert LedgerAcceptance.Nonces([]) == {};
  }

  lemma TwiceIsAccepted(l: Ledger, limit: U64, amount: U64)
    requires HasOnlyConfig(l, limit)
    ensures SyncBlock(ANY_SIGNER, l, Twice(amount)).Ok?
  {
    TwiceIsAcceptable(l, amount);
    LedgerAcceptance.SyncBlockSucceedsExactlyWhen(ANY_SIGNER, l, Twice(amount));
  }

  lemma TwiceIsSynced(l: Ledger, limit: U64, amount: U64)
    requires HasOnlyConfig(l, limit) && amount <= limit
    ensures SyncBlock(ANY_SIGNER, l, Twice(amount)).Ok?
    ensures MintedTwice(SyncBlock(ANY_SIGNER, l, Twice(amount)).value.ledger, limit, amount)
  {
    TwiceIsAccepted(l, limit, amount);
    TwiceIsStored(l, limit, amount);
    SyncBlockKeeps(ANY_SIGNER, l, Twice(amount));
    OnlyLimitKept(ANY_SIGNER, l, limit, Twice(amount));
    TwiceAdds(l, limit, amount, OfConfig(0));
    TwiceAdds(l, limit, amount, OfConfigTx(0));
  }

  lemma TwiceAdds(l: Ledger, limit: U64, amount: U64, scope: Scope)
    requires HasOnlyConfig(l, limit) && amount <= limit && scope in {OfConfig(0), OfConfigTx(0)}
    requires SyncBlock(ANY_SIGNER, l, Twice(amount)).Ok?
    ensures var m := SyncBlock(ANY_SIGNER, l, Twice(amount)).value.ledger;
            ExactMinted(m.mintConfigs, m.mintTxs, scope, m.numBlocksSynced) == amount + amount
  {
    BlockAddsClaims(ANY_SIGNER, l, Twice(amount), scope);
    TwiceIsClaimed(l, limit, amount, scope);
    NothingRecorded(l, scope);
  }

  /** A limit can be broken: two mints of one block each fill a limit of ten, and twenty are recorded under it. */
  lemma LimitBrokenWithinOneBlock()
    ensures SyncBlock(ANY_SIGNER, EMPTY_LEDGER, Configuring(10)).Ok?
    ensures var l := SyncBlock(ANY_SIGNER, EMPTY_LEDGER, Configuring(10)).value.ledger;
            && SyncBlock(ANY_SIGNER, l, Twice(10)).Ok?
            && var m := SyncBlock(ANY_SIGNER, l, Twice(10)).value.ledger;
               && ValidScope(m, OfConfig(0)) && Limit(m, OfConfig(0)) == 10
               && ExactMinted(m.mintConfigs, m.mintTxs, OfConfig(0), m.numBlocksSynced) == 20
  {
    ConfiguringIsSynced(10);
    TwiceIsSynced(SyncBlock(ANY_SIGNER, EMPTY_LEDGER, Configuring(10)).value.ledger, 10, 10);
  }

  /* A limit broken by 2^64 or more is open again, because the sum of the code wraps around */

  lemma OnceIsAcceptable(l: Ledger, amount: U64)
    requires l.numBlocksSynced == 2
    requires LedgerAcceptance.Nonces(l.mintTxs) == {Hex.Encode(Nonce(1)), Hex.Encode(Nonce(2))}
    ensures LedgerAcceptance.Acceptable(ANY_SIGNER, l, Once(amount))
  {
    Hex.DecodeEncode(Nonce(1));
    Hex.DecodeEncode(Nonce(2));
    Hex.DecodeEncode(Nonce(3));
    assert Once(amount).mintTxs[1..] == [];
    assert LedgerAcceptance.CoreNonces(Once(amount).mintTxs) == [Hex.Encode(Nonce(3))];
  }

  lemma SumWrapped(o: Oracles, l: Ledger, scope: Scope, n: nat)
    requires LookupsReproducible(o, l) && ExactMinted(l.mintConfigs, l.mintTxs, scope, n) == TWO_64
    ensures MintedBefore(l.mintConfigTxs, l.mintConfigs, l.mintTxs, scope, n) == 0
  {
    LedgerSumIsExact(o, l, scope, n);
  }

  lemma OnceIsClaimed(l: Ledger, limit: U64, amount: U64)
    requires MintedTwice(l, limit, TWO_63) && amount <= limit
    ensures Claimed(ANY_SIGNER, l, 2, Once(amount).mintTxs, OfConfig(0)) == amount
  {
    SumWrapped(ANY_SIGNER, l, OfConfig(0), 2);
    SumWrapped(ANY_SIGNER, l, OfConfigTx(0), 2);
    OnlyConfigFound(l, limit, 2, Once(amount).mintTxs[0]);
    assert Once(amount).mintTxs[1..] == [];
  }

  lemma OnceIsSynced(l: Ledger, limit: U64, amount: U64)
    requires MintedTwice(l, limit, TWO_63) && amount <= limit
    ensures SyncBlock(ANY_SIGNER, l, Once(amount)).Ok?
    ensures var m := SyncBlock(ANY_SIGNER, l, Once(amount)).value.ledger;
            ExactMinted(m.mintConfigs, m.mintTxs, OfConfig(0), m.numBlocksSynced) == TWO_64 + amount
  {
    OnceIsAcceptable(l, amount);
    LedgerAcceptance.SyncBlockSucceedsExactlyWhen(ANY_SIGNER, l, Once(amount));
    OnceIsClaimed(l, limit, amount);
    BlockAddsClaims(ANY_SIGNER, l, Once(amount), OfConfig(0));
  }

  /**
    * Two mints of 2^63 in one block break a limit of 2^64 - 1, and yet a mint of the whole limit is recorded under
    * it in the next block.
    */
  lemma BrokenLimitOpensAgain()
    ensures SyncBlock(ANY_SIGNER, EMPTY_LEDGER, Configuring(TWO_64 - 1)).Ok?
    ensures var l := SyncBlock(ANY_SIGNER, EMPTY_LEDGER, Configuring(TWO_64 - 1)).value.ledger;
            && SyncBlock(ANY_SIGNER, l, Twice(TWO_63)).Ok?
            && var m := SyncBlock(ANY_SIGNER, l, Twice(TWO_63)).value.ledger;
               && ExactMinted(m.mintConfigs, m.mintTxs, OfConfig(0), m.numBlocksSynced) == TWO_64
               && SyncBlock(ANY_SIGNER, m, Once(TWO_64 - 1)).Ok?
               && var n := SyncBlock(ANY_SIGNER, m, Once(TWO_64 - 1)).value.ledger;
                  ExactMinted(n.mintConfigs, n.mintTxs, OfConfig(0), n.numBlocksSynced) == TWO_64 + (TWO_64 - 1)
  {
    ConfiguringIsSynced(TWO_64 - 1);
    var l := SyncBlock(ANY_SIGNER, EMPTY_LEDGER, Configuring(TWO_64 - 1)).value.ledger;
    TwiceIsSynced(l, TWO_64 - 1, TWO_63);
    OnceIsSynced(SyncBlock(ANY_SIGNER, l, Twice(TWO_63)).value.ledger, TWO_64 - 1, TWO_64 - 1);
  }
}
