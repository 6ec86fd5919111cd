/** What the ledger tables mean in every reachable state. */
module LedgerTheorems {
  import opened Wrappers
  import opened Numbers
  import opened SafeConfig
  import opened Tables
  import opened BalanceWalk
  import opened MintConfigLookup
  import opened LedgerSync
  import opened LedgerInvariant
  import opened MintLimits
  import opened Runs
  import LedgerAcceptance
  import LedgerContents

  /* Totals over the tables */

  /** The total that the HTTP service reports: the sum over all mints of a token. */
  ghost function MintTotal(mints: seq<MintTx>, token: U64): nat {
    if mints == [] then 0
    else
      var m := mints[|mints| - 1];
      MintTotal(mints[..|mints| - 1], token) + if m.core.tokenId == token then m.core.amount else 0
  }

  ghost function BurnTotal(burns: seq<BurnTxOut>, token: U64): nat {
    if burns == [] then 0
    else
      var b := burns[|burns| - 1];
      BurnTotal(burns[..|burns| - 1], token) + if b.tokenId == token then b.amount else 0
  }

  ghost function MintTotalThrough(mints: seq<MintTx>, token: U64, n: nat): nat {
    if mints == [] then 0
    else
      var m := mints[|mints| - 1];
      MintTotalThrough(mints[..|mints| - 1], token, n) +
      if m.core.tokenId == token && m.blockIndex < n then m.core.amount else 0
  }

  ghost function BurnTotalThrough(burns: seq<BurnTxOut>, token: U64, n: nat): nat {
    if burns == [] then 0
    else
      var b := burns[|burns| - 1];
      BurnTotalThrough(burns[..|burns| - 1], token, n) +
      if b.tokenId == token && b.blockIndex < n then b.amount else 0
  }

  lemma {:induction false} TotalsOfConcat(a: seq<Flow>, b: seq<Flow>, token: U64)
    ensures TotalMinted(a + b, token) == TotalMinted(a, token) + TotalMinted(b, token)
    ensures TotalBurned(a + b, token) == TotalBurned(a, token) + TotalBurned(b, token)
  {
    if b == [] {
      assert a + b == a;
    } else {
      var front, f := b[..|b| - 1], b[|b| - 1];
      TotalsOfConcat(a, front, token);
      assert a + b == (a + front) + [f];
      TotalsAppend(a + front, f, token);
    }
  }

  lemma {:induction false} MintFlowsTotal(mints: seq<MintTx>, token: U64, n: nat)
    ensures TotalMinted(MintFlowsAt(mints, n), token)
            == MintTotalThrough(mints, token, n + 1) - MintTotalThrough(mints, token, n)
    ensures TotalBurned(MintFlowsAt(mints, n), token) == 0
  {
    if mints != [] {
      var front, m := mints[..|mints| - 1], mints[|mints| - 1];
      MintFlowsTotal(front, token, n);
      if m.blockIndex == n {
        TotalsAppend(MintFlowsAt(front, n), Minted(m.core.tokenId, m.core.amount), token);
      } else {
        assert MintFlowsAt(mints, n) == MintFlowsAt(front, n);
      }
    }
  }

  lemma {:induction false} BurnFlowsTotal(burns: seq<BurnTxOut>, token: U64, n: nat)
    ensures TotalBurned(BurnFlowsAt(burns, n), token)
            == BurnTotalThrough(burns, token, n + 1) - BurnTotalThrough(burns, token, n)
    ensures TotalMinted(BurnFlowsAt(burns, n), token) == 0
  {
    if burns != [] {
      var front, b := burns[..|burns| - 1], burns[|burns| - 1];
      BurnFlowsTotal(front, token, n);
      if b.blockIndex == n {
        TotalsAppend(BurnFlowsAt(front, n), Burned(b.tokenId, b.amount), token);
      } else {
        assert BurnFlowsAt(burns, n) == BurnFlowsAt(front, n);
      }
    }
  }

  lemma {:induction false} NothingThroughZero(mints: seq<MintTx>, burns: seq<BurnTxOut>, token: U64)
    ensures MintTotalThrough(mints, token, 0) == 0 && BurnTotalThrough(burns, token, 0) == 0
    decreases |mints| + |burns|
  {
    if mints != [] {
      NothingThroughZero(mints[..|mints| - 1], burns, token);
    } else if burns != [] {
      NothingThroughZero(mints, burns[..|burns| - 1], token);
    }
  }

  lemma FlowsTotalStep(mints: seq<MintTx>, burns: seq<BurnTxOut>, token: U64, n: nat, before: seq<Flow>)
    requires before == FlowsThrough(mints, burns, n)
    ensures TotalMinted(FlowsThrough(mints, burns, n + 1), token)
            == TotalMinted(before, token) + MintTotalThrough(mints, token, n + 1) - MintTotalThrough(mints, token, n)
    ensures TotalBurned(FlowsThrough(mints, burns, n + 1), token)
            == TotalBurned(before, token) + BurnTotalThrough(burns, token, n + 1) - BurnTotalThrough(burns, token, n)
  {
    var minted, burned := MintFlowsAt(mints, n), BurnFlowsAt(burns, n);
    MintFlowsTotal(mints, token, n);
    BurnFlowsTotal(burns, token, n);
    TotalsOfConcat(minted, burned, token);
    TotalsOfConcat(before, minted + burned, token);
    assert FlowsThrough(mints, burns, n + 1) == before + (minted + burned);
  }

  lemma FlowsTotal(mints: seq<MintTx>, burns: seq<BurnTxOut>, token: U64, n: nat)
    ensures TotalMinted(FlowsThrough(mints, burns, n), token) == MintTotalThrough(mints, token, n)
    ensures TotalBurned(FlowsThrough(mints, burns, n), token) == BurnTotalThrough(burns, token, n)
  {
    NothingThroughZero(mints, burns, token);
    var k := 0;
    while k < n
      invariant k <= n
      invariant TotalMinted(FlowsThrough(mints, burns, k), token) == MintTotalThrough(mints, token, k)
      invariant TotalBurned(FlowsThrough(mints, burns, k), token) == BurnTotalThrough(burns, token, k)
    {
      FlowsTotalStep(mints, burns, token, k, FlowsThrough(mints, burns, k));
      k := k + 1;
    }
  }

  lemma {:induction false} AllMintsThrough(mints: seq<MintTx>, token: U64, n: nat)
    requires forall i :: 0 <= i < |mints| ==> mints[i].blockIndex < n
    ensures MintTotalThrough(mints, token, n) == MintTotal(mints, token)
  {
    if mints != [] {
      AllMintsThrough(mints[..|mints| - 1], token, n);
    }
  }

  lemma {:induction false} AllBurnsThrough(burns: seq<BurnTxOut>, token: U64, n: nat)
    requires forall i :: 0 <= i < |burns| ==> burns[i].blockIndex < n
    ensures BurnTotalThrough(burns, token, n) == BurnTotal(burns, token)
  {
    if burns != [] {
      AllBurnsThrough(burns[..|burns| - 1], token, n);
    }
  }

  lemma NetIsTotals(o: Oracles, l: Ledger, token: U64)
    requires LedgerOk(o, l)
    ensures TotalMinted(Flows(l, l.numBlocksSynced), token) == MintTotal(l.mintTxs, token)
    ensures TotalBurned(Flows(l, l.numBlocksSynced), token) == BurnTotal(l.burnTxOuts, token)
  {
    FlowsTotal(l.mintTxs, l.burnTxOuts, token, l.numBlocksSynced);
    AllMintsThrough(l.mintTxs, token, l.numBlocksSynced);
    AllBurnsThrough(l.burnTxOuts, token, l.numBlocksSynced);
  }

  /* Balances */

  /** The stored balance of a token after a block. */
  ghost function StoredBalance(l: Ledger, blockIndex: nat, token: U64): U64 {
    Get(BalancesForBlock(l.blockBalances, blockIndex), token)
  }

  /** The balance of the last synced block; nothing before the first one. */
  ghost function CurrentBalance(l: Ledger, token: U64): U64 {
    if l.numBlocksSynced == 0 then 0 else StoredBalance(l, l.numBlocksSynced - 1, token)
  }

  lemma CurrentBalanceIs(o: Oracles, l: Ledger, token: U64)
    requires LedgerOk(o, l)
    ensures CurrentBalance(l, token) == Balance(Flows(l, l.numBlocksSynced), token)
  {
    if l.numBlocksSynced > 0 {
      assert BlockBalanceOk(l, l.numBlocksSynced - 1);
    }
  }

  /**
    * Closed form of every stored balance: if no mint of the token overflowed up to that block, it is the largest
    * net amount over all suffixes of the token's mints and burns, each block's mints before its burns.
    */
  lemma StoredBalanceClosedForm(o: Oracles, config: Config, events: seq<Event>, b: nat, token: U64)
    requires b < Run(o, config, events).ledger.numBlocksSynced
    requires Wraps(Flows(Run(o, config, events).ledger, b + 1), token) == 0
    ensures var l := Run(o, config, events).ledger;
            IsLargestSuffix(Flows(l, b + 1), token) && StoredBalance(l, b, token) == Balance(Flows(l, b + 1), token)
  {
    RunLedgerOk(o, config, events);
    var l := Run(o, config, events).ledger;
    assert BlockBalanceOk(l, b);
    BalanceIsLargestSuffix(Flows(l, b + 1), token);
  }

  /**
    * In every run, balance + burned = minted + what was burned beyond zero - what overflowed: no amount is lost
    * or created in any other way.
    */
  lemma BalancesConserve(o: Oracles, config: Config, events: seq<Event>, token: U64)
    ensures var l := Run(o, config, events).ledger;
            var flows := Flows(l, l.numBlocksSynced);
            CurrentBalance(l, token) + BurnTotal(l.burnTxOuts, token) + TWO_64 * Wraps(flows, token)
            == MintTotal(l.mintTxs, token) + Shortfall(flows, token)
  {
    RunLedgerOk(o, config, events);
    var l := Run(o, config, events).ledger;
    CurrentBalanceIs(o, l, token);
    NetIsTotals(o, l, token);
    Conservation(Flows(l, l.numBlocksSynced), token);
  }

  /** The current balance is not what the tables say was minted minus what they say was burned. */
  ghost predicate BalanceIsWrong(l: Ledger, token: U64) {
    CurrentBalance(l, token) != MintTotal(l.mintTxs, token) - BurnTotal(l.burnTxOuts, token)
  }

  lemma WrongIsDeviating(o: Oracles, l: Ledger, token: U64)
    requires LedgerOk(o, l)
    ensures BalanceIsWrong(l, token) <==> Deviates(Flows(l, l.numBlocksSynced), token)
  {
    NetIsTotals(o, l, token);
    CurrentBalanceIs(o, l, token);
  }

  /**
    * In every run, the stored counter of exceeding burns is zero exactly when every balance is right, if and only if
    * a zero counter comes without overflow, and a positive one with a shortfall that no overflow cancels out.
    */
  lemma OverBurnCounterExactlyWhen(o: Oracles, config: Config, events: seq<Event>)
    ensures var l := Run(o, config, events).ledger;
            (l.numBurnsExceedingBalance == 0 <==> forall t: U64 :: !BalanceIsWrong(l, t))
            <==> CounterIsReliable(Flows(l, l.numBlocksSynced))
  {
    RunLedgerOk(o, config, events);
    var l := Run(o, config, events).ledger;
    var flows := Flows(l, l.numBlocksSynced);
    forall t: U64
      ensures BalanceIsWrong(l, t) <==> Deviates(flows, t)
    {
      WrongIsDeviating(o, l, t);
    }
    CounterTellsTruthExactlyWhen(flows);
  }

  /** In every run, a zero counter means right balances exactly when no mint overflowed. */
  lemma ZeroOverBurnCounterExactlyWhen(o: Oracles, config: Config, events: seq<Event>)
    requires Run(o, config, events).ledger.numBurnsExceedingBalance == 0
    ensures var l := Run(o, config, events).ledger;
            (forall t: U64 :: !BalanceIsWrong(l, t)) <==> forall t: U64 :: !Overflows(Flows(l, l.numBlocksSynced), t)
  {
    OverBurnCounterExactlyWhen(o, config, events);
    CounterIsClamps(o, config, events);
  }

  lemma CounterIsClamps(o: Oracles, config: Config, events: seq<Event>)
    ensures var l := Run(o, config, events).ledger;
            l.numBurnsExceedingBalance == Clamps(Flows(l, l.numBlocksSynced))
  {
    RunLedgerOk(o, config, events);
  }

  /** Totals that fit 64 bits never overflow, so while they do the counter tells the truth. */
  lemma OverBurnCounterIsExact(o: Oracles, config: Config, events: seq<Event>)
    requires forall t: U64 :: MintTotal(Run(o, config, events).ledger.mintTxs, t) < TWO_64
    ensures var l := Run(o, config, events).ledger;
            l.numBurnsExceedingBalance == 0 <==> forall t: U64 :: !BalanceIsWrong(l, t)
  {
    RunLedgerOk(o, config, events);
    var l := Run(o, config, events).ledger;
    var flows := Flows(l, l.numBlocksSynced);
    forall t: U64
      ensures !Overflows(flows, t)
    {
      NetIsTotals(o, l, t);
      assert MintTotal(l.mintTxs, t) < TWO_64;
      SmallTotalsDoNotWrap(flows, t);
    }
    OverBurnWitness(flows);
    CounterTellsTruthExactlyWhen(flows);
    OverBurnCounterExactlyWhen(o, config, events);
  }

  /** The tokens of a block's balances are among those of the next block. */
  lemma TokensNeverVanish(o: Oracles, config: Config, events: seq<Event>, b: nat)
    requires b + 1 < Run(o, config, events).ledger.numBlocksSynced
    ensures var rows := Run(o, config, events).ledger.blockBalances;
            BalancesForBlock(rows, b).Keys <= BalancesForBlock(rows, b + 1).Keys
  {
    RunLedgerOk(o, config, events);
    var l := Run(o, config, events).ledger;
    assert BlockBalanceOk(l, b) && BlockBalanceOk(l, b + 1);
    TokensOnlyGrow(Flows(l, b + 1), MintFlowsAt(l.mintTxs, b + 1) + BurnFlowsAt(l.burnTxOuts, b + 1));
  }

  /* Mint configs */

  /** No earlier config is justified for the mint. */
  ghost predicate NoEarlierJustified(o: Oracles, l: Ledger, configId: nat, blockIndex: nat, tx: CoreMintTx) {
    forall d: nat :: d < configId ==> !Justified(o, l, d, blockIndex, tx)
  }

  /**
    * Every stored mint has the config that a lookup would give it now. With a config, that is justified: the
    * config belongs to the token's latest config tx of an earlier block, its signers signed the mint, both limits
    * had room, and no earlier config would have done. Without one, nothing could be justified.
    */
  lemma StoredConfigsAreJustified(o: Oracles, config: Config, events: seq<Event>, i: nat)
    requires i < |Run(o, config, events).ledger.mintTxs|
    ensures var l := Run(o, config, events).ledger;
            var m := l.mintTxs[i];
            && m.mintConfigId == LookupMintConfig(o, l, m.blockIndex, m.core)
            && (m.mintConfigId.Some? ==>
                  && Justified(o, l, m.mintConfigId.value, m.blockIndex, m.core)
                  && NoEarlierJustified(o, l, m.mintConfigId.value, m.blockIndex, m.core))
            && (m.mintConfigId.None? <==> !exists c: nat :: Justified(o, l, c, m.blockIndex, m.core))
  {
    RunLedgerOk(o, config, events);
    var l := Run(o, config, events).ledger;
    var m := l.mintTxs[i];
    LookupFindsJustified(o, l, m.blockIndex, m.core);
    if m.mintConfigId.Some? {
      LookupExactlyWhen(o, l, m.blockIndex, m.core, m.mintConfigId.value);
    }
  }

  /**
    * In every run, a stored mint carries a config exactly when that one may be used by it and no earlier one may;
    * it carries none exactly when none may be used. In particular the signers of the config signed the mint, and
    * the true amounts leave room under both limits.
    */
  lemma StoredConfigExactlyWhen(o: Oracles, config: Config, events: seq<Event>, i: nat, c: nat)
    requires i < |Run(o, config, events).ledger.mintTxs|
    ensures var l := Run(o, config, events).ledger;
            var m := l.mintTxs[i];
            && (m.mintConfigId == Some(c) <==>
                && MayMint(o, l, c, m.blockIndex, m.core)
                && forall d: nat :: d < c ==> !MayMint(o, l, d, m.blockIndex, m.core))
            && (m.mintConfigId == None <==> forall d: nat :: !MayMint(o, l, d, m.blockIndex, m.core))
            && (m.mintConfigId == Some(c) ==> c < |l.mintConfigs| && o.verifies(l.mintConfigs[c].signerSet, m.core))
  {
    RunLedgerOk(o, config, events);
    var l := Run(o, config, events).ledger;
    var m := l.mintTxs[i];
    LookupIsAllowedExactlyWhen(o, l, m.blockIndex, m.core, c);
  }

  /** A config whose config tx was superseded before a mint's block is never recorded for that mint. */
  lemma SupersededNeverMatches(o: Oracles, config: Config, events: seq<Event>, i: nat, newer: nat)
    requires i < |Run(o, config, events).ledger.mintTxs| && newer < |Run(o, config, events).ledger.mintConfigTxs|
    requires Active(Run(o, config, events).ledger.mintConfigTxs[newer],
                    Run(o, config, events).ledger.mintTxs[i].blockIndex,
                    Run(o, config, events).ledger.mintTxs[i].core.tokenId)
    ensures var l := Run(o, config, events).ledger;
            var m := l.mintTxs[i];
            m.mintConfigId.Some? ==>
              && m.mintConfigId.value < |l.mintConfigs|
              && l.mintConfigs[m.mintConfigId.value].mintConfigTxId < |l.mintConfigTxs|
              && l.mintConfigTxs[newer].blockIndex
                 <= l.mintConfigTxs[l.mintConfigs[m.mintConfigId.value].mintConfigTxId].blockIndex
  {
    StoredConfigsAreJustified(o, config, events, i);
  }

  /** The counter of mints without a config counts exactly the stored mints without one. */
  lemma UnmatchedCounterIsExact(o: Oracles, config: Config, events: seq<Event>)
    ensures var l := Run(o, config, events).ledger;
            l.numMintTxsWithoutMatchingMintConfig == |set i: nat | i < |l.mintTxs| && l.mintTxs[i].mintConfigId.None?|
  {
    RunLedgerOk(o, config, events);
    UnmatchedIsCount(Run(o, config, events).ledger.mintTxs);
  }

  lemma {:induction false} UnmatchedIsCount(mints: seq<MintTx>)
    ensures Unmatched(mints) == |set i: nat | i < |mints| && mints[i].mintConfigId.None?|
  {
    if mints != [] {
      var front, last := mints[..|mints| - 1], |mints| - 1;
      UnmatchedIsCount(front);
      var before := set i: nat | i < |front| && front[i].mintConfigId.None?;
      var after := set i: nat | i < |mints| && mints[i].mintConfigId.None?;
      if mints[last].mintConfigId.None? {
        assert after == before + {last};
      } else {
        assert after == before;
      }
    }
  }

  /**
    * Over whole runs, with at most `k` recorded mints per block, a config or config tx never goes beyond `k` times
    * its limit, unless that product overflows.
    */
  lemma RunMintsWithinLimit(o: Oracles, config: Config, events: seq<Event>, scope: Scope, k: nat)
    requires ValidScope(Run(o, config, events).ledger, scope)
    requires forall b: nat ::
               MatchedAt(Run(o, config, events).ledger.mintConfigs, Run(o, config, events).ledger.mintTxs, scope, b)
               <= k
    requires k <= 1 || k * Limit(Run(o, config, events).ledger, scope) < TWO_64
    ensures var l := Run(o, config, events).ledger;
            ExactMinted(l.mintConfigs, l.mintTxs, scope, l.numBlocksSynced) <= k * Limit(l, scope)
  {
    RunLedgerOk(o, config, events);
    MintedWithinLimit(o, Run(o, config, events).ledger, scope, k);
  }

  /* Blocks */

  /**
    * The stored block indices are exactly the first ones, in order; so the next index read from the largest
    * stored one is the one the counter demands, and only a block with that index can be synced.
    */
  lemma BlockChain(o: Oracles, config: Config, events: seq<Event>, block: Block)
    ensures var l := Run(o, config, events).ledger;
            && |l.blockAuditData| == l.numBlocksSynced
            && (forall i :: 0 <= i < l.numBlocksSynced ==> l.blockAuditData[i] == i)
            && LastSyncedBlockIndex(l.blockAuditData)
               == (if l.numBlocksSynced == 0 then None else Some(l.numBlocksSynced - 1))
            && (LedgerStep(o, config, Run(o, config, events), block) == Err(UnexpectedBlockIndex)
                <==> block.index != l.numBlocksSynced)
  {
    RunLedgerOk(o, config, events);
    var l := Run(o, config, events).ledger;
    LastOfChain(l.blockAuditData);
    LedgerAcceptance.SyncBlockSucceedsExactlyWhen(o, l, block);
  }

  /** In every run, a block that is committed next is recorded exactly: its config txs, configs, mints and burns. */
  lemma CommittedBlockIsRecorded(o: Oracles, config: Config, events: seq<Event>, block: Block)
    requires LedgerStep(o, config, Run(o, config, events), block).Ok?
    ensures var before, after := Run(o, config, events).ledger, Run(o, config, events + [LedgerBlock(block)]).ledger;
            exists positions: seq<nat> :: LedgerContents.RecordsBlock(o, before, after, block, positions)
  {
    RunLedgerOk(o, config, events);
    RunAppend(o, config, events, LedgerBlock(block));
    var _ := LedgerContents.CommittedBlockIsRecorded(o, Run(o, config, events).ledger, block);
  }

  /** A committed block is counted, and one that carries the next index is never refused for its index. */
  lemma NextBlockCounts(o: Oracles, config: Config, events: seq<Event>, block: Block)
    ensures var st := Run(o, config, events);
            var r := LedgerStep(o, config, st, block);
            && (r.Ok? ==> r.value.ledger.numBlocksSynced == st.ledger.numBlocksSynced + 1)
            && (block.index == st.ledger.numBlocksSynced ==> r != Err(UnexpectedBlockIndex))
  {
    RunLedgerOk(o, config, events);
    var l := Run(o, config, events).ledger;
    LedgerAcceptance.SyncBlockSucceedsExactlyWhen(o, l, block);
    if SyncBlock(o, l, block).Ok? {
      SyncBlockKeeps(o, l, block);
    }
  }

  lemma LastOfChain(rows: seq<nat>)
    requires forall i :: 0 <= i < |rows| ==> rows[i] == i
    ensures LastSyncedBlockIndex(rows) == if rows == [] then None else Some(|rows| - 1)
  {
    if rows != [] {
      assert rows[|rows| - 1] in rows;
    }
  }
}
