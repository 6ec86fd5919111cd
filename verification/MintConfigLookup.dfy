/** Finding the mint config that allows a mint: the latest config tx, two nested limits, a first-fit search. */
module MintConfigLookup {
  import opened Wrappers
  import opened Numbers
  import opened Tables

  predicate Active(tx: MintConfigTx, blockIndex: nat, token: U64) {
    tx.tokenId == token && tx.blockIndex < blockIndex
  }

  /** The latest config tx of the token from a block before the given one. */
  function MostRecentForToken(txs: seq<MintConfigTx>, blockIndex: nat, token: U64): (r: Option<nat>)
    ensures r.None? ==> forall i :: 0 <= i < |txs| ==> !Active(txs[i], blockIndex, token)
    ensures r.Some? ==> r.value < |txs| && Active(txs[r.value], blockIndex, token)
    ensures r.Some? ==> forall i :: 0 <= i < |txs| && Active(txs[i], blockIndex, token) ==>
                          txs[i].blockIndex <= txs[r.value].blockIndex
  {
    if txs == [] then None
    else
      var last := |txs| - 1;
      var earlier := MostRecentForToken(txs[..last], blockIndex, token);
      if Active(txs[last], blockIndex, token) && (earlier.None? || txs[earlier.value].blockIndex < txs[last].blockIndex)
      then Some(last) else earlier
  }

  /** The ids of the configs that a config tx introduced, in table order. */
  function ConfigsOf(configs: seq<MintConfig>, txId: nat): (ids: seq<nat>)
    ensures forall id: nat :: id in ids <==> id < |configs| && configs[id].mintConfigTxId == txId
    ensures forall i :: 0 <= i < |ids| ==> ids[i] < |configs|
    ensures forall i, j :: 0 <= i < j < |ids| ==> ids[i] < ids[j]
  {
    if configs == [] then []
    else
      var last := |configs| - 1;
      ConfigsOf(configs[..last], txId) + if configs[last].mintConfigTxId == txId then [last] else []
  }

  /** Which mints a total is taken over: those of one config, or of all configs of one config tx. */
  datatype Scope = OfConfig(configId: nat) | OfConfigTx(configTxId: nat)

  /** The three-table join: the mint has a config, the config has a config tx, and that tx is from an earlier block. */
  predicate Joined(txs: seq<MintConfigTx>, configs: seq<MintConfig>, m: MintTx) {
    && m.mintConfigId.Some?
    && m.mintConfigId.value < |configs|
    && configs[m.mintConfigId.value].mintConfigTxId < |txs|
    && txs[configs[m.mintConfigId.value].mintConfigTxId].blockIndex < m.blockIndex
  }

  predicate InScope(configs: seq<MintConfig>, m: MintTx, scope: Scope) {
    && m.mintConfigId.Some?
    && match scope
       case OfConfig(c) => m.mintConfigId.value == c
       case OfConfigTx(t) => m.mintConfigId.value < |configs| && configs[m.mintConfigId.value].mintConfigTxId == t
  }

  predicate Counted(txs: seq<MintConfigTx>, configs: seq<MintConfig>, m: MintTx, scope: Scope, blockIndex: nat) {
    Joined(txs, configs, m) && InScope(configs, m, scope) && m.blockIndex < blockIndex
  }

  /** The sum the code computes: 64-bit, wrapping. */
  function MintedBefore(
    txs: seq<MintConfigTx>, configs: seq<MintConfig>, mints: seq<MintTx>, scope: Scope, blockIndex: nat): U64
  {
    if mints == [] then 0
    else
      var m := mints[|mints| - 1];
      var earlier := MintedBefore(txs, configs, mints[..|mints| - 1], scope, blockIndex);
      if Counted(txs, configs, m, scope, blockIndex) then WrappingAdd(earlier, m.core.amount) else earlier
  }

  /** `checked_add` followed by the comparison with the limit. */
  predicate Fits(total: U64, amount: U64, limit: U64) {
    total + amount < TWO_64 && total + amount <= limit
  }

  /** The config signed the mint and has room for it. */
  predicate Accepts(o: Oracles, l: Ledger, configId: nat, blockIndex: nat, tx: CoreMintTx)
    requires configId < |l.mintConfigs|
  {
    && o.verifies(l.mintConfigs[configId].signerSet, tx)
    && Fits(MintedBefore(l.mintConfigTxs, l.mintConfigs, l.mintTxs, OfConfig(configId), blockIndex),
            tx.amount, l.mintConfigs[configId].mintLimit)
  }

  function FirstAccepting(o: Oracles, l: Ledger, ids: seq<nat>, blockIndex: nat, tx: CoreMintTx): (r: Option<nat>)
    requires forall i :: 0 <= i < |ids| ==> ids[i] < |l.mintConfigs|
    ensures r.Some? ==> r.value in ids && r.value < |l.mintConfigs| && Accepts(o, l, r.value, blockIndex, tx)
    ensures r.None? ==> forall i :: 0 <= i < |ids| ==> !Accepts(o, l, ids[i], blockIndex, tx)
  {
    if ids == [] then None
    else if Accepts(o, l, ids[0], blockIndex, tx) then Some(ids[0])
    else FirstAccepting(o, l, ids[1..], blockIndex, tx)
  }

  /** The config tx that governs a mint, when the mint fits under its total limit. */
  function GoverningTx(l: Ledger, blockIndex: nat, tx: CoreMintTx): (r: Option<nat>)
    ensures r.Some? ==> r.value < |l.mintConfigTxs|
  {
    match MostRecentForToken(l.mintConfigTxs, blockIndex, tx.tokenId)
    case None => None
    case Some(t) =>
      if Fits(MintedBefore(l.mintConfigTxs, l.mintConfigs, l.mintTxs, OfConfigTx(t), blockIndex),
              tx.amount, l.mintConfigTxs[t].totalMintLimit)
      then Some(t) else None
  }

  function LookupMintConfig(o: Oracles, l: Ledger, blockIndex: nat, tx: CoreMintTx): Option<nat> {
    match GoverningTx(l, blockIndex, tx)
    case None => None
    case Some(t) => FirstAccepting(o, l, ConfigsOf(l.mintConfigs, t), blockIndex, tx)
  }

  /* What a lookup means */

  /**
    * Everything that a recorded config id says about its mint: the config belongs to the latest config tx of the
    * token from an earlier block, its signers signed the mint, and the mint fits under both limits.
    */
  ghost predicate Justified(o: Oracles, l: Ledger, configId: nat, blockIndex: nat, tx: CoreMintTx) {
    && configId < |l.mintConfigs|
    && var t := l.mintConfigs[configId].mintConfigTxId;
       && t < |l.mintConfigTxs|
       && l.mintConfigTxs[t].tokenId == tx.tokenId && l.mintConfigTxs[t].blockIndex < blockIndex
       && (forall i :: 0 <= i < |l.mintConfigTxs|
                       && l.mintConfigTxs[i].tokenId == tx.tokenId && l.mintConfigTxs[i].blockIndex < blockIndex ==>
             l.mintConfigTxs[i].blockIndex <= l.mintConfigTxs[t].blockIndex)
       && MintedBefore(l.mintConfigTxs, l.mintConfigs, l.mintTxs, OfConfigTx(t), blockIndex) + tx.amount
          <= l.mintConfigTxs[t].totalMintLimit
       && o.verifies(l.mintConfigs[configId].signerSet, tx)
       && MintedBefore(l.mintConfigTxs, l.mintConfigs, l.mintTxs, OfConfig(configId), blockIndex) + tx.amount
          <= l.mintConfigs[configId].mintLimit
  }

  lemma {:induction false} FirstAcceptingIsLeast(o: Oracles, l: Ledger, ids: seq<nat>, blockIndex: nat, tx: CoreMintTx)
    requires forall i :: 0 <= i < |ids| ==> ids[i] < |l.mintConfigs|
    requires forall i, j :: 0 <= i < j < |ids| ==> ids[i] < ids[j]
    requires FirstAccepting(o, l, ids, blockIndex, tx).Some?
    ensures forall d: nat :: d in ids && d < FirstAccepting(o, l, ids, blockIndex, tx).value ==>
                               !Accepts(o, l, d, blockIndex, tx)
  {
    if !Accepts(o, l, ids[0], blockIndex, tx) {
      FirstAcceptingIsLeast(o, l, ids[1..], blockIndex, tx);
      assert forall d: nat :: d in ids ==> d == ids[0] || d in ids[1..];
    }
  }

  /** A found config is justified, and it is the first of its config tx that is. */
  lemma LookupJustified(o: Oracles, l: Ledger, blockIndex: nat, tx: CoreMintTx)
    requires LookupMintConfig(o, l, blockIndex, tx).Some?
    ensures var c := LookupMintConfig(o, l, blockIndex, tx).value;
            && Justified(o, l, c, blockIndex, tx)
            && forall d: nat :: d < c && l.mintConfigs[d].mintConfigTxId == l.mintConfigs[c].mintConfigTxId ==>
                                  !Justified(o, l, d, blockIndex, tx)
  {
    var t := GoverningTx(l, blockIndex, tx).value;
    var c := LookupMintConfig(o, l, blockIndex, tx).value;
    FirstAcceptingIsLeast(o, l, ConfigsOf(l.mintConfigs, t), blockIndex, tx);
    forall d: nat | d < c && l.mintConfigs[d].mintConfigTxId == l.mintConfigs[c].mintConfigTxId
      ensures !Justified(o, l, d, blockIndex, tx)
    {
      assert d in ConfigsOf(l.mintConfigs, t);
      assert !Accepts(o, l, d, blockIndex, tx);
    }
  }

  /** A token has at most one config tx per block. */
  ghost predicate OneConfigTxPerBlock(txs: seq<MintConfigTx>) {
    forall i, j :: 0 <= i < j < |txs| ==> txs[i].blockIndex != txs[j].blockIndex || txs[i].tokenId != txs[j].tokenId
  }

  lemma JustifiedIsCandidate(o: Oracles, l: Ledger, configId: nat, blockIndex: nat, tx: CoreMintTx)
    requires OneConfigTxPerBlock(l.mintConfigTxs) && Justified(o, l, configId, blockIndex, tx)
    ensures GoverningTx(l, blockIndex, tx) == Some(l.mintConfigs[configId].mintConfigTxId)
    ensures configId in ConfigsOf(l.mintConfigs, l.mintConfigs[configId].mintConfigTxId)
    ensures Accepts(o, l, configId, blockIndex, tx)
  {
    var t := l.mintConfigs[configId].mintConfigTxId;
    assert Active(l.mintConfigTxs[t], blockIndex, tx.tokenId);
    var recent := MostRecentForToken(l.mintConfigTxs, blockIndex, tx.tokenId).value;
    assert l.mintConfigTxs[recent].blockIndex == l.mintConfigTxs[t].blockIndex;
  }

  /** A mint is left without a config exactly when no config could be justified for it. */
  lemma LookupFindsJustified(o: Oracles, l: Ledger, blockIndex: nat, tx: CoreMintTx)
    requires OneConfigTxPerBlock(l.mintConfigTxs)
    ensures LookupMintConfig(o, l, blockIndex, tx).None? <==> !exists c: nat :: Justified(o, l, c, blockIndex, tx)
  {
    if LookupMintConfig(o, l, blockIndex, tx).Some? {
      LookupJustified(o, l, blockIndex, tx);
    } else {
      forall c: nat
        ensures !Justified(o, l, c, blockIndex, tx)
      {
        if Justified(o, l, c, blockIndex, tx) {
          JustifiedIsCandidate(o, l, c, blockIndex, tx);
        }
      }
    }
  }

  /** A lookup answers with a config exactly when that one is justified and no earlier one is. */
  lemma LookupExactlyWhen(o: Oracles, l: Ledger, blockIndex: nat, tx: CoreMintTx, c: nat)
    requires OneConfigTxPerBlock(l.mintConfigTxs)
    ensures LookupMintConfig(o, l, blockIndex, tx) == Some(c) <==>
            Justified(o, l, c, blockIndex, tx) && forall d: nat :: d < c ==> !Justified(o, l, d, blockIndex, tx)
  {
    LookupFindsJustified(o, l, blockIndex, tx);
    var found := LookupMintConfig(o, l, blockIndex, tx);
    if found.Some? {
      LookupJustified(o, l, blockIndex, tx);
      JustifiedIsCandidate(o, l, found.value, blockIndex, tx);
      forall d: nat | Justified(o, l, d, blockIndex, tx)
        ensures found.value <= d
      {
        JustifiedIsCandidate(o, l, d, blockIndex, tx);
      }
    }
  }

  /* Later rows never change an earlier lookup */

  /** The second ledger adds only rows of the given block or later ones. */
  ghost predicate ExtendsFrom(l: Ledger, m: Ledger, blockIndex: nat) {
    && |l.mintConfigTxs| <= |m.mintConfigTxs| && l.mintConfigTxs == m.mintConfigTxs[..|l.mintConfigTxs|]
    && |l.mintConfigs| <= |m.mintConfigs| && l.mintConfigs == m.mintConfigs[..|l.mintConfigs|]
    && |l.mintTxs| <= |m.mintTxs| && l.mintTxs == m.mintTxs[..|l.mintTxs|]
    && (forall i :: |l.mintConfigTxs| <= i < |m.mintConfigTxs| ==> blockIndex <= m.mintConfigTxs[i].blockIndex)
    && (forall i :: |l.mintConfigs| <= i < |m.mintConfigs| ==> |l.mintConfigTxs| <= m.mintConfigs[i].mintConfigTxId)
    && (forall i :: |l.mintTxs| <= i < |m.mintTxs| ==> blockIndex <= m.mintTxs[i].blockIndex)
  }

  /** The foreign keys between the three tables. */
  ghost predicate Linked(l: Ledger) {
    && (forall i :: 0 <= i < |l.mintConfigs| ==> l.mintConfigs[i].mintConfigTxId < |l.mintConfigTxs|)
    && (forall i :: 0 <= i < |l.mintTxs| ==>
          l.mintTxs[i].mintConfigId.Some? ==> l.mintTxs[i].mintConfigId.value < |l.mintConfigs|)
  }

  lemma {:induction false} MostRecentStable(
    txs: seq<MintConfigTx>, more: seq<MintConfigTx>, blockIndex: nat, token: U64)
    requires |txs| <= |more| && txs == more[..|txs|]
    requires forall i :: |txs| <= i < |more| ==> blockIndex <= more[i].blockIndex
    ensures MostRecentForToken(more, blockIndex, token) == MostRecentForToken(txs, blockIndex, token)
    decreases |more|
  {
    if |more| > |txs| {
      var front := more[..|more| - 1];
      assert front[..|txs|] == txs;
      MostRecentStable(txs, front, blockIndex, token);
    } else {
      assert more == txs;
    }
  }

  lemma {:induction false} ConfigsOfStable(configs: seq<MintConfig>, more: seq<MintConfig>, txId: nat)
    requires |configs| <= |more| && configs == more[..|configs|]
    requires forall i :: |configs| <= i < |more| ==> more[i].mintConfigTxId != txId
    ensures ConfigsOf(more, txId) == ConfigsOf(configs, txId)
    decreases |more|
  {
    if |more| > |configs| {
      var front := more[..|more| - 1];
      assert front[..|configs|] == configs;
      ConfigsOfStable(configs, front, txId);
    } else {
      assert more == configs;
    }
  }

  lemma {:induction false} MintedBeforeStable(
    l: Ledger, m: Ledger, mints: seq<MintTx>, more: seq<MintTx>, scope: Scope, from: nat, blockIndex: nat)
    requires Linked(l) && ExtendsFrom(l, m, from) && blockIndex <= from
    requires |mints| <= |l.mintTxs| && mints == l.mintTxs[..|mints|]
    requires |mints| <= |more| <= |m.mintTxs| && more == m.mintTxs[..|more|]
    requires |mints| == |l.mintTxs| || |mints| == |more|
    ensures MintedBefore(m.mintConfigTxs, m.mintConfigs, more, scope, blockIndex)
            == MintedBefore(l.mintConfigTxs, l.mintConfigs, mints, scope, blockIndex)
    decreases |more|
  {
    if |more| > |mints| {
      assert more[..|more| - 1] == m.mintTxs[..|more| - 1];
      MintedBeforeStable(l, m, mints, more[..|more| - 1], scope, from, blockIndex);
    } else if mints != [] {
      var last := |mints| - 1;
      assert more[last] == m.mintTxs[last] == l.mintTxs[last] == mints[last];
      assert more[..last] == m.mintTxs[..last] && mints[..last] == l.mintTxs[..last];
      MintedBeforeStable(l, m, mints[..last], more[..last], scope, from, blockIndex);
    }
  }

  lemma MintedBeforeAgrees(l: Ledger, m: Ledger, scope: Scope, from: nat, blockIndex: nat)
    requires Linked(l) && ExtendsFrom(l, m, from) && blockIndex <= from
    ensures MintedBefore(m.mintConfigTxs, m.mintConfigs, m.mintTxs, scope, blockIndex)
            == MintedBefore(l.mintConfigTxs, l.mintConfigs, l.mintTxs, scope, blockIndex)
  {
    assert l.mintTxs[..|l.mintTxs|] == l.mintTxs && m.mintTxs[..|m.mintTxs|] == m.mintTxs;
    MintedBeforeStable(l, m, l.mintTxs, m.mintTxs, scope, from, blockIndex);
  }

  lemma {:induction false} FirstAcceptingStable(
    o: Oracles, l: Ledger, m: Ledger, ids: seq<nat>, from: nat, blockIndex: nat, tx: CoreMintTx)
    requires Linked(l) && ExtendsFrom(l, m, from) && blockIndex <= from
    requires forall i :: 0 <= i < |ids| ==> ids[i] < |l.mintConfigs|
    ensures FirstAccepting(o, m, ids, blockIndex, tx) == FirstAccepting(o, l, ids, blockIndex, tx)
  {
    if ids != [] {
      MintedBeforeAgrees(l, m, OfConfig(ids[0]), from, blockIndex);
      FirstAcceptingStable(o, l, m, ids[1..], from, blockIndex, tx);
    }
  }

  /** Looking a mint up again after any later blocks gives the same answer, and mints of one block do not compete. */
  lemma LookupStable(o: Oracles, l: Ledger, m: Ledger, from: nat, blockIndex: nat, tx: CoreMintTx)
    requires Linked(l) && ExtendsFrom(l, m, from) && blockIndex <= from
    ensures LookupMintConfig(o, m, blockIndex, tx) == LookupMintConfig(o, l, blockIndex, tx)
  {
    MostRecentStable(l.mintConfigTxs, m.mintConfigTxs, blockIndex, tx.tokenId);
    var recent := MostRecentForToken(l.mintConfigTxs, blockIndex, tx.tokenId);
    if recent.Some? {
      var t := recent.value;
      MintedBeforeAgrees(l, m, OfConfigTx(t), from, blockIndex);
      ConfigsOfStable(l.mintConfigs, m.mintConfigs, t);
      FirstAcceptingStable(o, l, m, ConfigsOf(l.mintConfigs, t), from, blockIndex, tx);
    }
  }
}
