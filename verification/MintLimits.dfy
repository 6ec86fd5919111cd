/** How far the mints recorded against a config, or a config tx, can go beyond its limit. */
module MintLimits {
  import opened Wrappers
  import opened Numbers
  import opened Tables
  import opened MintConfigLookup
  import opened LedgerInvariant

  ghost predicate ValidScope(l: Ledger, scope: Scope) {
    match scope
    case OfConfig(c) => c < |l.mintConfigs|
    case OfConfigTx(t) => t < |l.mintConfigTxs|
  }

  ghost function Limit(l: Ledger, scope: Scope): U64
    requires ValidScope(l, scope)
  {
    match scope
    case OfConfig(c) => l.mintConfigs[c].mintLimit
    case OfConfigTx(t) => l.mintConfigTxs[t].totalMintLimit
  }

  /** The true amount minted in the scope before a block: no join filter, no 64-bit arithmetic. */
  ghost function ExactMinted(configs: seq<MintConfig>, mints: seq<MintTx>, scope: Scope, blockIndex: nat): nat {
    if mints == [] then 0
    else
      var m := mints[|mints| - 1];
      ExactMinted(configs, mints[..|mints| - 1], scope, blockIndex) +
      if InScope(configs, m, scope) && m.blockIndex < blockIndex then m.core.amount else 0
  }

  /** The mints of one block that are recorded in the scope. */
  ghost function MatchedAt(configs: seq<MintConfig>, mints: seq<MintTx>, scope: Scope, blockIndex: nat): nat {
    if mints == [] then 0
    else
      var m := mints[|mints| - 1];
      MatchedAt(configs, mints[..|mints| - 1], scope, blockIndex) +
      if InScope(configs, m, scope) && m.blockIndex == blockIndex then 1 else 0
  }

  /** Every recorded config belongs to a config tx of an earlier block. */
  ghost predicate AllJoined(l: Ledger) {
    forall i :: 0 <= i < |l.mintTxs| && l.mintTxs[i].mintConfigId.Some? ==>
      Joined(l.mintConfigTxs, l.mintConfigs, l.mintTxs[i])
  }

  lemma JoinNeverFilters(o: Oracles, l: Ledger)
    requires LookupsReproducible(o, l)
    ensures AllJoined(l)
  {
    forall i | 0 <= i < |l.mintTxs| && l.mintTxs[i].mintConfigId.Some?
      ensures Joined(l.mintConfigTxs, l.mintConfigs, l.mintTxs[i])
    {
      LookupJustified(o, l, l.mintTxs[i].blockIndex, l.mintTxs[i].core);
    }
  }

  /** The code's sum is the true amount modulo 2^64, and its filter on config blocks removes nothing. */
  lemma {:induction false} CodeSumIsExact(l: Ledger, mints: seq<MintTx>, scope: Scope, blockIndex: nat)
    requires AllJoined(l)
    requires |mints| <= |l.mintTxs| && mints == l.mintTxs[..|mints|]
    ensures MintedBefore(l.mintConfigTxs, l.mintConfigs, mints, scope, blockIndex)
            == ExactMinted(l.mintConfigs, mints, scope, blockIndex) % TWO_64
  {
    if mints != [] {
      var last := |mints| - 1;
      assert mints[last] == l.mintTxs[last];
      assert mints[..last] == l.mintTxs[..last];
      CodeSumIsExact(l, mints[..last], scope, blockIndex);
      WrappingAddMod(ExactMinted(l.mintConfigs, mints[..last], scope, blockIndex), mints[last].core.amount);
    }
  }

  /** So it is of the whole table of every ledger whose lookups are reproducible. */
  lemma LedgerSumIsExact(o: Oracles, l: Ledger, scope: Scope, blockIndex: nat)
    requires LookupsReproducible(o, l)
    ensures MintedBefore(l.mintConfigTxs, l.mintConfigs, l.mintTxs, scope, blockIndex)
            == ExactMinted(l.mintConfigs, l.mintTxs, scope, blockIndex) % TWO_64
  {
    JoinNeverFilters(o, l);
    assert l.mintTxs[..|l.mintTxs|] == l.mintTxs;
    CodeSumIsExact(l, l.mintTxs, scope, blockIndex);
  }

  /**
    * A config may be used by a mint: it belongs to the token's latest config tx of an earlier block, its signers
    * signed the mint, and what was truly minted before, modulo 2^64, leaves room under both limits.
    */
  ghost predicate MayMint(o: Oracles, l: Ledger, c: nat, blockIndex: nat, tx: CoreMintTx) {
    && c < |l.mintConfigs|
    && var t := l.mintConfigs[c].mintConfigTxId;
       && t < |l.mintConfigTxs|
       && l.mintConfigTxs[t].tokenId == tx.tokenId && l.mintConfigTxs[t].blockIndex < blockIndex
       && (forall i :: 0 <= i < |l.mintConfigTxs|
                       && l.mintConfigTxs[i].tokenId == tx.tokenId && l.mintConfigTxs[i].blockIndex < blockIndex ==>
             l.mintConfigTxs[i].blockIndex <= l.mintConfigTxs[t].blockIndex)
       && o.verifies(l.mintConfigs[c].signerSet, tx)
       && ExactMinted(l.mintConfigs, l.mintTxs, OfConfigTx(t), blockIndex) % TWO_64 + tx.amount
          <= l.mintConfigTxs[t].totalMintLimit
       && ExactMinted(l.mintConfigs, l.mintTxs, OfConfig(c), blockIndex) % TWO_64 + tx.amount
          <= l.mintConfigs[c].mintLimit
  }

  lemma JustifiedIsMayMint(o: Oracles, l: Ledger, c: nat, blockIndex: nat, tx: CoreMintTx)
    requires LookupsReproducible(o, l)
    ensures Justified(o, l, c, blockIndex, tx) <==> MayMint(o, l, c, blockIndex, tx)
  {
    if c < |l.mintConfigs| {
      LedgerSumIsExact(o, l, OfConfig(c), blockIndex);
      LedgerSumIsExact(o, l, OfConfigTx(l.mintConfigs[c].mintConfigTxId), blockIndex);
    }
  }

  /** The config that a lookup in a well-formed ledger returns is the first one that may be used, if there is any. */
  lemma LookupIsFirstAllowed(o: Oracles, l: Ledger, blockIndex: nat, tx: CoreMintTx)
    requires LedgerOk(o, l)
    ensures match LookupMintConfig(o, l, blockIndex, tx)
            case Some(c) =>
              MayMint(o, l, c, blockIndex, tx) && forall d: nat :: d < c ==> !MayMint(o, l, d, blockIndex, tx)
            case None => forall c: nat :: !MayMint(o, l, c, blockIndex, tx)
  {
    forall c: nat
      ensures Justified(o, l, c, blockIndex, tx) <==> MayMint(o, l, c, blockIndex, tx)
    {
      JustifiedIsMayMint(o, l, c, blockIndex, tx);
    }
    LookupFindsJustified(o, l, blockIndex, tx);
    match LookupMintConfig(o, l, blockIndex, tx)
    case Some(c) => LookupExactlyWhen(o, l, blockIndex, tx, c);
    case None =>
  }

  /** The same as an equivalence, for any config. */
  lemma LookupIsAllowedExactlyWhen(o: Oracles, l: Ledger, blockIndex: nat, tx: CoreMintTx, c: nat)
    requires LedgerOk(o, l)
    ensures LookupMintConfig(o, l, blockIndex, tx) == Some(c) <==>
            MayMint(o, l, c, blockIndex, tx) && forall d: nat :: d < c ==> !MayMint(o, l, d, blockIndex, tx)
    ensures LookupMintConfig(o, l, blockIndex, tx) == None <==> forall d: nat :: !MayMint(o, l, d, blockIndex, tx)
  {
    LookupIsFirstAllowed(o, l, blockIndex, tx);
    var found := LookupMintConfig(o, l, blockIndex, tx);
    if found.Some? {
      OnlyOneFirst(o, l, blockIndex, tx, found.value, c);
    }
  }

  lemma OnlyOneFirst(o: Oracles, l: Ledger, blockIndex: nat, tx: CoreMintTx, b: nat, c: nat)
    requires MayMint(o, l, b, blockIndex, tx) && forall d: nat :: d < b ==> !MayMint(o, l, d, blockIndex, tx)
    ensures MayMint(o, l, c, blockIndex, tx) && (forall d: nat :: d < c ==> !MayMint(o, l, d, blockIndex, tx))
            <==> b == c
  {
  }

  /** Every mint recorded in the scope found room before its block. */
  ghost predicate RoomEverywhere(l: Ledger, scope: Scope)
    requires ValidScope(l, scope)
  {
    forall i :: 0 <= i < |l.mintTxs| && InScope(l.mintConfigs, l.mintTxs[i], scope) ==>
      ExactMinted(l.mintConfigs, l.mintTxs, scope, l.mintTxs[i].blockIndex) % TWO_64 + l.mintTxs[i].core.amount
      <= Limit(l, scope)
  }

  lemma RecordedHadRoom(o: Oracles, l: Ledger, scope: Scope)
    requires LookupsReproducible(o, l) && ValidScope(l, scope)
    ensures RoomEverywhere(l, scope)
  {
    forall i | 0 <= i < |l.mintTxs| && InScope(l.mintConfigs, l.mintTxs[i], scope)
      ensures ExactMinted(l.mintConfigs, l.mintTxs, scope, l.mintTxs[i].blockIndex) % TWO_64 + l.mintTxs[i].core.amount
              <= Limit(l, scope)
    {
      LookupJustified(o, l, l.mintTxs[i].blockIndex, l.mintTxs[i].core);
      LedgerSumIsExact(o, l, scope, l.mintTxs[i].blockIndex);
    }
  }

  ghost predicate RoomAt(l: Ledger, mints: seq<MintTx>, scope: Scope, blockIndex: nat, room: int) {
    forall i :: 0 <= i < |mints| && InScope(l.mintConfigs, mints[i], scope) && mints[i].blockIndex == blockIndex ==>
      mints[i].core.amount <= room
  }

  /** One block adds at most its number of mints times the room there was before it. */
  lemma {:induction false} OneBlockAdds(l: Ledger, mints: seq<MintTx>, scope: Scope, blockIndex: nat, room: int)
    requires RoomAt(l, mints, scope, blockIndex, room)
    ensures var matched := MatchedAt(l.mintConfigs, mints, scope, blockIndex);
            var added := ExactMinted(l.mintConfigs, mints, scope, blockIndex + 1)
                         - ExactMinted(l.mintConfigs, mints, scope, blockIndex);
            && (matched == 0 ==> added == 0)
            && (matched > 0 ==> 0 <= room && 0 <= added <= matched * room)
  {
    if mints != [] {
      var front := mints[..|mints| - 1];
      assert RoomAt(l, front, scope, blockIndex, room);
      OneBlockAdds(l, front, scope, blockIndex, room);
      var earlier := MatchedAt(l.mintConfigs, front, scope, blockIndex);
      assert (earlier + 1) * room == earlier * room + room;
    }
  }

  lemma Overshoot(before: nat, matched: nat, k: nat, limit: nat, added: nat)
    requires 0 < matched <= k && before <= limit && added <= matched * (limit - before)
    ensures before + added <= k * limit
  {
    MulMonotone(matched, k, limit);
    MulMonotone(1, matched, before);
    assert matched * (limit - before) == matched * limit - matched * before;
  }

  lemma BelowTheBound(before: nat, k: nat, limit: U64)
    requires before <= k * limit
    requires k <= 1 || k * limit < TWO_64
    ensures before % TWO_64 == before
  {
    if k <= 1 {
      MulMonotone(k, 1, limit);
    }
  }

  lemma LimitStep(l: Ledger, scope: Scope, k: nat, bound: nat, n: nat)
    requires ValidScope(l, scope) && RoomEverywhere(l, scope)
    requires MatchedAt(l.mintConfigs, l.mintTxs, scope, n) <= k && bound == k * Limit(l, scope)
    requires ExactMinted(l.mintConfigs, l.mintTxs, scope, n) <= bound
    requires ExactMinted(l.mintConfigs, l.mintTxs, scope, n) % TWO_64 == ExactMinted(l.mintConfigs, l.mintTxs, scope, n)
    ensures ExactMinted(l.mintConfigs, l.mintTxs, scope, n + 1) <= bound
  {
    var before := ExactMinted(l.mintConfigs, l.mintTxs, scope, n);
    var room := Limit(l, scope) - before;
    assert RoomAt(l, l.mintTxs, scope, n, room);
    OneBlockAdds(l, l.mintTxs, scope, n, room);
    var matched := MatchedAt(l.mintConfigs, l.mintTxs, scope, n);
    if matched > 0 {
      Overshoot(before, matched, k, Limit(l, scope), ExactMinted(l.mintConfigs, l.mintTxs, scope, n + 1) - before);
    }
  }

  lemma {:induction false} LimitThrough(l: Ledger, scope: Scope, k: nat, n: nat)
    requires ValidScope(l, scope) && RoomEverywhere(l, scope)
    requires forall b: nat :: MatchedAt(l.mintConfigs, l.mintTxs, scope, b) <= k
    requires k <= 1 || k * Limit(l, scope) < TWO_64
    ensures ExactMinted(l.mintConfigs, l.mintTxs, scope, n) <= k * Limit(l, scope)
  {
    if n == 0 {
      NothingBeforeGenesis(l.mintConfigs, l.mintTxs, scope);
    } else {
      LimitThrough(l, scope, k, n - 1);
      BelowTheBound(ExactMinted(l.mintConfigs, l.mintTxs, scope, n - 1), k, Limit(l, scope));
      LimitStep(l, scope, k, k * Limit(l, scope), n - 1);
    }
  }

  lemma {:induction false} NothingBeforeGenesis(configs: seq<MintConfig>, mints: seq<MintTx>, scope: Scope)
    ensures ExactMinted(configs, mints, scope, 0) == 0
  {
    if mints != [] {
      NothingBeforeGenesis(configs, mints[..|mints| - 1], scope);
    }
  }

  /**
    * With at most `k` recorded mints per block, the whole recorded amount is at most `k` times the limit; in
    * particular it respects the limit when no block holds two of them.
    */
  lemma MintedWithinLimit(o: Oracles, l: Ledger, scope: Scope, k: nat)
    requires LedgerOk(o, l) && ValidScope(l, scope)
    requires forall b: nat :: MatchedAt(l.mintConfigs, l.mintTxs, scope, b) <= k
    requires k <= 1 || k * Limit(l, scope) < TWO_64
    ensures ExactMinted(l.mintConfigs, l.mintTxs, scope, l.numBlocksSynced) <= k * Limit(l, scope)
  {
    RecordedHadRoom(o, l, scope);
    LimitThrough(l, scope, k, l.numBlocksSynced);
  }

  /** No amount at all passes the check any more exactly when the recorded amount, modulo 2^64, is above the limit. */
  lemma NothingFitsExactlyWhen(o: Oracles, l: Ledger, scope: Scope, n: nat)
    requires LedgerOk(o, l) && ValidScope(l, scope)
    ensures (forall amount: U64 ::
               !Fits(MintedBefore(l.mintConfigTxs, l.mintConfigs, l.mintTxs, scope, n), amount, Limit(l, scope)))
            <==> Limit(l, scope) < ExactMinted(l.mintConfigs, l.mintTxs, scope, n) % TWO_64
  {
    LedgerSumIsExact(o, l, scope, n);
    var total := MintedBefore(l.mintConfigTxs, l.mintConfigs, l.mintTxs, scope, n);
    assert Fits(total, 0, Limit(l, scope)) <==> total <= Limit(l, scope);
  }

  /** Once the recorded amount, modulo 2^64, is above the limit, nothing more is recorded in later blocks. */
  lemma ExhaustedStaysExhausted(o: Oracles, l: Ledger, scope: Scope, n: nat)
    requires LedgerOk(o, l) && ValidScope(l, scope)
    requires Limit(l, scope) < ExactMinted(l.mintConfigs, l.mintTxs, scope, n) % TWO_64
    ensures forall i :: 0 <= i < |l.mintTxs| && l.mintTxs[i].blockIndex >= n ==>
                          !InScope(l.mintConfigs, l.mintTxs[i], scope)
  {
    RecordedHadRoom(o, l, scope);
    NothingAddedFrom(l, scope, n, l.numBlocksSynced);
  }

  lemma {:induction false} NothingAddedFrom(l: Ledger, scope: Scope, n: nat, upTo: nat)
    requires ValidScope(l, scope) && RoomEverywhere(l, scope)
    requires Limit(l, scope) < ExactMinted(l.mintConfigs, l.mintTxs, scope, n) % TWO_64
    ensures forall i :: 0 <= i < |l.mintTxs| && n <= l.mintTxs[i].blockIndex < upTo ==>
                          !InScope(l.mintConfigs, l.mintTxs[i], scope)
    ensures n <= upTo ==> ExactMinted(l.mintConfigs, l.mintTxs, scope, upTo)
                          == ExactMinted(l.mintConfigs, l.mintTxs, scope, n)
    decreases upTo
  {
    if n < upTo {
      NothingAddedFrom(l, scope, n, upTo - 1);
      NoneMatchedNoneAdded(l, l.mintTxs, scope, upTo - 1);
    }
  }

  lemma {:induction false} NoneMatchedNoneAdded(l: Ledger, mints: seq<MintTx>, scope: Scope, blockIndex: nat)
    requires forall i :: 0 <= i < |mints| && mints[i].blockIndex == blockIndex ==>
               !InScope(l.mintConfigs, mints[i], scope)
    ensures ExactMinted(l.mintConfigs, mints, scope, blockIndex + 1)
            == ExactMinted(l.mintConfigs, mints, scope, blockIndex)
  {
    if mints != [] {
      NoneMatchedNoneAdded(l, mints[..|mints| - 1], scope, blockIndex);
    }
  }
}
