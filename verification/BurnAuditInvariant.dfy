/** The burn audit: one-to-one always, complete for every key that only one withdrawal carries. */
module BurnAuditInvariant {
  import opened Wrappers
  import opened EthDataTypes
  import opened SafeConfig
  import opened Tables
  import opened BurnMatching
  import opened LedgerInvariant

  /** What the matchers rely on in a stored withdrawal: a configured safe and an audited token. */
  ghost predicate WithdrawalOk(config: Config, w: Withdrawal) {
    && FindSafe(config.safes, w.safeAddr).Some?
    && FindToken(FindSafe(config.safes, w.safeAddr).value.tokens, w.tokenAddr).Some?
  }

  ghost predicate WithdrawalsOk(config: Config, withdrawals: seq<Withdrawal>) {
    forall j :: 0 <= j < |withdrawals| ==> WithdrawalOk(config, withdrawals[j])
  }

  ghost predicate Twins(b: BurnTxOut, w: Withdrawal) {
    b.publicKeyHex == w.publicKeyHex
  }

  ghost predicate Verified(config: Config, b: BurnTxOut, w: Withdrawal) {
    match FindSafe(config.safes, w.safeAddr)
    case None => false
    case Some(safe) => VerifyBurn(b, w, safe).None?
  }

  ghost predicate Pairs(config: Config, b: BurnTxOut, w: Withdrawal) {
    Twins(b, w) && Verified(config, b, w)
  }

  /** No other withdrawal carries the key of this one. */
  ghost predicate SoleCarrier(withdrawals: seq<Withdrawal>, j: nat)
    requires j < |withdrawals|
  {
    forall k :: 0 <= k < |withdrawals| && k != j ==> withdrawals[k].publicKeyHex != withdrawals[j].publicKeyHex
  }

  ghost predicate RowsPair(
    config: Config, burns: seq<BurnTxOut>, withdrawals: seq<Withdrawal>, rows: seq<AuditedBurn>)
  {
    forall k :: 0 <= k < |rows| ==>
      && rows[k].burnTxOutId < |burns|
      && rows[k].withdrawalId < |withdrawals|
      && Pairs(config, burns[rows[k].burnTxOutId], withdrawals[rows[k].withdrawalId])
  }

  /** One burn per withdrawal and one withdrawal per burn. */
  ghost predicate OneToOne(rows: seq<AuditedBurn>) {
    forall i, j :: 0 <= i < j < |rows| ==>
      rows[i].burnTxOutId != rows[j].burnTxOutId && rows[i].withdrawalId != rows[j].withdrawalId
  }

  ghost predicate SolePairsAudited(
    config: Config, burns: seq<BurnTxOut>, withdrawals: seq<Withdrawal>, rows: seq<AuditedBurn>)
  {
    forall i, j :: 0 <= i < |burns| && 0 <= j < |withdrawals| ==>
      Pairs(config, burns[i], withdrawals[j]) && SoleCarrier(withdrawals, j) ==> AuditedBurn(i, j) in rows
  }

  /** Some withdrawal carries the key of the burn, and every one that does agrees with it. */
  ghost predicate AllCarriersAgree(config: Config, b: BurnTxOut, withdrawals: seq<Withdrawal>) {
    && (exists j :: 0 <= j < |withdrawals| && Twins(b, withdrawals[j]))
    && (forall j :: 0 <= j < |withdrawals| && Twins(b, withdrawals[j]) ==> Verified(config, b, withdrawals[j]))
  }

  ghost predicate AgreedBurnsAudited(
    config: Config, burns: seq<BurnTxOut>, withdrawals: seq<Withdrawal>, rows: seq<AuditedBurn>)
  {
    forall i :: 0 <= i < |burns| && AllCarriersAgree(config, burns[i], withdrawals) ==> BurnIsAudited(rows, i)
  }

  ghost predicate CountersOk(a: BurnAudit, attempts: nat) {
    && a.numUnknownEthereumTokenWithdrawals == 0
    && a.numBurnsFromUnknownSafe == 0
    && Recorded(a) == attempts
  }

  ghost predicate BurnAuditOk(config: Config, burns: seq<BurnTxOut>, withdrawals: seq<Withdrawal>, a: BurnAudit) {
    && RowsPair(config, burns, withdrawals, a.auditedBurns)
    && OneToOne(a.auditedBurns)
    && SolePairsAudited(config, burns, withdrawals, a.auditedBurns)
    && AgreedBurnsAudited(config, burns, withdrawals, a.auditedBurns)
    && CountersOk(a, |burns| + |withdrawals|)
  }

  lemma VerifyNeverSurprises(config: Config, b: BurnTxOut, w: Withdrawal, safe: AuditedSafe)
    requires WithdrawalOk(config, w) && FindSafe(config.safes, w.safeAddr) == Some(safe)
    ensures VerifyBurn(b, w, safe) == if Verified(config, b, w) then None else Some(Mismatch)
  {
    assert SameAddr(w.safeAddr, safe.safeAddr);
  }

  /* A new burn */

  /** What the audit of a new burn comes to, `j` being the candidate that the query returned. */
  ghost function AfterBurn(config: Config, a: BurnAudit, b: BurnTxOut, n: nat, withdrawals: seq<Withdrawal>, j: nat)
    : BurnAudit
  {
    if j >= |withdrawals| then
      a.(numUnexpectedErrorsMatchingBurnsToWithdrawals := a.numUnexpectedErrorsMatchingBurnsToWithdrawals + 1)
    else if Verified(config, b, withdrawals[j]) then a.(auditedBurns := a.auditedBurns + [AuditedBurn(n, j)])
    else a.(numMismatchingBurnsAndWithdrawals := a.numMismatchingBurnsAndWithdrawals + 1)
  }

  /** The one withdrawal that a new burn is tried against, or the end of the table when there is none. */
  function Tried(o: Oracles, withdrawals: seq<Withdrawal>, rows: seq<AuditedBurn>, keyHex: string): nat {
    var ids := Candidates(withdrawals, rows, keyHex);
    if ids == [] then |withdrawals| else ids[o.firstOf(ids) % |ids|]
  }

  /** A stored burn is paired on arrival exactly when the one candidate that the query offers first passes the check. */
  lemma NewBurnOutcome(
    o: Oracles, config: Config, all: seq<BurnTxOut>, n: nat, withdrawals: seq<Withdrawal>, a: BurnAudit)
    returns (j: nat)
    requires n < |all| && WithdrawalsOk(config, withdrawals)
    requires RowsPair(config, all[..n], withdrawals, a.auditedBurns)
    ensures j == Tried(o, withdrawals, a.auditedBurns, all[n].publicKeyHex) <= |withdrawals|
    ensures j < |withdrawals| ==> Twins(all[n], withdrawals[j]) && !WithdrawalIsAudited(a.auditedBurns, j)
    ensures j == |withdrawals| ==> forall k :: 0 <= k < |withdrawals| && Twins(all[n], withdrawals[k]) ==>
                                     WithdrawalIsAudited(a.auditedBurns, k)
    ensures MatchBurn(o, all, withdrawals, a.auditedBurns, Some(n), all[n], config).Ok?
            <==> j < |withdrawals| && Verified(config, all[n], withdrawals[j])
    ensures TryMatchBurn(o, all, withdrawals, a, Some(n), all[n], config)
            == AfterBurn(config, a, all[n], n, withdrawals, j)
  {
    var found := FindUnauditedWithdrawal(o, withdrawals, a.auditedBurns, all[n].publicKeyHex);
    j := if found.Some? then found.value else |withdrawals|;
    if found.Some? {
      VerifyNeverSurprises(config, all[n], withdrawals[j], FindSafe(config.safes, withdrawals[j].safeAddr).value);
    }
  }

  lemma AfterBurnSolePairs(
    config: Config, burns: seq<BurnTxOut>, b: BurnTxOut, withdrawals: seq<Withdrawal>, a: BurnAudit, j: nat)
    requires UniqueKeys(burns + [b])
    requires RowsPair(config, burns, withdrawals, a.auditedBurns)
    requires SolePairsAudited(config, burns, withdrawals, a.auditedBurns)
    requires j < |withdrawals| ==> Twins(b, withdrawals[j])
    requires j >= |withdrawals| ==> forall k :: 0 <= k < |withdrawals| && Twins(b, withdrawals[k]) ==>
                                      WithdrawalIsAudited(a.auditedBurns, k)
    ensures SolePairsAudited(config, burns + [b], withdrawals,
                             AfterBurn(config, a, b, |burns|, withdrawals, j).auditedBurns)
  {
    var rows := AfterBurn(config, a, b, |burns|, withdrawals, j).auditedBurns;
    forall i, k | 0 <= i < |burns + [b]| && 0 <= k < |withdrawals| && Pairs(config, (burns + [b])[i], withdrawals[k])
                  && SoleCarrier(withdrawals, k)
      ensures AuditedBurn(i, k) in rows
    {
      if i < |burns| {
        assert (burns + [b])[i] == burns[i];
        assert AuditedBurn(i, k) in a.auditedBurns;
      } else {
        SoleTwinIsFree(config, burns, b, withdrawals, a.auditedBurns, k);
        assert k == j;
      }
    }
  }

  /** The sole withdrawal with a new burn's key cannot have been paired with an earlier burn. */
  lemma SoleTwinIsFree(
    config: Config, burns: seq<BurnTxOut>, b: BurnTxOut, withdrawals: seq<Withdrawal>, rows: seq<AuditedBurn>, k: nat)
    requires UniqueKeys(burns + [b]) && RowsPair(config, burns, withdrawals, rows)
    requires k < |withdrawals| && Twins(b, withdrawals[k])
    ensures !WithdrawalIsAudited(rows, k)
  {
    forall r | 0 <= r < |rows|
      ensures rows[r].withdrawalId != k
    {
      assert (burns + [b])[rows[r].burnTxOutId].publicKeyHex != (burns + [b])[|burns|].publicKeyHex;
    }
  }

  lemma AfterBurnAgreed(
    config: Config, burns: seq<BurnTxOut>, b: BurnTxOut, withdrawals: seq<Withdrawal>, a: BurnAudit, j: nat)
    requires UniqueKeys(burns + [b])
    requires RowsPair(config, burns, withdrawals, a.auditedBurns)
    requires AgreedBurnsAudited(config, burns, withdrawals, a.auditedBurns)
    requires j < |withdrawals| ==> Twins(b, withdrawals[j])
    requires j >= |withdrawals| ==> forall k :: 0 <= k < |withdrawals| && Twins(b, withdrawals[k]) ==>
                                      WithdrawalIsAudited(a.auditedBurns, k)
    ensures AgreedBurnsAudited(config, burns + [b], withdrawals,
                               AfterBurn(config, a, b, |burns|, withdrawals, j).auditedBurns)
  {
    var rows := AfterBurn(config, a, b, |burns|, withdrawals, j).auditedBurns;
    forall i | 0 <= i < |burns + [b]| && AllCarriersAgree(config, (burns + [b])[i], withdrawals)
      ensures BurnIsAudited(rows, i)
    {
      if i < |burns| {
        assert (burns + [b])[i] == burns[i];
        AuditedStays(a.auditedBurns, rows, i);
      } else {
        var k :| 0 <= k < |withdrawals| && Twins(b, withdrawals[k]);
        SoleTwinIsFree(config, burns, b, withdrawals, a.auditedBurns, k);
        assert rows[|a.auditedBurns|].burnTxOutId == i;
      }
    }
  }

  lemma AuditedStays(rows: seq<AuditedBurn>, more: seq<AuditedBurn>, i: nat)
    requires rows <= more && BurnIsAudited(rows, i)
    ensures BurnIsAudited(more, i)
  {
    var k :| 0 <= k < |rows| && rows[k].burnTxOutId == i;
    assert more[k] == rows[k];
  }

  lemma AfterBurnIs(
    config: Config, burns: seq<BurnTxOut>, b: BurnTxOut, withdrawals: seq<Withdrawal>, a: BurnAudit, j: nat)
    requires BurnAuditOk(config, burns, withdrawals, a)
    requires j < |withdrawals| ==> Twins(b, withdrawals[j]) && !WithdrawalIsAudited(a.auditedBurns, j)
    ensures var c := AfterBurn(config, a, b, |burns|, withdrawals, j);
            && RowsPair(config, burns + [b], withdrawals, c.auditedBurns)
            && OneToOne(c.auditedBurns)
            && CountersOk(c, |burns| + 1 + |withdrawals|)
  {
    var c := AfterBurn(config, a, b, |burns|, withdrawals, j);
    forall k | 0 <= k < |c.auditedBurns|
      ensures c.auditedBurns[k].burnTxOutId <= |burns| && c.auditedBurns[k].withdrawalId < |withdrawals|
      ensures Pairs(config, (burns + [b])[c.auditedBurns[k].burnTxOutId], withdrawals[c.auditedBurns[k].withdrawalId])
    {
      if k < |a.auditedBurns| {
        assert c.auditedBurns[k] == a.auditedBurns[k];
        assert (burns + [b])[a.auditedBurns[k].burnTxOutId] == burns[a.auditedBurns[k].burnTxOutId];
      }
    }
  }

  /** The ledger side: auditing one more burn keeps the audit right. */
  lemma AuditingBurnKeeps(
    o: Oracles, config: Config, all: seq<BurnTxOut>, n: nat, withdrawals: seq<Withdrawal>, a: BurnAudit)
    requires n < |all| && UniqueKeys(all) && WithdrawalsOk(config, withdrawals)
    requires BurnAuditOk(config, all[..n], withdrawals, a)
    ensures BurnAuditOk(config, all[..n + 1], withdrawals,
                        TryMatchBurn(o, all, withdrawals, a, Some(n), all[n], config))
  {
    var j := NewBurnOutcome(o, config, all, n, withdrawals, a);
    AfterBurnSolePairs(config, all[..n], all[n], withdrawals, a, j);
    AfterBurnAgreed(config, all[..n], all[n], withdrawals, a, j);
    AfterBurnIs(config, all[..n], all[n], withdrawals, a, j);
    assert all[..n + 1] == all[..n] + [all[n]];
  }

  lemma {:induction false} AuditBurnsKeeps(
    o: Oracles, config: Config, all: seq<BurnTxOut>, withdrawals: seq<Withdrawal>, a: BurnAudit, first: nat)
    requires first <= |all| && UniqueKeys(all) && WithdrawalsOk(config, withdrawals)
    requires BurnAuditOk(config, all[..first], withdrawals, a)
    ensures BurnAuditOk(config, all, withdrawals, AuditBurns(o, all, withdrawals, a, config, first))
    decreases |all| - first
  {
    if first == |all| {
      assert all[..first] == all;
    } else {
      AuditingBurnKeeps(o, config, all, first, withdrawals, a);
      AuditBurnsKeeps(o, config, all, withdrawals,
                      TryMatchBurn(o, all, withdrawals, a, Some(first), all[first], config), first + 1);
    }
  }

  /* A new withdrawal */

  /** What the audit of a new withdrawal comes to. */
  ghost function AfterWithdrawal(config: Config, a: BurnAudit, burns: seq<BurnTxOut>, w: Withdrawal, n: nat, i: nat)
    : BurnAudit
  {
    if i >= |burns| then
      a.(numUnexpectedErrorsMatchingWithdrawalsToBurns := a.numUnexpectedErrorsMatchingWithdrawalsToBurns + 1)
    else if Verified(config, burns[i], w) then a.(auditedBurns := a.auditedBurns + [AuditedBurn(i, n)])
    else a.(numMismatchingBurnsAndWithdrawals := a.numMismatchingBurnsAndWithdrawals + 1)
  }

  lemma NewWithdrawalOutcome(
    config: Config, burns: seq<BurnTxOut>, withdrawals: seq<Withdrawal>, w: Withdrawal, safe: AuditedSafe, a: BurnAudit)
    returns (i: nat)
    requires UniqueKeys(burns) && WithdrawalOk(config, w) && FindSafe(config.safes, w.safeAddr) == Some(safe)
    requires RowsPair(config, burns, withdrawals, a.auditedBurns)
    ensures i <= |burns|
    ensures i < |burns| ==> Twins(burns[i], w) && !BurnIsAudited(a.auditedBurns, i)
    ensures forall k :: 0 <= k < |burns| && Twins(burns[k], w) && !BurnIsAudited(a.auditedBurns, k) ==> k == i
    ensures TryMatchWithdrawal(burns, withdrawals + [w], a, Some(|withdrawals|), w, safe)
            == AfterWithdrawal(config, a, burns, w, |withdrawals|, i)
  {
    var found := FindUnauditedBurn(burns, a.auditedBurns, w.publicKeyHex);
    i := if found.Some? then found.value else |burns|;
    if found.Some? {
      VerifyNeverSurprises(config, burns[i], w, safe);
    }
  }

  lemma AfterWithdrawalSolePairs(
    config: Config, burns: seq<BurnTxOut>, withdrawals: seq<Withdrawal>, w: Withdrawal, a: BurnAudit, i: nat)
    requires RowsPair(config, burns, withdrawals, a.auditedBurns)
    requires SolePairsAudited(config, burns, withdrawals, a.auditedBurns)
    requires forall k :: 0 <= k < |burns| && Twins(burns[k], w) && !BurnIsAudited(a.auditedBurns, k) ==> k == i
    ensures SolePairsAudited(config, burns, withdrawals + [w],
                             AfterWithdrawal(config, a, burns, w, |withdrawals|, i).auditedBurns)
  {
    var most := withdrawals + [w];
    var rows := AfterWithdrawal(config, a, burns, w, |withdrawals|, i).auditedBurns;
    forall k, j | 0 <= k < |burns| && 0 <= j < |most| && Pairs(config, burns[k], most[j]) && SoleCarrier(most, j)
      ensures AuditedBurn(k, j) in rows
    {
      if j < |withdrawals| {
        assert most[j] == withdrawals[j];
        SoleCarrierBefore(withdrawals, w, j);
        assert AuditedBurn(k, j) in a.auditedBurns;
      } else {
        BurnOfNewKeyIsFree(config, burns, withdrawals, w, a.auditedBurns, k);
        assert k == i;
      }
    }
  }

  lemma AfterWithdrawalAgreed(
    config: Config, burns: seq<BurnTxOut>, withdrawals: seq<Withdrawal>, w: Withdrawal, a: BurnAudit, i: nat)
    requires AgreedBurnsAudited(config, burns, withdrawals, a.auditedBurns)
    requires forall k :: 0 <= k < |burns| && Twins(burns[k], w) && !BurnIsAudited(a.auditedBurns, k) ==> k == i
    ensures AgreedBurnsAudited(config, burns, withdrawals + [w],
                               AfterWithdrawal(config, a, burns, w, |withdrawals|, i).auditedBurns)
  {
    var most := withdrawals + [w];
    var rows := AfterWithdrawal(config, a, burns, w, |withdrawals|, i).auditedBurns;
    forall k | 0 <= k < |burns| && AllCarriersAgree(config, burns[k], most)
      ensures BurnIsAudited(rows, k)
    {
      assert forall j :: 0 <= j < |withdrawals| ==> most[j] == withdrawals[j];
      assert most[|withdrawals|] == w;
      if BurnIsAudited(a.auditedBurns, k) {
        AuditedStays(a.auditedBurns, rows, k);
      } else if Twins(burns[k], w) {
        assert rows[|a.auditedBurns|].burnTxOutId == k;
      } else {
        AgreedBefore(config, burns[k], withdrawals, w);
      }
    }
  }

  lemma AgreedBefore(config: Config, b: BurnTxOut, withdrawals: seq<Withdrawal>, w: Withdrawal)
    requires !Twins(b, w) && AllCarriersAgree(config, b, withdrawals + [w])
    ensures AllCarriersAgree(config, b, withdrawals)
  {
    var j :| 0 <= j < |withdrawals + [w]| && Twins(b, (withdrawals + [w])[j]);
    assert withdrawals[j] == (withdrawals + [w])[j];
    forall k | 0 <= k < |withdrawals| && Twins(b, withdrawals[k])
      ensures Verified(config, b, withdrawals[k])
    {
      assert (withdrawals + [w])[k] == withdrawals[k];
    }
  }

  lemma SoleCarrierBefore(withdrawals: seq<Withdrawal>, w: Withdrawal, j: nat)
    requires j < |withdrawals| && SoleCarrier(withdrawals + [w], j)
    ensures SoleCarrier(withdrawals, j)
  {
    forall k | 0 <= k < |withdrawals| && k != j
      ensures withdrawals[k].publicKeyHex != withdrawals[j].publicKeyHex
    {
      assert (withdrawals + [w])[k] == withdrawals[k] && (withdrawals + [w])[j] == withdrawals[j];
    }
  }

  lemma BurnOfNewKeyIsFree(
    config: Config, burns: seq<BurnTxOut>, withdrawals: seq<Withdrawal>, w: Withdrawal, rows: seq<AuditedBurn>, k: nat)
    requires RowsPair(config, burns, withdrawals, rows)
    requires k < |burns| && Twins(burns[k], w) && SoleCarrier(withdrawals + [w], |withdrawals|)
    ensures !BurnIsAudited(rows, k)
  {
    forall r | 0 <= r < |rows|
      ensures rows[r].burnTxOutId != k
    {
      assert (withdrawals + [w])[rows[r].withdrawalId] == withdrawals[rows[r].withdrawalId];
      assert (withdrawals + [w])[|withdrawals|] == w;
    }
  }

  lemma AfterWithdrawalIs(
    config: Config, burns: seq<BurnTxOut>, withdrawals: seq<Withdrawal>, w: Withdrawal, a: BurnAudit, i: nat)
    requires BurnAuditOk(config, burns, withdrawals, a)
    requires i < |burns| ==> Twins(burns[i], w) && !BurnIsAudited(a.auditedBurns, i)
    ensures var c := AfterWithdrawal(config, a, burns, w, |withdrawals|, i);
            && RowsPair(config, burns, withdrawals + [w], c.auditedBurns)
            && OneToOne(c.auditedBurns)
            && CountersOk(c, |burns| + (|withdrawals| + 1))
  {
    var c := AfterWithdrawal(config, a, burns, w, |withdrawals|, i);
    forall k | 0 <= k < |c.auditedBurns|
      ensures c.auditedBurns[k].burnTxOutId < |burns| && c.auditedBurns[k].withdrawalId <= |withdrawals|
      ensures Pairs(config, burns[c.auditedBurns[k].burnTxOutId], (withdrawals + [w])[c.auditedBurns[k].withdrawalId])
    {
      if k < |a.auditedBurns| {
        assert c.auditedBurns[k] == a.auditedBurns[k];
        assert (withdrawals + [w])[a.auditedBurns[k].withdrawalId] == withdrawals[a.auditedBurns[k].withdrawalId];
      }
    }
  }

  /** The Gnosis side: auditing one more withdrawal keeps the audit right. */
  lemma AuditingWithdrawalKeeps(
    config: Config, burns: seq<BurnTxOut>, withdrawals: seq<Withdrawal>, w: Withdrawal, safe: AuditedSafe, a: BurnAudit)
    requires UniqueKeys(burns) && WithdrawalOk(config, w) && FindSafe(config.safes, w.safeAddr) == Some(safe)
    requires BurnAuditOk(config, burns, withdrawals, a)
    ensures BurnAuditOk(config, burns, withdrawals + [w],
                        TryMatchWithdrawal(burns, withdrawals + [w], a, Some(|withdrawals|), w, safe))
  {
    var i := NewWithdrawalOutcome(config, burns, withdrawals, w, safe, a);
    AfterWithdrawalSolePairs(config, burns, withdrawals, w, a, i);
    AfterWithdrawalAgreed(config, burns, withdrawals, w, a, i);
    AfterWithdrawalIs(config, burns, withdrawals, w, a, i);
  }
}
