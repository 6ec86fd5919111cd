/** The audited supply is backed: what the safe received is worth at least what was minted against it. */
module ReserveBacking {
  import opened Wrappers
  import opened Numbers
  import opened SafeConfig
  import opened GnosisUtils
  import opened Tables
  import opened Runs
  import opened GnosisInvariant
  import opened GnosisAcceptance
  import opened GnosisContents
  import opened EthDataTypes
  import opened ApiDataTypes
  import opened AuditTheorems
  import MI = MintAuditInvariant

  /** The sum of the values at the given positions, each counted once. */
  ghost function SumAt(values: seq<nat>, positions: set<nat>): nat {
    if values == [] then 0
    else SumAt(values[..|values| - 1], positions) + if |values| - 1 in positions then values[|values| - 1] else 0
  }

  lemma {:induction false} SumAtOneMore(values: seq<nat>, positions: set<nat>, p: nat)
    requires p < |values| && p !in positions
    ensures SumAt(values, positions + {p}) == SumAt(values, positions) + values[p]
  {
    var last := |values| - 1;
    if p == last {
      SumAtOutside(values[..last], positions, p);
    } else {
      SumAtOneMore(values[..last], positions, p);
    }
  }

  lemma {:induction false} SumAtOutside(values: seq<nat>, positions: set<nat>, p: nat)
    requires p >= |values|
    ensures SumAt(values, positions + {p}) == SumAt(values, positions)
  {
    if values != [] {
      SumAtOutside(values[..|values| - 1], positions, p);
    }
  }

  lemma {:induction false} SumAtMonotone(values: seq<nat>, few: set<nat>, many: set<nat>)
    requires few <= many
    ensures SumAt(values, few) <= SumAt(values, many)
  {
    if values != [] {
      SumAtMonotone(values[..|values| - 1], few, many);
    }
  }

  lemma {:induction false} SumAtNothing(values: seq<nat>)
    ensures SumAt(values, {}) == 0
  {
    if values != [] {
      SumAtNothing(values[..|values| - 1]);
    }
  }

  ghost function MintAmounts(mints: seq<MintTx>): (v: seq<nat>)
    ensures |v| == |mints| && forall i :: 0 <= i < |mints| ==> v[i] == mints[i].core.amount
  {
    seq(|mints|, i requires 0 <= i < |mints| => mints[i].core.amount)
  }

  ghost function DepositValues(deposits: seq<Deposit>): (v: seq<nat>)
    ensures |v| == |deposits| && forall j :: 0 <= j < |deposits| ==> v[j] == deposits[j].ethTxValue
  {
    seq(|deposits|, j requires 0 <= j < |deposits| => deposits[j].ethTxValue)
  }

  /** The deposit is to the safe, in the token. */
  ghost predicate Of(config: Config, d: Deposit, safe: AuditedSafe, token: AuditedToken) {
    FindSafe(config.safes, d.safeAddr) == Some(safe) && FindToken(safe.tokens, d.tokenAddr) == Some(token)
  }

  ghost predicate RowOf(config: Config, st: State, r: AuditedMint, safe: AuditedSafe, token: AuditedToken) {
    r.depositId < |st.gnosis.deposits| && Of(config, st.gnosis.deposits[r.depositId], safe, token)
  }

  /** The audited mints, the audited deposits, and all deposits, of one token in one safe. */
  ghost function MintIds(
    config: Config, st: State, rows: seq<AuditedMint>, safe: AuditedSafe, token: AuditedToken): set<nat>
  {
    set r | r in rows && RowOf(config, st, r, safe, token) :: r.mintTxId
  }

  ghost function DepositIds(
    config: Config, st: State, rows: seq<AuditedMint>, safe: AuditedSafe, token: AuditedToken): set<nat>
  {
    set r | r in rows && RowOf(config, st, r, safe, token) :: r.depositId
  }

  ghost function AllDepositIds(config: Config, st: State, safe: AuditedSafe, token: AuditedToken): set<nat> {
    set j: nat | j < |st.gnosis.deposits| && Of(config, st.gnosis.deposits[j], safe, token)
  }

  /** Rows that are pairs of stored mints and deposits of equal amount, one-to-one. */
  ghost predicate RowsMatch(st: State, rows: seq<AuditedMint>) {
    && (forall k :: 0 <= k < |rows| ==>
          && rows[k].mintTxId < |st.ledger.mintTxs| && rows[k].depositId < |st.gnosis.deposits|
          && st.ledger.mintTxs[rows[k].mintTxId].core.amount == st.gnosis.deposits[rows[k].depositId].amount)
    && (forall k, l :: 0 <= k < l < |rows| ==>
          rows[k].mintTxId != rows[l].mintTxId && rows[k].depositId != rows[l].depositId)
  }

  lemma IdsAppend(
    config: Config, st: State, rows: seq<AuditedMint>, r: AuditedMint, safe: AuditedSafe, token: AuditedToken)
    ensures MintIds(config, st, rows + [r], safe, token) ==
            MintIds(config, st, rows, safe, token) + if RowOf(config, st, r, safe, token) then {r.mintTxId} else {}
    ensures DepositIds(config, st, rows + [r], safe, token) ==
            DepositIds(config, st, rows, safe, token) + if RowOf(config, st, r, safe, token) then {r.depositId} else {}
  {
    assert forall x :: x in rows + [r] <==> x in rows || x == r;
  }

  /** The amount is the value in units, rounded down. */
  ghost predicate Scales(d: Deposit, unit: nat) {
    d.amount * unit <= d.ethTxValue < d.amount * unit + unit
  }

  ghost predicate AllScale(config: Config, deposits: seq<Deposit>, safe: AuditedSafe, token: AuditedToken, unit: nat) {
    forall j :: 0 <= j < |deposits| && Of(config, deposits[j], safe, token) ==> Scales(deposits[j], unit)
  }

  lemma DepositsScale(config: Config, deposits: seq<Deposit>, safe: AuditedSafe, token: AuditedToken)
    requires AllScaled(config, deposits) && OrdersReduced(token.decimals, safe.tokenDecimalsMax) <= 38
    ensures AllScale(config, deposits, safe, token, Pow10(OrdersReduced(token.decimals, safe.tokenDecimalsMax)))
  {
    forall j | 0 <= j < |deposits| && Of(config, deposits[j], safe, token)
      ensures Scales(deposits[j], Pow10(OrdersReduced(token.decimals, safe.tokenDecimalsMax)))
    {
      assert ScaledOk(config, deposits[j]);
      TruncateBacked(deposits[j].ethTxValue, token.decimals, safe.tokenDecimalsMax);
    }
  }

  lemma NewIds(
    config: Config, st: State, rows: seq<AuditedMint>, r: AuditedMint, safe: AuditedSafe, token: AuditedToken)
    requires RowsMatch(st, rows + [r])
    ensures r.mintTxId !in MintIds(config, st, rows, safe, token)
    ensures r.depositId !in DepositIds(config, st, rows, safe, token)
    ensures RowsMatch(st, rows)
  {
    var all := rows + [r];
    forall x | x in rows
      ensures x.mintTxId != r.mintTxId && x.depositId != r.depositId
    {
      var k :| 0 <= k < |rows| && rows[k] == x;
      assert all[k] == x && all[|rows|] == r;
    }
    forall k | 0 <= k < |rows|
      ensures rows[k] == all[k]
    {
    }
  }

  /** Minted units never exceed what was received, and fall short by less than one unit per pair. */
  ghost predicate Covered(minted: nat, received: nat, pairs: nat, unit: nat) {
    minted * unit <= received && received - minted * unit <= pairs * (unit - 1)
  }

  ghost predicate RowsCovered(
    config: Config, st: State, rows: seq<AuditedMint>, safe: AuditedSafe, token: AuditedToken, unit: nat)
  {
    var mintIds, depositIds := MintIds(config, st, rows, safe, token), DepositIds(config, st, rows, safe, token);
    Covered(SumAt(MintAmounts(st.ledger.mintTxs), mintIds), SumAt(DepositValues(st.gnosis.deposits), depositIds),
            |mintIds|, unit)
  }

  lemma NothingCovered(config: Config, st: State, safe: AuditedSafe, token: AuditedToken, unit: nat)
    ensures RowsCovered(config, st, [], safe, token, unit)
  {
    SumAtNothing(MintAmounts(st.ledger.mintTxs));
    SumAtNothing(DepositValues(st.gnosis.deposits));
    assert MintIds(config, st, [], safe, token) == {} && DepositIds(config, st, [], safe, token) == {};
  }

  lemma OneMoreCovered(
    minted: nat, received: nat, pairs: nat, unit: nat, d: Deposit, minted': nat, received': nat, pairs': nat)
    requires Covered(minted, received, pairs, unit) && Scales(d, unit)
    requires minted' == minted + d.amount && received' == received + d.ethTxValue && pairs' == pairs + 1
    ensures Covered(minted', received', pairs', unit)
  {
    Distribute(minted, d.amount, unit);
    Distribute(pairs, 1, unit - 1);
  }

  lemma {:induction false} RowsBacked(
    config: Config, st: State, rows: seq<AuditedMint>, safe: AuditedSafe, token: AuditedToken, unit: nat)
    requires RowsMatch(st, rows) && AllScale(config, st.gnosis.deposits, safe, token, unit)
    ensures RowsCovered(config, st, rows, safe, token, unit)
  {
    if rows == [] {
      NothingCovered(config, st, safe, token, unit);
    } else {
      var front, r := rows[..|rows| - 1], rows[|rows| - 1];
      assert rows == front + [r];
      NewIds(config, st, front, r, safe, token);
      RowsBacked(config, st, front, safe, token, unit);
      RowAdds(config, st, front, r, safe, token, unit);
    }
  }

  lemma RowSums(
    config: Config, st: State, rows: seq<AuditedMint>, r: AuditedMint, safe: AuditedSafe, token: AuditedToken)
    requires RowsMatch(st, rows + [r]) && RowOf(config, st, r, safe, token) && r.mintTxId < |st.ledger.mintTxs|
    ensures var d := st.gnosis.deposits[r.depositId];
            && |MintIds(config, st, rows + [r], safe, token)| == |MintIds(config, st, rows, safe, token)| + 1
            && SumAt(MintAmounts(st.ledger.mintTxs), MintIds(config, st, rows + [r], safe, token))
               == SumAt(MintAmounts(st.ledger.mintTxs), MintIds(config, st, rows, safe, token))
                  + st.ledger.mintTxs[r.mintTxId].core.amount
            && SumAt(DepositValues(st.gnosis.deposits), DepositIds(config, st, rows + [r], safe, token))
               == SumAt(DepositValues(st.gnosis.deposits), DepositIds(config, st, rows, safe, token)) + d.ethTxValue
  {
    NewIds(config, st, rows, r, safe, token);
    IdsAppend(config, st, rows, r, safe, token);
    SumAtOneMore(MintAmounts(st.ledger.mintTxs), MintIds(config, st, rows, safe, token), r.mintTxId);
    SumAtOneMore(DepositValues(st.gnosis.deposits), DepositIds(config, st, rows, safe, token), r.depositId);
  }

  lemma RowAdds(
    config: Config, st: State, rows: seq<AuditedMint>, r: AuditedMint, safe: AuditedSafe, token: AuditedToken,
    unit: nat)
    requires RowsMatch(st, rows + [r]) && AllScale(config, st.gnosis.deposits, safe, token, unit)
    requires RowsCovered(config, st, rows, safe, token, unit)
    ensures RowsCovered(config, st, rows + [r], safe, token, unit)
  {
    assert (rows + [r])[|rows|] == r;
    var amounts, values := MintAmounts(st.ledger.mintTxs), DepositValues(st.gnosis.deposits);
    var mintIds, depositIds := MintIds(config, st, rows, safe, token), DepositIds(config, st, rows, safe, token);
    var mintIds' := MintIds(config, st, rows + [r], safe, token);
    var depositIds' := DepositIds(config, st, rows + [r], safe, token);
    if RowOf(config, st, r, safe, token) {
      RowSums(config, st, rows, r, safe, token);
      OneMoreCovered(
        SumAt(amounts, mintIds), SumAt(values, depositIds), |mintIds|, unit, st.gnosis.deposits[r.depositId],
        SumAt(amounts, mintIds'), SumAt(values, depositIds'), |mintIds'|);
    } else {
      IdsAppend(config, st, rows, r, safe, token);
      assert mintIds' == mintIds && depositIds' == depositIds;
    }
  }

  lemma Distribute(a: nat, b: nat, c: int)
    ensures (a + b) * c == a * c + b * c
  {
  }

  lemma AuditedRowsAgree(o: Oracles, config: Config, events: seq<Event>, k: nat)
    requires DistinctSafes(config) && k < |Run(o, config, events).mintAudit.auditedMints|
    ensures var st := Run(o, config, events);
            var r := st.mintAudit.auditedMints[k];
            && r.mintTxId < |st.ledger.mintTxs| && r.depositId < |st.gnosis.deposits|
            && st.ledger.mintTxs[r.mintTxId].core.amount == st.gnosis.deposits[r.depositId].amount
  {
    RunAuditsOk(o, config, events);
    var st := Run(o, config, events);
    MI.RowIsGood(config, st.ledger.mintTxs, st.gnosis.deposits, st.mintAudit.auditedMints, k);
  }

  lemma AuditedRowsMatch(o: Oracles, config: Config, events: seq<Event>)
    requires DistinctSafes(config)
    ensures RowsMatch(Run(o, config, events), Run(o, config, events).mintAudit.auditedMints)
  {
    var rows := Run(o, config, events).mintAudit.auditedMints;
    forall k | 0 <= k < |rows| {
      AuditedRowsAgree(o, config, events, k);
    }
    forall k, l | 0 <= k < l < |rows| {
      MintAuditIsOneToOne(o, config, events, k, l);
    }
  }

  lemma AuditedRowsScaled(o: Oracles, config: Config, events: seq<Event>)
    requires DistinctSafes(config)
    ensures AllScaled(config, Run(o, config, events).gnosis.deposits)
  {
    RunOk(o, config, events);
  }

  /** Audited deposits are among all deposits. */
  lemma AuditedAreReceived(config: Config, st: State, rows: seq<AuditedMint>, safe: AuditedSafe, token: AuditedToken)
    ensures SumAt(DepositValues(st.gnosis.deposits), DepositIds(config, st, rows, safe, token))
            <= SumAt(DepositValues(st.gnosis.deposits), AllDepositIds(config, st, safe, token))
  {
    SumAtMonotone(DepositValues(st.gnosis.deposits), DepositIds(config, st, rows, safe, token),
                  AllDepositIds(config, st, safe, token));
  }

  /**
    * In every reachable state, for every audited token of every safe: the audited mints, each counted once and
    * scaled up to Ethereum precision, are worth no more than the raw values of their deposits, those are part of
    * what the safe received, and the rounding loss is less than one unit per audited pair.
    */
  lemma AuditedSupplyIsBacked(o: Oracles, config: Config, events: seq<Event>, safe: AuditedSafe, token: AuditedToken)
    requires DistinctSafes(config)
    requires OrdersReduced(token.decimals, safe.tokenDecimalsMax) <= 38
    ensures var st := Run(o, config, events);
            var unit := Pow10(OrdersReduced(token.decimals, safe.tokenDecimalsMax));
            var mintIds := MintIds(config, st, st.mintAudit.auditedMints, safe, token);
            var depositIds := DepositIds(config, st, st.mintAudit.auditedMints, safe, token);
            var minted := SumAt(MintAmounts(st.ledger.mintTxs), mintIds);
            var matched := SumAt(DepositValues(st.gnosis.deposits), depositIds);
            var received := SumAt(DepositValues(st.gnosis.deposits), AllDepositIds(config, st, safe, token));
            Covered(minted, matched, |mintIds|, unit) && matched <= received
  {
    AuditedRowsScaled(o, config, events);
    AuditedRowsMatch(o, config, events);
    var st := Run(o, config, events);
    DepositsScale(config, st.gnosis.deposits, safe, token);
    RowsBacked(
      config, st, st.mintAudit.auditedMints, safe, token, Pow10(OrdersReduced(token.decimals, safe.tokenDecimalsMax)));
    AuditedAreReceived(config, st, st.mintAudit.auditedMints, safe, token);
  }

  /* The same over the transfers themselves */

  ghost function PaidValues(paid: seq<(AuditedSafe, EthereumTransfer)>): (v: seq<nat>)
    requires forall j :: 0 <= j < |paid| ==> paid[j].1.value.Some?
    ensures |v| == |paid| && forall j :: 0 <= j < |paid| ==> v[j] == paid[j].1.value.value
  {
    seq(|paid|, j requires 0 <= j < |paid| => paid[j].1.value.value)
  }

  /** The transfers to the safe of contracts that its configuration lists first under the token. */
  ghost function PaymentsOf(
    config: Config, paid: seq<(AuditedSafe, EthereumTransfer)>, safe: AuditedSafe, token: AuditedToken): set<nat>
  {
    set j: nat | j < |paid| && safe in config.safes && SameAddr(paid[j].1.to, safe.safeAddr)
                 && paid[j].1.tokenAddr.Some? && FirstListing(safe.tokens, paid[j].1.tokenAddr.value, token)
  }

  lemma OfExactlyWhen(config: Config, d: Deposit, safe: AuditedSafe, token: AuditedToken)
    requires DistinctSafes(config)
    ensures Of(config, d, safe, token) <==>
            safe in config.safes && SameAddr(d.safeAddr, safe.safeAddr) && FirstListing(safe.tokens, d.tokenAddr, token)
  {
    FindTokenExactlyWhen(safe.tokens, d.tokenAddr, token);
    if safe in config.safes && SameAddr(d.safeAddr, safe.safeAddr) {
      FindSafeOfThread(config, safe, d.safeAddr);
    }
  }

  lemma PaymentsAreDeposits(
    config: Config, st: State, paid: seq<(AuditedSafe, EthereumTransfer)>, safe: AuditedSafe, token: AuditedToken)
    requires DistinctSafes(config) && AllRecorded(paid, st.gnosis.deposits)
    ensures forall j :: 0 <= j < |paid| ==> paid[j].1.value.Some?
    ensures PaidValues(paid) == DepositValues(st.gnosis.deposits)
    ensures PaymentsOf(config, paid, safe, token) == AllDepositIds(config, st, safe, token)
  {
    forall j | 0 <= j < |paid|
      ensures paid[j].1.value == Some(st.gnosis.deposits[j].ethTxValue)
      ensures j in PaymentsOf(config, paid, safe, token) <==> Of(config, st.gnosis.deposits[j], safe, token)
    {
      assert RecordsDeposit(paid[j].0, paid[j].1, st.gnosis.deposits[j]);
      OfExactlyWhen(config, st.gnosis.deposits[j], safe, token);
    }
  }

  lemma MatchedAreDeposits(config: Config, st: State, safe: AuditedSafe, token: AuditedToken)
    ensures DepositIds(config, st, st.mintAudit.auditedMints, safe, token) <= AllDepositIds(config, st, safe, token)
  {
  }

  /**
    * In every reachable state the audited supply is backed by transfers: of the transfers to the safe, in committed
    * transactions and of the audited token, some are matched one-to-one with the audited mints, and the values that
    * they moved cover those mints, with less than one unit to spare per pair.
    */
  lemma AuditedSupplyIsPaid(o: Oracles, config: Config, events: seq<Event>, safe: AuditedSafe, token: AuditedToken)
    requires DistinctSafes(config)
    requires OrdersReduced(token.decimals, safe.tokenDecimalsMax) <= 38
    ensures var st := Run(o, config, events);
            var paid := Paid(Committed(config, SafeTxs(events)));
            var unit := Pow10(OrdersReduced(token.decimals, safe.tokenDecimalsMax));
            var mintIds := MintIds(config, st, st.mintAudit.auditedMints, safe, token);
            var matched := DepositIds(config, st, st.mintAudit.auditedMints, safe, token);
            && AllRecorded(paid, st.gnosis.deposits)
            && (forall j :: 0 <= j < |paid| ==> paid[j].1.value.Some?)
            && matched <= PaymentsOf(config, paid, safe, token)
            && Covered(SumAt(MintAmounts(st.ledger.mintTxs), mintIds), SumAt(PaidValues(paid), matched), |mintIds|,
                       unit)
            && SumAt(PaidValues(paid), matched) <= SumAt(PaidValues(paid), PaymentsOf(config, paid, safe, token))
  {
    DepositsArePaid(o, config, events);
    AuditedSupplyIsBacked(o, config, events, safe, token);
    PaymentsAreDeposits(config, Run(o, config, events), Paid(Committed(config, SafeTxs(events))), safe, token);
    MatchedAreDeposits(config, Run(o, config, events), safe, token);
  }
}
