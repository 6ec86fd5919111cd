/** The mint audit is complete: it pairs exactly the mints and deposits that belong together. */
module MintAuditInvariant {
  import opened Wrappers
  import opened EthDataTypes
  import opened SafeConfig
  import opened Tables
  import opened MintMatching
  import opened LedgerInvariant
  import MintTxNonce

  /** What the matchers rely on in a stored deposit: the expected nonce, a configured safe and an audited token. */
  ghost predicate DepositOk(config: Config, d: Deposit) {
    && d.expectedNonceHex == MintTxNonce.ExpectedNonceHex(d.ethTxHash)
    && FindSafe(config.safes, d.safeAddr).Some?
    && FindToken(FindSafe(config.safes, d.safeAddr).value.tokens, d.tokenAddr).Some?
  }

  ghost predicate DepositsOk(config: Config, deposits: seq<Deposit>) {
    && (forall j :: 0 <= j < |deposits| ==> DepositOk(config, deposits[j]))
    && (forall i, j :: 0 <= i < j < |deposits| ==> deposits[i].ethTxHash != deposits[j].ethTxHash)
  }

  ghost predicate Twins(m: MintTx, d: Deposit) {
    m.nonceHex == d.expectedNonceHex
  }

  ghost predicate Verified(config: Config, m: MintTx, d: Deposit) {
    match FindSafe(config.safes, d.safeAddr)
    case None => false
    case Some(safe) => VerifyMint(m, d, safe).None?
  }

  ghost predicate Pairs(config: Config, m: MintTx, d: Deposit) {
    Twins(m, d) && Verified(config, m, d)
  }

  /** Equal nonces, but something else differs. */
  ghost predicate Mismatched(config: Config, m: MintTx, d: Deposit) {
    Twins(m, d) && !Verified(config, m, d)
  }

  /** The pairs that belong together. */
  ghost function GoodPairs(config: Config, mints: seq<MintTx>, deposits: seq<Deposit>): set<(nat, nat)> {
    set i: nat, j: nat | i < |mints| && j < |deposits| && Pairs(config, mints[i], deposits[j]) :: (i, j)
  }

  ghost function BadPairs(config: Config, mints: seq<MintTx>, deposits: seq<Deposit>): set<(nat, nat)> {
    set i: nat, j: nat | i < |mints| && j < |deposits| && Mismatched(config, mints[i], deposits[j]) :: (i, j)
  }

  ghost function RowPairs(rows: seq<AuditedMint>): set<(nat, nat)> {
    set r | r in rows :: (r.mintTxId, r.depositId)
  }

  /** The rows are exactly the good pairs, each once; the mismatch counter counts the bad ones; nothing else failed. */
  ghost predicate AuditIs(a: MintAudit, good: set<(nat, nat)>, bad: set<(nat, nat)>, attempts: nat) {
    && RowPairs(a.auditedMints) == good
    && |a.auditedMints| == |good|
    && a.numMismatchingMintsAndDeposits == |bad|
    && a.numUnknownEthereumTokenDeposits == 0
    && a.numMintsToUnknownSafe == 0
    && Recorded(a) == attempts
  }

  /** The audit of the given mints against the given deposits is exactly right. */
  ghost predicate MintAuditOk(config: Config, mints: seq<MintTx>, deposits: seq<Deposit>, a: MintAudit) {
    AuditIs(a, GoodPairs(config, mints, deposits), BadPairs(config, mints, deposits), |mints| + |deposits|)
  }

  /** A mint has at most one twin among the deposits. */
  lemma OneTwinDeposit(config: Config, deposits: seq<Deposit>, m: MintTx, i: nat, j: nat)
    requires DepositsOk(config, deposits)
    requires i < |deposits| && j < |deposits| && Twins(m, deposits[i]) && Twins(m, deposits[j])
    ensures i == j
  {
    MintTxNonce.ExpectedNonceInjective(deposits[i].ethTxHash, deposits[j].ethTxHash);
  }

  lemma PairsWithNewMint(config: Config, mints: seq<MintTx>, m: MintTx, deposits: seq<Deposit>, j: nat)
    requires forall k :: 0 <= k < |deposits| && Twins(m, deposits[k]) ==> k == j
    ensures GoodPairs(config, mints + [m], deposits) ==
            GoodPairs(config, mints, deposits) +
            if j < |deposits| && Pairs(config, m, deposits[j]) then {(|mints|, j)} else {}
    ensures BadPairs(config, mints + [m], deposits) ==
            BadPairs(config, mints, deposits) +
            if j < |deposits| && Mismatched(config, m, deposits[j]) then {(|mints|, j)} else {}
  {
  }

  lemma PairsWithNewDeposit(config: Config, mints: seq<MintTx>, deposits: seq<Deposit>, d: Deposit, i: nat)
    requires forall k :: 0 <= k < |mints| && Twins(mints[k], d) ==> k == i
    ensures GoodPairs(config, mints, deposits + [d]) ==
            GoodPairs(config, mints, deposits) +
            if i < |mints| && Pairs(config, mints[i], d) then {(i, |deposits|)} else {}
    ensures BadPairs(config, mints, deposits + [d]) ==
            BadPairs(config, mints, deposits) +
            if i < |mints| && Mismatched(config, mints[i], d) then {(i, |deposits|)} else {}
  {
  }

  /** Every audited row is a pair that belongs together. */
  lemma RowIsGood(config: Config, mints: seq<MintTx>, deposits: seq<Deposit>, rows: seq<AuditedMint>, k: nat)
    requires RowPairs(rows) == GoodPairs(config, mints, deposits) && k < |rows|
    ensures rows[k].mintTxId < |mints| && rows[k].depositId < |deposits|
    ensures Pairs(config, mints[rows[k].mintTxId], deposits[rows[k].depositId])
  {
    assert rows[k] in rows;
    assert (rows[k].mintTxId, rows[k].depositId) in RowPairs(rows);
  }

  lemma RowPairsAppend(rows: seq<AuditedMint>, r: AuditedMint)
    ensures RowPairs(rows + [r]) == RowPairs(rows) + {(r.mintTxId, r.depositId)}
  {
    assert forall x :: x in rows + [r] <==> x in rows || x == r;
  }

  /** A new mint finds its deposit exactly when there is one, because no earlier mint can have taken it. */
  lemma NewMintFindsTwin(config: Config, mints: seq<MintTx>, m: MintTx, deposits: seq<Deposit>, rows: seq<AuditedMint>)
    requires RowPairs(rows) == GoodPairs(config, mints, deposits)
    requires UniqueNonces(mints + [m]) && DepositsOk(config, deposits)
    ensures !MintIsAudited(rows, |mints|)
    ensures var found := FindUnauditedDeposit(deposits, rows, m.nonceHex);
            && (found.None? ==> forall j :: 0 <= j < |deposits| ==> !Twins(m, deposits[j]))
            && (found.Some? ==> forall j :: 0 <= j < |deposits| && Twins(m, deposits[j]) ==> j == found.value)
  {
    forall k | 0 <= k < |rows|
      ensures rows[k].mintTxId != |mints|
    {
      RowIsGood(config, mints, deposits, rows, k);
    }
    var found := FindUnauditedDeposit(deposits, rows, m.nonceHex);
    forall j | 0 <= j < |deposits| && Twins(m, deposits[j])
      ensures found.Some? && j == found.value
    {
      NotTakenByEarlierMint(config, mints, m, deposits, rows, j);
      if found.Some? {
        OneTwinDeposit(config, deposits, m, j, found.value);
      }
    }
  }

  lemma NotTakenByEarlierMint(
    config: Config, mints: seq<MintTx>, m: MintTx, deposits: seq<Deposit>, rows: seq<AuditedMint>, j: nat)
    requires RowPairs(rows) == GoodPairs(config, mints, deposits) && UniqueNonces(mints + [m])
    requires j < |deposits| && Twins(m, deposits[j])
    ensures !DepositIsAudited(rows, j)
  {
    forall k | 0 <= k < |rows|
      ensures rows[k].depositId != j
    {
      RowIsGood(config, mints, deposits, rows, k);
      assert (mints + [m])[rows[k].mintTxId].nonceHex != (mints + [m])[|mints|].nonceHex;
    }
  }

  /** On stored deposits the only way to fail the check is a mismatch. */
  lemma VerifyNeverSurprises(config: Config, m: MintTx, d: Deposit, safe: AuditedSafe)
    requires DepositOk(config, d) && FindSafe(config.safes, d.safeAddr) == Some(safe)
    ensures VerifyMint(m, d, safe) == if Verified(config, m, d) then None else Some(Mismatch)
  {
    assert SameAddr(d.safeAddr, safe.safeAddr);
  }

  /** What the audit of a new mint comes to. */
  ghost function AfterMint(config: Config, a: MintAudit, m: MintTx, n: nat, deposits: seq<Deposit>, j: nat): MintAudit {
    if j >= |deposits| then
      a.(numUnexpectedErrorsMatchingMintsToDeposits := a.numUnexpectedErrorsMatchingMintsToDeposits + 1)
    else if Verified(config, m, deposits[j]) then a.(auditedMints := a.auditedMints + [AuditedMint(n, j)])
    else a.(numMismatchingMintsAndDeposits := a.numMismatchingMintsAndDeposits + 1)
  }

  lemma NewMintOutcome(config: Config, all: seq<MintTx>, n: nat, deposits: seq<Deposit>, a: MintAudit) returns (j: nat)
    requires n < |all| && UniqueNonces(all[..n] + [all[n]]) && DepositsOk(config, deposits)
    requires RowPairs(a.auditedMints) == GoodPairs(config, all[..n], deposits)
    ensures j <= |deposits| && (j < |deposits| ==> Twins(all[n], deposits[j]))
    ensures forall k :: 0 <= k < |deposits| && Twins(all[n], deposits[k]) ==> k == j
    ensures TryMatchMint(all, deposits, a, Some(n), all[n], config) == AfterMint(config, a, all[n], n, deposits, j)
  {
    NewMintFindsTwin(config, all[..n], all[n], deposits, a.auditedMints);
    var found := FindUnauditedDeposit(deposits, a.auditedMints, all[n].nonceHex);
    j := if found.Some? then found.value else |deposits|;
    if found.Some? {
      VerifyNeverSurprises(config, all[n], deposits[j], FindSafe(config.safes, deposits[j].safeAddr).value);
    }
  }

  lemma OnePairMore(a: MintAudit, good: set<(nat, nat)>, bad: set<(nat, nat)>, attempts: nat, i: nat, j: nat)
    requires AuditIs(a, good, bad, attempts) && (i, j) !in good
    ensures AuditIs(a.(auditedMints := a.auditedMints + [AuditedMint(i, j)]), good + {(i, j)}, bad, attempts + 1)
  {
    RowPairsAppend(a.auditedMints, AuditedMint(i, j));
  }

  lemma OneMismatchMore(a: MintAudit, good: set<(nat, nat)>, bad: set<(nat, nat)>, attempts: nat, p: (nat, nat))
    requires AuditIs(a, good, bad, attempts) && p !in bad
    ensures AuditIs(a.(numMismatchingMintsAndDeposits := a.numMismatchingMintsAndDeposits + 1),
                    good, bad + {p}, attempts + 1)
  {
  }

  lemma AfterMintIs(config: Config, mints: seq<MintTx>, m: MintTx, deposits: seq<Deposit>, a: MintAudit, j: nat)
    requires MintAuditOk(config, mints, deposits, a)
    requires j < |deposits| ==> Twins(m, deposits[j])
    requires forall k :: 0 <= k < |deposits| && Twins(m, deposits[k]) ==> k == j
    ensures MintAuditOk(config, mints + [m], deposits, AfterMint(config, a, m, |mints|, deposits, j))
  {
    var n := |mints|;
    var good, bad := GoodPairs(config, mints, deposits), BadPairs(config, mints, deposits);
    PairsWithNewMint(config, mints, m, deposits, j);
    assert (n, j) !in good && (n, j) !in bad;
    if j < |deposits| {
      if Verified(config, m, deposits[j]) {
        OnePairMore(a, good, bad, n + |deposits|, n, j);
      } else {
        OneMismatchMore(a, good, bad, n + |deposits|, (n, j));
      }
    }
  }

  lemma AuditingMintAfter(config: Config, all: seq<MintTx>, mints: seq<MintTx>, deposits: seq<Deposit>, a: MintAudit)
    requires |mints| < |all| && mints == all[..|mints|]
    requires UniqueNonces(mints + [all[|mints|]]) && DepositsOk(config, deposits)
    requires MintAuditOk(config, mints, deposits, a)
    ensures MintAuditOk(config, mints + [all[|mints|]], deposits,
                        TryMatchMint(all, deposits, a, Some(|mints|), all[|mints|], config))
  {
    var j := NewMintOutcome(config, all, |mints|, deposits, a);
    AfterMintIs(config, mints, all[|mints|], deposits, a, j);
  }

  lemma UniqueNoncesPrefix(all: seq<MintTx>, n: nat)
    requires n <= |all| && UniqueNonces(all)
    ensures UniqueNonces(all[..n])
  {
  }

  /** The ledger side: auditing one more mint keeps the audit exactly right. */
  lemma AuditingMintKeeps(config: Config, all: seq<MintTx>, n: nat, deposits: seq<Deposit>, a: MintAudit)
    requires n < |all| && UniqueNonces(all) && DepositsOk(config, deposits)
    requires MintAuditOk(config, all[..n], deposits, a)
    ensures MintAuditOk(config, all[..n + 1], deposits, TryMatchMint(all, deposits, a, Some(n), all[n], config))
  {
    assert all[..n + 1] == all[..n] + [all[n]];
    UniqueNoncesPrefix(all, n + 1);
    AuditingMintAfter(config, all, all[..n], deposits, a);
  }

  lemma {:induction false} AuditMintsKeeps(
    config: Config, all: seq<MintTx>, deposits: seq<Deposit>, a: MintAudit, first: nat)
    requires first <= |all| && UniqueNonces(all) && DepositsOk(config, deposits)
    requires MintAuditOk(config, all[..first], deposits, a)
    ensures MintAuditOk(config, all, deposits, AuditMints(all, deposits, a, config, first))
    decreases |all| - first
  {
    if first == |all| {
      assert all[..first] == all;
    } else {
      AuditingMintKeeps(config, all, first, deposits, a);
      AuditMintsKeeps(
        config, all, deposits, TryMatchMint(all, deposits, a, Some(first), all[first], config), first + 1);
    }
  }

  /** A new deposit finds its mint exactly when there is one, because no earlier deposit can have taken it. */
  lemma NewDepositFindsTwin(
    config: Config, mints: seq<MintTx>, deposits: seq<Deposit>, d: Deposit, rows: seq<AuditedMint>)
    requires RowPairs(rows) == GoodPairs(config, mints, deposits)
    requires UniqueNonces(mints) && DepositsOk(config, deposits + [d])
    ensures !DepositIsAudited(rows, |deposits|)
    ensures var found := FindUnauditedMint(mints, rows, d.expectedNonceHex);
            && (found.None? ==> forall i :: 0 <= i < |mints| ==> !Twins(mints[i], d))
            && (found.Some? ==> forall i :: 0 <= i < |mints| && Twins(mints[i], d) ==> i == found.value)
  {
    forall k | 0 <= k < |rows|
      ensures rows[k].depositId != |deposits|
    {
      RowIsGood(config, mints, deposits, rows, k);
    }
    forall i | 0 <= i < |mints| && Twins(mints[i], d)
      ensures !MintIsAudited(rows, i)
    {
      NotTakenByEarlierDeposit(config, mints, deposits, d, rows, i);
    }
  }

  lemma NotTakenByEarlierDeposit(
    config: Config, mints: seq<MintTx>, deposits: seq<Deposit>, d: Deposit, rows: seq<AuditedMint>, i: nat)
    requires RowPairs(rows) == GoodPairs(config, mints, deposits) && DepositsOk(config, deposits + [d])
    requires i < |mints| && Twins(mints[i], d)
    ensures !MintIsAudited(rows, i)
  {
    forall k | 0 <= k < |rows|
      ensures rows[k].mintTxId != i
    {
      RowIsGood(config, mints, deposits, rows, k);
      if rows[k].mintTxId == i {
        assert deposits[rows[k].depositId] == (deposits + [d])[rows[k].depositId];
        OneTwinDeposit(config, deposits + [d], mints[i], rows[k].depositId, |deposits|);
      }
    }
  }

  /** What the audit of a new deposit comes to. */
  ghost function AfterDeposit(config: Config, a: MintAudit, mints: seq<MintTx>, d: Deposit, n: nat, i: nat): MintAudit {
    if i >= |mints| then
      a.(numUnexpectedErrorsMatchingDepositsToMints := a.numUnexpectedErrorsMatchingDepositsToMints + 1)
    else if Verified(config, mints[i], d) then a.(auditedMints := a.auditedMints + [AuditedMint(i, n)])
    else a.(numMismatchingMintsAndDeposits := a.numMismatchingMintsAndDeposits + 1)
  }

  lemma NewDepositOutcome(
    config: Config, mints: seq<MintTx>, deposits: seq<Deposit>, d: Deposit, safe: AuditedSafe, a: MintAudit)
    returns (i: nat)
    requires UniqueNonces(mints) && DepositsOk(config, deposits + [d])
    requires FindSafe(config.safes, d.safeAddr) == Some(safe)
    requires RowPairs(a.auditedMints) == GoodPairs(config, mints, deposits)
    ensures i <= |mints| && (i < |mints| ==> Twins(mints[i], d))
    ensures forall k :: 0 <= k < |mints| && Twins(mints[k], d) ==> k == i
    ensures TryMatchDeposit(mints, deposits + [d], a, Some(|deposits|), d, safe)
            == AfterDeposit(config, a, mints, d, |deposits|, i)
  {
    assert (deposits + [d])[|deposits|] == d;
    NewDepositFindsTwin(config, mints, deposits, d, a.auditedMints);
    var found := FindUnauditedMint(mints, a.auditedMints, d.expectedNonceHex);
    i := if found.Some? then found.value else |mints|;
    if found.Some? {
      VerifyNeverSurprises(config, mints[i], d, safe);
    }
  }

  lemma AfterDepositIs(config: Config, mints: seq<MintTx>, deposits: seq<Deposit>, d: Deposit, a: MintAudit, i: nat)
    requires MintAuditOk(config, mints, deposits, a)
    requires i < |mints| ==> Twins(mints[i], d)
    requires forall k :: 0 <= k < |mints| && Twins(mints[k], d) ==> k == i
    ensures MintAuditOk(config, mints, deposits + [d], AfterDeposit(config, a, mints, d, |deposits|, i))
  {
    var n := |deposits|;
    var good, bad := GoodPairs(config, mints, deposits), BadPairs(config, mints, deposits);
    PairsWithNewDeposit(config, mints, deposits, d, i);
    assert (i, n) !in good && (i, n) !in bad;
    if i < |mints| {
      if Verified(config, mints[i], d) {
        OnePairMore(a, good, bad, |mints| + n, i, n);
      } else {
        OneMismatchMore(a, good, bad, |mints| + n, (i, n));
      }
    }
  }

  /** The Gnosis side: auditing one more deposit keeps the audit exactly right. */
  lemma AuditingDepositKeeps(
    config: Config, mints: seq<MintTx>, deposits: seq<Deposit>, d: Deposit, safe: AuditedSafe, a: MintAudit)
    requires UniqueNonces(mints) && DepositsOk(config, deposits + [d])
    requires FindSafe(config.safes, d.safeAddr) == Some(safe)
    requires MintAuditOk(config, mints, deposits, a)
    ensures MintAuditOk(config, mints, deposits + [d],
                        TryMatchDeposit(mints, deposits + [d], a, Some(|deposits|), d, safe))
  {
    var i := NewDepositOutcome(config, mints, deposits, d, safe, a);
    AfterDepositIs(config, mints, deposits, d, a, i);
  }
}
