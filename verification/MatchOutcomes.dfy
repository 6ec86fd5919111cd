/** What one matching attempt comes to, under any configuration and for any tables. */
module MatchOutcomes {
  import opened Wrappers
  import opened EthDataTypes
  import opened SafeConfig
  import opened Tables
  import MM = MintMatching
  import BM = BurnMatching

  /* Mints and deposits */

  /** An unaudited deposit that expects the nonce. */
  ghost predicate OpenDeposit(deposits: seq<Deposit>, a: MintAudit, nonceHex: string, j: nat) {
    && j < |deposits| && deposits[j].expectedNonceHex == nonceHex
    && forall r :: r in a.auditedMints ==> r.depositId != j
  }

  /** An unaudited mint with the nonce. */
  ghost predicate OpenMint(mints: seq<MintTx>, a: MintAudit, nonceHex: string, i: nat) {
    && i < |mints| && mints[i].nonceHex == nonceHex
    && forall r :: r in a.auditedMints ==> r.mintTxId != i
  }

  /** Comparing the mint with the deposit, under the configuration of the deposit's safe. */
  ghost predicate Compared(a: MintAudit, b: MintAudit, m: MintTx, d: Deposit, safe: AuditedSafe, row: AuditedMint) {
    || ((forall k :: 0 <= k < |safe.tokens| ==> !Lists(safe.tokens[k], d.tokenAddr))
        && b == a.(numUnknownEthereumTokenDeposits := a.numUnknownEthereumTokenDeposits + 1))
    || (exists token :: FirstListing(safe.tokens, d.tokenAddr, token)
          && b == if token.tokenId == m.core.tokenId && m.core.amount == d.amount && m.nonceHex == d.expectedNonceHex
                  then a.(auditedMints := a.auditedMints + [row])
                  else a.(numMismatchingMintsAndDeposits := a.numMismatchingMintsAndDeposits + 1))
  }

  lemma IsAuditedMeans(rows: seq<AuditedMint>, i: nat)
    ensures MM.MintIsAudited(rows, i) <==> exists r :: r in rows && r.mintTxId == i
    ensures MM.DepositIsAudited(rows, i) <==> exists r :: r in rows && r.depositId == i
  {
    if k :| 0 <= k < |rows| && rows[k].mintTxId == i {
      assert rows[k] in rows;
    }
    if k :| 0 <= k < |rows| && rows[k].depositId == i {
      assert rows[k] in rows;
    }
  }

  lemma VerifyCompares(a: MintAudit, m: MintTx, d: Deposit, safe: AuditedSafe, row: AuditedMint, b: MintAudit)
    requires SameAddr(d.safeAddr, safe.safeAddr)
    requires match MM.VerifyMint(m, d, safe)
             case None => b == a.(auditedMints := a.auditedMints + [row])
             case Some(error) => b == MM.CountMintError(a, error) == MM.CountDepositError(a, error)
    ensures Compared(a, b, m, d, safe, row)
  {
    var found := FindToken(safe.tokens, d.tokenAddr);
    if found.Some? {
      FindTokenExactlyWhen(safe.tokens, d.tokenAddr, found.value);
    } else if safe.tokens != [] {
      FindTokenExactlyWhen(safe.tokens, d.tokenAddr, safe.tokens[0]);
    }
  }

  /**
    * A stored mint is tried: if it is audited already or no open deposit expects its nonce, the mint-side counter of
    * unexpected errors is raised. Otherwise one open deposit decides: the counter of unknown safes if its safe is not
    * configured, else the comparison under that safe.
    */
  lemma MintAttemptDecides(mints: seq<MintTx>, deposits: seq<Deposit>, a: MintAudit, i: nat, config: Config)
    requires i < |mints|
    ensures var b := MM.TryMatchMint(mints, deposits, a, Some(i), mints[i], config);
            if (exists r :: r in a.auditedMints && r.mintTxId == i)
               || forall j: nat :: !OpenDeposit(deposits, a, mints[i].nonceHex, j) then
              b == a.(numUnexpectedErrorsMatchingMintsToDeposits := a.numUnexpectedErrorsMatchingMintsToDeposits + 1)
            else exists j: nat :: OpenDeposit(deposits, a, mints[i].nonceHex, j)
                   && MintOutcome(config, a, b, mints[i], deposits[j], AuditedMint(i, j))
  {
    IsAuditedMeans(a.auditedMints, i);
    forall j: nat
      ensures MM.DepositIsAudited(a.auditedMints, j) <==> exists r :: r in a.auditedMints && r.depositId == j
    {
      IsAuditedMeans(a.auditedMints, j);
    }
    var found := MM.FindUnauditedDeposit(deposits, a.auditedMints, mints[i].nonceHex);
    if !MM.MintIsAudited(a.auditedMints, i) && found.Some? {
      var j := found.value;
      var b := MM.TryMatchMint(mints, deposits, a, Some(i), mints[i], config);
      assert OpenDeposit(deposits, a, mints[i].nonceHex, j);
      MintOutcomeIs(config, a, b, mints, deposits, i, j);
    }
  }

  ghost predicate MintOutcome(config: Config, a: MintAudit, b: MintAudit, m: MintTx, d: Deposit, row: AuditedMint) {
    || ((forall k :: 0 <= k < |config.safes| ==> !SameAddr(config.safes[k].safeAddr, d.safeAddr))
        && b == a.(numMintsToUnknownSafe := a.numMintsToUnknownSafe + 1))
    || exists safe :: FirstAt(config.safes, d.safeAddr, safe) && Compared(a, b, m, d, safe, row)
  }

  /** The steps of an attempt that found a deposit. */
  lemma {:induction false} MintSteps(
    mints: seq<MintTx>, deposits: seq<Deposit>, a: MintAudit, i: nat, m: MintTx, j: nat, d: Deposit, config: Config)
    requires i < |mints| && j < |deposits| && deposits[j] == d && !MM.MintIsAudited(a.auditedMints, i)
    requires MM.FindUnauditedDeposit(deposits, a.auditedMints, m.nonceHex) == Some(j)
    ensures MM.TryMatchMint(mints, deposits, a, Some(i), m, config) ==
            match FindSafe(config.safes, d.safeAddr)
            case None => a.(numMintsToUnknownSafe := a.numMintsToUnknownSafe + 1)
            case Some(safe) =>
              match MM.VerifyMint(m, d, safe)
              case None => a.(auditedMints := a.auditedMints + [AuditedMint(i, j)])
              case Some(error) => MM.CountMintError(a, error)
  {
    var matched := MM.MatchMint(mints, deposits, a.auditedMints, Some(i), m, config);
    match FindSafe(config.safes, d.safeAddr)
    case None =>
      assert matched == Err(GnosisSafeNotAudited);
    case Some(safe) =>
      match MM.VerifyMint(m, d, safe)
      case None =>
        assert matched == Ok(MM.Matched(a.auditedMints + [AuditedMint(i, j)], j));
      case Some(error) =>
        assert matched == Err(error);
  }

  /** On a deposit of the safe, the check fails in one of two ways, and both sides count it alike. */
  lemma CountedAlike(a: MintAudit, m: MintTx, d: Deposit, safe: AuditedSafe)
    requires SameAddr(d.safeAddr, safe.safeAddr) && MM.VerifyMint(m, d, safe).Some?
    ensures MM.CountMintError(a, MM.VerifyMint(m, d, safe).value)
            == MM.CountDepositError(a, MM.VerifyMint(m, d, safe).value)
  {
  }

  lemma MintOutcomeIs(
    config: Config, a: MintAudit, b: MintAudit, mints: seq<MintTx>, deposits: seq<Deposit>, i: nat, j: nat)
    requires i < |mints| && j < |deposits| && !MM.MintIsAudited(a.auditedMints, i)
    requires MM.FindUnauditedDeposit(deposits, a.auditedMints, mints[i].nonceHex) == Some(j)
    requires b == MM.TryMatchMint(mints, deposits, a, Some(i), mints[i], config)
    ensures MintOutcome(config, a, b, mints[i], deposits[j], AuditedMint(i, j))
  {
    MintSteps(mints, deposits, a, i, mints[i], j, deposits[j], config);
    MintOutcomeOf(config, a, b, mints[i], deposits[j], AuditedMint(i, j));
  }

  lemma MintOutcomeOf(config: Config, a: MintAudit, b: MintAudit, m: MintTx, d: Deposit, row: AuditedMint)
    requires b == match FindSafe(config.safes, d.safeAddr)
                  case None => a.(numMintsToUnknownSafe := a.numMintsToUnknownSafe + 1)
                  case Some(safe) =>
                    match MM.VerifyMint(m, d, safe)
                    case None => a.(auditedMints := a.auditedMints + [row])
                    case Some(error) => MM.CountMintError(a, error)
    ensures MintOutcome(config, a, b, m, d, row)
  {
    var found := FindSafe(config.safes, d.safeAddr);
    if found.Some? {
      FindSafeExactlyWhen(config.safes, d.safeAddr, found.value);
      if MM.VerifyMint(m, d, found.value).Some? {
        CountedAlike(a, m, d, found.value);
      }
      VerifyCompares(a, m, d, found.value, row, b);
    }
  }

  /**
    * A stored deposit is tried for a safe: if it is of another safe, is audited already or no open mint has its
    * nonce, the deposit-side counter of unexpected errors is raised. Otherwise one open mint is compared with it.
    */
  lemma DepositAttemptDecides(mints: seq<MintTx>, deposits: seq<Deposit>, a: MintAudit, j: nat, safe: AuditedSafe)
    requires j < |deposits|
    ensures var b := MM.TryMatchDeposit(mints, deposits, a, Some(j), deposits[j], safe);
            if !SameAddr(deposits[j].safeAddr, safe.safeAddr)
               || (exists r :: r in a.auditedMints && r.depositId == j)
               || forall i: nat :: !OpenMint(mints, a, deposits[j].expectedNonceHex, i) then
              b == a.(numUnexpectedErrorsMatchingDepositsToMints := a.numUnexpectedErrorsMatchingDepositsToMints + 1)
            else exists i: nat :: OpenMint(mints, a, deposits[j].expectedNonceHex, i)
                   && Compared(a, b, mints[i], deposits[j], safe, AuditedMint(i, j))
  {
    IsAuditedMeans(a.auditedMints, j);
    forall i: nat
      ensures MM.MintIsAudited(a.auditedMints, i) <==> exists r :: r in a.auditedMints && r.mintTxId == i
    {
      IsAuditedMeans(a.auditedMints, i);
    }
    var found := MM.FindUnauditedMint(mints, a.auditedMints, deposits[j].expectedNonceHex);
    if SameAddr(deposits[j].safeAddr, safe.safeAddr) && !MM.DepositIsAudited(a.auditedMints, j) && found.Some? {
      var i := found.value;
      assert OpenMint(mints, a, deposits[j].expectedNonceHex, i);
      VerifyCompares(a, mints[i], deposits[j], safe, AuditedMint(i, j),
                     MM.TryMatchDeposit(mints, deposits, a, Some(j), deposits[j], safe));
    }
  }

  /** An object that was never stored is only ever counted. */
  lemma UnsavedIsCounted(
    mints: seq<MintTx>, deposits: seq<Deposit>, a: MintAudit, m: MintTx, d: Deposit, safe: AuditedSafe, config: Config)
    ensures MM.TryMatchMint(mints, deposits, a, None, m, config) ==
            a.(numUnexpectedErrorsMatchingMintsToDeposits := a.numUnexpectedErrorsMatchingMintsToDeposits + 1)
    ensures MM.TryMatchDeposit(mints, deposits, a, None, d, safe) ==
            a.(numUnexpectedErrorsMatchingDepositsToMints := a.numUnexpectedErrorsMatchingDepositsToMints + 1)
  {
  }

  /* Burns and withdrawals */

  ghost predicate OpenWithdrawal(withdrawals: seq<Withdrawal>, a: BurnAudit, keyHex: string, j: nat) {
    && j < |withdrawals| && withdrawals[j].publicKeyHex == keyHex
    && forall r :: r in a.auditedBurns ==> r.withdrawalId != j
  }

  ghost predicate OpenBurn(burns: seq<BurnTxOut>, a: BurnAudit, keyHex: string, i: nat) {
    && i < |burns| && burns[i].publicKeyHex == keyHex
    && forall r :: r in a.auditedBurns ==> r.burnTxOutId != i
  }

  ghost predicate BurnCompared(
    a: BurnAudit, b: BurnAudit, burn: BurnTxOut, w: Withdrawal, safe: AuditedSafe, row: AuditedBurn)
  {
    || ((forall k :: 0 <= k < |safe.tokens| ==> !Lists(safe.tokens[k], w.tokenAddr))
        && b == a.(numUnknownEthereumTokenWithdrawals := a.numUnknownEthereumTokenWithdrawals + 1))
    || (exists token :: FirstListing(safe.tokens, w.tokenAddr, token)
          && b == if token.tokenId == burn.tokenId && burn.amount == w.amount && burn.publicKeyHex == w.publicKeyHex
                  then a.(auditedBurns := a.auditedBurns + [row])
                  else a.(numMismatchingBurnsAndWithdrawals := a.numMismatchingBurnsAndWithdrawals + 1))
  }

  ghost predicate BurnOutcome(
    config: Config, a: BurnAudit, b: BurnAudit, burn: BurnTxOut, w: Withdrawal, row: AuditedBurn)
  {
    || ((forall k :: 0 <= k < |config.safes| ==> !SameAddr(config.safes[k].safeAddr, w.safeAddr))
        && b == a.(numBurnsFromUnknownSafe := a.numBurnsFromUnknownSafe + 1))
    || exists safe :: FirstAt(config.safes, w.safeAddr, safe) && BurnCompared(a, b, burn, w, safe, row)
  }

  lemma IsAuditedBurnMeans(rows: seq<AuditedBurn>, i: nat)
    ensures BM.BurnIsAudited(rows, i) <==> exists r :: r in rows && r.burnTxOutId == i
    ensures BM.WithdrawalIsAudited(rows, i) <==> exists r :: r in rows && r.withdrawalId == i
  {
    if k :| 0 <= k < |rows| && rows[k].burnTxOutId == i {
      assert rows[k] in rows;
    }
    if k :| 0 <= k < |rows| && rows[k].withdrawalId == i {
      assert rows[k] in rows;
    }
  }

  lemma VerifyComparesBurn(
    a: BurnAudit, burn: BurnTxOut, w: Withdrawal, safe: AuditedSafe, row: AuditedBurn, b: BurnAudit)
    requires SameAddr(w.safeAddr, safe.safeAddr)
    requires match BM.VerifyBurn(burn, w, safe)
             case None => b == a.(auditedBurns := a.auditedBurns + [row])
             case Some(error) => b == BM.CountBurnError(a, error) == BM.CountWithdrawalError(a, error)
    ensures BurnCompared(a, b, burn, w, safe, row)
  {
    var found := FindToken(safe.tokens, w.tokenAddr);
    if found.Some? {
      FindTokenExactlyWhen(safe.tokens, w.tokenAddr, found.value);
    } else if safe.tokens != [] {
      FindTokenExactlyWhen(safe.tokens, w.tokenAddr, safe.tokens[0]);
    }
  }

  /** The steps of an attempt that found a withdrawal. */
  lemma {:induction false} BurnSteps(
    o: Oracles, burns: seq<BurnTxOut>, withdrawals: seq<Withdrawal>, a: BurnAudit, i: nat, j: nat, config: Config)
    requires i < |burns| && j < |withdrawals| && !BM.BurnIsAudited(a.auditedBurns, i)
    requires BM.FindUnauditedWithdrawal(o, withdrawals, a.auditedBurns, burns[i].publicKeyHex) == Some(j)
    ensures BM.TryMatchBurn(o, burns, withdrawals, a, Some(i), burns[i], config) ==
            match FindSafe(config.safes, withdrawals[j].safeAddr)
            case None => a.(numBurnsFromUnknownSafe := a.numBurnsFromUnknownSafe + 1)
            case Some(safe) =>
              match BM.VerifyBurn(burns[i], withdrawals[j], safe)
              case None => a.(auditedBurns := a.auditedBurns + [AuditedBurn(i, j)])
              case Some(error) => BM.CountBurnError(a, error)
  {
  }

  lemma BurnCountedAlike(a: BurnAudit, burn: BurnTxOut, w: Withdrawal, safe: AuditedSafe)
    requires SameAddr(w.safeAddr, safe.safeAddr) && BM.VerifyBurn(burn, w, safe).Some?
    ensures BM.CountBurnError(a, BM.VerifyBurn(burn, w, safe).value)
            == BM.CountWithdrawalError(a, BM.VerifyBurn(burn, w, safe).value)
  {
  }

  lemma BurnOutcomeIs(
    o: Oracles, config: Config, a: BurnAudit, b: BurnAudit, burns: seq<BurnTxOut>, withdrawals: seq<Withdrawal>, i: nat,
    j: nat)
    requires i < |burns| && j < |withdrawals| && !BM.BurnIsAudited(a.auditedBurns, i)
    requires BM.FindUnauditedWithdrawal(o, withdrawals, a.auditedBurns, burns[i].publicKeyHex) == Some(j)
    requires b == BM.TryMatchBurn(o, burns, withdrawals, a, Some(i), burns[i], config)
    ensures BurnOutcome(config, a, b, burns[i], withdrawals[j], AuditedBurn(i, j))
  {
    BurnSteps(o, burns, withdrawals, a, i, j, config);
    BurnOutcomeOf(config, a, b, burns[i], withdrawals[j], AuditedBurn(i, j));
  }

  lemma BurnOutcomeOf(config: Config, a: BurnAudit, b: BurnAudit, burn: BurnTxOut, w: Withdrawal, row: AuditedBurn)
    requires b == match FindSafe(config.safes, w.safeAddr)
                  case None => a.(numBurnsFromUnknownSafe := a.numBurnsFromUnknownSafe + 1)
                  case Some(safe) =>
                    match BM.VerifyBurn(burn, w, safe)
                    case None => a.(auditedBurns := a.auditedBurns + [row])
                    case Some(error) => BM.CountBurnError(a, error)
    ensures BurnOutcome(config, a, b, burn, w, row)
  {
    var found := FindSafe(config.safes, w.safeAddr);
    if found.Some? {
      FindSafeExactlyWhen(config.safes, w.safeAddr, found.value);
      if BM.VerifyBurn(burn, w, found.value).Some? {
        BurnCountedAlike(a, burn, w, found.value);
      }
      VerifyComparesBurn(a, burn, w, found.value, row, b);
    }
  }

  /** A stored burn is tried: like a mint, but the query lists several open withdrawals in any order. */
  lemma BurnAttemptDecides(
    o: Oracles, burns: seq<BurnTxOut>, withdrawals: seq<Withdrawal>, a: BurnAudit, i: nat, config: Config)
    requires i < |burns|
    ensures var b := BM.TryMatchBurn(o, burns, withdrawals, a, Some(i), burns[i], config);
            if (exists r :: r in a.auditedBurns && r.burnTxOutId == i)
               || forall j: nat :: !OpenWithdrawal(withdrawals, a, burns[i].publicKeyHex, j) then
              b == a.(numUnexpectedErrorsMatchingBurnsToWithdrawals :=
                        a.numUnexpectedErrorsMatchingBurnsToWithdrawals + 1)
            else exists j: nat :: OpenWithdrawal(withdrawals, a, burns[i].publicKeyHex, j)
                   && BurnOutcome(config, a, b, burns[i], withdrawals[j], AuditedBurn(i, j))
  {
    IsAuditedBurnMeans(a.auditedBurns, i);
    forall j: nat
      ensures BM.WithdrawalIsAudited(a.auditedBurns, j) <==> exists r :: r in a.auditedBurns && r.withdrawalId == j
    {
      IsAuditedBurnMeans(a.auditedBurns, j);
    }
    var found := BM.FindUnauditedWithdrawal(o, withdrawals, a.auditedBurns, burns[i].publicKeyHex);
    if !BM.BurnIsAudited(a.auditedBurns, i) && found.Some? {
      var j := found.value;
      assert OpenWithdrawal(withdrawals, a, burns[i].publicKeyHex, j);
      BurnOutcomeIs(o, config, a, BM.TryMatchBurn(o, burns, withdrawals, a, Some(i), burns[i], config), burns,
                    withdrawals, i, j);
    }
  }

  /** A stored withdrawal is tried for a safe, like a deposit. */
  lemma WithdrawalAttemptDecides(
    burns: seq<BurnTxOut>, withdrawals: seq<Withdrawal>, a: BurnAudit, j: nat, safe: AuditedSafe)
    requires j < |withdrawals|
    ensures var b := BM.TryMatchWithdrawal(burns, withdrawals, a, Some(j), withdrawals[j], safe);
            if !SameAddr(withdrawals[j].safeAddr, safe.safeAddr)
               || (exists r :: r in a.auditedBurns && r.withdrawalId == j)
               || forall i: nat :: !OpenBurn(burns, a, withdrawals[j].publicKeyHex, i) then
              b == a.(numUnexpectedErrorsMatchingWithdrawalsToBurns :=
                        a.numUnexpectedErrorsMatchingWithdrawalsToBurns + 1)
            else exists i: nat :: OpenBurn(burns, a, withdrawals[j].publicKeyHex, i)
                   && BurnCompared(a, b, burns[i], withdrawals[j], safe, AuditedBurn(i, j))
  {
    IsAuditedBurnMeans(a.auditedBurns, j);
    forall i: nat
      ensures BM.BurnIsAudited(a.auditedBurns, i) <==> exists r :: r in a.auditedBurns && r.burnTxOutId == i
    {
      IsAuditedBurnMeans(a.auditedBurns, i);
    }
    var found := BM.FindUnauditedBurn(burns, a.auditedBurns, withdrawals[j].publicKeyHex);
    if SameAddr(withdrawals[j].safeAddr, safe.safeAddr) && !BM.WithdrawalIsAudited(a.auditedBurns, j) && found.Some? {
      var i := found.value;
      assert OpenBurn(burns, a, withdrawals[j].publicKeyHex, i);
      VerifyComparesBurn(a, burns[i], withdrawals[j], safe, AuditedBurn(i, j),
                         BM.TryMatchWithdrawal(burns, withdrawals, a, Some(j), withdrawals[j], safe));
    }
  }

  lemma UnsavedBurnIsCounted(
    o: Oracles, burns: seq<BurnTxOut>, withdrawals: seq<Withdrawal>, a: BurnAudit, burn: BurnTxOut, w: Withdrawal,
    safe: AuditedSafe, config: Config)
    ensures BM.TryMatchBurn(o, burns, withdrawals, a, None, burn, config) ==
            a.(numUnexpectedErrorsMatchingBurnsToWithdrawals := a.numUnexpectedErrorsMatchingBurnsToWithdrawals + 1)
    ensures BM.TryMatchWithdrawal(burns, withdrawals, a, None, w, safe) ==
            a.(numUnexpectedErrorsMatchingWithdrawalsToBurns := a.numUnexpectedErrorsMatchingWithdrawalsToBurns + 1)
  {
  }
}
