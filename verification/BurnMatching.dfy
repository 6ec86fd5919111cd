/** Pairing burns with withdrawals. Unlike a deposit's nonce, a withdrawal's public key need not be unique. */
module BurnMatching {
  import opened Wrappers
  import opened EthDataTypes
  import opened SafeConfig
  import opened Tables

  /** The details of a burn against those of a withdrawal; None is success. */
  function VerifyBurn(b: BurnTxOut, w: Withdrawal, safe: AuditedSafe): Option<Error> {
    if !SameAddr(w.safeAddr, safe.safeAddr) then Some(Other)
    else
      match FindToken(safe.tokens, w.tokenAddr)
      case None => Some(EthereumTokenNotAudited)
      case Some(token) =>
        if token.tokenId != b.tokenId then Some(Mismatch)
        else if b.publicKeyHex != w.publicKeyHex then Some(Mismatch)
        else if b.amount != w.amount then Some(Mismatch)
        else None
  }

  predicate BurnIsAudited(rows: seq<AuditedBurn>, burnTxOutId: nat) {
    exists i :: 0 <= i < |rows| && rows[i].burnTxOutId == burnTxOutId
  }

  predicate WithdrawalIsAudited(rows: seq<AuditedBurn>, withdrawalId: nat) {
    exists i :: 0 <= i < |rows| && rows[i].withdrawalId == withdrawalId
  }

  function FindUnauditedBurn(burns: seq<BurnTxOut>, rows: seq<AuditedBurn>, keyHex: string): (r: Option<nat>)
    ensures r.Some? ==> r.value < |burns| && burns[r.value].publicKeyHex == keyHex && !BurnIsAudited(rows, r.value)
    ensures r.None? ==> forall i :: 0 <= i < |burns| && burns[i].publicKeyHex == keyHex ==> BurnIsAudited(rows, i)
  {
    if burns == [] then None
    else
      var last := |burns| - 1;
      match FindUnauditedBurn(burns[..last], rows, keyHex)
      case Some(i) => Some(i)
      case None => if burns[last].publicKeyHex == keyHex && !BurnIsAudited(rows, last) then Some(last) else None
  }

  /** The unaudited withdrawals that carry a key. */
  function Candidates(withdrawals: seq<Withdrawal>, rows: seq<AuditedBurn>, keyHex: string): (ids: seq<nat>)
    ensures forall k :: 0 <= k < |ids| ==>
              ids[k] < |withdrawals| && withdrawals[ids[k]].publicKeyHex == keyHex && !WithdrawalIsAudited(rows, ids[k])
    ensures forall j :: 0 <= j < |withdrawals|
                        && withdrawals[j].publicKeyHex == keyHex && !WithdrawalIsAudited(rows, j) ==>
                          j in ids
  {
    if withdrawals == [] then []
    else
      var last := |withdrawals| - 1;
      Candidates(withdrawals[..last], rows, keyHex) +
      if withdrawals[last].publicKeyHex == keyHex && !WithdrawalIsAudited(rows, last) then [last] else []
  }

  /** The query has no order: whichever candidate comes first is the only one tried. */
  function FindUnauditedWithdrawal(o: Oracles, withdrawals: seq<Withdrawal>, rows: seq<AuditedBurn>, keyHex: string)
    : (r: Option<nat>)
    ensures r.Some? ==> r.value < |withdrawals| && withdrawals[r.value].publicKeyHex == keyHex
                        && !WithdrawalIsAudited(rows, r.value)
    ensures r.None? ==> forall j :: 0 <= j < |withdrawals| && withdrawals[j].publicKeyHex == keyHex ==>
                                      WithdrawalIsAudited(rows, j)
  {
    var ids := Candidates(withdrawals, rows, keyHex);
    if ids == [] then None else Some(ids[o.firstOf(ids) % |ids|])
  }

  function Associate(
    burns: seq<BurnTxOut>, withdrawals: seq<Withdrawal>, rows: seq<AuditedBurn>, withdrawalId: nat, burnTxOutId: nat)
    : Result<seq<AuditedBurn>, Error>
  {
    if burnTxOutId >= |burns| || withdrawalId >= |withdrawals| then Err(ForeignKeyViolation)
    else Ok(rows + [AuditedBurn(burnTxOutId, withdrawalId)])
  }

  datatype Matched = Matched(rows: seq<AuditedBurn>, other: nat)

  function MatchWithdrawal(
    burns: seq<BurnTxOut>, withdrawals: seq<Withdrawal>, rows: seq<AuditedBurn>, id: Option<nat>, w: Withdrawal,
    safe: AuditedSafe): Result<Matched, Error>
  {
    if id.None? then Err(ObjectNotSaved)
    else if !SameAddr(w.safeAddr, safe.safeAddr) then Err(Other)
    else if WithdrawalIsAudited(rows, id.value) then Err(AlreadyExists)
    else
      match FindUnauditedBurn(burns, rows, w.publicKeyHex)
      case None => Err(NotFound)
      case Some(i) =>
        match VerifyBurn(burns[i], w, safe)
        case Some(error) => Err(error)
        case None =>
          var rows' :- Associate(burns, withdrawals, rows, id.value, i);
          Ok(Matched(rows', i))
  }

  function MatchBurn(
    o: Oracles, burns: seq<BurnTxOut>, withdrawals: seq<Withdrawal>, rows: seq<AuditedBurn>, id: Option<nat>,
    b: BurnTxOut, config: Config): Result<Matched, Error>
  {
    if id.None? then Err(ObjectNotSaved)
    else if BurnIsAudited(rows, id.value) then Err(AlreadyExists)
    else
      match FindUnauditedWithdrawal(o, withdrawals, rows, b.publicKeyHex)
      case None => Err(NotFound)
      case Some(j) =>
        match FindSafe(config.safes, withdrawals[j].safeAddr)
        case None => Err(GnosisSafeNotAudited)
        case Some(safe) =>
          match VerifyBurn(b, withdrawals[j], safe)
          case Some(error) => Err(error)
          case None =>
            var rows' :- Associate(burns, withdrawals, rows, j, id.value);
            Ok(Matched(rows', j))
  }

  function CountWithdrawalError(a: BurnAudit, error: Error): BurnAudit {
    match error
    case Mismatch => a.(numMismatchingBurnsAndWithdrawals := a.numMismatchingBurnsAndWithdrawals + 1)
    case EthereumTokenNotAudited => a.(numUnknownEthereumTokenWithdrawals := a.numUnknownEthereumTokenWithdrawals + 1)
    case _ => a.(numUnexpectedErrorsMatchingWithdrawalsToBurns := a.numUnexpectedErrorsMatchingWithdrawalsToBurns + 1)
  }

  function CountBurnError(a: BurnAudit, error: Error): BurnAudit {
    match error
    case GnosisSafeNotAudited => a.(numBurnsFromUnknownSafe := a.numBurnsFromUnknownSafe + 1)
    case Mismatch => a.(numMismatchingBurnsAndWithdrawals := a.numMismatchingBurnsAndWithdrawals + 1)
    case EthereumTokenNotAudited => a.(numUnknownEthereumTokenWithdrawals := a.numUnknownEthereumTokenWithdrawals + 1)
    case _ => a.(numUnexpectedErrorsMatchingBurnsToWithdrawals := a.numUnexpectedErrorsMatchingBurnsToWithdrawals + 1)
  }

  function TryMatchWithdrawal(
    burns: seq<BurnTxOut>, withdrawals: seq<Withdrawal>, a: BurnAudit, id: Option<nat>, w: Withdrawal,
    safe: AuditedSafe)
    : BurnAudit
  {
    match MatchWithdrawal(burns, withdrawals, a.auditedBurns, id, w, safe)
    case Ok(r) => a.(auditedBurns := r.rows)
    case Err(error) => CountWithdrawalError(a, error)
  }

  function TryMatchBurn(
    o: Oracles, burns: seq<BurnTxOut>, withdrawals: seq<Withdrawal>, a: BurnAudit, id: Option<nat>, b: BurnTxOut,
    config: Config): BurnAudit
  {
    match MatchBurn(o, burns, withdrawals, a.auditedBurns, id, b, config)
    case Ok(r) => a.(auditedBurns := r.rows)
    case Err(error) => CountBurnError(a, error)
  }

  /** The audit of a new block's burns: the rows from `first` on. */
  function AuditBurns(
    o: Oracles, burns: seq<BurnTxOut>, withdrawals: seq<Withdrawal>, a: BurnAudit, config: Config, first: nat)
    : BurnAudit
    decreases |burns| - first
  {
    if first >= |burns| then a
    else AuditBurns(o, burns, withdrawals,
                    TryMatchBurn(o, burns, withdrawals, a, Some(first), burns[first], config), config, first + 1)
  }

  /* All or nothing */

  function Recorded(a: BurnAudit): nat {
    |a.auditedBurns| + a.numMismatchingBurnsAndWithdrawals + a.numUnknownEthereumTokenWithdrawals
    + a.numBurnsFromUnknownSafe
    + a.numUnexpectedErrorsMatchingWithdrawalsToBurns + a.numUnexpectedErrorsMatchingBurnsToWithdrawals
  }

  /** The same rows, and exactly one counter raised by exactly one. */
  ghost predicate OneCounterRaised(a: BurnAudit, b: BurnAudit) {
    || b == a.(numMismatchingBurnsAndWithdrawals := a.numMismatchingBurnsAndWithdrawals + 1)
    || b == a.(numUnknownEthereumTokenWithdrawals := a.numUnknownEthereumTokenWithdrawals + 1)
    || b == a.(numBurnsFromUnknownSafe := a.numBurnsFromUnknownSafe + 1)
    || b == a.(numUnexpectedErrorsMatchingWithdrawalsToBurns := a.numUnexpectedErrorsMatchingWithdrawalsToBurns + 1)
    || b == a.(numUnexpectedErrorsMatchingBurnsToWithdrawals := a.numUnexpectedErrorsMatchingBurnsToWithdrawals + 1)
  }

  /** The same counters, and exactly one more row at the end. */
  ghost predicate OneRowAdded(a: BurnAudit, b: BurnAudit) {
    exists row :: b == a.(auditedBurns := a.auditedBurns + [row])
  }

  lemma TryMatchWithdrawalAllOrNothing(
    burns: seq<BurnTxOut>, withdrawals: seq<Withdrawal>, a: BurnAudit, id: Option<nat>, w: Withdrawal,
    safe: AuditedSafe)
    ensures var b := TryMatchWithdrawal(burns, withdrawals, a, id, w, safe);
            && (MatchWithdrawal(burns, withdrawals, a.auditedBurns, id, w, safe).Ok? ==> OneRowAdded(a, b))
            && (MatchWithdrawal(burns, withdrawals, a.auditedBurns, id, w, safe).Err? ==> OneCounterRaised(a, b))
            && Recorded(b) == Recorded(a) + 1
  {
  }

  lemma TryMatchBurnAllOrNothing(
    o: Oracles, burns: seq<BurnTxOut>, withdrawals: seq<Withdrawal>, a: BurnAudit, id: Option<nat>, burn: BurnTxOut,
    config: Config)
    ensures var b := TryMatchBurn(o, burns, withdrawals, a, id, burn, config);
            && (MatchBurn(o, burns, withdrawals, a.auditedBurns, id, burn, config).Ok? ==> OneRowAdded(a, b))
            && (MatchBurn(o, burns, withdrawals, a.auditedBurns, id, burn, config).Err? ==> OneCounterRaised(a, b))
            && Recorded(b) == Recorded(a) + 1
  {
  }

  lemma {:induction false} AuditBurnsRecords(
    o: Oracles, burns: seq<BurnTxOut>, withdrawals: seq<Withdrawal>, a: BurnAudit, config: Config, first: nat)
    requires first <= |burns|
    ensures Recorded(AuditBurns(o, burns, withdrawals, a, config, first)) == Recorded(a) + (|burns| - first)
    decreases |burns| - first
  {
    if first < |burns| {
      var next := TryMatchBurn(o, burns, withdrawals, a, Some(first), burns[first], config);
      TryMatchBurnAllOrNothing(o, burns, withdrawals, a, Some(first), burns[first], config);
      assert Recorded(next) == Recorded(a) + 1;
      AuditBurnsRecords(o, burns, withdrawals, next, config, first + 1);
    }
  }
}
