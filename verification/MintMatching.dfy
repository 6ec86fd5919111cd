/** Pairing mints with deposits: the two attempts, the checks they share, and what an attempt records. */
module MintMatching {
  import opened Wrappers
  import opened EthDataTypes
  import opened SafeConfig
  import opened Tables

  /** The details of a mint against those of a deposit; None is success. */
  function VerifyMint(m: MintTx, d: Deposit, safe: AuditedSafe): Option<Error> {
    if !SameAddr(d.safeAddr, safe.safeAddr) then Some(Other)
    else
      match FindToken(safe.tokens, d.tokenAddr)
      case None => Some(EthereumTokenNotAudited)
      case Some(token) =>
        if token.tokenId != m.core.tokenId then Some(Mismatch)
        else if m.nonceHex != d.expectedNonceHex then Some(Mismatch)
        else if m.core.amount != d.amount then Some(Mismatch)
        else None
  }

  predicate MintIsAudited(rows: seq<AuditedMint>, mintTxId: nat) {
    exists i :: 0 <= i < |rows| && rows[i].mintTxId == mintTxId
  }

  predicate DepositIsAudited(rows: seq<AuditedMint>, depositId: nat) {
    exists i :: 0 <= i < |rows| && rows[i].depositId == depositId
  }

  function FindUnauditedMint(mints: seq<MintTx>, rows: seq<AuditedMint>, nonceHex: string): (r: Option<nat>)
    ensures r.Some? ==> r.value < |mints| && mints[r.value].nonceHex == nonceHex && !MintIsAudited(rows, r.value)
    ensures r.None? ==> forall i :: 0 <= i < |mints| && mints[i].nonceHex == nonceHex ==> MintIsAudited(rows, i)
  {
    if mints == [] then None
    else
      var last := |mints| - 1;
      match FindUnauditedMint(mints[..last], rows, nonceHex)
      case Some(i) => Some(i)
      case None => if mints[last].nonceHex == nonceHex && !MintIsAudited(rows, last) then Some(last) else None
  }

  function FindUnauditedDeposit(deposits: seq<Deposit>, rows: seq<AuditedMint>, nonceHex: string): (r: Option<nat>)
    ensures r.Some? ==> r.value < |deposits| && deposits[r.value].expectedNonceHex == nonceHex
                        && !DepositIsAudited(rows, r.value)
    ensures r.None? ==> forall i :: 0 <= i < |deposits| && deposits[i].expectedNonceHex == nonceHex ==>
                                      DepositIsAudited(rows, i)
  {
    if deposits == [] then None
    else
      var last := |deposits| - 1;
      match FindUnauditedDeposit(deposits[..last], rows, nonceHex)
      case Some(i) => Some(i)
      case None =>
        if deposits[last].expectedNonceHex == nonceHex && !DepositIsAudited(rows, last) then Some(last) else None
  }

  function Associate(mints: seq<MintTx>, deposits: seq<Deposit>, rows: seq<AuditedMint>, depositId: nat, mintTxId: nat)
    : Result<seq<AuditedMint>, Error>
  {
    if mintTxId >= |mints| || depositId >= |deposits| then Err(ForeignKeyViolation)
    else Ok(rows + [AuditedMint(mintTxId, depositId)])
  }

  /** The new rows and the row found on the other side, or the error; an id of None is an object that was not saved. */
  datatype Matched = Matched(rows: seq<AuditedMint>, other: nat)

  function MatchDeposit(
    mints: seq<MintTx>, deposits: seq<Deposit>, rows: seq<AuditedMint>, id: Option<nat>, d: Deposit, safe: AuditedSafe)
    : Result<Matched, Error>
  {
    if id.None? then Err(ObjectNotSaved)
    else if !SameAddr(d.safeAddr, safe.safeAddr) then Err(Other)
    else if DepositIsAudited(rows, id.value) then Err(AlreadyExists)
    else
      match FindUnauditedMint(mints, rows, d.expectedNonceHex)
      case None => Err(NotFound)
      case Some(i) =>
        match VerifyMint(mints[i], d, safe)
        case Some(error) => Err(error)
        case None =>
          var rows' :- Associate(mints, deposits, rows, id.value, i);
          Ok(Matched(rows', i))
  }

  function MatchMint(
    mints: seq<MintTx>, deposits: seq<Deposit>, rows: seq<AuditedMint>, id: Option<nat>, m: MintTx, config: Config)
    : Result<Matched, Error>
  {
    if id.None? then Err(ObjectNotSaved)
    else if MintIsAudited(rows, id.value) then Err(AlreadyExists)
    else
      match FindUnauditedDeposit(deposits, rows, m.nonceHex)
      case None => Err(NotFound)
      case Some(j) =>
        match FindSafe(config.safes, deposits[j].safeAddr)
        case None => Err(GnosisSafeNotAudited)
        case Some(safe) =>
          match VerifyMint(m, deposits[j], safe)
          case Some(error) => Err(error)
          case None =>
            var rows' :- Associate(mints, deposits, rows, j, id.value);
            Ok(Matched(rows', j))
  }

  /** The counter that a failed deposit-side attempt raises. */
  function CountDepositError(a: MintAudit, error: Error): MintAudit {
    match error
    case Mismatch => a.(numMismatchingMintsAndDeposits := a.numMismatchingMintsAndDeposits + 1)
    case EthereumTokenNotAudited => a.(numUnknownEthereumTokenDeposits := a.numUnknownEthereumTokenDeposits + 1)
    case _ => a.(numUnexpectedErrorsMatchingDepositsToMints := a.numUnexpectedErrorsMatchingDepositsToMints + 1)
  }

  /** The counter that a failed mint-side attempt raises. */
  function CountMintError(a: MintAudit, error: Error): MintAudit {
    match error
    case GnosisSafeNotAudited => a.(numMintsToUnknownSafe := a.numMintsToUnknownSafe + 1)
    case Mismatch => a.(numMismatchingMintsAndDeposits := a.numMismatchingMintsAndDeposits + 1)
    case EthereumTokenNotAudited => a.(numUnknownEthereumTokenDeposits := a.numUnknownEthereumTokenDeposits + 1)
    case _ => a.(numUnexpectedErrorsMatchingMintsToDeposits := a.numUnexpectedErrorsMatchingMintsToDeposits + 1)
  }

  function TryMatchDeposit(
    mints: seq<MintTx>, deposits: seq<Deposit>, a: MintAudit, id: Option<nat>, d: Deposit, safe: AuditedSafe): MintAudit
  {
    match MatchDeposit(mints, deposits, a.auditedMints, id, d, safe)
    case Ok(r) => a.(auditedMints := r.rows)
    case Err(error) => CountDepositError(a, error)
  }

  function TryMatchMint(
    mints: seq<MintTx>, deposits: seq<Deposit>, a: MintAudit, id: Option<nat>, m: MintTx, config: Config): MintAudit
  {
    match MatchMint(mints, deposits, a.auditedMints, id, m, config)
    case Ok(r) => a.(auditedMints := r.rows)
    case Err(error) => CountMintError(a, error)
  }

  /** The audit of a new block's mints: the rows from `first` on. */
  function AuditMints(mints: seq<MintTx>, deposits: seq<Deposit>, a: MintAudit, config: Config, first: nat): MintAudit
    decreases |mints| - first
  {
    if first >= |mints| then a
    else AuditMints(mints, deposits, TryMatchMint(mints, deposits, a, Some(first), mints[first], config), config,
                    first + 1)
  }

  /* All or nothing */

  /** Everything an attempt can leave behind: one more row, or one counter one higher. */
  function Recorded(a: MintAudit): nat {
    |a.auditedMints| + a.numMismatchingMintsAndDeposits + a.numUnknownEthereumTokenDeposits + a.numMintsToUnknownSafe
    + a.numUnexpectedErrorsMatchingDepositsToMints + a.numUnexpectedErrorsMatchingMintsToDeposits
  }

  /** The same rows, and exactly one counter raised by exactly one. */
  ghost predicate OneCounterRaised(a: MintAudit, b: MintAudit) {
    || b == a.(numMismatchingMintsAndDeposits := a.numMismatchingMintsAndDeposits + 1)
    || b == a.(numUnknownEthereumTokenDeposits := a.numUnknownEthereumTokenDeposits + 1)
    || b == a.(numMintsToUnknownSafe := a.numMintsToUnknownSafe + 1)
    || b == a.(numUnexpectedErrorsMatchingDepositsToMints := a.numUnexpectedErrorsMatchingDepositsToMints + 1)
    || b == a.(numUnexpectedErrorsMatchingMintsToDeposits := a.numUnexpectedErrorsMatchingMintsToDeposits + 1)
  }

  /** The same counters, and exactly one more row at the end. */
  ghost predicate OneRowAdded(a: MintAudit, b: MintAudit) {
    exists row :: b == a.(auditedMints := a.auditedMints + [row])
  }

  /** An attempt adds one row when it succeeds and raises one counter when it fails, and does nothing else. */
  lemma TryMatchDepositAllOrNothing(
    mints: seq<MintTx>, deposits: seq<Deposit>, a: MintAudit, id: Option<nat>, d: Deposit, safe: AuditedSafe)
    ensures var b := TryMatchDeposit(mints, deposits, a, id, d, safe);
            && (MatchDeposit(mints, deposits, a.auditedMints, id, d, safe).Ok? ==> OneRowAdded(a, b))
            && (MatchDeposit(mints, deposits, a.auditedMints, id, d, safe).Err? ==> OneCounterRaised(a, b))
            && Recorded(b) == Recorded(a) + 1
  {
  }

  lemma TryMatchMintAllOrNothing(
    mints: seq<MintTx>, deposits: seq<Deposit>, a: MintAudit, id: Option<nat>, m: MintTx, config: Config)
    ensures var b := TryMatchMint(mints, deposits, a, id, m, config);
            && (MatchMint(mints, deposits, a.auditedMints, id, m, config).Ok? ==> OneRowAdded(a, b))
            && (MatchMint(mints, deposits, a.auditedMints, id, m, config).Err? ==> OneCounterRaised(a, b))
            && Recorded(b) == Recorded(a) + 1
  {
  }

  lemma {:induction false} AuditMintsRecords(
    mints: seq<MintTx>, deposits: seq<Deposit>, a: MintAudit, config: Config, first: nat)
    requires first <= |mints|
    ensures Recorded(AuditMints(mints, deposits, a, config, first)) == Recorded(a) + (|mints| - first)
    decreases |mints| - first
  {
    if first < |mints| {
      TryMatchMintAllOrNothing(mints, deposits, a, Some(first), mints[first], config);
      AuditMintsRecords(mints, deposits, TryMatchMint(mints, deposits, a, Some(first), mints[first], config),
                        config, first + 1);
    }
  }
}
