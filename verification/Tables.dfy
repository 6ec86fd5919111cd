/**
  * The tables of the auditor's database. Nothing is ever deleted and every table numbers its rows
  * consecutively, so the id of a row is its position in the table.
  */
module Tables {
  import opened Wrappers
  import opened Numbers
  import opened EthDataTypes

  /** Serialized data whose content is only read by code outside the model. */
  type Blob = seq<U8>

  /* What a block contains */

  datatype CoreMintConfig = CoreMintConfig(mintLimit: U64, signerSet: Blob)

  datatype CoreMintConfigTx = CoreMintConfigTx(
    tokenId: U64, nonce: seq<U8>, totalMintLimit: U64, configs: seq<CoreMintConfig>)

  datatype CoreMintTx = CoreMintTx(tokenId: U64, amount: U64, nonce: seq<U8>, signature: Blob)

  datatype CoreTxOut = CoreTxOut(publicKey: seq<U8>, masked: Blob)

  datatype Block = Block(
    index: nat, mintConfigTxs: seq<CoreMintConfigTx>, mintTxs: seq<CoreMintTx>, outputs: seq<CoreTxOut>)

  datatype TokenAmount = TokenAmount(tokenId: U64, amount: U64)

  /**
    * What the auditor asks of code the model does not contain: whether a signer set accepts a mint, what an
    * output addressed to the burn account holds, and which of several rows an unordered query returns first.
    */
  datatype Oracles = Oracles(
    verifies: (Blob, CoreMintTx) -> bool,
    viewKeyMatch: CoreTxOut -> Option<TokenAmount>,
    firstOf: seq<nat> -> nat)

  /* Rows written by the ledger scanner */

  datatype MintConfigTx = MintConfigTx(blockIndex: nat, tokenId: U64, nonceHex: string, totalMintLimit: U64)

  datatype MintConfig = MintConfig(mintConfigTxId: nat, mintLimit: U64, signerSet: Blob)

  datatype MintTx = MintTx(blockIndex: nat, core: CoreMintTx, nonceHex: string, mintConfigId: Option<nat>)

  datatype BurnTxOut = BurnTxOut(blockIndex: nat, tokenId: U64, amount: U64, publicKeyHex: string)

  /* Rows written by the Gnosis threads */

  datatype Deposit = Deposit(
    ethTxHash: EthTxHash, ethTxValue: U128, safeAddr: EthAddr, tokenAddr: EthAddr, amount: U64,
    expectedNonceHex: string)

  datatype Withdrawal = Withdrawal(
    ethTxHash: EthTxHash, ethTxValue: U128, safeAddr: EthAddr, tokenAddr: EthAddr, amount: U64,
    publicKeyHex: string)

  /* Rows written by the matchers */

  datatype AuditedMint = AuditedMint(mintTxId: nat, depositId: nat)

  datatype AuditedBurn = AuditedBurn(burnTxOutId: nat, withdrawalId: nat)

  /* The database, grouped by writer; each group holds its share of the single counters row. */

  datatype Ledger = Ledger(
    mintConfigTxs: seq<MintConfigTx>,
    mintConfigs: seq<MintConfig>,
    mintTxs: seq<MintTx>,
    burnTxOuts: seq<BurnTxOut>,
    blockAuditData: seq<nat>,
    blockBalances: map<(nat, U64), I64>,
    numBlocksSynced: nat,
    numBurnsExceedingBalance: nat,
    numMintTxsWithoutMatchingMintConfig: nat)

  datatype Gnosis = Gnosis(
    safeTxs: set<EthTxHash>,
    deposits: seq<Deposit>,
    withdrawals: seq<Withdrawal>,
    numInvalidEthereumTransactions: nat,
    numInvalidMultiSigTransactions: nat)

  datatype MintAudit = MintAudit(
    auditedMints: seq<AuditedMint>,
    numMismatchingMintsAndDeposits: nat,
    numUnknownEthereumTokenDeposits: nat,
    numMintsToUnknownSafe: nat,
    numUnexpectedErrorsMatchingDepositsToMints: nat,
    numUnexpectedErrorsMatchingMintsToDeposits: nat)

  datatype BurnAudit = BurnAudit(
    auditedBurns: seq<AuditedBurn>,
    numMismatchingBurnsAndWithdrawals: nat,
    numUnknownEthereumTokenWithdrawals: nat,
    numBurnsFromUnknownSafe: nat,
    numUnexpectedErrorsMatchingWithdrawalsToBurns: nat,
    numUnexpectedErrorsMatchingBurnsToWithdrawals: nat)

  datatype State = State(ledger: Ledger, gnosis: Gnosis, mintAudit: MintAudit, burnAudit: BurnAudit)

  const EMPTY_LEDGER := Ledger([], [], [], [], [], map[], 0, 0, 0)
  const EMPTY_GNOSIS := Gnosis({}, [], [], 0, 0)
  const EMPTY_MINT_AUDIT := MintAudit([], 0, 0, 0, 0, 0)
  const EMPTY_BURN_AUDIT := BurnAudit([], 0, 0, 0, 0, 0)
  const EMPTY_STATE := State(EMPTY_LEDGER, EMPTY_GNOSIS, EMPTY_MINT_AUDIT, EMPTY_BURN_AUDIT)

  /* Everything that can go wrong; only the distinctions the code makes are kept. */

  datatype Error =
    | NotFound
    | AlreadyExists
    | ObjectNotSaved
    | Mismatch
    | EthereumTokenNotAudited
    | GnosisSafeNotAudited
    | UnexpectedBlockIndex
    | ForeignKeyViolation
    | BadTransaction
    | Panic
    | Other
}
