/** What syncing one block does to the tables written by the ledger scanner. */
module LedgerSync {
  import opened Wrappers
  import opened Numbers
  import opened Tables
  import opened BalanceWalk
  import opened MintConfigLookup
  import Hex

  /* Mint configs */

  predicate ConfigTxConflict(txs: seq<MintConfigTx>, row: MintConfigTx) {
    exists i :: 0 <= i < |txs| &&
      (txs[i].nonceHex == row.nonceHex || (txs[i].blockIndex == row.blockIndex && txs[i].tokenId == row.tokenId))
  }

  function ConfigRows(txId: nat, configs: seq<CoreMintConfig>): seq<MintConfig> {
    seq(|configs|, i requires 0 <= i < |configs| => MintConfig(txId, configs[i].mintLimit, configs[i].signerSet))
  }

  function InsertMintConfigTx(l: Ledger, blockIndex: nat, tx: CoreMintConfigTx): Result<Ledger, Error> {
    var row := MintConfigTx(blockIndex, tx.tokenId, Hex.Encode(tx.nonce), tx.totalMintLimit);
    if ConfigTxConflict(l.mintConfigTxs, row) then Err(AlreadyExists)
    else Ok(l.(mintConfigTxs := l.mintConfigTxs + [row],
               mintConfigs := l.mintConfigs + ConfigRows(|l.mintConfigTxs|, tx.configs)))
  }

  function InsertMintConfigTxs(l: Ledger, blockIndex: nat, txs: seq<CoreMintConfigTx>): Result<Ledger, Error>
    decreases |txs|
  {
    if txs == [] then Ok(l)
    else
      var next :- InsertMintConfigTx(l, blockIndex, txs[0]);
      InsertMintConfigTxs(next, blockIndex, txs[1..])
  }

  /* Mints and burns */

  /** The ledger tables together with the balance map being built. */
  datatype Progress = Progress(ledger: Ledger, balances: map<U64, U64>)

  predicate NonceTaken(mints: seq<MintTx>, nonceHex: string) {
    exists i :: 0 <= i < |mints| && mints[i].nonceHex == nonceHex
  }

  function ProcessMint(o: Oracles, p: Progress, blockIndex: nat, tx: CoreMintTx): Result<Progress, Error> {
    var l := p.ledger;
    var configId := LookupMintConfig(o, l, blockIndex, tx);
    var row := MintTx(blockIndex, tx, Hex.Encode(tx.nonce), configId);
    if NonceTaken(l.mintTxs, row.nonceHex) then Err(AlreadyExists)
    else Ok(Progress(
              l.(mintTxs := l.mintTxs + [row],
                 numMintTxsWithoutMatchingMintConfig :=
                   l.numMintTxsWithoutMatchingMintConfig + if configId.None? then 1 else 0),
              ApplyFlow(p.balances, Minted(tx.tokenId, tx.amount))))
  }

  function ProcessMints(o: Oracles, p: Progress, blockIndex: nat, txs: seq<CoreMintTx>): Result<Progress, Error>
    decreases |txs|
  {
    if txs == [] then Ok(p)
    else
      var next :- ProcessMint(o, p, blockIndex, txs[0]);
      ProcessMints(o, next, blockIndex, txs[1..])
  }

  /** The outputs that the burn account can open, as rows. */
  function BurnsIn(o: Oracles, blockIndex: nat, outputs: seq<CoreTxOut>): seq<BurnTxOut> {
    if outputs == [] then []
    else
      (match o.viewKeyMatch(outputs[0])
       case Some(a) => [BurnTxOut(blockIndex, a.tokenId, a.amount, Hex.Encode(outputs[0].publicKey))]
       case None => []) + BurnsIn(o, blockIndex, outputs[1..])
  }

  predicate KeyTaken(burns: seq<BurnTxOut>, publicKeyHex: string) {
    exists i :: 0 <= i < |burns| && burns[i].publicKeyHex == publicKeyHex
  }

  function ProcessBurn(p: Progress, burn: BurnTxOut): Result<Progress, Error> {
    var l := p.ledger;
    var flow := Burned(burn.tokenId, burn.amount);
    if KeyTaken(l.burnTxOuts, burn.publicKeyHex) then Err(AlreadyExists)
    else Ok(Progress(
              l.(burnTxOuts := l.burnTxOuts + [burn],
                 numBurnsExceedingBalance :=
                   l.numBurnsExceedingBalance + if Exceeds(p.balances, flow) then 1 else 0),
              ApplyFlow(p.balances, flow)))
  }

  function ProcessBurns(p: Progress, burns: seq<BurnTxOut>): Result<Progress, Error>
    decreases |burns|
  {
    if burns == [] then Ok(p)
    else
      var next :- ProcessBurn(p, burns[0]);
      ProcessBurns(next, burns[1..])
  }

  /* Block bookkeeping */

  /** REPLACE INTO: an existing row with the same index gives way. */
  function ReplaceBlock(rows: seq<nat>, blockIndex: nat): seq<nat> {
    if rows == [] then [blockIndex]
    else if rows[0] == blockIndex then ReplaceBlock(rows[1..], blockIndex)
    else [rows[0]] + ReplaceBlock(rows[1..], blockIndex)
  }

  /** The largest synced block index. */
  function LastSyncedBlockIndex(rows: seq<nat>): (r: Option<nat>)
    ensures r.None? <==> rows == []
    ensures r.Some? ==> r.value in rows && forall i :: 0 <= i < |rows| ==> rows[i] <= r.value
  {
    if rows == [] then None
    else
      var last := rows[|rows| - 1];
      match LastSyncedBlockIndex(rows[..|rows| - 1])
      case None => Some(last)
      case Some(m) => Some(if m < last then last else m)
  }

  function BalancesForBlock(rows: map<(nat, U64), I64>, blockIndex: nat): map<U64, U64> {
    map t: U64 | t in (set k | k in rows && k.0 == blockIndex :: k.1) :: AsU64(rows[(blockIndex, t)])
  }

  function BalanceRows(blockIndex: nat, balances: map<U64, U64>): map<(nat, U64), I64> {
    map t: U64 | t in balances :: (blockIndex, t) := AsI64(balances[t])
  }

  predicate BalanceTaken(rows: map<(nat, U64), I64>, blockIndex: nat, balances: map<U64, U64>) {
    exists t :: t in balances && (blockIndex, t) in rows
  }

  function SetBalancesForBlock(l: Ledger, blockIndex: nat, balances: map<U64, U64>): Result<Ledger, Error> {
    if balances != map[] && blockIndex !in l.blockAuditData then Err(ForeignKeyViolation)
    else if BalanceTaken(l.blockBalances, blockIndex, balances) then Err(AlreadyExists)
    else Ok(l.(blockBalances := l.blockBalances + BalanceRows(blockIndex, balances)))
  }

  function FinishBlock(p: Progress, blockIndex: nat): Result<Progress, Error> {
    var l := p.ledger.(numBlocksSynced := p.ledger.numBlocksSynced + 1,
                       blockAuditData := ReplaceBlock(p.ledger.blockAuditData, blockIndex));
    var l' :- SetBalancesForBlock(l, blockIndex, p.balances);
    Ok(Progress(l', p.balances))
  }

  function PreviousBalances(l: Ledger, blockIndex: nat): map<U64, U64> {
    if blockIndex == 0 then map[] else BalancesForBlock(l.blockBalances, blockIndex - 1)
  }

  /** One block: an error leaves the caller with nothing to commit. */
  function SyncBlock(o: Oracles, l: Ledger, block: Block): Result<Progress, Error> {
    if block.index != l.numBlocksSynced then Err(UnexpectedBlockIndex)
    else
      var configured :- InsertMintConfigTxs(l, block.index, block.mintConfigTxs);
      var start := Progress(configured, PreviousBalances(configured, block.index));
      var minted :- ProcessMints(o, start, block.index, block.mintTxs);
      var burned :- ProcessBurns(minted, BurnsIn(o, block.index, block.outputs));
      FinishBlock(burned, block.index)
  }
}
