/** Transactions as the Gnosis API delivers them, after JSON decoding. */
module ApiDataTypes {
  import opened Wrappers
  import opened Numbers
  import opened EthDataTypes

  datatype DataDecoded = DataDecoded(methodName: string, parameters: seq<Parameter>)

  datatype Parameter = Parameter(value: string, valueDecoded: Option<seq<ValueDecoded>>)

  datatype ValueDecoded = ValueDecoded(to: EthAddr, data: string, dataDecoded: Option<DataDecoded>)

  /** A plain Ether transfer has no token address. */
  datatype EthereumTransfer = EthereumTransfer(
    to: EthAddr, tokenAddr: Option<EthAddr>, txHash: EthTxHash, value: Option<U128>)

  datatype EthereumTransaction = EthereumTransaction(transfers: seq<EthereumTransfer>)

  datatype MultiSigTransaction = MultiSigTransaction(
    safe: EthAddr, txHash: EthTxHash, dataDecoded: Option<DataDecoded>, transfers: seq<EthereumTransfer>)

  datatype Transaction = Ethereum(eth: EthereumTransaction) | MultiSig(multiSig: MultiSigTransaction) | Module

  /** A raw transaction may lack a readable hash, or fail to decode. */
  datatype RawGnosisTransaction = RawGnosisTransaction(txHash: Option<EthTxHash>, decoded: Option<Transaction>)
}
