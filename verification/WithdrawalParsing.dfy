/** Reading a withdrawal, and the public key that links it to a burn, out of a multi-sig batch. */
module WithdrawalParsing {
  import opened Wrappers
  import opened Numbers
  import opened EthDataTypes
  import opened SafeConfig
  import opened Decimal
  import opened GnosisUtils
  import opened ApiDataTypes
  import opened Tables
  import Hex

  const KEY_LEN := 32

  /** A transaction that is no withdrawal is counted and skipped; a panic takes the whole step down. */
  datatype Parsed = Withdrawn(withdrawal: Withdrawal) | Invalid | Panics

  /** The last 32 bytes of the call data of the auxiliary contract, as hex; None when the data is malformed. */
  function LinkedKey(data: string, functionSig: FunctionSig): Option<string> {
    if !HasHexPrefix(data) then None
    else
      match Hex.Decode(data[2..])
      case None => None
      case Some(bytes) =>
        if !(functionSig <= bytes) then None
        else if |bytes| < FUNCTION_SIG_LEN + KEY_LEN then None
        else Some(Hex.Encode(bytes[|bytes| - KEY_LEN..]))
  }

  function ParseTransferAmount(text: string, token: AuditedToken, safe: AuditedSafe): Option<U64> {
    match ParseU128(text)
    case None => None
    case Some(raw) => TruncateValue(raw, token.decimals, safe.tokenDecimalsMax)
  }

  /** The tail of the parse, once the two batched calls and the token are known. */
  function ParseBatch(
    safe: AuditedSafe, tx: MultiSigTransaction, token: AuditedToken, transfer: ValueDecoded, aux: ValueDecoded): Parsed
  {
    if transfer.dataDecoded.None? then Invalid
    else if transfer.dataDecoded.value.methodName != "transfer" then Invalid
    else if |transfer.dataDecoded.value.parameters| != 2 then Invalid
    else if tx.transfers == [] || tx.transfers[0].value.None? then Panics
    else if !SameAddr(aux.to, token.auxBurnContractAddr) then Invalid
    else
      match LinkedKey(aux.data, token.auxBurnFunctionSig)
      case None => Invalid
      case Some(keyHex) =>
        match ParseTransferAmount(transfer.dataDecoded.value.parameters[1].value, token, safe)
        case None => Panics
        case Some(amount) =>
          Withdrawn(Withdrawal(tx.txHash, tx.transfers[0].value.value, tx.safe, transfer.to, amount, keyHex))
  }

  function ParseWithdrawal(safe: AuditedSafe, tx: MultiSigTransaction): Parsed {
    match tx.dataDecoded
    case None => Invalid
    case Some(data) =>
      if data.methodName != "multiSend" then Invalid
      else if |data.parameters| != 1 then Invalid
      else
        match data.parameters[0].valueDecoded
        case None => Invalid
        case Some(calls) =>
          if |calls| != 2 then Invalid
          else
            match FindToken(safe.tokens, calls[0].to)
            case None => Invalid
            case Some(token) => ParseBatch(safe, tx, token, calls[0], calls[1])
  }

  /** A parsed withdrawal is from the transaction's safe, in an audited token, and its key has 32 bytes. */
  lemma ParsedWithdrawalIsAudited(safe: AuditedSafe, tx: MultiSigTransaction)
    requires ParseWithdrawal(safe, tx).Withdrawn?
    ensures var w := ParseWithdrawal(safe, tx).withdrawal;
            && w.ethTxHash == tx.txHash
            && w.safeAddr == tx.safe
            && FindToken(safe.tokens, w.tokenAddr).Some?
            && |w.publicKeyHex| == 2 * KEY_LEN
  {
    var calls := tx.dataDecoded.value.parameters[0].valueDecoded.value;
    var token := FindToken(safe.tokens, calls[0].to).value;
    var bytes := Hex.Decode(calls[1].data[2..]).value;
    Hex.DecodeEncode(bytes[|bytes| - KEY_LEN..]);
  }

  /* The call data that records a key: the Solidity Contract ABI encoding of one `bytes` argument */

  /** A 256-bit word holding a small number. */
  function Word(n: U8): (w: seq<U8>)
    ensures |w| == 32
  {
    seq(31, _ => 0) + [n]
  }

  /** The zeros that fill the data up to a multiple of 32 bytes. */
  function Padding(length: nat): nat {
    (32 - length % 32) % 32
  }

  /** The head is the offset of the tail; the tail is the length, then the padded data. */
  function AbiEncodeBytes(data: seq<U8>): seq<U8>
    requires |data| < 256
  {
    Word(32) + Word(|data|) + data + seq(Padding(|data|), _ => 0)
  }

  function Call(functionSig: FunctionSig, data: seq<U8>): (bytes: seq<U8>)
    requires |data| < 256
    ensures |bytes| >= FUNCTION_SIG_LEN + KEY_LEN && functionSig <= bytes
  {
    functionSig + AbiEncodeBytes(data)
  }

  function CallData(functionSig: FunctionSig, data: seq<U8>): string
    requires |data| < 256
  {
    "0x" + Hex.Encode(Call(functionSig, data))
  }

  lemma LinkedKeyOf(data: string, functionSig: FunctionSig, bytes: seq<U8>)
    requires HasHexPrefix(data) && Hex.Decode(data[2..]) == Some(bytes)
    requires functionSig <= bytes && |bytes| >= FUNCTION_SIG_LEN + KEY_LEN
    ensures LinkedKey(data, functionSig) == Some(Hex.Encode(bytes[|bytes| - KEY_LEN..]))
  {
  }

  lemma PrefixedHex(bytes: seq<U8>)
    ensures HasHexPrefix("0x" + Hex.Encode(bytes)) && Hex.Decode(("0x" + Hex.Encode(bytes))[2..]) == Some(bytes)
  {
    Hex.DecodeEncode(bytes);
    assert ("0x" + Hex.Encode(bytes))[2..] == Hex.Encode(bytes);
  }

  /** Well-formed call data always parses, to its last 32 bytes. */
  lemma LinkedKeyIsTail(functionSig: FunctionSig, bytes: seq<U8>)
    requires functionSig <= bytes && |bytes| >= FUNCTION_SIG_LEN + KEY_LEN
    ensures LinkedKey("0x" + Hex.Encode(bytes), functionSig) == Some(Hex.Encode(bytes[|bytes| - KEY_LEN..]))
  {
    PrefixedHex(bytes);
    LinkedKeyOf("0x" + Hex.Encode(bytes), functionSig, bytes);
  }

  lemma TailIsData(functionSig: FunctionSig, data: seq<U8>)
    requires |data| == KEY_LEN
    ensures var bytes := Call(functionSig, data); bytes[|bytes| - KEY_LEN..] == data
  {
    assert Padding(KEY_LEN) == 0;
  }

  /**
    * Every 32-byte key recorded by the auxiliary contract is read back, under every function signature. Data of
    * any other length is accepted too, but what is read back is then never the data.
    */
  lemma KeyRoundTripExactlyWhen(functionSig: FunctionSig, data: seq<U8>)
    requires |data| < 256
    ensures LinkedKey(CallData(functionSig, data), functionSig) == Some(Hex.Encode(data)) <==> |data| == KEY_LEN
  {
    var bytes := Call(functionSig, data);
    LinkedKeyIsTail(functionSig, bytes);
    if |data| == KEY_LEN {
      TailIsData(functionSig, data);
    } else {
      LongerText(bytes[|bytes| - KEY_LEN..], data);
    }
  }

  lemma LongerText(a: seq<U8>, b: seq<U8>)
    requires |a| != |b|
    ensures Hex.Encode(a) != Hex.Encode(b)
  {
    Hex.DecodeEncode(a);
    Hex.DecodeEncode(b);
  }

  /** The batch that the documentation tells a custodian to send: the token transfer, then the recorded key. */
  function DocumentedBatch(
    safe: AuditedSafe, token: AuditedToken, tokenAddr: EthAddr, to: EthAddr, amountText: string, key: seq<U8>,
    txHash: EthTxHash, moved: EthereumTransfer): MultiSigTransaction
    requires |key| == KEY_LEN
  {
    MultiSigTransaction(
      safe.safeAddr, txHash,
      Some(DataDecoded("multiSend", [Parameter("", Some([
        ValueDecoded(tokenAddr, "", Some(DataDecoded(
          "transfer", [Parameter(to.text, None), Parameter(amountText, None)]))),
        ValueDecoded(token.auxBurnContractAddr, CallData(token.auxBurnFunctionSig, key), None)]))])),
      [moved])
  }

  /**
    * Such a batch is read as a withdrawal that carries exactly the recorded key and, as its amount, the number that
    * the text denotes in units of the token, rounded down.
    */
  lemma DocumentedBatchIsRead(
    safe: AuditedSafe, token: AuditedToken, tokenAddr: EthAddr, to: EthAddr, amountText: string, key: seq<U8>,
    txHash: EthTxHash, moved: EthereumTransfer, n: U128, amount: U64)
    requires |key| == KEY_LEN
    requires FirstListing(safe.tokens, tokenAddr, token) && moved.value.Some?
    requires Denotes(amountText, n) && IsWorth(n, token.decimals, safe.tokenDecimalsMax, amount)
    ensures ParseWithdrawal(safe, DocumentedBatch(safe, token, tokenAddr, to, amountText, key, txHash, moved))
            == Withdrawn(Withdrawal(txHash, moved.value.value, safe.safeAddr, tokenAddr, amount, Hex.Encode(key)))
  {
    var tx := DocumentedBatch(safe, token, tokenAddr, to, amountText, key, txHash, moved);
    FindTokenExactlyWhen(safe.tokens, tokenAddr, token);
    KeyRoundTripExactlyWhen(token.auxBurnFunctionSig, key);
    assert AmountOf(safe, token, amountText, amount);
    AmountExactlyWhen(amountText, token, safe, amount);
    var calls := tx.dataDecoded.value.parameters[0].valueDecoded.value;
    BatchIsRead(safe, tx, token, calls[0], calls[1], key, amount);
  }

  lemma BatchIsRead(
    safe: AuditedSafe, tx: MultiSigTransaction, token: AuditedToken, transfer: ValueDecoded, aux: ValueDecoded,
    key: seq<U8>, amount: U64)
    requires transfer.dataDecoded.Some? && transfer.dataDecoded.value.methodName == "transfer"
    requires |transfer.dataDecoded.value.parameters| == 2
    requires tx.transfers != [] && tx.transfers[0].value.Some?
    requires SameAddr(aux.to, token.auxBurnContractAddr)
    requires LinkedKey(aux.data, token.auxBurnFunctionSig) == Some(Hex.Encode(key))
    requires ParseTransferAmount(transfer.dataDecoded.value.parameters[1].value, token, safe) == Some(amount)
    ensures ParseBatch(safe, tx, token, transfer, aux)
            == Withdrawn(Withdrawal(tx.txHash, tx.transfers[0].value.value, tx.safe, transfer.to, amount,
                                    Hex.Encode(key)))
  {
  }

  /* What a withdrawal says of its transaction */

  /** The key is the last 32 bytes of call data that starts with the function signature, both in hex. */
  ghost predicate KeyIn(data: string, functionSig: FunctionSig, key: seq<U8>) {
    && |data| >= 2 && data[0] == '0' && data[1] == 'x'
    && exists bytes :: Hex.Decode(data[2..]) == Some(bytes) && functionSig <= bytes && |bytes| >= 36
                       && key == bytes[|bytes| - 32..]
  }

  lemma LinkedKeyExactlyWhen(data: string, functionSig: FunctionSig, keyHex: string)
    ensures LinkedKey(data, functionSig) == Some(keyHex) <==>
            exists key :: KeyIn(data, functionSig, key) && keyHex == Hex.Encode(key)
    ensures LinkedKey(data, functionSig).Some? <==> exists key :: KeyIn(data, functionSig, key)
  {
    assert HasHexPrefix(data) <==> |data| >= 2 && data[0] == '0' && data[1] == 'x' by {
      assert |data| >= 2 ==> data[..2] == [data[0], data[1]];
    }
    if LinkedKey(data, functionSig).Some? {
      var bytes := Hex.Decode(data[2..]).value;
      assert KeyIn(data, functionSig, bytes[|bytes| - KEY_LEN..]);
    }
  }

  /** The text denotes a number that is worth the amount. */
  ghost predicate AmountOf(safe: AuditedSafe, token: AuditedToken, text: string, amount: U64) {
    exists n: U128 :: Denotes(text, n) && IsWorth(n, token.decimals, safe.tokenDecimalsMax, amount)
  }

  lemma AmountExactlyWhen(text: string, token: AuditedToken, safe: AuditedSafe, amount: U64)
    ensures ParseTransferAmount(text, token, safe) == Some(amount) <==> AmountOf(safe, token, text, amount)
  {
    match ParseU128(text)
    case Some(raw) =>
      ParseExactlyWhen(text, raw);
      TruncateIsFloor(raw, token.decimals, safe.tokenDecimalsMax, amount);
      if n: U128 :| Denotes(text, n) && IsWorth(n, token.decimals, safe.tokenDecimalsMax, amount) {
        ParseExactlyWhen(text, n);
      }
    case None =>
      if n: U128 :| Denotes(text, n) {
        ParseExactlyWhen(text, n);
      }
  }

  /** Everything that is checked before the transfers are looked at. */
  ghost predicate ReachesTransfers(safe: AuditedSafe, tx: MultiSigTransaction) {
    && tx.dataDecoded.Some?
    && var data := tx.dataDecoded.value;
       data.methodName == "multiSend" && |data.parameters| == 1 && data.parameters[0].valueDecoded.Some?
       && var calls := data.parameters[0].valueDecoded.value;
          && |calls| == 2 && (exists k :: 0 <= k < |safe.tokens| && Lists(safe.tokens[k], calls[0].to))
          && calls[0].dataDecoded.Some? && calls[0].dataDecoded.value.methodName == "transfer"
          && |calls[0].dataDecoded.value.parameters| == 2
  }

  /** The batched calls: the token transfer, and the one that records the key. */
  ghost function TransferCall(safe: AuditedSafe, tx: MultiSigTransaction): ValueDecoded
    requires ReachesTransfers(safe, tx)
  {
    tx.dataDecoded.value.parameters[0].valueDecoded.value[0]
  }

  ghost function RecordCall(safe: AuditedSafe, tx: MultiSigTransaction): ValueDecoded
    requires ReachesTransfers(safe, tx)
  {
    tx.dataDecoded.value.parameters[0].valueDecoded.value[1]
  }

  /** The second call records the key, for the token that the first one moves. */
  ghost predicate RecordsKey(safe: AuditedSafe, tx: MultiSigTransaction, token: AuditedToken, key: seq<U8>)
    requires ReachesTransfers(safe, tx)
  {
    && FirstListing(safe.tokens, TransferCall(safe, tx).to, token)
    && SameAddr(RecordCall(safe, tx).to, token.auxBurnContractAddr)
    && KeyIn(RecordCall(safe, tx).data, token.auxBurnFunctionSig, key)
  }

  /** The withdrawal is what the transaction says, column by column. */
  ghost predicate RecordsWithdrawal(safe: AuditedSafe, tx: MultiSigTransaction, w: Withdrawal) {
    && ReachesTransfers(safe, tx)
    && tx.transfers != [] && tx.transfers[0].value == Some(w.ethTxValue)
    && w.ethTxHash == tx.txHash && w.safeAddr == tx.safe && w.tokenAddr == TransferCall(safe, tx).to
    && exists token, key :: RecordsKey(safe, tx, token, key) && w.publicKeyHex == Hex.Encode(key)
         && AmountOf(safe, token, TransferCall(safe, tx).dataDecoded.value.parameters[1].value, w.amount)
  }

  lemma TokenOfBatch(safe: AuditedSafe, tx: MultiSigTransaction) returns (token: AuditedToken)
    requires ReachesTransfers(safe, tx)
    ensures FindToken(safe.tokens, TransferCall(safe, tx).to) == Some(token)
    ensures forall other :: FirstListing(safe.tokens, TransferCall(safe, tx).to, other) <==> other == token
    ensures ParseWithdrawal(safe, tx) == ParseBatch(safe, tx, token, TransferCall(safe, tx), RecordCall(safe, tx))
  {
    var found := FindToken(safe.tokens, TransferCall(safe, tx).to);
    FindTokenExactlyWhen(safe.tokens, TransferCall(safe, tx).to, safe.tokens[0]);
    token := found.value;
    forall other
      ensures FirstListing(safe.tokens, TransferCall(safe, tx).to, other) <==> other == token
    {
      FindTokenExactlyWhen(safe.tokens, TransferCall(safe, tx).to, other);
    }
  }

  lemma UnreachedIsInvalid(safe: AuditedSafe, tx: MultiSigTransaction)
    requires !ReachesTransfers(safe, tx)
    ensures ParseWithdrawal(safe, tx) == Invalid
  {
    if tx.dataDecoded.Some? && |tx.dataDecoded.value.parameters| == 1
       && tx.dataDecoded.value.parameters[0].valueDecoded.Some? {
      var calls := tx.dataDecoded.value.parameters[0].valueDecoded.value;
      if |calls| == 2 && FindToken(safe.tokens, calls[0].to).Some? {
        FindTokenExactlyWhen(safe.tokens, calls[0].to, FindToken(safe.tokens, calls[0].to).value);
      }
    }
  }

  /** A batch that passed the first checks is read as a withdrawal exactly when the rest of it is in order. */
  lemma BatchReadExactlyWhen(
    safe: AuditedSafe, tx: MultiSigTransaction, token: AuditedToken, transfer: ValueDecoded, aux: ValueDecoded,
    w: Withdrawal)
    requires transfer.dataDecoded.Some? && transfer.dataDecoded.value.methodName == "transfer"
    requires |transfer.dataDecoded.value.parameters| == 2
    ensures ParseBatch(safe, tx, token, transfer, aux) == Withdrawn(w) <==>
            && tx.transfers != [] && tx.transfers[0].value == Some(w.ethTxValue)
            && w.ethTxHash == tx.txHash && w.safeAddr == tx.safe && w.tokenAddr == transfer.to
            && SameAddr(aux.to, token.auxBurnContractAddr)
            && LinkedKey(aux.data, token.auxBurnFunctionSig) == Some(w.publicKeyHex)
            && ParseTransferAmount(transfer.dataDecoded.value.parameters[1].value, token, safe) == Some(w.amount)
    ensures ParseBatch(safe, tx, token, transfer, aux) == Invalid <==>
            && tx.transfers != [] && tx.transfers[0].value.Some?
            && (!SameAddr(aux.to, token.auxBurnContractAddr) || LinkedKey(aux.data, token.auxBurnFunctionSig).None?)
  {
  }

  /** The key that the batch records for its token, in hex. */
  lemma RecordedKey(safe: AuditedSafe, tx: MultiSigTransaction, token: AuditedToken, keyHex: string)
    requires ReachesTransfers(safe, tx)
    requires forall other :: FirstListing(safe.tokens, TransferCall(safe, tx).to, other) <==> other == token
    ensures (exists key :: RecordsKey(safe, tx, token, key) && keyHex == Hex.Encode(key)) <==>
            && SameAddr(RecordCall(safe, tx).to, token.auxBurnContractAddr)
            && LinkedKey(RecordCall(safe, tx).data, token.auxBurnFunctionSig) == Some(keyHex)
    ensures (exists key :: RecordsKey(safe, tx, token, key)) <==>
            && SameAddr(RecordCall(safe, tx).to, token.auxBurnContractAddr)
            && LinkedKey(RecordCall(safe, tx).data, token.auxBurnFunctionSig).Some?
  {
    LinkedKeyExactlyWhen(RecordCall(safe, tx).data, token.auxBurnFunctionSig, keyHex);
    if SameAddr(RecordCall(safe, tx).to, token.auxBurnContractAddr) {
      forall key
        ensures RecordsKey(safe, tx, token, key) <==>
                KeyIn(RecordCall(safe, tx).data, token.auxBurnFunctionSig, key)
      {
      }
    }
  }

  /** A transaction is read as a withdrawal exactly when it records it, column by column. */
  lemma WithdrawalReadExactlyWhen(safe: AuditedSafe, tx: MultiSigTransaction, w: Withdrawal)
    ensures ParseWithdrawal(safe, tx) == Withdrawn(w) <==> RecordsWithdrawal(safe, tx, w)
  {
    if ReachesTransfers(safe, tx) {
      var token := TokenOfBatch(safe, tx);
      RecordedKey(safe, tx, token, w.publicKeyHex);
      AmountExactlyWhen(TransferCall(safe, tx).dataDecoded.value.parameters[1].value, token, safe, w.amount);
      BatchReadExactlyWhen(safe, tx, token, TransferCall(safe, tx), RecordCall(safe, tx), w);
    } else {
      UnreachedIsInvalid(safe, tx);
    }
  }

  /** It fails a check before the transfers or, having a first transfer with a value, the check of its key. */
  ghost predicate IsNoWithdrawal(safe: AuditedSafe, tx: MultiSigTransaction) {
    || !ReachesTransfers(safe, tx)
    || (tx.transfers != [] && tx.transfers[0].value.Some? && forall token, key :: !RecordsKey(safe, tx, token, key))
  }

  lemma RejectedExactlyWhen(safe: AuditedSafe, tx: MultiSigTransaction)
    ensures ParseWithdrawal(safe, tx) == Invalid <==> IsNoWithdrawal(safe, tx)
  {
    if ReachesTransfers(safe, tx) {
      var token := TokenOfBatch(safe, tx);
      RecordedKey(safe, tx, token, "");
      BatchReadExactlyWhen(safe, tx, token, TransferCall(safe, tx), RecordCall(safe, tx),
                           Withdrawal(tx.txHash, 0, tx.safe, tx.safe, 0, ""));
    } else {
      UnreachedIsInvalid(safe, tx);
    }
  }

  /* The number of transfers, which the code means to check and does not */

  /** Transfers after the first have no influence at all. */
  lemma OnlyFirstTransferIsRead(safe: AuditedSafe, tx: MultiSigTransaction)
    requires tx.transfers != []
    ensures ParseWithdrawal(safe, tx) == ParseWithdrawal(safe, tx.(transfers := tx.transfers[..1]))
  {
  }

  /**
    * A number of transfers other than one is rejected, as it should be, exactly when the batch would be rejected
    * with its first transfer alone: it fails a check before the transfers or, having a first transfer with a
    * value, the check of its key.
    */
  lemma TransferCountRejectedExactlyWhen(safe: AuditedSafe, tx: MultiSigTransaction)
    requires |tx.transfers| != 1
    ensures ParseWithdrawal(safe, tx) == Invalid <==> IsNoWithdrawal(safe, tx)
    ensures tx.transfers != [] ==>
              (ParseWithdrawal(safe, tx) == Invalid
               <==> ParseWithdrawal(safe, tx.(transfers := tx.transfers[..1])) == Invalid)
    ensures tx.transfers == [] ==> (ParseWithdrawal(safe, tx) == Panics <==> ReachesTransfers(safe, tx))
  {
    RejectedExactlyWhen(safe, tx);
    if tx.transfers != [] {
      OnlyFirstTransferIsRead(safe, tx);
    }
  }

  /** The sum of the values that a list of transfers states. */
  ghost function TotalValue(transfers: seq<EthereumTransfer>): nat {
    if transfers == [] then 0
    else (if transfers[0].value.Some? then transfers[0].value.value else 0) + TotalValue(transfers[1..])
  }

  /** The stored value is that of the first transfer, and that of all of them exactly when the others have none. */
  lemma StoredValueIsFirst(safe: AuditedSafe, tx: MultiSigTransaction)
    requires ParseWithdrawal(safe, tx).Withdrawn?
    ensures tx.transfers != [] && tx.transfers[0].value == Some(ParseWithdrawal(safe, tx).withdrawal.ethTxValue)
    ensures ParseWithdrawal(safe, tx).withdrawal.ethTxValue == TotalValue(tx.transfers)
            <==> TotalValue(tx.transfers[1..]) == 0
  {
  }

  /** A documented batch is read in the same way whatever further transfers come with it. */
  lemma FurtherTransfersAreIgnored(
    safe: AuditedSafe, token: AuditedToken, tokenAddr: EthAddr, to: EthAddr, amountText: string, key: seq<U8>,
    txHash: EthTxHash, moved: EthereumTransfer, further: seq<EthereumTransfer>, n: U128, amount: U64)
    requires |key| == KEY_LEN
    requires FirstListing(safe.tokens, tokenAddr, token) && moved.value.Some?
    requires Denotes(amountText, n) && IsWorth(n, token.decimals, safe.tokenDecimalsMax, amount)
    ensures var tx := DocumentedBatch(safe, token, tokenAddr, to, amountText, key, txHash, moved);
            ParseWithdrawal(safe, tx.(transfers := [moved] + further))
            == Withdrawn(Withdrawal(txHash, moved.value.value, safe.safeAddr, tokenAddr, amount, Hex.Encode(key)))
  {
    var tx := DocumentedBatch(safe, token, tokenAddr, to, amountText, key, txHash, moved);
    OnlyFirstTransferIsRead(safe, tx.(transfers := [moved] + further));
    DocumentedBatchIsRead(safe, token, tokenAddr, to, amountText, key, txHash, moved, n, amount);
  }
}
