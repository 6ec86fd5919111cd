/** The nonce of a mint transaction that is backed by a deposit: an identifier, the deposit's hash, zeros. */
module MintTxNonce {
  import opened Wrappers
  import opened Numbers
  import opened EthDataTypes
  import Hex

  const NONCE_LENGTH := 64
  const IDENTIFIER_LEN := 1
  const ETHEREUM_GNOSIS_DEPOSIT_IDENTIFIER: U8 := 0x01

  datatype Error = InvalidLength(expected: nat, got: nat) | InvalidNonceIdentifier(id: U8)

  /** The bytes of a nonce, as a value. */
  function Bytes(h: EthTxHash): (bytes: seq<U8>)
    ensures |bytes| == NONCE_LENGTH
  {
    [ETHEREUM_GNOSIS_DEPOSIT_IDENTIFIER] + h + seq(NONCE_LENGTH - IDENTIFIER_LEN - HASH_LEN, _ => 0)
  }

  /** Fills a zeroed buffer in place. */
  method ToBytes(h: EthTxHash) returns (bytes: array<U8>)
    ensures fresh(bytes)
    ensures bytes[..] == Bytes(h)
  {
    bytes := new U8[NONCE_LENGTH](_ => 0);
    bytes[0] := ETHEREUM_GNOSIS_DEPOSIT_IDENTIFIER;
    forall i | 0 <= i < HASH_LEN {
      bytes[IDENTIFIER_LEN + i] := h[i];
    }
  }

  function FromBytes(bytes: seq<U8>): Result<EthTxHash, Error> {
    if |bytes| != NONCE_LENGTH then Err(InvalidLength(NONCE_LENGTH, |bytes|))
    else if bytes[0] == ETHEREUM_GNOSIS_DEPOSIT_IDENTIFIER then
      Ok(bytes[IDENTIFIER_LEN..IDENTIFIER_LEN + HASH_LEN])
    else Err(InvalidNonceIdentifier(bytes[0]))
  }

  /** The hex text stored as a deposit's expected nonce. */
  function ExpectedNonceHex(h: EthTxHash): string {
    Hex.Encode(Bytes(h))
  }

  /** One identifying byte, the hash, zeros up to 64 bytes. */
  lemma Layout(h: EthTxHash)
    ensures |Bytes(h)| == 64 && Bytes(h)[0] == 1
    ensures forall i :: 0 <= i < 32 ==> Bytes(h)[1 + i] == h[i]
    ensures forall i :: 33 <= i < 64 ==> Bytes(h)[i] == 0
  {
  }

  /** A nonce is decoded exactly when it has 64 bytes and the identifier, and the error says which is wrong. */
  lemma FromBytesExactlyWhen(bytes: seq<U8>, h: EthTxHash)
    ensures FromBytes(bytes) == Ok(h) <==> |bytes| == 64 && bytes[0] == 1 && bytes[1..33] == h
    ensures FromBytes(bytes) == Err(InvalidLength(64, |bytes|)) <==> |bytes| != 64
    ensures |bytes| == 64 && bytes[0] != 1 ==> FromBytes(bytes) == Err(InvalidNonceIdentifier(bytes[0]))
  {
  }

  lemma RoundTrip(h: EthTxHash)
    ensures FromBytes(Bytes(h)) == Ok(h)
  {
    assert Bytes(h)[IDENTIFIER_LEN..IDENTIFIER_LEN + HASH_LEN] == h;
  }

  /**
    * Decoding ignores the bytes after the hash, so a decodable nonce is the encoding of what it decodes to
    * if and only if its tail is zero.
    */
  lemma ReverseRoundTrip(bytes: seq<U8>)
    requires FromBytes(bytes).Ok?
    ensures Bytes(FromBytes(bytes).value) == bytes
            <==> forall i :: IDENTIFIER_LEN + HASH_LEN <= i < NONCE_LENGTH ==> bytes[i] == 0
  {
    var back := Bytes(FromBytes(bytes).value);
    assert forall i :: 0 <= i < IDENTIFIER_LEN + HASH_LEN ==> back[i] == bytes[i];
    assert forall i :: IDENTIFIER_LEN + HASH_LEN <= i < NONCE_LENGTH ==> back[i] == 0;
  }

  /** Two deposits never expect the same mint nonce. */
  lemma ExpectedNonceInjective(g: EthTxHash, h: EthTxHash)
    requires ExpectedNonceHex(g) == ExpectedNonceHex(h)
    ensures g == h
  {
    Hex.EncodeInjective(Bytes(g), Bytes(h));
    RoundTrip(g);
    RoundTrip(h);
  }
}
