/** Ethereum addresses and transaction hashes. */
module EthDataTypes {
  import opened Wrappers
  import opened Numbers
  import Hex

  const ADDR_LEN := 20
  const HASH_LEN := 32

  /** The text keeps its original capitalization, which carries a checksum. */
  datatype EthAddr = EthAddr(text: string)

  type EthTxHash = h: seq<U8> | |h| == HASH_LEN witness seq(HASH_LEN, _ => 0)

  function LowerChar(c: char): char {
    if 'A' <= c <= 'Z' then (c as nat + 32) as char else c
  }

  function Lower(text: string): string {
    seq(|text|, i requires 0 <= i < |text| => LowerChar(text[i]))
  }

  /** Equality of addresses ignores case. */
  predicate SameAddr(a: EthAddr, b: EthAddr) {
    Lower(a.text) == Lower(b.text)
  }

  predicate HasHexPrefix(text: string) {
    |text| >= 2 && text[..2] == "0x"
  }

  function ParseAddr(text: string): Option<EthAddr> {
    if !HasHexPrefix(text) then None
    else
      match Hex.Decode(text[2..])
      case Some(bytes) => if |bytes| == ADDR_LEN then Some(EthAddr(text)) else None
      case None => None
  }

  function ParseTxHash(text: string): Option<EthTxHash> {
    if !HasHexPrefix(text) then None
    else
      match Hex.Decode(text[2..])
      case Some(bytes) => if |bytes| == HASH_LEN then Some(bytes) else None
      case None => None
  }

  function PrintTxHash(h: EthTxHash): string {
    "0x" + Hex.Encode(h)
  }

  /** The text column of a hash identifies the hash: printing is undone by parsing. */
  lemma TxHashRoundTrip(h: EthTxHash)
    ensures ParseTxHash(PrintTxHash(h)) == Some(h)
  {
    Hex.DecodeEncode(h);
    assert PrintTxHash(h)[2..] == Hex.Encode(h);
  }

  lemma DecodedLength(text: string, length: nat)
    requires |text| >= 2
    ensures (Hex.Decode(text[2..]).Some? && |Hex.Decode(text[2..]).value| == length) <==>
            |text| == 2 + 2 * length && forall i :: 2 <= i < |text| ==> Hex.IsDigit(text[i])
  {
    Hex.DecodeExactlyWhen(text[2..]);
    assert forall i :: 2 <= i < |text| ==> text[i] == text[2..][i - 2];
    assert forall i :: 0 <= i < |text[2..]| ==> text[2..][i] == text[i + 2];
  }

  /** An address is `0x` and forty hex digits, and keeps its text. */
  lemma ParseAddrExactlyWhen(text: string, addr: EthAddr)
    ensures ParseAddr(text) == Some(addr) <==>
            && addr.text == text && |text| == 42 && text[0] == '0' && text[1] == 'x'
            && forall i :: 2 <= i < |text| ==> Hex.IsDigit(text[i])
  {
    if |text| >= 2 {
      assert text[..2] == [text[0], text[1]];
      DecodedLength(text, ADDR_LEN);
    }
  }

  /** A transaction hash is `0x` and the hex digits of 32 bytes. */
  lemma ParseTxHashExactlyWhen(text: string)
    ensures ParseTxHash(text).Some? <==>
            && |text| == 66 && text[0] == '0' && text[1] == 'x'
            && forall i :: 2 <= i < |text| ==> Hex.IsDigit(text[i])
  {
    if |text| >= 2 {
      assert text[..2] == [text[0], text[1]];
      DecodedLength(text, HASH_LEN);
    }
  }

  lemma SameDigit(c: char, d: char)
    requires Hex.DigitValue(c).Some? && Hex.DigitValue(d).Some?
    ensures LowerChar(c) == LowerChar(d) <==> Hex.DigitValue(c) == Hex.DigitValue(d)
  {
  }

  /** Lower-casing acts on the first two characters and on the rest separately. */
  lemma LowerSplit(a: string, b: string)
    requires |a| >= 2 && |b| >= 2
    ensures Lower(a) == Lower(b) <==>
            LowerChar(a[0]) == LowerChar(b[0]) && LowerChar(a[1]) == LowerChar(b[1]) && Lower(a[2..]) == Lower(b[2..])
  {
    var la, lb := Lower(a), Lower(b);
    assert la == [la[0], la[1]] + Lower(a[2..]);
    assert lb == [lb[0], lb[1]] + Lower(b[2..]);
    assert la[2..] == Lower(a[2..]) && lb[2..] == Lower(b[2..]);
  }

  lemma {:induction false} DecodeSplit(a: string)
    requires |a| >= 2 && Hex.Decode(a).Some?
    ensures Hex.DigitValue(a[0]).Some? && Hex.DigitValue(a[1]).Some? && Hex.Decode(a[2..]).Some?
    ensures Hex.Decode(a).value ==
            [16 * Hex.DigitValue(a[0]).value + Hex.DigitValue(a[1]).value] + Hex.Decode(a[2..]).value
  {
  }

  lemma {:induction false} SameTextSameBytes(a: string, b: string)
    requires Hex.Decode(a).Some? && Hex.Decode(b).Some?
    ensures Lower(a) == Lower(b) <==> Hex.Decode(a) == Hex.Decode(b)
  {
    if |a| >= 2 && |b| >= 2 {
      DecodeSplit(a);
      DecodeSplit(b);
      SameTextSameBytes(a[2..], b[2..]);
      SameDigit(a[0], b[0]);
      SameDigit(a[1], b[1]);
      LowerSplit(a, b);
      ConsEqual(16 * Hex.DigitValue(a[0]).value + Hex.DigitValue(a[1]).value, Hex.Decode(a[2..]).value,
                16 * Hex.DigitValue(b[0]).value + Hex.DigitValue(b[1]).value, Hex.Decode(b[2..]).value);
    } else {
      assert |Lower(a)| == |a| && |Lower(b)| == |b|;
    }
  }

  lemma ConsEqual(x: U8, xs: seq<U8>, y: U8, ys: seq<U8>)
    ensures [x] + xs == [y] + ys <==> x == y && xs == ys
  {
    assert ([x] + xs)[0] == x && ([x] + xs)[1..] == xs;
    assert ([y] + ys)[0] == y && ([y] + ys)[1..] == ys;
  }

  /** On parsed addresses the case-insensitive comparison is exactly equality of the twenty bytes. */
  lemma SameAddrIsSameBytes(s: string, t: string)
    requires ParseAddr(s).Some? && ParseAddr(t).Some?
    ensures SameAddr(ParseAddr(s).value, ParseAddr(t).value) <==> Hex.Decode(s[2..]) == Hex.Decode(t[2..])
  {
    LowerSplit(s, t);
    assert s[0] == s[..2][0] && s[1] == s[..2][1];
    assert t[0] == t[..2][0] && t[1] == t[..2][1];
    SameTextSameBytes(s[2..], t[2..]);
  }
}
