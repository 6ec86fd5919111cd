/** Lower-case hexadecimal text, as the `hex` crate writes and reads it. */
module Hex {
  import opened Wrappers
  import opened Numbers

  function Digit(n: nat): char
    requires n < 16
  {
    "0123456789abcdef"[n]
  }

  /** Upper and lower case are both read. */
  function DigitValue(c: char): (v: Option<nat>)
    ensures v.Some? ==> v.value < 16
  {
    if '0' <= c <= '9' then Some(c as nat - '0' as nat)
    else if 'a' <= c <= 'f' then Some(c as nat - 'a' as nat + 10)
    else if 'A' <= c <= 'F' then Some(c as nat - 'A' as nat + 10)
    else None
  }

  function Encode(bytes: seq<U8>): string {
    if bytes == [] then ""
    else [Digit(bytes[0] / 16), Digit(bytes[0] % 16)] + Encode(bytes[1..])
  }

  /** None when the text has odd length or a character that is no hex digit. */
  function Decode(text: string): Option<seq<U8>> {
    if text == "" then Some([])
    else if |text| == 1 then None
    else
      match (DigitValue(text[0]), DigitValue(text[1]), Decode(text[2..]))
      case (Some(hi), Some(lo), Some(rest)) => Some([16 * hi + lo] + rest)
      case _ => None
  }

  /** The digits in their usual order. */
  lemma DigitsInOrder(n: nat)
    requires n < 16
    ensures Digit(n) as nat == if n < 10 then '0' as nat + n else 'a' as nat + (n - 10)
  {
  }

  lemma DigitRoundTrip(n: nat)
    requires n < 16
    ensures DigitValue(Digit(n)) == Some(n)
  {
  }

  lemma DecodePair(c: char, d: char, rest: string)
    requires DigitValue(c).Some? && DigitValue(d).Some? && Decode(rest).Some?
    ensures Decode([c, d] + rest) == Some([16 * DigitValue(c).value + DigitValue(d).value] + Decode(rest).value)
  {
    var text := [c, d] + rest;
    assert text[0] == c && text[1] == d && text[2..] == rest;
  }

  lemma {:induction false} DecodeEncode(bytes: seq<U8>)
    ensures |Encode(bytes)| == 2 * |bytes|
    ensures Decode(Encode(bytes)) == Some(bytes)
  {
    if bytes != [] {
      var hi, lo := bytes[0] / 16, bytes[0] % 16;
      DigitRoundTrip(hi);
      DigitRoundTrip(lo);
      DecodeEncode(bytes[1..]);
      DecodePair(Digit(hi), Digit(lo), Encode(bytes[1..]));
      assert bytes == [16 * hi + lo] + bytes[1..];
    }
  }

  predicate IsDigit(c: char) {
    '0' <= c <= '9' || 'a' <= c <= 'f' || 'A' <= c <= 'F'
  }

  /** A text is read exactly when it has even length and nothing but hex digits. */
  lemma {:induction false} DecodeExactlyWhen(text: string)
    ensures Decode(text).Some? <==> |text| % 2 == 0 && forall i :: 0 <= i < |text| ==> IsDigit(text[i])
    ensures Decode(text).Some? ==> 2 * |Decode(text).value| == |text|
  {
    if |text| >= 2 {
      DecodeExactlyWhen(text[2..]);
      assert forall i :: 2 <= i < |text| ==> text[i] == text[2..][i - 2];
      assert forall i :: 0 <= i < |text[2..]| ==> text[2..][i] == text[i + 2];
    }
  }

  /** Written digits are lower case. */
  lemma {:induction false} EncodeIsLower(bytes: seq<U8>)
    ensures forall i :: 0 <= i < |Encode(bytes)| ==> '0' <= Encode(bytes)[i] <= '9' || 'a' <= Encode(bytes)[i] <= 'f'
  {
    if bytes != [] {
      EncodeIsLower(bytes[1..]);
    }
  }

  /** Distinct byte strings have distinct texts, so a UNIQUE text column is a UNIQUE byte column. */
  lemma EncodeInjective(a: seq<U8>, b: seq<U8>)
    requires Encode(a) == Encode(b)
    ensures a == b
  {
    DecodeEncode(a);
    DecodeEncode(b);
  }
}
