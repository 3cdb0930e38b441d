/** Node's 'hex' encoding of a Buffer: `toString('hex')` writes two lower-case digits per
    byte; `Buffer.from(s, 'hex')` reads digit pairs (either case) and stops at the first
    pair that is not two hexadecimal digits, dropping an odd last character. */
module Hex {
  import opened Bytes

  predicate IsHexDigit(c: byte) {
    (0x30 <= c <= 0x39) || (0x61 <= c <= 0x66) || (0x41 <= c <= 0x46)
  }

  function Digit(v: byte): (c: byte)
    requires v < 16
    ensures IsHexDigit(c)
  {
    if v < 10 then 0x30 + v else 0x61 + (v - 10)
  }

  function DigitValue(c: byte): (r: Option<byte>)
    ensures r.Some? <==> IsHexDigit(c)
    ensures r.Some? ==> r.value < 16
  {
    if 0x30 <= c <= 0x39 then Some(c - 0x30)
    else if 0x61 <= c <= 0x66 then Some(c - 0x61 + 10)
    else if 0x41 <= c <= 0x46 then Some(c - 0x41 + 10)
    else None
  }

  function Encode(b: Text): (r: Text)
    ensures |r| == 2 * |b|
    ensures forall i | 0 <= i < |r| :: IsHexDigit(r[i])
    decreases |b|
  {
    if |b| == 0 then [] else [Digit(b[0] >> 4), Digit(b[0] & 15)] + Encode(b[1..])
  }

  function Decode(s: Text): (r: Text)
    ensures |r| <= |s| / 2
    decreases |s|
  {
    if |s| < 2 then []
    else match (DigitValue(s[0]), DigitValue(s[1]))
      case (Some(hi), Some(lo)) => [(hi << 4) | lo] + Decode(s[2..])
      case _ => []
  }

  /** `Buffer.from(b.toString('hex'), 'hex')` is `b`. */
  lemma {:induction false} DecodeEncode(b: Text)
    ensures Decode(Encode(b)) == b
    decreases |b|
  {
    if |b| > 0 {
      DecodeEncode(b[1..]);
      var e := Encode(b);
      assert e[2..] == Encode(b[1..]);
      assert DigitValue(Digit(b[0] >> 4)) == Some(b[0] >> 4);
      assert DigitValue(Digit(b[0] & 15)) == Some(b[0] & 15);
      assert [b[0]] + b[1..] == b;
    }
  }

  /** Decoding stops at the first character that is not a hexadecimal digit, so a
      prefix of digits followed by anything else reads as that prefix alone. */
  lemma {:induction false} DecodeStopsAtNonDigit(e: Text, c: byte, rest: Text)
    requires forall i | 0 <= i < |e| :: IsHexDigit(e[i])
    requires |e| % 2 == 0 && !IsHexDigit(c)
    ensures Decode(e + [c] + rest) == Decode(e)
    decreases |e|
  {
    if |e| == 0 {
      assert e + [c] + rest == [c] + rest;
    } else {
      DecodeStopsAtNonDigit(e[2..], c, rest);
      assert (e + [c] + rest)[2..] == e[2..] + [c] + rest;
    }
  }
}
