/** Base 64 encoding with padding, as in section 4 of RFC 4648: the format of
    `Buffer.toString('base64')`. Decoding accepts exactly the canonical encodings. */
module Base64 {
  import opened Bytes

  const Pad: byte := 0x3D   // '='

  /** The alphabet of RFC 4648, section 4, Table 1. */
  function EncodeSextet(v: byte): byte
    requires v < 64
  {
    if v < 26 then 0x41 + v
    else if v < 52 then 0x61 + (v - 26)
    else if v < 62 then 0x30 + (v - 52)
    else if v == 62 then 0x2B
    else 0x2F
  }

  /** The inverse of the alphabet: only the 64 alphabet characters decode. */
  function DecodeSextet(c: byte): (r: Option<byte>)
    ensures r.Some? ==> r.value < 64 && EncodeSextet(r.value) == c
    ensures r.None? ==> c == Pad || (forall v: byte | v < 64 :: EncodeSextet(v) != c)
  {
    if 0x41 <= c <= 0x5A then Some(c - 0x41)
    else if 0x61 <= c <= 0x7A then Some(c - 0x61 + 26)
    else if 0x30 <= c <= 0x39 then Some(c - 0x30 + 52)
    else if c == 0x2B then Some(62)
    else if c == 0x2F then Some(63)
    else None
  }

  lemma SextetRoundTrip(v: byte)
    requires v < 64
    ensures DecodeSextet(EncodeSextet(v)) == Some(v)
  {
  }

  // Three bytes give four characters; one or two final bytes give a padded group.

  function EncodeGroup(b0: byte, b1: byte, b2: byte): Text {
    [EncodeSextet(b0 >> 2), EncodeSextet(((b0 & 3) << 4) | (b1 >> 4)),
     EncodeSextet(((b1 & 15) << 2) | (b2 >> 6)), EncodeSextet(b2 & 63)]
  }

  function EncodeTwo(b0: byte, b1: byte): Text {
    [EncodeSextet(b0 >> 2), EncodeSextet(((b0 & 3) << 4) | (b1 >> 4)),
     EncodeSextet((b1 & 15) << 2), Pad]
  }

  function EncodeOne(b0: byte): Text {
    [EncodeSextet(b0 >> 2), EncodeSextet((b0 & 3) << 4), Pad, Pad]
  }

  function Encode(b: Text): (r: Text)
    ensures |r| == 4 * ((|b| + 2) / 3)
    decreases |b|
  {
    if |b| == 0 then []
    else if |b| == 1 then EncodeOne(b[0])
    else if |b| == 2 then EncodeTwo(b[0], b[1])
    else EncodeGroup(b[0], b[1], b[2]) + Encode(b[3..])
  }

  /** A group of four alphabet characters. */
  function DecodeFull(q: Text): Option<Text>
    requires |q| == 4
  {
    match (DecodeSextet(q[0]), DecodeSextet(q[1]), DecodeSextet(q[2]), DecodeSextet(q[3]))
    case (Some(s0), Some(s1), Some(s2), Some(s3)) =>
      Some([(s0 << 2) | (s1 >> 4), ((s1 & 15) << 4) | (s2 >> 2), ((s2 & 3) << 6) | s3])
    case _ => None
  }

  /** The last group: four alphabet characters, or padding whose unused bits are zero. */
  function DecodeLast(q: Text): Option<Text>
    requires |q| == 4
  {
    if DecodeFull(q).Some? then DecodeFull(q)
    else match (DecodeSextet(q[0]), DecodeSextet(q[1]), DecodeSextet(q[2]))
      case (Some(s0), Some(s1), Some(s2)) =>
        if q[3] == Pad && s2 & 3 == 0
        then Some([(s0 << 2) | (s1 >> 4), ((s1 & 15) << 4) | (s2 >> 2)])
        else None
      case (Some(s0), Some(s1), None) =>
        if q[2] == Pad && q[3] == Pad && s1 & 15 == 0
        then Some([(s0 << 2) | (s1 >> 4)])
        else None
      case _ => None
  }

  function Decode(s: Text): (r: Option<Text>)
    ensures r.Some? ==> |s| % 4 == 0
    decreases |s|
  {
    if |s| == 0 then Some([])
    else if |s| < 4 then None
    else if |s| == 4 then DecodeLast(s)
    else match (DecodeFull(s[..4]), Decode(s[4..]))
      case (Some(g), Some(rest)) => Some(g + rest)
      case _ => None
  }

  lemma GroupRoundTrip(b0: byte, b1: byte, b2: byte)
    ensures DecodeFull(EncodeGroup(b0, b1, b2)) == Some([b0, b1, b2])
  {
    SextetRoundTrip(b0 >> 2);
    SextetRoundTrip(((b0 & 3) << 4) | (b1 >> 4));
    SextetRoundTrip(((b1 & 15) << 2) | (b2 >> 6));
    SextetRoundTrip(b2 & 63);
  }

  lemma TwoRoundTrip(b0: byte, b1: byte)
    ensures DecodeLast(EncodeTwo(b0, b1)) == Some([b0, b1])
  {
    SextetRoundTrip(b0 >> 2);
    SextetRoundTrip(((b0 & 3) << 4) | (b1 >> 4));
    SextetRoundTrip((b1 & 15) << 2);
  }

  lemma OneRoundTrip(b0: byte)
    ensures DecodeLast(EncodeOne(b0)) == Some([b0])
  {
    SextetRoundTrip(b0 >> 2);
    SextetRoundTrip((b0 & 3) << 4);
  }

  /** Decoding undoes encoding: `Buffer.from(b.toString('base64'), 'base64')` is `b`. */
  lemma {:induction false} DecodeEncode(b: Text)
    ensures Decode(Encode(b)) == Some(b)
    decreases |b|
  {
    if |b| == 1 {
      OneRoundTrip(b[0]);
      assert [b[0]] == b;
    } else if |b| == 2 {
      TwoRoundTrip(b[0], b[1]);
      assert [b[0], b[1]] == b;
    } else if |b| >= 3 {
      var g := EncodeGroup(b[0], b[1], b[2]);
      var e := Encode(b[3..]);
      GroupRoundTrip(b[0], b[1], b[2]);
      assert [b[0], b[1], b[2]] + b[3..] == b;
      if |b| == 3 {
        assert e == [];
        assert Encode(b) == g + e == g;
        assert Decode(g) == DecodeLast(g) == DecodeFull(g);
        assert [b[0], b[1], b[2]] == b;
      } else {
        DecodeEncode(b[3..]);
        assert (g + e)[..4] == g;
        assert (g + e)[4..] == e;
      }
    }
  }

  lemma GroupCanonical(q: Text)
    requires |q| == 4 && DecodeFull(q).Some?
    ensures var g := DecodeFull(q).value; |g| == 3 && EncodeGroup(g[0], g[1], g[2]) == q
  {
  }

  lemma LastCanonical(q: Text)
    requires |q| == 4 && DecodeLast(q).Some?
    ensures var g := DecodeLast(q).value; 1 <= |g| <= 3 && Encode(g) == q
  {
    var g := DecodeLast(q).value;
    if DecodeFull(q).Some? {
      GroupCanonical(q);
      assert Encode(g) == EncodeGroup(g[0], g[1], g[2]) + Encode([]);
    }
  }

  /** Only canonical text decodes: whatever decodes is the encoding of what it decodes to. */
  lemma {:induction false} EncodeDecode(s: Text)
    requires Decode(s).Some?
    ensures Encode(Decode(s).value) == s
    decreases |s|
  {
    if |s| == 4 {
      LastCanonical(s);
    } else if |s| > 4 {
      var g := DecodeFull(s[..4]).value;
      var rest := Decode(s[4..]).value;
      GroupCanonical(s[..4]);
      EncodeDecode(s[4..]);
      assert |rest| > 0;
      var b := g + rest;
      assert b[3..] == rest;
      assert s == s[..4] + s[4..];
    }
  }
}
