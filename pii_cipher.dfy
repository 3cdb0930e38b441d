/** Protection of the student name and index number at rest
    (`encrypt` and `decrypt` of the attendance routes). With a 32-byte key configured a
    plaintext becomes `ivHex:cipherHex` under AES-256-CTR; without one it becomes
    `b64:` followed by its base 64 encoding, which hides nothing. */
module PiiCipher {
  import opened Bytes
  import opened JsValues
  import Base64
  import Hex

  /** AES-256-CTR is foreign code. What the model needs of it is that counter mode XORs
      the data with a keystream fixed by the key and the IV: `Keystream(key, iv, i)` is
      byte `i` of that keystream. It is a parameter of every keyed operation. */
  type Keystream = (Text, Text, nat) -> byte

  /** The module-level key buffer: a 32-byte key, or none (degraded mode). */
  datatype CipherKey = NoKey | Key(bytes: Text)

  const KeyLength: nat := 32
  const IvLength: nat := 16
  const B64Prefix: Text := [0x62, 0x36, 0x34, 0x3A]   // "b64:"

  /** The key read once from the environment variable ENCRYPTION_KEY: an absent or
      empty variable, or one whose hex decoding is not 32 bytes long, leaves no key. */
  function LoadKey(env: Option<Text>): (k: CipherKey)
    ensures k.Key? ==> |k.bytes| == KeyLength
    ensures k.Key? <==> env.Some? && |Hex.Decode(env.value)| == KeyLength
    ensures k.Key? ==> k.bytes == Hex.Decode(env.value)
  {
    if env.None? || env.value == [] then NoKey
    else
      var b := Hex.Decode(env.value);
      if |b| == KeyLength then Key(b) else NoKey
  }

  /** A key written out as 64 hex digits is the key that is loaded. */
  lemma LoadKeyFromHex(key: Text)
    requires |key| == KeyLength
    ensures LoadKey(Some(Hex.Encode(key))) == Key(key)
  {
    Hex.DecodeEncode(key);
  }

  /** Counter-mode encryption and decryption (the same operation). */
  function Ctr(ks: Keystream, key: Text, iv: Text, data: Text): Text {
    seq(|data|, i requires 0 <= i < |data| => data[i] ^ ks(key, iv, i))
  }

  lemma CtrInvolution(ks: Keystream, key: Text, iv: Text, data: Text)
    ensures Ctr(ks, key, iv, Ctr(ks, key, iv, data)) == data
  {
    var once := Ctr(ks, key, iv, data);
    var twice := Ctr(ks, key, iv, once);
    assert |twice| == |data|;
    forall i | 0 <= i < |data| ensures twice[i] == data[i] {
      assert twice[i] == (data[i] ^ ks(key, iv, i)) ^ ks(key, iv, i);
    }
  }

  /** `encrypt(text)`: `null` and `undefined` stay `null`; anything else is converted
      with `String()` and becomes a string token. `iv` stands for `crypto.randomBytes(16)`. */
  function Encrypt(key: CipherKey, ks: Keystream, iv: Text, v: JsValue): (r: JsValue)
    requires |iv| == IvLength
    ensures r == Null <==> IsNullish(v)
    ensures r.Str? <==> !IsNullish(v)
    ensures key.NoKey? && r.Str? ==> StartsWith(r.text, B64Prefix)
  {
    if IsNullish(v) then Null
    else
      var t := StringOf(v);
      match key
      case NoKey => Str(B64Prefix + Base64.Encode(t))
      case Key(k) => Str(Hex.Encode(iv) + [Colon] + Hex.Encode(Ctr(ks, k, iv, t)))
  }

  /** `decrypt(text)`, dispatching on the token's shape: a `b64:` token is decoded in
      either mode; any other string that does not split into exactly two parts on `:`
      comes back unchanged; a two-part token needs the key and a 16-byte IV. */
  function Decrypt(key: CipherKey, ks: Keystream, v: JsValue): (r: JsValue)
    ensures IsNullish(v) ==> r == Null
    ensures v.Primitive? ==> r == v
    ensures v.Str? && !StartsWith(v.text, B64Prefix) && Count(v.text, Colon) != 1 ==> r == v
    ensures v.Str? && !StartsWith(v.text, B64Prefix) && Count(v.text, Colon) == 1 && key.NoKey?
            ==> r == Null
    ensures r.Str? || r.Null? || r == v
  {
    match v
    case Undefined => Null
    case Null => Null
    case Primitive(_) => v
    case Str(t) =>
      if StartsWith(t, B64Prefix) then
        match Base64.Decode(t[|B64Prefix|..])
        case Some(b) => Str(b)
        case None => Null
      else
        SplitOnShape(t, Colon);
        var parts := SplitOn(t, Colon);
        if |parts| != 2 then v
        else match key
          case NoKey => Null
          case Key(k) =>
            var iv := Hex.Decode(parts[0]);
            if |iv| != IvLength then Null
            else Str(Ctr(ks, k, iv, Hex.Decode(parts[1])))
  }

  /** Degraded mode round trip: a `b64:` token decrypts to the plaintext, whether or not
      a key is configured at decryption time. */
  lemma UnkeyedRoundTrip(key: CipherKey, ks: Keystream, iv: Text, v: JsValue)
    requires |iv| == IvLength && !IsNullish(v)
    ensures Decrypt(key, ks, Encrypt(NoKey, ks, iv, v)) == Str(StringOf(v))
  {
    var e := Base64.Encode(StringOf(v));
    var t := B64Prefix + e;
    assert t[|B64Prefix|..] == e;
    Base64.DecodeEncode(StringOf(v));
  }

  lemma NoColonInHex(h: Text)
    requires forall i | 0 <= i < |h| :: Hex.IsHexDigit(h[i])
    ensures Colon !in h
  {
  }

  /** A keyed token is always exactly two parts joined by `:`, both hex digits, the first
      of them the 32 digits of the IV; it never looks like a `b64:` token. */
  lemma {:induction false} KeyedTokenShape(k: Text, ks: Keystream, iv: Text, v: JsValue)
    requires |iv| == IvLength && !IsNullish(v)
    ensures var t := Encrypt(Key(k), ks, iv, v).text;
            var parts := SplitOn(t, Colon);
            && !StartsWith(t, B64Prefix)
            && Count(t, Colon) == 1
            && |parts| == 2
            && parts[0] == Hex.Encode(iv) && |parts[0]| == 2 * IvLength
            && parts[1] == Hex.Encode(Ctr(ks, k, iv, StringOf(v)))
            && forall p | p in parts :: forall i | 0 <= i < |p| :: Hex.IsHexDigit(p[i])
  {
    var a := Hex.Encode(iv);
    var b := Hex.Encode(Ctr(ks, k, iv, StringOf(v)));
    var t := a + [Colon] + b;
    assert Encrypt(Key(k), ks, iv, v).text == t;
    NoColonInHex(a);
    NoColonInHex(b);
    SplitOnFirst(a, Colon, b);
    SplitOnNone(b, Colon);
    SplitOnShape(t, Colon);
    assert t[3] == a[3] && Hex.IsHexDigit(a[3]);
    assert t[..|B64Prefix|][3] == Colon ==> !StartsWith(t, B64Prefix);
  }

  /** Keyed round trip: with the key that encrypted it, a token decrypts to the plaintext. */
  lemma KeyedRoundTrip(k: Text, ks: Keystream, iv: Text, v: JsValue)
    requires |iv| == IvLength && !IsNullish(v)
    ensures Decrypt(Key(k), ks, Encrypt(Key(k), ks, iv, v)) == Str(StringOf(v))
  {
    KeyedTokenShape(k, ks, iv, v);
    Hex.DecodeEncode(iv);
    Hex.DecodeEncode(Ctr(ks, k, iv, StringOf(v)));
    CtrInvolution(ks, k, iv, StringOf(v));
  }

  /** A keyed token read back when no key is configured decrypts to `null`. */
  lemma KeyedTokenWithoutKey(k: Text, ks: Keystream, iv: Text, v: JsValue)
    requires |iv| == IvLength && !IsNullish(v)
    ensures Decrypt(NoKey, ks, Encrypt(Key(k), ks, iv, v)) == Null
  {
    KeyedTokenShape(k, ks, iv, v);
  }

  /** Whatever the mode, a plaintext that was encrypted with the configured key (or
      without one) decrypts to itself under that configuration. */
  lemma RoundTrip(key: CipherKey, ks: Keystream, iv: Text, v: JsValue)
    requires |iv| == IvLength && !IsNullish(v)
    ensures Decrypt(key, ks, Encrypt(key, ks, iv, v)) == Str(StringOf(v))
  {
    match key
    case NoKey => UnkeyedRoundTrip(key, ks, iv, v);
    case Key(k) => KeyedRoundTrip(k, ks, iv, v);
  }
}
