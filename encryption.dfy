/** Envelope encryption and the blind index (app/api/lib/encryption.ts).

    A token is encrypted under a fresh 32-byte data key (DEK); the DEK, as
    64 hex characters, is encrypted under the master key, which is the
    SHA-256 digest of ENVELOPE_MASTER_KEY. Each encryption is written as
    `hex(iv) ++ hex(authTag) ++ hex(ciphertext)` with a 16-byte IV and a
    16-byte tag, and read back by slicing at hex offsets 32 and 64. The
    blind index of a token is the hex SHA-256 digest of `token ++ pepper`,
    the pepper being PEPPER_HASH.

    SHA-256 (FIPS 180-4) and AES-256-GCM (NIST SP 800-38D) are not modelled
    bit by bit: they are the fields of a `Primitives` value, and `Lawful`
    states the properties of them that the code relies on. The random DEK
    and IVs are inputs. */
module Encryption {
  import opened Wrappers
  import opened Hex
  import Utf8
  import opened JsString
  import opened Seqs

  const IV_LENGTH: nat := 16
  const AUTH_TAG_LENGTH: nat := 16
  const KEY_LENGTH: nat := 32

  /** What AES-256-GCM's encryption returns: the authentication tag and the
      ciphertext. */
  datatype Sealed = Sealed(tag: seq<byte>, ciphertext: seq<byte>)

  /** The foreign primitives.
      - `sha256(m)`: the digest of `m`;
      - `seal(key, iv, plaintext)`: AES-256-GCM encryption with no
        additional authenticated data;
      - `open(key, iv, tag, ciphertext)`: the matching decryption, None when
        the decipher rejects its input (a tag that does not verify, an IV or
        tag of a length it refuses). */
  datatype Primitives = Primitives(
    sha256: seq<byte> -> seq<byte>,
    seal: (seq<byte>, seq<byte>, seq<byte>) -> Sealed,
    open: (seq<byte>, seq<byte>, seq<byte>, seq<byte>) -> Option<seq<byte>>)

  /** The properties of the primitives that the code relies on: a digest is
      32 bytes; a tag is 16 bytes; decryption under the same key and IV
      inverts encryption; and for a given key, IV and ciphertext, a 16-byte
      tag other than the one encryption produced is rejected. (Node also
      accepts tags truncated to 4, 8 or 12 to 15 bytes, so nothing is
      assumed about tags of other lengths.) */
  ghost predicate Lawful(p: Primitives) {
    && (forall m :: |p.sha256(m)| == 32)
    && (forall k, iv, m :: |p.seal(k, iv, m).tag| == AUTH_TAG_LENGTH)
    && (forall k, iv, m :: |k| == KEY_LENGTH && |iv| == IV_LENGTH ==>
          p.open(k, iv, p.seal(k, iv, m).tag, p.seal(k, iv, m).ciphertext) == Some(m))
    && (forall k, iv, m, t :: |t| == AUTH_TAG_LENGTH && t != p.seal(k, iv, m).tag ==>
          p.open(k, iv, t, p.seal(k, iv, m).ciphertext) == None)
  }

  /** The laws above are consistent: some primitives satisfy them. */
  lemma LawfulIsSatisfiable()
    ensures exists p :: Lawful(p)
  {
    var zeros: seq<byte> := seq(16, _ => 0);
    var p := Primitives(
      m => seq(32, _ => 0),
      (k, iv, m) => Sealed(zeros, m),
      (k, iv, t, c) => if t == zeros then Some(c) else None);
    assert Lawful(p);
  }

  /** The process environment: ENVELOPE_MASTER_KEY and PEPPER_HASH. A value
      counts as missing when it is not `Truthy` (unset or ""). */
  datatype Env = Env(masterKey: Option<string>, pepper: Option<string>)

  datatype CryptoError =
    | MissingMasterKey    // "ENVELOPE_MASTER_KEY not found in environment variables"
    | MissingPepper       // "PEPPER_HASH not found in environment variables"
    | InvalidKeyLength    // Node refuses an AES-256 key that is not 32 bytes
    | OddHexLength        // the decipher's `update` refuses "hex" input of odd length
    | IntegrityError      // the decipher rejected the IV, the tag or the ciphertext
    | MalformedUtf8       // deciphered bytes that are not well-formed UTF-8

  /** `getMasterKey()`: SHA-256 of the UTF-8 bytes of ENVELOPE_MASTER_KEY. */
  function GetMasterKey(p: Primitives, env: Env): (r: Result<seq<byte>, CryptoError>)
    ensures r.Err? <==> !Truthy(env.masterKey)
    ensures r.Err? ==> r.error == MissingMasterKey
    ensures Lawful(p) && r.Ok? ==> |r.value| == KEY_LENGTH
  {
    if !Truthy(env.masterKey) then Err(MissingMasterKey)
    else Ok(p.sha256(Utf8.Encode(env.masterKey.value)))
  }

  /** The wire format `hex(iv) ++ hex(tag) ++ hex(ciphertext)`. */
  function Frame(iv: seq<byte>, tag: seq<byte>, ciphertext: seq<byte>): (r: string)
    ensures r == HexEncode(iv + tag + ciphertext)
  {
    HexEncodeAppend(iv, tag);
    HexEncodeAppend(iv + tag, ciphertext);
    HexEncode(iv) + HexEncode(tag) + HexEncode(ciphertext)
  }

  /** The ciphertext's hex: the slice [64, end). */
  function CiphertextHex(s: string): (r: string)
    ensures |s| >= (IV_LENGTH + AUTH_TAG_LENGTH) * 2 ==> r == s[(IV_LENGTH + AUTH_TAG_LENGTH) * 2..]
    ensures |s| < (IV_LENGTH + AUTH_TAG_LENGTH) * 2 ==> r == ""
  {
    Slice(s, (IV_LENGTH + AUTH_TAG_LENGTH) * 2, |s|)
  }

  /** The three parts read back from a string: the slices [0, 32), [32, 64)
      and [64, end), each hex-decoded. */
  function Unframe(s: string): (r: (seq<byte>, seq<byte>, seq<byte>))
    ensures |r.0| <= IV_LENGTH && |r.1| <= AUTH_TAG_LENGTH
    ensures 2 * |r.2| <= |s|
  {
    (HexDecode(Slice(s, 0, IV_LENGTH * 2)),
     HexDecode(Slice(s, IV_LENGTH * 2, (IV_LENGTH + AUTH_TAG_LENGTH) * 2)),
     HexDecode(CiphertextHex(s)))
  }

  /** Hex text has one UTF-16 code unit per character, and an encoding has
      two per byte. */
  lemma HexEncodeUnits(bs: seq<byte>)
    ensures JsLength(HexEncode(bs)) == 2 * |bs|
  {
    JsLengthOfNarrow(HexEncode(bs));
  }

  /** Framing round trip: with a 16-byte IV and a 16-byte tag, the fixed
      offsets give back exactly the IV, the tag and the ciphertext. */
  lemma FramingRoundTrip(iv: seq<byte>, tag: seq<byte>, ciphertext: seq<byte>)
    requires |iv| == IV_LENGTH && |tag| == AUTH_TAG_LENGTH
    ensures Unframe(Frame(iv, tag, ciphertext)) == (iv, tag, ciphertext)
  {
    var s := Frame(iv, tag, ciphertext);
    assert Slice(s, 0, 32) == HexEncode(iv);
    assert Slice(s, 32, 64) == HexEncode(tag);
    assert CiphertextHex(s) == HexEncode(ciphertext);
    HexRoundTrip(iv);
    HexRoundTrip(tag);
    HexRoundTrip(ciphertext);
  }

  /** The ciphertext part of a frame is the ciphertext's encoding. */
  lemma FrameCiphertextHex(iv: seq<byte>, tag: seq<byte>, ciphertext: seq<byte>)
    requires |iv| == IV_LENGTH && |tag| == AUTH_TAG_LENGTH
    ensures CiphertextHex(Frame(iv, tag, ciphertext)) == HexEncode(ciphertext)
  {
    var head := HexEncode(iv) + HexEncode(tag);
    DropPrefix(head, HexEncode(ciphertext));
  }

  /** `encrypt(data, key)` with the IV drawn for it: the UTF-8 bytes of
      `data` are sealed and framed. */
  function Encrypt(p: Primitives, data: string, key: seq<byte>, iv: seq<byte>): (r: Result<string, CryptoError>)
    requires |iv| == IV_LENGTH
    ensures r.Err? <==> |key| != KEY_LENGTH
    ensures r.Err? ==> r.error == InvalidKeyLength
    ensures Lawful(p) && r.Ok? ==> IsLowerHex(r.value) && |r.value| >= 4 * IV_LENGTH
    ensures Lawful(p) && r.Ok? ==>
              var s := p.seal(key, iv, Utf8.Encode(data));
              |s.tag| == AUTH_TAG_LENGTH && r.value == Frame(iv, s.tag, s.ciphertext)
  {
    if |key| != KEY_LENGTH then Err(InvalidKeyLength)
    else
      var sealed := p.seal(key, iv, Utf8.Encode(data));
      HexEncodeAppend(iv, sealed.tag);
      HexEncodeAppend(iv + sealed.tag, sealed.ciphertext);
      Ok(Frame(iv, sealed.tag, sealed.ciphertext))
  }

  /** What `encrypt` writes is read back by the fixed offsets as the IV it
      was given and the tag and ciphertext the cipher produced. */
  lemma EncryptUnframes(p: Primitives, data: string, key: seq<byte>, iv: seq<byte>)
    requires Lawful(p) && |key| == KEY_LENGTH && |iv| == IV_LENGTH
    ensures Encrypt(p, data, key, iv).Ok?
    ensures var s := p.seal(key, iv, Utf8.Encode(data));
            Unframe(Encrypt(p, data, key, iv).value) == (iv, s.tag, s.ciphertext)
  {
    var s := p.seal(key, iv, Utf8.Encode(data));
    FramingRoundTrip(iv, s.tag, s.ciphertext);
  }

  /** `decrypt(encryptedData, key)`: unframe, open, decode the UTF-8. The IV
      and the tag are read by `Buffer.from`, which checks nothing, but the
      ciphertext's hex goes to `decipher.update`, which refuses an odd
      number of code units before deciphering anything. */
  function Decrypt(p: Primitives, encryptedData: string, key: seq<byte>): (r: Result<string, CryptoError>)
    ensures |key| != KEY_LENGTH ==> r == Err(InvalidKeyLength)
    ensures |key| == KEY_LENGTH ==>
              (r == Err(OddHexLength) <==> JsLength(CiphertextHex(encryptedData)) % 2 == 1)
    ensures r.Ok? ==> |key| == KEY_LENGTH && JsLength(CiphertextHex(encryptedData)) % 2 == 0
  {
    var (iv, tag, ciphertext) := Unframe(encryptedData);
    if |key| != KEY_LENGTH then Err(InvalidKeyLength)
    else if JsLength(CiphertextHex(encryptedData)) % 2 == 1 then Err(OddHexLength)
    else match p.open(key, iv, tag, ciphertext)
      case None => Err(IntegrityError)
      case Some(plain) =>
        match Utf8.Decode(plain)
        case None => Err(MalformedUtf8)
        case Some(text) => Ok(text)
  }

  /** `decrypt(encrypt(d, k), k) == d`. */
  lemma EncryptDecrypt(p: Primitives, data: string, key: seq<byte>, iv: seq<byte>)
    requires Lawful(p) && |key| == KEY_LENGTH && |iv| == IV_LENGTH
    ensures Encrypt(p, data, key, iv).Ok?
    ensures Decrypt(p, Encrypt(p, data, key, iv).value, key) == Ok(data)
  {
    var sealed := p.seal(key, iv, Utf8.Encode(data));
    FramingRoundTrip(iv, sealed.tag, sealed.ciphertext);
    FrameCiphertextHex(iv, sealed.tag, sealed.ciphertext);
    HexEncodeUnits(sealed.ciphertext);
    Utf8.DecodeEncode(data);
  }

  /** Text after a frame of at least 64 characters extends its ciphertext
      part. */
  lemma CiphertextHexAppend(s: string, tail: string)
    requires |s| >= (IV_LENGTH + AUTH_TAG_LENGTH) * 2
    ensures CiphertextHex(s + tail) == CiphertextHex(s) + tail
  {
    assert (s + tail)[64..] == s[64..] + tail;
  }

  /** An authentic frame with one more character after it is refused, the
      ciphertext's hex then being of odd length. */
  lemma AppendedCharacterRejected(p: Primitives, data: string, key: seq<byte>, iv: seq<byte>, c: char)
    requires Lawful(p) && |key| == KEY_LENGTH && |iv| == IV_LENGTH && c as int < 0x1_0000
    ensures Encrypt(p, data, key, iv).Ok?
    ensures Decrypt(p, Encrypt(p, data, key, iv).value + [c], key) == Err(OddHexLength)
  {
    var sealed := p.seal(key, iv, Utf8.Encode(data));
    var s := Frame(iv, sealed.tag, sealed.ciphertext);
    assert Encrypt(p, data, key, iv).value == s;
    FrameCiphertextHex(iv, sealed.tag, sealed.ciphertext);
    HexEncodeUnits(sealed.ciphertext);
    CiphertextHexAppend(s, [c]);
    JsLengthAppend(CiphertextHex(s), [c]);
    assert JsLength([c]) == 1 by {
      assert [c][1..] == [];
    }
    OddHexRejected(p, s + [c], key, |sealed.ciphertext|);
  }

  lemma OddHexRejected(p: Primitives, s: string, key: seq<byte>, n: nat)
    requires |key| == KEY_LENGTH && JsLength(CiphertextHex(s)) == 2 * n + 1
    ensures Decrypt(p, s, key) == Err(OddHexLength)
  {
    OddParity(n);
  }

  lemma OddParity(n: nat)
    ensures (2 * n + 1) % 2 == 1
  {
  }

  /** A frame whose 16-byte tag is not the one encryption produced makes
      decrypt fail with an integrity error, never return text. */
  lemma TamperedTagFails(p: Primitives, data: string, key: seq<byte>, iv: seq<byte>, forged: seq<byte>)
    requires Lawful(p) && |key| == KEY_LENGTH && |iv| == IV_LENGTH
    requires |forged| == AUTH_TAG_LENGTH
    requires forged != p.seal(key, iv, Utf8.Encode(data)).tag
    ensures Decrypt(p, Frame(iv, forged, p.seal(key, iv, Utf8.Encode(data)).ciphertext), key)
            == Err(IntegrityError)
  {
    var sealed := p.seal(key, iv, Utf8.Encode(data));
    FramingRoundTrip(iv, forged, sealed.ciphertext);
    FrameCiphertextHex(iv, forged, sealed.ciphertext);
    HexEncodeUnits(sealed.ciphertext);
  }

  /** The random bytes one envelope encryption draws: the DEK
      (`randomBytes(32)`) and the IVs of its two encryptions
      (`randomBytes(16)` each). */
  datatype Entropy = Entropy(dek: seq<byte>, tokenIv: seq<byte>, dekIv: seq<byte>)

  predicate WellFormed(e: Entropy) {
    |e.dek| == KEY_LENGTH && |e.tokenIv| == IV_LENGTH && |e.dekIv| == IV_LENGTH
  }

  datatype Envelope = Envelope(encryptedToken: string, encryptedDek: string)

  /** `envelopeEncrypt(token)`: the token under the DEK, and the DEK's hex
      under the master key. A missing master key is an error and produces
      no ciphertext. */
  function EnvelopeEncrypt(p: Primitives, env: Env, token: string, e: Entropy): (r: Result<Envelope, CryptoError>)
    requires WellFormed(e)
    ensures !Truthy(env.masterKey) ==> r == Err(MissingMasterKey)
    ensures Lawful(p) ==> (r.Ok? <==> Truthy(env.masterKey))
  {
    match GetMasterKey(p, env)
    case Err(err) => Err(err)
    case Ok(masterKey) =>
      match Encrypt(p, token, e.dek, e.tokenIv)
      case Err(err) => Err(err)
      case Ok(encryptedToken) =>
        match Encrypt(p, HexEncode(e.dek), masterKey, e.dekIv)
        case Err(err) => Err(err)
        case Ok(encryptedDek) => Ok(Envelope(encryptedToken, encryptedDek))
  }

  /** `envelopeDecrypt(encryptedToken, encryptedDek)`: recover the DEK under
      the master key, hex-decode it, then decrypt the token under it. */
  function EnvelopeDecrypt(p: Primitives, env: Env, encryptedToken: string, encryptedDek: string): (r: Result<string, CryptoError>)
    ensures !Truthy(env.masterKey) ==> r == Err(MissingMasterKey)
  {
    match GetMasterKey(p, env)
    case Err(err) => Err(err)
    case Ok(masterKey) =>
      match Decrypt(p, encryptedDek, masterKey)
      case Err(err) => Err(err)
      case Ok(dekHex) => Decrypt(p, encryptedToken, HexDecode(dekHex))
  }

  /** The DEK travels as 64 hex characters and comes back unchanged. */
  lemma DekHexRoundTrip(dek: seq<byte>)
    requires |dek| == KEY_LENGTH
    ensures |HexEncode(dek)| == 64 && HexDecode(HexEncode(dek)) == dek
  {
    HexRoundTrip(dek);
  }

  /** Envelope round trip under a fixed, configured master key. */
  lemma EnvelopeRoundTrip(p: Primitives, env: Env, token: string, e: Entropy)
    requires Lawful(p) && Truthy(env.masterKey) && WellFormed(e)
    ensures EnvelopeEncrypt(p, env, token, e).Ok?
    ensures var v := EnvelopeEncrypt(p, env, token, e).value;
            EnvelopeDecrypt(p, env, v.encryptedToken, v.encryptedDek) == Ok(token)
  {
    var masterKey := GetMasterKey(p, env).value;
    EncryptDecrypt(p, token, e.dek, e.tokenIv);
    EncryptDecrypt(p, HexEncode(e.dek), masterKey, e.dekIv);
    DekHexRoundTrip(e.dek);
  }

  /** `getPepper()`. */
  function GetPepper(env: Env): (r: Result<string, CryptoError>)
    ensures r.Err? <==> !Truthy(env.pepper)
    ensures r.Err? ==> r.error == MissingPepper
    ensures r.Ok? ==> r.value != "" && Some(r.value) == env.pepper
  {
    if !Truthy(env.pepper) then Err(MissingPepper) else Ok(env.pepper.value)
  }

  /** `hashWithPepper(token)`, the blind index: lower-case hex, 64 characters
      when SHA-256 is lawful; a missing pepper is an error. */
  function HashWithPepper(p: Primitives, env: Env, token: string): (r: Result<string, CryptoError>)
    ensures r.Err? <==> !Truthy(env.pepper)
    ensures r.Err? ==> r.error == MissingPepper
    ensures r.Ok? ==> IsLowerHex(r.value)
    ensures Lawful(p) && r.Ok? ==> |r.value| == 64
  {
    match GetPepper(env)
    case Err(err) => Err(err)
    case Ok(pepper) => Ok(HexEncode(p.sha256(Utf8.Encode(token + pepper))))
  }

  /** The blind index depends on the token and the pepper only: it is the
      same across restarts and whatever the master key, as long as the
      pepper is unchanged. */
  lemma HashDependsOnPepperOnly(p: Primitives, env1: Env, env2: Env, token: string)
    requires env1.pepper == env2.pepper
    ensures HashWithPepper(p, env1, token) == HashWithPepper(p, env2, token)
  {
  }

  /** `verifyHashWithPepper(token, hash)`: true exactly when `hash` is the
      token's blind index. */
  function VerifyHashWithPepper(p: Primitives, env: Env, token: string, hash: string): (r: Result<bool, CryptoError>)
    ensures r.Err? <==> !Truthy(env.pepper)
    ensures r.Ok? ==> (r.value <==> HashWithPepper(p, env, token) == Ok(hash))
  {
    match HashWithPepper(p, env, token)
    case Err(err) => Err(err)
    case Ok(computed) => Ok(computed == hash)
  }

  /** A token always verifies against its own blind index. */
  lemma VerifyOwnHash(p: Primitives, env: Env, token: string)
    requires Truthy(env.pepper)
    ensures VerifyHashWithPepper(p, env, token, HashWithPepper(p, env, token).value) == Ok(true)
  {
  }
}
