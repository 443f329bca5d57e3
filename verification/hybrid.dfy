/** Hybrid RSA-OAEP + AES-GCM encryption of a text (src/utils.py).

    The library primitives (RSA-OAEP of RFC 8017 section 7.1, AES-GCM of NIST
    SP 800-38D, base64 of RFC 4648 section 4, UTF-8) are not re-implemented:
    they are the function-valued fields of a `Primitives` record, and the laws
    the model relies on are stated as predicates (`Sound`, `KeyPair`) that the
    lemmas take as preconditions. The randomness of get_random_bytes and of
    the GCM nonce is passed in. */
module Hybrid {
  import opened Results
  import opened Framing

  /** PEM-encoded key material, as read from a key file. */
  type Pem = bytes

  /** get_random_bytes(32): a fresh AES-256 session key. */
  const SessionKeySize := 32

  type SessionKey = k: bytes | |k| == SessionKeySize witness seq(SessionKeySize, _ => 0)

  /** The nonce PyCryptodome picks for AES.new(key, MODE_GCM). */
  type Nonce = n: bytes | |n| == NonceSize witness seq(NonceSize, _ => 0)

  /** The output of encrypt_and_digest. */
  datatype Sealed = Sealed(ciphertext: bytes, tag: bytes)

  /** The primitives hybrid_encrypt and hybrid_decrypt call. */
  datatype Primitives = Primitives(
    oaepEncrypt: (Pem, bytes) -> Result<bytes, Error>,          // PKCS1_OAEP.new(RSA.import_key(pem)).encrypt
    oaepDecrypt: (Pem, bytes) -> Result<bytes, Error>,          // PKCS1_OAEP.new(RSA.import_key(pem)).decrypt
    gcmSeal: (bytes, bytes, bytes) -> Sealed,                   // key, nonce, plaintext: encrypt_and_digest
    gcmOpen: (bytes, bytes, bytes, bytes) -> Result<bytes, Error>, // key, nonce, ciphertext, tag: decrypt_and_verify
    utf8Encode: string -> bytes,                                // str.encode()
    utf8Decode: bytes -> Result<string, Error>,                 // bytes.decode()
    b64Encode: bytes -> string,                                 // base64.b64encode(..).decode()
    b64Decode: string -> Result<bytes, Error>)                  // base64.b64decode

  /** The laws of the symmetric primitives and codecs the round trip relies on:
      GCM with a 32-byte key and 16-byte nonce produces a 16-byte tag and a
      ciphertext as long as the plaintext; it opens what it sealed; the
      ciphertext determines the plaintext; and only genuine sealings verify.
      Base64 and UTF-8 decoding invert encoding. */
  ghost predicate Sound(c: Primitives) {
    && (forall k: bytes, n: bytes, p: bytes | |k| == SessionKeySize && |n| == NonceSize ::
          && |c.gcmSeal(k, n, p).tag| == TagSize
          && |c.gcmSeal(k, n, p).ciphertext| == |p|
          && c.gcmOpen(k, n, c.gcmSeal(k, n, p).ciphertext, c.gcmSeal(k, n, p).tag) == Ok(p))
    && (forall k: bytes, n: bytes, p: bytes, q: bytes | |k| == SessionKeySize && |n| == NonceSize ::
          c.gcmSeal(k, n, p).ciphertext == c.gcmSeal(k, n, q).ciphertext ==> p == q)
    && (forall k: bytes, n: bytes, ct: bytes, t: bytes | c.gcmOpen(k, n, ct, t).Ok? ::
          c.gcmSeal(k, n, c.gcmOpen(k, n, ct, t).value) == Sealed(ct, t))
    && (forall s: string :: c.utf8Decode(c.utf8Encode(s)) == Ok(s))
    && (forall b: bytes :: c.b64Decode(c.b64Encode(b)) == Ok(b))
  }

  /** `pub` and `priv` are the two halves of one RSA key: OAEP unwrapping with
      `priv` inverts every successful wrapping with `pub`. */
  ghost predicate KeyPair(c: Primitives, pub: Pem, priv: Pem) {
    forall m: bytes | c.oaepEncrypt(pub, m).Ok? :: c.oaepDecrypt(priv, c.oaepEncrypt(pub, m).value) == Ok(m)
  }

  /** The envelope hybrid_encrypt frames, before framing. */
  function Seal(c: Primitives, pub: Pem, plaintext: string, sess: SessionKey, nonce: Nonce): (r: Result<Envelope, Error>)
    ensures r.Ok? <==> c.oaepEncrypt(pub, sess).Ok?
    ensures r.Ok? ==> r.value.wrappedKey == c.oaepEncrypt(pub, sess).value && r.value.nonce == nonce
    ensures r.Ok? ==> Sealed(r.value.ciphertext, r.value.tag) == c.gcmSeal(sess, nonce, c.utf8Encode(plaintext))
    ensures r.Ok? && Sound(c) ==>
      && |r.value.tag| == TagSize
      && c.gcmOpen(sess, nonce, r.value.ciphertext, r.value.tag) == Ok(c.utf8Encode(plaintext))
  {
    var wrapped :- c.oaepEncrypt(pub, sess);
    var sealed := c.gcmSeal(sess, nonce, c.utf8Encode(plaintext));
    Ok(Envelope(wrapped, nonce, sealed.tag, sealed.ciphertext))
  }

  /** hybrid_encrypt(pub_pem, plaintext): the base64 text of the framed
      envelope. It fails when OAEP fails (bad key, message too long) or when
      the wrapped key is too long for the '>H' prefix. */
  function HybridEncrypt(c: Primitives, pub: Pem, plaintext: string, sess: SessionKey, nonce: Nonce): (r: Result<string, Error>)
    ensures r.Ok? <==> c.oaepEncrypt(pub, sess).Ok? && |c.oaepEncrypt(pub, sess).value| <= MaxKeyLen
    ensures r.Fail? && c.oaepEncrypt(pub, sess).Ok? ==> r.error == StructError
  {
    var env :- Seal(c, pub, plaintext, sess, nonce);
    var blob :- Frame(env);
    Ok(c.b64Encode(blob))
  }

  /** The GCM-verified plaintext bytes of a blob: base64-decode, parse the
      frame, unwrap the session key, then decrypt-and-verify. */
  function OpenBlob(c: Primitives, priv: Pem, blob: string): (r: Result<bytes, Error>)
    ensures c.b64Decode(blob).Ok? && |c.b64Decode(blob).value| < PrefixSize ==> r == Fail(StructError)
  {
    var data :- c.b64Decode(blob);
    var env :- Parse(data);
    var sess :- c.oaepDecrypt(priv, env.wrappedKey);
    c.gcmOpen(sess, env.nonce, env.ciphertext, env.tag)
  }

  /** hybrid_decrypt(priv_pem, b64blob). No text is ever returned unless the
      GCM tag verified: success means every step before decoding succeeded and
      decrypt_and_verify accepted the ciphertext and tag parsed from the blob. */
  function HybridDecrypt(c: Primitives, priv: Pem, blob: string): (r: Result<string, Error>)
    ensures r.Ok? ==>
      && c.b64Decode(blob).Ok?
      && Parse(c.b64Decode(blob).value).Ok?
      && var env := Parse(c.b64Decode(blob).value).value;
      && c.oaepDecrypt(priv, env.wrappedKey).Ok?
      && c.gcmOpen(c.oaepDecrypt(priv, env.wrappedKey).value, env.nonce, env.ciphertext, env.tag).Ok?
      && c.utf8Decode(c.gcmOpen(c.oaepDecrypt(priv, env.wrappedKey).value, env.nonce, env.ciphertext, env.tag).value) == r
  {
    var plain :- OpenBlob(c, priv, blob);
    c.utf8Decode(plain)
  }

  /** With sound primitives, the sealed envelope carries a 16-byte tag and a
      ciphertext as long as the UTF-8 plaintext, so the blob is
      2 + |wrapped key| + 32 + |UTF-8 plaintext| bytes long. */
  lemma EncryptShape(c: Primitives, pub: Pem, plaintext: string, sess: SessionKey, nonce: Nonce)
    requires Sound(c)
    requires HybridEncrypt(c, pub, plaintext, sess, nonce).Ok?
    ensures c.b64Decode(HybridEncrypt(c, pub, plaintext, sess, nonce).value).Ok?
    ensures |c.b64Decode(HybridEncrypt(c, pub, plaintext, sess, nonce).value).value|
            == PrefixSize + |c.oaepEncrypt(pub, sess).value| + NonceSize + TagSize + |c.utf8Encode(plaintext)|
  {
    var env := Seal(c, pub, plaintext, sess, nonce).value;
    var sealed := c.gcmSeal(sess, nonce, c.utf8Encode(plaintext));
    assert |sealed.tag| == TagSize && |sealed.ciphertext| == |c.utf8Encode(plaintext)|;
    assert c.b64Decode(c.b64Encode(Frame(env).value)) == Ok(Frame(env).value);
  }

  /** End-to-end round trip: for a matching key pair and sound primitives,
      whatever hybrid_encrypt produces, hybrid_decrypt turns back into the
      original text. */
  lemma DecryptOfEncrypt(c: Primitives, pub: Pem, priv: Pem, plaintext: string, sess: SessionKey, nonce: Nonce)
    requires Sound(c) && KeyPair(c, pub, priv)
    requires HybridEncrypt(c, pub, plaintext, sess, nonce).Ok?
    ensures HybridDecrypt(c, priv, HybridEncrypt(c, pub, plaintext, sess, nonce).value) == Ok(plaintext)
  {
    var env := Seal(c, pub, plaintext, sess, nonce).value;
    var pt := c.utf8Encode(plaintext);
    var sealed := c.gcmSeal(sess, nonce, pt);
    assert |sealed.tag| == TagSize;
    ParseOfFrame(env);
    var blob := Frame(env).value;
    assert c.b64Decode(c.b64Encode(blob)) == Ok(blob);
    assert c.oaepDecrypt(priv, env.wrappedKey) == Ok(sess);
    assert c.gcmOpen(sess, nonce, sealed.ciphertext, sealed.tag) == Ok(pt);
    assert OpenBlob(c, priv, c.b64Encode(blob)) == Ok(pt);
  }

  /** Tamper detection for the tag: re-framing an envelope produced by
      hybrid_encrypt with any other tag makes decryption fail instead of
      returning some text. */
  lemma ForgedTagRejected(c: Primitives, pub: Pem, priv: Pem, plaintext: string, sess: SessionKey, nonce: Nonce, forged: bytes)
    requires Sound(c) && KeyPair(c, pub, priv)
    requires Seal(c, pub, plaintext, sess, nonce).Ok?
    requires |Seal(c, pub, plaintext, sess, nonce).value.wrappedKey| <= MaxKeyLen
    requires |forged| == TagSize && forged != Seal(c, pub, plaintext, sess, nonce).value.tag
    ensures HybridDecrypt(c, priv, c.b64Encode(Frame(Seal(c, pub, plaintext, sess, nonce).value.(tag := forged)).value)).Fail?
  {
    var env := Seal(c, pub, plaintext, sess, nonce).value;
    var bad := env.(tag := forged);
    var pt := c.utf8Encode(plaintext);
    ParseOfFrame(bad);
    var blob := Frame(bad).value;
    assert c.b64Decode(c.b64Encode(blob)) == Ok(blob);
    assert c.oaepDecrypt(priv, env.wrappedKey) == Ok(sess);
    assert c.gcmSeal(sess, nonce, pt).ciphertext == env.ciphertext;
    assert c.gcmOpen(sess, nonce, env.ciphertext, forged).Fail?;
    assert OpenBlob(c, priv, c.b64Encode(blob)).Fail?;
  }

  // ----- the laws are satisfiable -----

  /** A 16-byte all-zero tag. */
  function ZeroTag(): (t: bytes)
    ensures |t| == TagSize
  {
    seq(TagSize, _ => 0)
  }

  /** One character as three bytes, most significant first. */
  function CharBytes(ch: char): (b: bytes)
    ensures |b| == 3 && b[0] as int * 65536 + b[1] as int * 256 + b[2] as int == ch as int
  {
    var n := ch as int;
    [n / 65536, (n / 256) % 256, n % 256]
  }

  function ToyEncode(s: string): (b: bytes)
    ensures |b| == 3 * |s|
  {
    if |s| == 0 then [] else CharBytes(s[0]) + ToyEncode(s[1..])
  }

  function ToyDecode(b: bytes): (r: Result<string, Error>)
    decreases |b|
  {
    if |b| == 0 then Ok([])
    else if |b| < 3 then Fail(UnicodeDecodeError)
    else
      var n := b[0] as int * 65536 + b[1] as int * 256 + b[2] as int;
      if !(0 <= n < 0xD800 || 0xE000 <= n < 0x11_0000) then Fail(UnicodeDecodeError)
      else
        var rest :- ToyDecode(b[3..]);
        Ok([n as char] + rest)
  }

  lemma {:induction false} ToyDecodeEncode(s: string)
    ensures ToyDecode(ToyEncode(s)) == Ok(s)
    decreases |s|
  {
    if |s| > 0 {
      var b := ToyEncode(s);
      assert b[..3] == CharBytes(s[0]) && b[3..] == ToyEncode(s[1..]);
      ToyDecodeEncode(s[1..]);
      assert [s[0]] + s[1..] == s;
    }
  }

  function ToyB64Decode(t: string): Result<bytes, Error> {
    if forall i :: 0 <= i < |t| ==> t[i] as int < 256
    then Ok(seq(|t|, i requires 0 <= i < |t| => t[i] as int))
    else Fail(Base64Error)
  }

  /** An instance of the primitives: OAEP is the identity, GCM leaves the
      plaintext as ciphertext under a constant tag, UTF-8 writes three bytes
      per character, and base64 writes one character per byte. */
  function Toy(): Primitives {
    Primitives(
      (pem: Pem, m: bytes) => Ok(m),
      (pem: Pem, m: bytes) => Ok(m),
      (k: bytes, n: bytes, p: bytes) => Sealed(p, ZeroTag()),
      (k: bytes, n: bytes, ct: bytes, t: bytes) => if t == ZeroTag() then Ok(ct) else Fail(MacCheckFailed),
      ToyEncode,
      ToyDecode,
      (b: bytes) => seq(|b|, i requires 0 <= i < |b| => b[i] as char),
      ToyB64Decode)
  }

  /** The laws the hybrid lemmas assume can all hold at once, so those
      lemmas are not vacuous. */
  lemma LawsSatisfiable()
    ensures Sound(Toy()) && KeyPair(Toy(), [], [])
  {
    ToyGcm();
    ToyCodecs();
  }

  /** The GCM laws of Sound hold for Toy(). */
  lemma ToyGcm()
    ensures var c := Toy();
      && (forall k: bytes, n: bytes, p: bytes | |k| == SessionKeySize && |n| == NonceSize ::
            && |c.gcmSeal(k, n, p).tag| == TagSize
            && |c.gcmSeal(k, n, p).ciphertext| == |p|
            && c.gcmOpen(k, n, c.gcmSeal(k, n, p).ciphertext, c.gcmSeal(k, n, p).tag) == Ok(p))
      && (forall k: bytes, n: bytes, p: bytes, q: bytes | |k| == SessionKeySize && |n| == NonceSize ::
            c.gcmSeal(k, n, p).ciphertext == c.gcmSeal(k, n, q).ciphertext ==> p == q)
      && (forall k: bytes, n: bytes, ct: bytes, t: bytes | c.gcmOpen(k, n, ct, t).Ok? ::
            c.gcmSeal(k, n, c.gcmOpen(k, n, ct, t).value) == Sealed(ct, t))
  {
  }

  /** The codec laws of Sound hold for Toy(). */
  lemma ToyCodecs()
    ensures forall s: string :: Toy().utf8Decode(Toy().utf8Encode(s)) == Ok(s)
    ensures forall b: bytes :: Toy().b64Decode(Toy().b64Encode(b)) == Ok(b)
  {
    var c := Toy();
    forall s: string ensures c.utf8Decode(c.utf8Encode(s)) == Ok(s) {
      ToyDecodeEncode(s);
    }
    forall b: bytes ensures c.b64Decode(c.b64Encode(b)) == Ok(b) {
      var t := c.b64Encode(b);
      assert seq(|t|, i requires 0 <= i < |t| => t[i] as int) == b;
    }
  }
}
