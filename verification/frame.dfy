/** The binary layout of a hybrid envelope (src/utils.py).

    A blob is  uint16-BE len(k) ++ k ++ nonce ++ tag ++ ciphertext,
    where k is the RSA-OAEP-wrapped session key, the nonce is PyCryptodome's
    default 16-byte GCM nonce and the tag is the 16-byte GCM tag. Parsing uses
    Python slices, which clamp at the end of the data instead of failing. */
module Framing {
  import opened Results

  /** A byte, as Python's `bytes` holds it. */
  type byte = b: int | 0 <= b < 256

  type bytes = seq<byte>

  /** The exceptions raised on the path from a blob to a plaintext and back. */
  datatype Error =
    | StructError        // struct.pack / struct.unpack with '>H'
    | RsaError           // RSA.import_key or PKCS1_OAEP rejecting its input
    | MacCheckFailed     // AES-GCM decrypt_and_verify: tag mismatch
    | Base64Error        // base64.b64decode: malformed text
    | UnicodeDecodeError // bytes.decode(): not UTF-8

  /** Size of the '>H' length prefix. */
  const PrefixSize := 2
  /** Largest length '>H' can pack. */
  const MaxKeyLen := 65535
  /** PyCryptodome's default GCM nonce: 16 bytes. */
  const NonceSize := 16
  /** GCM tag: 128 bits. */
  const TagSize := 16

  /** The four fields a blob carries after its length prefix. */
  datatype Envelope = Envelope(wrappedKey: bytes, nonce: bytes, tag: bytes, ciphertext: bytes)

  /** The fields laid end to end, in blob order. */
  function Body(e: Envelope): bytes {
    e.wrappedKey + e.nonce + e.tag + e.ciphertext
  }

  /** The unsigned big-endian value of two bytes. */
  function BigEndian(hi: byte, lo: byte): nat {
    hi * 256 + lo
  }

  /** struct.pack(">H", n): two bytes, or struct.error outside 0..65535. */
  function PackU16(n: int): (r: Result<bytes, Error>)
    ensures r.Ok? <==> 0 <= n <= MaxKeyLen
    ensures r.Ok? ==> |r.value| == PrefixSize && BigEndian(r.value[0], r.value[1]) == n
  {
    if 0 <= n <= MaxKeyLen then Ok([n / 256, n % 256]) else Fail(StructError)
  }

  /** struct.unpack(">H", b)[0]: exactly two bytes are required. */
  function UnpackU16(b: bytes): (r: Result<nat, Error>)
    ensures r.Ok? <==> |b| == PrefixSize
    ensures r.Ok? ==> r.value <= MaxKeyLen
  {
    if |b| == PrefixSize then Ok(BigEndian(b[0], b[1])) else Fail(StructError)
  }

  /** Packing then unpacking a length gives the length back. */
  lemma PackThenUnpack(n: int)
    requires 0 <= n <= MaxKeyLen
    ensures UnpackU16(PackU16(n).value) == Ok(n)
  {
  }

  /** Unpacking then packing two bytes gives the same two bytes. */
  lemma UnpackThenPack(b: bytes)
    requires |b| == PrefixSize
    ensures PackU16(UnpackU16(b).value) == Ok(b)
  {
    var n := BigEndian(b[0], b[1]);
    assert n / 256 == b[0] && n % 256 == b[1];
    assert PackU16(n).value == [b[0], b[1]] == b;
  }

  /** Python's index clamping: a bound past the end means the end. */
  function Clamp(i: nat, n: nat): nat {
    if i < n then i else n
  }

  /** Python's `d[i:j]` for non-negative bounds: never fails; empty when j <= i
      or when i is past the end. */
  function Slice(d: bytes, i: nat, j: nat): (r: bytes)
    ensures |r| <= |d|
    ensures |r| == (if Clamp(j, |d|) <= Clamp(i, |d|) then 0 else Clamp(j, |d|) - Clamp(i, |d|))
    ensures forall k :: 0 <= k < |r| ==> r[k] == d[i + k]
  {
    if Clamp(j, |d|) <= Clamp(i, |d|) then [] else d[Clamp(i, |d|)..Clamp(j, |d|)]
  }

  /** The frame built by hybrid_encrypt: the '>H' prefix of the wrapped key's
      length, then the four fields. Fails exactly when the length does not fit. */
  function Frame(e: Envelope): (r: Result<bytes, Error>)
    ensures r.Ok? <==> |e.wrappedKey| <= MaxKeyLen
    ensures r.Ok? ==> |r.value| == PrefixSize + |e.wrappedKey| + |e.nonce| + |e.tag| + |e.ciphertext|
    ensures r.Ok? ==> UnpackU16(r.value[..PrefixSize]) == Ok(|e.wrappedKey|)
    ensures r.Ok? ==> r.value[PrefixSize..] == Body(e)
  {
    var prefix :- PackU16(|e.wrappedKey|);
    Ok(prefix + Body(e))
  }

  /** The fields hybrid_decrypt slices out of a blob: the first two bytes give
      klen; then [2:2+klen], [2+klen:18+klen], [18+klen:34+klen] and [34+klen:].
      Only data shorter than the prefix fails. */
  function Parse(d: bytes): (r: Result<Envelope, Error>)
    ensures r.Ok? <==> |d| >= PrefixSize
    ensures r.Ok? ==> d == d[..PrefixSize] + Body(r.value)
    ensures r.Ok? ==> |r.value.wrappedKey| <= UnpackU16(d[..PrefixSize]).value
    ensures r.Ok? ==> |r.value.nonce| <= NonceSize && |r.value.tag| <= TagSize
    ensures r.Ok? && |d| >= PrefixSize + UnpackU16(d[..PrefixSize]).value + NonceSize + TagSize ==>
              && |r.value.wrappedKey| == UnpackU16(d[..PrefixSize]).value
              && |r.value.nonce| == NonceSize
              && |r.value.tag| == TagSize
  {
    var klen :- UnpackU16(Slice(d, 0, PrefixSize));
    var nonceAt := PrefixSize + klen;
    var tagAt := nonceAt + NonceSize;
    var ctAt := tagAt + TagSize;
    var e := Envelope(Slice(d, PrefixSize, nonceAt), Slice(d, nonceAt, tagAt), Slice(d, tagAt, ctAt), Slice(d, ctAt, |d|));
    assert Slice(d, 0, PrefixSize) == d[..PrefixSize];
    PartitionOfSlices(d, PrefixSize, nonceAt, tagAt, ctAt);
    Ok(e)
  }

  /** Adjacent clamped slices starting at a point within the data cover the
      rest of it exactly once. */
  lemma PartitionOfSlices(d: bytes, a: nat, b: nat, c: nat, e: nat)
    requires a <= |d| && a <= b <= c <= e
    ensures d[a..] == Slice(d, a, b) + Slice(d, b, c) + Slice(d, c, e) + Slice(d, e, |d|)
  {
    var n := |d|;
    assert Slice(d, a, b) == d[a..Clamp(b, n)];
    assert Slice(d, b, c) == d[Clamp(b, n)..Clamp(c, n)];
    assert Slice(d, c, e) == d[Clamp(c, n)..Clamp(e, n)];
    assert Slice(d, e, n) == d[Clamp(e, n)..];
    assert d[a..] == d[a..Clamp(b, n)] + d[Clamp(b, n)..Clamp(c, n)] + d[Clamp(c, n)..Clamp(e, n)] + d[Clamp(e, n)..];
  }

  /** Round trip: with a 16-byte nonce and tag and a key short enough to be
      framed, parsing the frame returns exactly the fields framed. */
  lemma ParseOfFrame(e: Envelope)
    requires |e.wrappedKey| <= MaxKeyLen && |e.nonce| == NonceSize && |e.tag| == TagSize
    ensures Frame(e).Ok?
    ensures Parse(Frame(e).value) == Ok(e)
  {
    var d := Frame(e).value;
    var k := |e.wrappedKey|;
    var p := Parse(d).value;
    assert d[PrefixSize..] == Body(e);
    assert Body(p) == Body(e);
    assert |p.wrappedKey| == k && |p.nonce| == NonceSize && |p.tag| == TagSize;
    assert p.wrappedKey == Body(p)[..k] == Body(e)[..k] == e.wrappedKey;
    assert p.nonce == Body(p)[k..k + NonceSize] == Body(e)[k..k + NonceSize] == e.nonce;
    assert p.tag == Body(p)[k + NonceSize..k + NonceSize + TagSize] == Body(e)[k + NonceSize..k + NonceSize + TagSize] == e.tag;
    assert p.ciphertext == Body(p)[k + NonceSize + TagSize..] == Body(e)[k + NonceSize + TagSize..] == e.ciphertext;
  }

  /** The other direction: data long enough to hold the fixed fields it
      announces is exactly the frame of what it parses to. */
  lemma FrameOfParse(d: bytes)
    requires |d| >= PrefixSize
    requires |d| >= PrefixSize + BigEndian(d[0], d[1]) + NonceSize + TagSize
    ensures Parse(d).Ok?
    ensures Frame(Parse(d).value) == Ok(d)
  {
    var p := Parse(d).value;
    assert UnpackU16(d[..PrefixSize]) == Ok(BigEndian(d[0], d[1]));
    var f := Frame(p).value;
    assert f[..PrefixSize] == d[..PrefixSize] by {
      UnpackThenPack(d[..PrefixSize]);
    }
    assert f == f[..PrefixSize] + f[PrefixSize..];
  }
}
