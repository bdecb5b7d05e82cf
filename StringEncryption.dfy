/**
  The part of `Encrypt`/`Decrypt` that the extension methods implement
  themselves: the argument guards, the truncation of the SHA-512 digest of
  the key to a 24-byte AES key, and the envelope that puts the initialisation
  vector in front of the ciphertext. UTF-8, SHA-512, AES and base64 are
  library calls whose code is not part of this model; they are the fields of
  a `CryptoLibrary` value passed in, and the random initialisation vector of
  `Aes.Create()` is a parameter.
 */
module StringEncryption {
  import opened Wrappers
  import opened Text

  newtype byte = x: int | 0 <= x < 256

  /** Bytes in a SHA-512 digest. */
  const DigestSize := 64
  /** Bytes of the digest kept as the AES key (an AES-192 key). */
  const KeySize := 24
  /** Bytes in an AES block, and so in the initialisation vector. */
  const BlockSize := 16

  type Digest = s: seq<byte> | |s| == DigestSize witness seq(64, _ => 0)
  type AesKeyBytes = s: seq<byte> | |s| == KeySize witness seq(24, _ => 0)
  type Block = s: seq<byte> | |s| == BlockSize witness seq(16, _ => 0)

  /** The library calls `Encrypt` and `Decrypt` make. `aesDecrypt` gives
      `None` where the decryptor throws a `CryptographicException` (a bad
      padding), `fromBase64` gives `None` where `Convert.FromBase64String`
      throws a `FormatException`. */
  datatype CryptoLibrary = CryptoLibrary(
    utf8Encode: string -> seq<byte>,
    utf8Decode: seq<byte> -> string,
    sha512: seq<byte> -> Digest,
    aesEncrypt: (AesKeyBytes, Block, seq<byte>) -> seq<byte>,
    aesDecrypt: (AesKeyBytes, Block, seq<byte>) -> Option<seq<byte>>,
    toBase64: seq<byte> -> string,
    fromBase64: string -> Option<seq<byte>>)

  /** What the library calls promise each other: decoding undoes encoding
      for UTF-8, AES under the same key and vector, and base64, and base64
      turns every three bytes, the last group padded, into four characters
      (section 4 of RFC 4648). */
  ghost predicate InverseLaws(lib: CryptoLibrary) {
    (forall s: string :: lib.utf8Decode(lib.utf8Encode(s)) == s) &&
    (forall k: AesKeyBytes, iv: Block, p: seq<byte> :: lib.aesDecrypt(k, iv, lib.aesEncrypt(k, iv, p)) == Some(p)) &&
    (forall b: seq<byte> :: lib.fromBase64(lib.toBase64(b)) == Some(b)) &&
    (forall b: seq<byte> :: |lib.toBase64(b)| == 4 * ((|b| + 2) / 3))
  }

  // ---------------------------------------------------------------------------
  // The key and the envelope
  // ---------------------------------------------------------------------------

  /** The AES key both methods use: the first 24 bytes of the SHA-512 digest
      of the key's UTF-8 bytes. */
  function AesKey(lib: CryptoLibrary, key: string): AesKeyBytes {
    lib.sha512(lib.utf8Encode(key))[..KeySize]
  }

  /** The bytes `Encrypt` encodes: the vector, then the ciphertext. */
  function Envelope(iv: Block, ciphertext: seq<byte>): seq<byte> {
    iv + ciphertext
  }

  /** How `Decrypt` takes an envelope apart: the first 16 bytes are the
      vector and the rest is the ciphertext; fewer than 16 bytes make the
      ciphertext array's length negative, and `new byte[...]` throws. */
  function SplitEnvelope(combined: seq<byte>): Result<(Block, seq<byte>)> {
    if |combined| < BlockSize then Throws(Overflow)
    else Ok((combined[..BlockSize], combined[BlockSize..]))
  }

  /** Splitting an envelope gives back the vector and the ciphertext. */
  lemma SplitEnvelopeOfEnvelope(iv: Block, ciphertext: seq<byte>)
    ensures SplitEnvelope(Envelope(iv, ciphertext)) == Ok((iv, ciphertext))
  {
    assert (iv + ciphertext)[..BlockSize] == iv;
    assert (iv + ciphertext)[BlockSize..] == ciphertext;
  }

  /** Whatever splits without a fault is the envelope of its two parts. */
  lemma EnvelopeOfSplitEnvelope(combined: seq<byte>)
    requires SplitEnvelope(combined).Ok?
    ensures var (iv, ciphertext) := SplitEnvelope(combined).value; Envelope(iv, ciphertext) == combined
  {
    assert combined[..BlockSize] + combined[BlockSize..] == combined;
  }

  /** Exactly the envelopes shorter than a block fault, with an overflow. */
  lemma ShortEnvelopeFaults(combined: seq<byte>)
    ensures SplitEnvelope(combined).Throws? <==> |combined| < BlockSize
    ensures SplitEnvelope(combined).Throws? ==> SplitEnvelope(combined).error == Overflow
  {
  }

  // ---------------------------------------------------------------------------
  // What the two methods return or throw
  // ---------------------------------------------------------------------------

  /** `Encrypt(text, key)` with the vector `iv`: the key is checked before the
      text, and the result is the base64 of the envelope of the AES
      ciphertext of the text's UTF-8 bytes. */
  function EncryptValue(lib: CryptoLibrary, text: Option<string>, key: Option<string>, iv: Block): Result<string> {
    if IsNullOrEmpty(key) then Throws(Argument("key"))
    else if IsNullOrEmpty(text) then Throws(Argument("text"))
    else Ok(lib.toBase64(Envelope(iv, lib.aesEncrypt(AesKey(lib, key.value), iv, lib.utf8Encode(text.value)))))
  }

  /** `Decrypt(encryptedText, key)`: the key is checked before the text; then
      the base64 is decoded, the envelope split, the ciphertext decrypted
      with the vector it carried, and the bytes read as UTF-8. */
  function DecryptValue(lib: CryptoLibrary, encryptedText: Option<string>, key: Option<string>): Result<string> {
    if IsNullOrEmpty(key) then Throws(Argument("key"))
    else if IsNullOrEmpty(encryptedText) then Throws(Argument("encryptedText"))
    else match lib.fromBase64(encryptedText.value)
      case None => Throws(Format)
      case Some(combined) =>
        match SplitEnvelope(combined)
          case Throws(e) => Throws(e)
          case Ok((iv, ciphertext)) =>
            match lib.aesDecrypt(AesKey(lib, key.value), iv, ciphertext)
              case None => Throws(Cryptographic)
              case Some(plain) => Ok(lib.utf8Decode(plain))
  }

  /** The key is checked first: a missing key is reported even when the text
      is missing too, by both methods. */
  lemma KeyCheckedFirst(lib: CryptoLibrary, text: Option<string>, key: Option<string>, iv: Block)
    requires IsNullOrEmpty(key)
    ensures EncryptValue(lib, text, key, iv) == Throws(Argument("key"))
    ensures DecryptValue(lib, text, key) == Throws(Argument("key"))
  {
  }

  /** With a key, a missing text is the only other argument fault. */
  lemma TextCheckedSecond(lib: CryptoLibrary, text: Option<string>, key: Option<string>, iv: Block)
    requires !IsNullOrEmpty(key)
    ensures EncryptValue(lib, text, key, iv).Throws? <==> IsNullOrEmpty(text)
    ensures IsNullOrEmpty(text) ==> EncryptValue(lib, text, key, iv) == Throws(Argument("text"))
    ensures IsNullOrEmpty(text) ==> DecryptValue(lib, text, key) == Throws(Argument("encryptedText"))
  {
  }

  /** Base64 text that decodes to fewer than 16 bytes faults with an
      overflow once the arguments are valid. */
  lemma DecryptShortEnvelope(lib: CryptoLibrary, encryptedText: string, key: string)
    requires encryptedText != [] && key != []
    requires lib.fromBase64(encryptedText).Some? && |lib.fromBase64(encryptedText).value| < BlockSize
    ensures DecryptValue(lib, Some(encryptedText), Some(key)) == Throws(Overflow)
  {
  }

  /** Decrypting what `Encrypt` produced under the same key gives the text
      back, whatever the vector, as long as the library calls undo each
      other. */
  lemma DecryptOfEncrypt(lib: CryptoLibrary, text: string, key: string, iv: Block)
    requires InverseLaws(lib)
    requires text != [] && key != []
    ensures EncryptValue(lib, Some(text), Some(key), iv).Ok?
    ensures DecryptValue(lib, Some(EncryptValue(lib, Some(text), Some(key), iv).value), Some(key)) == Ok(text)
  {
    var k := AesKey(lib, key);
    var plain := lib.utf8Encode(text);
    var ciphertext := lib.aesEncrypt(k, iv, plain);
    var combined := Envelope(iv, ciphertext);
    var encoded := lib.toBase64(combined);
    assert |encoded| == 4 * ((|combined| + 2) / 3);
    assert lib.fromBase64(encoded) == Some(combined);
    SplitEnvelopeOfEnvelope(iv, ciphertext);
    assert lib.aesDecrypt(k, iv, ciphertext) == Some(plain);
    assert lib.utf8Decode(plain) == text;
  }

  /** The library's own encryption test: `"Hello World!"` under
      `"secret-string-to-encrypt"` comes back unchanged. */
  lemma HelloWorldRoundTrip(lib: CryptoLibrary, iv: Block, text: string, key: string)
    requires InverseLaws(lib)
    requires text == "Hello World!" && key == "secret-string-to-encrypt"
    ensures EncryptValue(lib, Some(text), Some(key), iv).Ok?
    ensures DecryptValue(lib, Some(EncryptValue(lib, Some(text), Some(key), iv).value), Some(key)) == Ok(text)
  {
    DecryptOfEncrypt(lib, text, key, iv);
  }

  // ---------------------------------------------------------------------------
  // The methods, with their byte arrays
  // ---------------------------------------------------------------------------

  /** A fresh array holding `s`. */
  method ToArray(s: seq<byte>) returns (a: array<byte>)
    ensures fresh(a) && a[..] == s
  {
    a := new byte[|s|](i requires 0 <= i < |s| => s[i]);
  }

  /** `Buffer.BlockCopy` and `Array.ConstrainedCopy` between two distinct
      byte arrays: `count` bytes from `src` at `srcOffset` overwrite `dst`
      from `dstOffset`, and the rest of `dst` stays as it was. */
  method CopyBytes(src: array<byte>, srcOffset: nat, dst: array<byte>, dstOffset: nat, count: nat)
    requires src != dst
    requires srcOffset + count <= src.Length && dstOffset + count <= dst.Length
    modifies dst
    ensures dst[..] == old(dst[..dstOffset]) + src[srcOffset..srcOffset + count] + old(dst[dstOffset + count..])
  {
    for i := 0 to count
      invariant dst[..dstOffset] == old(dst[..dstOffset])
      invariant dst[dstOffset + count..] == old(dst[dstOffset + count..])
      invariant dst[dstOffset..dstOffset + i] == src[srcOffset..srcOffset + i]
    {
      dst[dstOffset + i] := src[srcOffset + i];
      assert dst[dstOffset..dstOffset + i + 1] == dst[dstOffset..dstOffset + i] + [dst[dstOffset + i]];
    }
    assert dst[..] == dst[..dstOffset] + dst[dstOffset..dstOffset + count] + dst[dstOffset + count..];
  }

  /** The AES key as both methods build it: a new 24-byte array that the
      first 24 bytes of the digest are block-copied into. */
  method DeriveKey(lib: CryptoLibrary, key: string) returns (aesKey: array<byte>)
    ensures fresh(aesKey) && aesKey[..] == AesKey(lib, key)
  {
    var hash := ToArray(lib.sha512(lib.utf8Encode(key)));
    aesKey := new byte[KeySize];
    CopyBytes(hash, 0, aesKey, 0, KeySize);
    assert aesKey[..] == hash[0..KeySize] + [];
  }

  /** `Encrypt(text, key)` with the vector `iv` that `Aes.Create()` chose. */
  method Encrypt(lib: CryptoLibrary, text: Option<string>, key: Option<string>, iv: Block) returns (r: Result<string>)
    ensures r == EncryptValue(lib, text, key, iv)
  {
    if IsNullOrEmpty(key) {
      return Throws(Argument("key"));
    }
    if IsNullOrEmpty(text) {
      return Throws(Argument("text"));
    }
    var buffer := lib.utf8Encode(text.value);
    var aesKey := DeriveKey(lib, key.value);
    var result := ToArray(lib.aesEncrypt(aesKey[..], iv, buffer));
    var ivBytes := ToArray(iv);
    var combined := new byte[ivBytes.Length + result.Length];
    CopyBytes(ivBytes, 0, combined, 0, ivBytes.Length);
    CopyBytes(result, 0, combined, ivBytes.Length, result.Length);
    assert combined[..] == Envelope(iv, result[..]);
    return Ok(lib.toBase64(combined[..]));
  }

  /** `Decrypt(encryptedText, key)`. */
  method Decrypt(lib: CryptoLibrary, encryptedText: Option<string>, key: Option<string>) returns (r: Result<string>)
    ensures r == DecryptValue(lib, encryptedText, key)
  {
    if IsNullOrEmpty(key) {
      return Throws(Argument("key"));
    }
    if IsNullOrEmpty(encryptedText) {
      return Throws(Argument("encryptedText"));
    }
    var decoded := lib.fromBase64(encryptedText.value);
    if decoded == None {
      return Throws(Format);
    }
    var combined := ToArray(decoded.value);
    var aesKey := DeriveKey(lib, key.value);
    if combined.Length < BlockSize {
      return Throws(Overflow);
    }
    var iv := new byte[BlockSize];
    var ciphertext := new byte[combined.Length - BlockSize];
    CopyBytes(combined, 0, iv, 0, iv.Length);
    CopyBytes(combined, iv.Length, ciphertext, 0, ciphertext.Length);
    assert iv[..] == combined[..BlockSize];
    assert ciphertext[..] == combined[BlockSize..];
    var plain := lib.aesDecrypt(aesKey[..], iv[..], ciphertext[..]);
    if plain == None {
      return Throws(Cryptographic);
    }
    return Ok(lib.utf8Decode(plain.value));
  }
}
