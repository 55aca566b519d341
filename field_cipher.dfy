/** Encryption of one field: AES-GCM under the document's DEK with a fresh 12-byte IV, framed
    as header ++ IV ++ cipher output. The cipher itself is not modelled: it is a parameter. */
module FieldCipher {
  import opened Wrappers
  import opened KmsTypes
  import opened DocumentHeader
  import opened ByteBuffers

  const IV_BYTE_LENGTH: nat := 12

  /** A 96-bit GCM initialisation vector. */
  type Iv = s: Bytes | |s| == IV_BYTE_LENGTH witness [0, 0, 0, 0, 0, 0, 0, 0, 0, 0, 0, 0]

  /** AES/GCM/NoPadding with a 128-bit tag, as two functions of (key, iv, input). Any
      failure of Cipher.getInstance, init or doFinal is an Err. */
  datatype AesGcm = AesGcm(
    seal: (Bytes, Iv, Bytes) -> Result<Bytes, CryptoError>,
    open: (Bytes, Iv, Bytes) -> Result<Bytes, CryptoError>)

  /** What authenticated encryption promises: opening what was sealed, under the same key
      and IV, gives the plaintext back. */
  ghost predicate OpensWhatItSeals(cipher: AesGcm)
  {
    forall key, iv, plaintext ::
      cipher.seal(key, iv, plaintext).Ok? ==>
        cipher.open(key, iv, cipher.seal(key, iv, plaintext).value) == Ok(plaintext)
  }

  /** The framed ciphertext for `document` under `key` and `iv`. */
  function SealField(document: Bytes, key: Bytes, iv: Iv, cipher: AesGcm): (r: Result<Bytes, Failure>)
  {
    match cipher.seal(key, iv, document)
    case Err(e) => Err(Crypto(e))
    case Ok(encryptedBytes) => Ok(GenerateHeader() + iv + encryptedBytes)
  }

  /** The IV and cipher output after the header: the first 12 bytes are the IV. */
  function OpenParts(parts: Bytes, key: Bytes, cipher: AesGcm): (r: Result<Bytes, Failure>)
  {
    if |parts| < IV_BYTE_LENGTH then
      Err(BufferUnderflow)
    else
      match cipher.open(key, parts[..IV_BYTE_LENGTH], parts[IV_BYTE_LENGTH..])
      case Err(e) => Err(Crypto(e))
      case Ok(plaintext) => Ok(plaintext)
  }

  /** Decryption of one framed field: parse the header, then open the rest. */
  function OpenField(field: Bytes, key: Bytes, cipher: AesGcm): (r: Result<Bytes, Failure>)
  {
    match ParseDocumentParts(field)
    case Err(e) => Err(e)
    case Ok(parts) => OpenParts(parts, key, cipher)
  }

  /** Encrypts one field: seals it, then lays out header, IV and cipher output in a buffer
      of exactly their combined size. The IV is the random draw, taken as a parameter. */
  method EncryptBytes(document: Bytes, documentKey: Bytes, iv: Iv, cipher: AesGcm)
    returns (r: Result<Bytes, Failure>)
    ensures r == SealField(document, documentKey, iv, cipher)
  {
    var sealed := cipher.seal(documentKey, iv, document);
    if sealed.Err? {
      return Err(Crypto(sealed.error));
    }
    var encryptedBytes := sealed.value;
    var header := GenerateHeader();
    var buffer := new ByteBuffer.Allocate(|header| + IV_BYTE_LENGTH + |encryptedBytes|);
    buffer.Put(header);
    assert buffer.hb[..7] == header;
    buffer.Put(iv);
    assert buffer.hb[..19] == header + iv by {
      assert buffer.hb[..19] == buffer.hb[..7] + buffer.hb[7..19];
    }
    buffer.Put(encryptedBytes);
    assert buffer.hb[..] == header + iv + encryptedBytes by {
      assert buffer.hb[..] == buffer.hb[..19] + buffer.hb[19..];
    }
    return Ok(buffer.hb[..]);
  }

  /** Decrypts the bytes remaining in `encryptedDocument`: reads a 12-byte IV at the cursor,
      then everything after it, and opens that. */
  method DecryptBytes(encryptedDocument: ByteBuffer, documentKey: Bytes, cipher: AesGcm)
    returns (r: Result<Bytes, Failure>)
    requires encryptedDocument.Valid()
    modifies encryptedDocument
    ensures encryptedDocument.Valid() && encryptedDocument.limit == old(encryptedDocument.limit)
    ensures r == Err(BufferUnderflow) ==> encryptedDocument.position == old(encryptedDocument.position)
    ensures r == OpenParts(old(encryptedDocument.RemainingBytes()), documentKey, cipher)
    ensures r != Err(BufferUnderflow) ==> encryptedDocument.Remaining() == 0
  {
    ghost var parts := encryptedDocument.RemainingBytes();
    var iv := new Int8[IV_BYTE_LENGTH];
    var ok := encryptedDocument.Get(iv);
    if !ok {
      return Err(BufferUnderflow);
    }
    assert iv[..] == parts[..IV_BYTE_LENGTH];
    var encryptedBytes := new Int8[encryptedDocument.Remaining()];
    ok := encryptedDocument.Get(encryptedBytes);
    assert encryptedBytes[..] == parts[IV_BYTE_LENGTH..];
    var decrypted := cipher.open(documentKey, iv[..], encryptedBytes[..]);
    match decrypted {
      case Err(e) => return Err(Crypto(e));
      case Ok(plaintext) => return Ok(plaintext);
    }
  }

  /** Decrypts one framed field: parses the header off, wraps what follows in a buffer and
      decrypts it. */
  method DecryptField(field: Bytes, documentKey: Bytes, cipher: AesGcm) returns (r: Result<Bytes, Failure>)
    ensures r == OpenField(field, documentKey, cipher)
  {
    var parsed := ParseDocumentParts(field);
    if parsed.Err? {
      return Err(parsed.error);
    }
    var parts := parsed.value;
    var a := new Int8[|parts|](i requires 0 <= i < |parts| => parts[i]);
    var buffer := new ByteBuffer.Wrap(a, 0, a.Length);
    assert buffer.RemainingBytes() == parts;
    r := DecryptBytes(buffer, documentKey, cipher);
  }

  /** The framed output is 19 bytes longer than the cipher output, is recognised as
      ciphertext, and carries the header, then the IV, then the cipher output. */
  lemma SealFieldLayout(document: Bytes, key: Bytes, iv: Iv, cipher: AesGcm)
    requires cipher.seal(key, iv, document).Ok?
    ensures var encryptedBytes := cipher.seal(key, iv, document).value;
      && SealField(document, key, iv, cipher).Ok?
      && var framed := SealField(document, key, iv, cipher).value;
      && |framed| == 19 + |encryptedBytes|
      && IsCiphertext(framed)
      && framed[..7] == GenerateHeader()
      && framed[7..19] == iv
      && framed[19..] == encryptedBytes
  {
  }

  /** Parsing header ++ iv ++ c gives back exactly the IV and the cipher output c, so
      decrypting it is the cipher's own open(key, iv, c). */
  lemma OpenFramed(iv: Iv, encryptedBytes: Bytes, key: Bytes, cipher: AesGcm)
    ensures OpenField(GenerateHeader() + iv + encryptedBytes, key, cipher) ==
      match cipher.open(key, iv, encryptedBytes)
      case Err(e) => Err(Crypto(e))
      case Ok(plaintext) => Ok(plaintext)
  {
    var payload := iv + encryptedBytes;
    assert GenerateHeader() + iv + encryptedBytes == GenerateHeader() + payload;
    HeaderRecognised(payload);
    assert payload[..IV_BYTE_LENGTH] == iv;
    assert payload[IV_BYTE_LENGTH..] == encryptedBytes;
  }

  /** Round trip of one field: decrypting what was encrypted under the same key returns the
      plaintext, whatever IV was drawn. */
  lemma FieldRoundTrip(document: Bytes, key: Bytes, iv: Iv, cipher: AesGcm)
    requires OpensWhatItSeals(cipher)
    requires SealField(document, key, iv, cipher).Ok?
    ensures OpenField(SealField(document, key, iv, cipher).value, key, cipher) == Ok(document)
  {
    var encryptedBytes := cipher.seal(key, iv, document).value;
    OpenFramed(iv, encryptedBytes, key, cipher);
  }

  /** Input that passes the header check but has fewer than 12 bytes after it cannot supply
      an IV, and fails before the cipher is called. */
  lemma ShortPayloadUnderflows(field: Bytes, key: Bytes, cipher: AesGcm)
    requires IsCiphertext(field) && |field| < DOCUMENT_HEADER_META_LENGTH + IV_BYTE_LENGTH
    ensures OpenField(field, key, cipher) == Err(BufferUnderflow)
  {
  }

  /** Two encryptions that drew different IVs produce different ciphertexts, even for the
      same plaintext under the same key. */
  lemma DistinctIvsDistinctCiphertexts(d1: Bytes, d2: Bytes, key: Bytes, iv1: Iv, iv2: Iv, cipher: AesGcm)
    requires iv1 != iv2
    requires SealField(d1, key, iv1, cipher).Ok? && SealField(d2, key, iv2, cipher).Ok?
    ensures SealField(d1, key, iv1, cipher).value != SealField(d2, key, iv2, cipher).value
  {
    SealFieldLayout(d1, key, iv1, cipher);
    SealFieldLayout(d2, key, iv2, cipher);
  }
}
