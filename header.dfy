/** The fixed 7-byte prefix framing every encrypted field: a version byte, the ASCII magic
    "IRON", and a two-byte header size that is always 0 in this version. */
module DocumentHeader {
  import opened Wrappers
  import opened KmsTypes

  /** Length of the fixed part of the header (version, magic, size). */
  const DOCUMENT_HEADER_META_LENGTH: nat := 7
  const CURRENT_DOCUMENT_HEADER_VERSION: Int8 := 3
  /** The bytes of ASCII "IRON". */
  const DOCUMENT_MAGIC: Bytes := [73, 82, 79, 78]

  /** The header written in front of every encrypted field. */
  function GenerateHeader(): (header: Bytes)
    ensures |header| == DOCUMENT_HEADER_META_LENGTH
    ensures header == [3, 73, 82, 79, 78, 0, 0]
  {
    [CURRENT_DOCUMENT_HEADER_VERSION] + DOCUMENT_MAGIC + [0, 0]
  }

  /** The four bytes after the version byte are the magic. */
  predicate ContainsIroncoreMagic(bytes: Bytes)
  {
    |bytes| >= 5 && bytes[1..5] == DOCUMENT_MAGIC
  }

  /** Bytes 5 and 6 read as `bytes[5] * 256 + bytes[6]` on SIGNED bytes, promoted to a Java
      int. Java throws when those bytes are missing; every caller checks the length first. */
  function GetHeaderSize(bytes: Bytes): (size: int)
    requires |bytes| >= DOCUMENT_HEADER_META_LENGTH
    ensures size == 0 <==> bytes[5] == 0 && bytes[6] == 0
    ensures -128 * 256 - 128 <= size <= 127 * 256 + 127
  {
    bytes[5] as int * 256 + bytes[6] as int
  }

  /** The conventional unsigned big-endian reading of the two size bytes. */
  function UnsignedHeaderSize(bytes: Bytes): (size: nat)
    requires |bytes| >= DOCUMENT_HEADER_META_LENGTH
    ensures size < 0x1_0000
  {
    (bytes[5] as int % 256) * 256 + bytes[6] as int % 256
  }

  /** At least one byte follows a current-version header whose size field is 0. */
  predicate IsCiphertext(bytes: Bytes)
  {
    && |bytes| > DOCUMENT_HEADER_META_LENGTH
    && bytes[0] == CURRENT_DOCUMENT_HEADER_VERSION
    && ContainsIroncoreMagic(bytes)
    && GetHeaderSize(bytes) == 0
  }

  /** Checks the header and returns the bytes after it (the IV and the cipher output). */
  function ParseDocumentParts(document: Bytes): (r: Result<Bytes, Failure>)
    ensures r.Err? <==> !IsCiphertext(document)
    ensures r.Err? ==> r.error == NotIroncoreDocument
    ensures r.Ok? ==> document == GenerateHeader() + r.value && |r.value| > 0
  {
    if !IsCiphertext(document) then
      Err(NotIroncoreDocument)
    else
      var totalHeaderSize := GetHeaderSize(document) + DOCUMENT_HEADER_META_LENGTH;
      Ok(document[totalHeaderSize..])
  }

  /** Ciphertext is recognised by exactly the current header followed by at least one byte:
      version 3, "IRON", and both size bytes 0. Anything of 7 bytes or fewer is plaintext. */
  lemma IsCiphertextIff(bytes: Bytes)
    ensures IsCiphertext(bytes) <==>
      |bytes| > DOCUMENT_HEADER_META_LENGTH && bytes[..DOCUMENT_HEADER_META_LENGTH] == GenerateHeader()
    ensures IsCiphertext(bytes) <==>
      && |bytes| > 7
      && bytes[0] == 3
      && bytes[1..5] == [73, 82, 79, 78]
      && bytes[5] == 0 && bytes[6] == 0
  {
  }

  /** The header followed by any non-empty payload is ciphertext, and parsing gives the
      payload back; the header alone is not ciphertext. */
  lemma HeaderRecognised(payload: Bytes)
    ensures IsCiphertext(GenerateHeader() + payload) <==> |payload| > 0
    ensures |payload| > 0 ==> ParseDocumentParts(GenerateHeader() + payload) == Ok(payload)
  {
  }

  /** Reading the size bytes as signed Java bytes gives 0 exactly when the unsigned
      big-endian reading does, so the signed arithmetic never changes which inputs count as
      ciphertext. (The two readings differ for other values, e.g. bytes 0x00 0x80.) */
  lemma SignedSizeAgreesOnZero(bytes: Bytes)
    requires |bytes| >= DOCUMENT_HEADER_META_LENGTH
    ensures GetHeaderSize(bytes) == 0 <==> UnsignedHeaderSize(bytes) == 0
    ensures GetHeaderSize(bytes) == UnsignedHeaderSize(bytes) <==> bytes[5] >= 0 && bytes[6] >= 0
  {
  }
}
