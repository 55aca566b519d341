/** Value types shared by the client: Java bytes, documents, keys, key-service errors and
    batch results. */
module KmsTypes {

  /** A Java `byte`: a signed 8-bit integer. */
  newtype Int8 = x: int | -128 <= x < 128

  /** A Java `byte[]`. */
  type Bytes = seq<Int8>

  /** The two ways the AES-GCM primitive can fail: the tag does not verify, or anything else
      (bad key length, algorithm unavailable). */
  datatype CryptoError = AuthenticationFailure | CryptoFailure

  /** The error codes a TenantSecurityKMSException carries. The enumeration's members are not
      part of this model: `Code(n)` stands for the member whose numeric code is `n`. */
  datatype ErrorCode = UnknownError | Code(number: int)

  /** An error the key service reports for one document id. */
  datatype ErrorResponse = ErrorResponse(code: int, message: string)

  /** TenantSecurityKMSException(errorCode, httpResponseCode, message). */
  datatype KmsException = KmsException(errorCode: ErrorCode, httpResponseCode: int, message: string)

  /** Why an operation completed exceptionally. */
  datatype Failure =
    | NotIroncoreDocument         // "Provided bytes were not an Ironcore encrypted document."
    | BufferUnderflow             // fewer than 12 bytes after the header when reading the IV
    | Crypto(cause: CryptoError)  // the cipher primitive threw
    | MissingDocument(id: string) // a key came back for an id the caller did not supply
    | KeyService(exception: KmsException) // the key-service call itself failed

  /** A fresh DEK together with its EDEK, from a wrap call. */
  datatype WrappedDocumentKey = WrappedDocumentKey(dekBytes: Bytes, edek: string)

  /** A DEK recovered from an existing EDEK, from an unwrap call. */
  datatype UnwrappedDocumentKey = UnwrappedDocumentKey(dekBytes: Bytes)

  /** Field name to plaintext bytes, with the EDEK the fields were (or will be) encrypted under. */
  datatype PlaintextDocument = PlaintextDocument(decryptedFields: map<string, Bytes>, edek: string)

  /** Field name to framed ciphertext, with the EDEK needed to decrypt it. */
  datatype EncryptedDocument = EncryptedDocument(encryptedFields: map<string, Bytes>, edek: string)

  /** What a batch wrap or unwrap call to the key service returns. */
  datatype BatchKeyResponse<K> = BatchKeyResponse(keys: map<string, K>, failures: map<string, ErrorResponse>)

  /** Per-document outcome of a batch operation. */
  datatype BatchResult<T> = BatchResult(successes: map<string, T>, failures: map<string, KmsException>)
}
