# Tenant Security KMS client: envelope framing, field maps and batch assembly

A model of the local part of `TenantSecurityKMSClient`, the Java client that encrypts
documents (maps of named byte-array fields) under a per-document key (DEK) that comes from a
Tenant Security Proxy, which also returns the DEK in encrypted form (the EDEK). Everything around
the AES-GCM call is modelled: the 7-byte ciphertext header, the `header ++ IV ++ cipher output`
layout of one field and its parsing, the mapping of that step over every field of a document,
and the assembly of batch results from the key service's per-document keys and errors.

Modules, leaf first:

- `Wrappers`: `Option` and `Result`. A `Result` stands for a future that completes
  normally (`Ok`) or exceptionally (`Err`).
- `KmsTypes`: Java's signed `byte` as the newtype `Int8` (-128..127), documents, keys,
  key-service error responses, `TenantSecurityKMSException`, `BatchResult`, and the failure
  causes.
- `ByteBuffers`: the part of `java.nio.ByteBuffer` the client relies on, as a class over an
  array with a `position` cursor and a `limit`. Bulk `Put` and `Get` are copy loops.
- `DocumentHeader`: `generateHeader`, `containsIroncoreMagic`, `getHeaderSize`,
  `isCiphertext`, `parseDocumentParts`.
- `FieldCipher`: `encryptBytes` and `decryptBytes` as methods over ByteBuffers, proved equal to
  the functions `SealField` / `OpenParts` / `OpenField`. AES-GCM is the parameter
  `cipher: AesGcm`, a pair of functions `seal(key, iv, input)` and `open(key, iv, input)`, each
  returning a `Result`. Its correctness is the hypothesis `OpensWhatItSeals(cipher)` of the
  round-trip lemmas, not an axiom.
- `Envelope`: `encryptFields`, `decryptFields` and the single-document `encrypt` /
  `decrypt`.
- `Batch`: the three batch helpers, `getBatchFailures`, the EDEK request maps, and
  `encryptBatch`, `encryptExistingBatch` and `decryptBatch`.

Inputs the client takes from outside are parameters:

- The random IV of each field is a parameter: `ivs: string -> Iv` gives the draw for each
  field name. In a batch, `ivs: string -> string -> Iv` gives it per document id and field.
- The key service is a parameter. Wrapping a fresh key takes no document input, so for a single
  document its reply is a `Result`. Unwrapping is a function `unwrapKey` from the EDEK sent to
  the reply. For batches it is a function from the request sent (the id set, or the
  id-to-EDEK map) to the reply. Every reply is `Err` when the call itself fails.
- `TenantSecurityKMSErrorCodes.valueOf` is the parameter `valueOf: int -> Option<ErrorCode>`.

Futures and parallel streams are read as map comprehensions joined at the end
(`Envelope.JoinAll`). Any one entry that fails fails the whole join, as `join()` does.

Details of the code that the model keeps exactly:

- The conventional reading of a two-byte size field is an unsigned big-endian number. The code
  instead computes `bytes[5] * 256 + bytes[6]` on signed Java bytes. `isCiphertext` asks only
  whether that value is 0. `parseDocumentParts` adds it to 7 and uses the sum as an offset, but
  only after `isCiphertext` has held, so the value added there is always 0.
  `DocumentHeader.SignedSizeAgreesOnZero` proves that the two readings agree on 0, so the
  signed arithmetic never changes which inputs count as ciphertext or where the payload starts.
- `parseDocumentParts` returns only the bytes after the header, not the header size, and so
  does the model.
- An input that passes `isCiphertext` but has fewer than 12 bytes after the header fails with
  a buffer underflow while the IV is read. It does not fail as malformed ciphertext, and the
  cipher is never called (`FieldCipher.ShortPayloadUnderflows`).
- A key returned for an id the caller did not supply makes the Java batch helpers dereference
  null. That fails the whole batch step, modelled as `MissingDocument(id)`.

## Model

| member | source | states |
|---|---|---|
| DocumentHeader.GenerateHeader | src/main/java/com/ironcorelabs/tenantsecurity/kms/v1/TenantSecurityKMSClient.java:192-198 | the header is exactly 7 bytes: version 3, ASCII "IRON" (73 82 79 78), size bytes 0 0 |
| DocumentHeader.GetHeaderSize | src/main/java/com/ironcorelabs/tenantsecurity/kms/v1/TenantSecurityKMSClient.java:233-235 | the signed sum bytes[5]*256 + bytes[6] is 0 exactly when both bytes are 0, and lies in the range a Java int computation of two signed bytes gives |
| DocumentHeader.IsCiphertextIff | src/main/java/com/ironcorelabs/tenantsecurity/kms/v1/TenantSecurityKMSClient.java:224-250 | isCiphertext holds iff the input is longer than 7 bytes and starts with the current header: byte 0 is 3, bytes 1..5 are "IRON", bytes 5 and 6 are 0; so nothing of 7 bytes or fewer is ciphertext |
| DocumentHeader.ParseDocumentParts | src/main/java/com/ironcorelabs/tenantsecurity/kms/v1/TenantSecurityKMSClient.java:257-267 | fails with "not an Ironcore document" exactly when isCiphertext is false; otherwise the input is the header followed by the non-empty result |
| DocumentHeader.HeaderRecognised | src/main/java/com/ironcorelabs/tenantsecurity/kms/v1/TenantSecurityKMSClient.java:242-267 | the header followed by a payload is ciphertext iff the payload is non-empty, and parsing it returns that payload |
| DocumentHeader.SignedSizeAgreesOnZero | src/main/java/com/ironcorelabs/tenantsecurity/kms/v1/TenantSecurityKMSClient.java:229-235 | the signed reading of the size bytes is 0 iff the unsigned big-endian reading is 0; the two readings are equal iff both bytes are non-negative |
| ByteBuffers.ByteBuffer.Allocate | src/main/java/com/ironcorelabs/tenantsecurity/kms/v1/TenantSecurityKMSClient.java:196 | a fresh zero-filled buffer of the given capacity with the cursor at 0 and the limit at the capacity |
| ByteBuffers.ByteBuffer.Wrap | src/main/java/com/ironcorelabs/tenantsecurity/kms/v1/TenantSecurityKMSClient.java:265 | a view of an existing array from an offset, with the limit at offset plus length |
| ByteBuffers.ByteBuffer.Put | src/main/java/com/ironcorelabs/tenantsecurity/kms/v1/TenantSecurityKMSClient.java:215-216 | the bytes are written at the cursor, the bytes before and after are unchanged, and the cursor advances by their length |
| ByteBuffers.ByteBuffer.Get | src/main/java/com/ironcorelabs/tenantsecurity/kms/v1/TenantSecurityKMSClient.java:278-280 | succeeds iff enough bytes remain; then the destination holds the bytes at the cursor and the cursor advances; otherwise nothing moves |
| FieldCipher.EncryptBytes | src/main/java/com/ironcorelabs/tenantsecurity/kms/v1/TenantSecurityKMSClient.java:203-217 | the result is the cipher's error, or header ++ IV ++ cipher output, built by three puts into a buffer of exactly their combined size |
| FieldCipher.DecryptBytes | src/main/java/com/ironcorelabs/tenantsecurity/kms/v1/TenantSecurityKMSClient.java:273-288 | the first 12 remaining bytes are the IV and the rest is the cipher input; fewer than 12 is an underflow that leaves the cursor where it was; otherwise the cursor ends at the limit; the limit never changes |
| FieldCipher.DecryptField | src/main/java/com/ironcorelabs/tenantsecurity/kms/v1/TenantSecurityKMSClient.java:327-329 | decrypting one field is parsing the header and then decrypting the remainder |
| FieldCipher.SealFieldLayout | src/main/java/com/ironcorelabs/tenantsecurity/kms/v1/TenantSecurityKMSClient.java:212-216 | a framed field is 19 bytes longer than the cipher output, is ciphertext, and holds the header in bytes 0..7, the IV in bytes 7..19 and the cipher output after that |
| FieldCipher.OpenFramed | src/main/java/com/ironcorelabs/tenantsecurity/kms/v1/TenantSecurityKMSClient.java:257-288 | parsing header ++ iv ++ c recovers exactly iv and c, so decryption is the cipher's open(key, iv, c) |
| FieldCipher.FieldRoundTrip | src/main/java/com/ironcorelabs/tenantsecurity/kms/v1/TenantSecurityKMSClient.java:203-288 | for a cipher that opens what it seals, decrypting an encrypted field under the same key gives the plaintext back, whatever IV was drawn |
| FieldCipher.ShortPayloadUnderflows | src/main/java/com/ironcorelabs/tenantsecurity/kms/v1/TenantSecurityKMSClient.java:273-280 | input that passes isCiphertext but has fewer than 12 bytes after the header fails with an underflow |
| FieldCipher.DistinctIvsDistinctCiphertexts | src/main/java/com/ironcorelabs/tenantsecurity/kms/v1/TenantSecurityKMSClient.java:204-216 | encryptions that drew different IVs give different ciphertexts, even of equal plaintexts |
| Envelope.JoinAll | src/main/java/com/ironcorelabs/tenantsecurity/kms/v1/TenantSecurityKMSClient.java:310-311 | joining per-key results gives a map with the same keys and each success value iff every entry succeeded; otherwise the failure of some failed entry |
| Envelope.EncryptFields | src/main/java/com/ironcorelabs/tenantsecurity/kms/v1/TenantSecurityKMSClient.java:294-312 | the result has exactly the input's field names, each mapped to that field's own encryption; it fails iff some field's encryption fails, with that field's error |
| Envelope.DecryptFields | src/main/java/com/ironcorelabs/tenantsecurity/kms/v1/TenantSecurityKMSClient.java:318-336 | the result has exactly the input's field names, each mapped to that field's own decryption; one field that fails to parse or decrypt fails the whole document |
| Envelope.EncryptedFieldsAreCiphertext | src/main/java/com/ironcorelabs/tenantsecurity/kms/v1/TenantSecurityKMSClient.java:294-312 | every encrypted field is recognised by isCiphertext |
| Envelope.DistinctIvsDistinctFields | src/main/java/com/ironcorelabs/tenantsecurity/kms/v1/TenantSecurityKMSClient.java:298-305 | two fields of one document that drew different IVs never share a ciphertext |
| Envelope.FieldsRoundTrip | src/main/java/com/ironcorelabs/tenantsecurity/kms/v1/TenantSecurityKMSClient.java:294-336 | decrypting the encrypted fields under the same DEK returns the original field map |
| Envelope.Encrypt | src/main/java/com/ironcorelabs/tenantsecurity/kms/v1/TenantSecurityKMSClient.java:430-436 | a failed wrap call is the result; otherwise the encrypted document carries the wrapped key's EDEK and exactly the fields encryptFields returns under its DEK, or fails with encryptFields' error |
| Envelope.EncryptExisting | src/main/java/com/ironcorelabs/tenantsecurity/kms/v1/TenantSecurityKMSClient.java:453-459 | the unwrap call is sent the document's own EDEK; a failed unwrap call is the result; otherwise the encrypted document keeps that EDEK and holds exactly the fields encryptFields returns under the unwrapped DEK, or fails with encryptFields' error |
| Envelope.Decrypt | src/main/java/com/ironcorelabs/tenantsecurity/kms/v1/TenantSecurityKMSClient.java:532-540 | the unwrap call is sent the document's EDEK; a failed unwrap call is the result; otherwise the plaintext document keeps the EDEK and holds exactly the fields decryptFields returns under the unwrapped DEK, or fails with decryptFields' error |
| Envelope.DocumentRoundTrip | src/test/java/com/ironcorelabs/tenantsecurity/kms/v1/LocalRoundTrip.java:47-71 | encrypting a document and decrypting it, with a key service that unwraps the EDEK to the same DEK, gives back every field and the EDEK |
| Envelope.ExistingRoundTrip | src/main/java/com/ironcorelabs/tenantsecurity/kms/v1/TenantSecurityKMSClient.java:453-540 | re-encrypting under an existing EDEK and decrypting again, with the same unwrap call, gives back the same document |
| Batch.ExistingEdeks | src/main/java/com/ironcorelabs/tenantsecurity/kms/v1/TenantSecurityKMSClient.java:506-507 | the EDEK request has the input's document ids, each mapped to that document's own EDEK |
| Batch.EncryptedEdeks | src/main/java/com/ironcorelabs/tenantsecurity/kms/v1/TenantSecurityKMSClient.java:556-557 | the EDEK request has the input's document ids, each mapped to that document's own EDEK |
| Batch.GetBatchFailures | src/main/java/com/ironcorelabs/tenantsecurity/kms/v1/TenantSecurityKMSClient.java:401-415 | same ids; each message kept and second argument 0; a positive code that valueOf recognises becomes that code, anything else UnknownError |
| Batch.EncryptNewDocument | src/main/java/com/ironcorelabs/tenantsecurity/kms/v1/TenantSecurityKMSClient.java:348-353 | one keyed id succeeds iff the caller supplied that document and its fields all encrypt, with exactly encryptFields' fields and the wrapped key's EDEK; otherwise MissingDocument for an unsupplied id, or that document's encryptFields error |
| Batch.EncryptExistingDocument | src/main/java/com/ironcorelabs/tenantsecurity/kms/v1/TenantSecurityKMSClient.java:367-373 | the same for an existing document, keeping its own EDEK |
| Batch.DecryptDocument | src/main/java/com/ironcorelabs/tenantsecurity/kms/v1/TenantSecurityKMSClient.java:387-393 | one keyed id succeeds iff the caller supplied that document and its fields all decrypt, with exactly decryptFields' fields and the document's EDEK; otherwise MissingDocument for an unsupplied id, or that document's decryptFields error |
| Batch.EncryptBatchOfDocuments | src/main/java/com/ironcorelabs/tenantsecurity/kms/v1/TenantSecurityKMSClient.java:344-355 | succeeds iff every id with a key names a supplied document whose fields all encrypt; then exactly the keyed ids, each encrypted under its DEK and carrying the wrapped key's EDEK; a failure is the error of one keyed id: MissingDocument for an id the caller did not supply, otherwise that document's encryptFields error |
| Batch.EncryptExistingBatchOfDocuments | src/main/java/com/ironcorelabs/tenantsecurity/kms/v1/TenantSecurityKMSClient.java:363-375 | as above for existing documents, each result keeping the document's own EDEK; a failure is one keyed id's MissingDocument or encryptFields error |
| Batch.DecryptBatchDocuments | src/main/java/com/ironcorelabs/tenantsecurity/kms/v1/TenantSecurityKMSClient.java:383-395 | succeeds iff every id with a key names a supplied document whose fields all decrypt; then exactly the keyed ids, each decrypted and keeping its EDEK; a failure is the error of one keyed id: MissingDocument for an id the caller did not supply, otherwise that document's decryptFields error |
| Batch.EncryptBatch | src/main/java/com/ironcorelabs/tenantsecurity/kms/v1/TenantSecurityKMSClient.java:473-488 | the wrap request is the input's ids; a failed call fails the batch; successes have exactly the ids the service keyed, with its EDEKs; failures are exactly its converted errors; when the call succeeds but the local step fails, the batch fails with the local step's own error |
| Batch.EncryptExistingBatch | src/main/java/com/ironcorelabs/tenantsecurity/kms/v1/TenantSecurityKMSClient.java:502-521 | the unwrap request is the id-to-own-EDEK map; successes have exactly the unwrapped ids and keep the documents' EDEKs; failures are the converted errors; when the call succeeds but the local step fails, the batch fails with the local step's own error |
| Batch.DecryptBatch | src/main/java/com/ironcorelabs/tenantsecurity/kms/v1/TenantSecurityKMSClient.java:554-571 | the unwrap request is the id-to-own-EDEK map; successes have exactly the unwrapped ids, decrypted, keeping their EDEKs; failures are the converted errors; when the call succeeds but the local step fails, the batch fails with the local step's own error |
| Batch.EncryptBatchCovers | src/main/java/com/ironcorelabs/tenantsecurity/kms/v1/TenantSecurityKMSClient.java:462-488 | when the service answers every requested id with a key or an error but not both, every input id is in exactly one of successes and failures |
| Batch.EncryptExistingBatchCovers | src/main/java/com/ironcorelabs/tenantsecurity/kms/v1/TenantSecurityKMSClient.java:490-521 | the same for encryptExistingBatch |
| Batch.DecryptBatchCovers | src/main/java/com/ironcorelabs/tenantsecurity/kms/v1/TenantSecurityKMSClient.java:542-571 | the same for decryptBatch |
| Batch.EncryptBatchCompletes | src/main/java/com/ironcorelabs/tenantsecurity/kms/v1/TenantSecurityKMSClient.java:473-488 | with a partitioning service and a cipher that does not fail, encryptBatch completes and its failures are exactly the ids the service refused |
| Batch.DecryptUndoesEncrypt | src/main/java/com/ironcorelabs/tenantsecurity/kms/v1/TenantSecurityKMSClient.java:344-395 | the per-document decrypt step undoes the per-document encrypt step when each unwrapped key is the DEK used to encrypt |
| Batch.BatchRoundTrip | src/main/java/com/ironcorelabs/tenantsecurity/kms/v1/TenantSecurityKMSClient.java:473-571 | decryptBatch of encryptBatch's successes, with a service that unwraps each EDEK to its DEK, returns every encrypted document's plaintext and EDEK with no failures |

## Left out

- AES-GCM itself (javax.crypto.Cipher, key-length checks, tag verification) is foreign code.
  It is the parameter `AesGcm`. Its round trip is the hypothesis `OpensWhatItSeals`. Tag
  verification, wrong-key and tamper detection are properties of the cipher and are not proved.
- `SecureRandom.nextBytes` is nondeterministic. IVs are parameters, so "a fresh IV each call" is
  not modelled. What distinct IVs give is proved (`DistinctIvsDistinctCiphertexts`).
- `CompletableFuture`, the executors, `parallelStream` and `ConcurrentHashMap` are read
  sequentially. Thread scheduling, cancellation and timeouts are not modelled.
- Envelope.JoinAll: when several entries fail, which failure is reported is not pinned down.
  In `encryptFields` and `decryptFields` the final join is a sequential stream, so Java reports
  the first failure in the map's iteration order. The three batch helpers collect a parallel
  stream, so there the failure that surfaces depends on thread scheduling.
- `TenantSecurityKMSRequest` (wrapKey, unwrapKey, batchWrapKeys, batchUnwrapKeys) is network
  I/O. Its replies are parameters. `DocumentMetadata` is only forwarded to those calls and is
  not modelled.
- The constructors (URL, API key, thread-pool sizes, crypto policy), `close` and `create` are
  configuration and resource plumbing.
- The deprecated list-based batch methods only sequence the single-document operations, which
  are modelled.
- The members of `TenantSecurityKMSErrorCodes` are not part of this model. `valueOf` is a
  parameter, and a recognised code `n` is written `Code(n)`.
- Java byte arrays are modelled as immutable sequences. `DecryptField` copies the parsed
  remainder into a fresh array instead of sharing the input array as `ByteBuffer.wrap` does.
  Aliasing of the caller's arrays is not modelled.
- ByteBuffers.ByteBuffer.Put: requires that the bytes fit. Java would throw
  BufferOverflowException, but every buffer here is allocated to exactly the size written.
- DocumentHeader.GetHeaderSize: requires at least 7 bytes. Java would throw
  ArrayIndexOutOfBoundsException, but its only callers check the length first.
