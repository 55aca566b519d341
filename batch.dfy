/** Batch operations with partial failure: one batch call to the key service yields a key or
    an error per document id; every id with a key is encrypted or decrypted locally, every id
    with an error becomes a KmsException. The key service is a parameter: a function from the
    request it is sent to its reply (Err when the call itself fails). */
module Batch {
  import opened Wrappers
  import opened KmsTypes
  import opened FieldCipher
  import opened Envelope

  /** The EDEK request for documents that already carry an EDEK: each id mapped to its
      document's own EDEK. */
  function ExistingEdeks(documents: map<string, PlaintextDocument>): (request: map<string, string>)
    ensures request.Keys == documents.Keys
    ensures forall id :: id in documents ==> request[id] == documents[id].edek
  {
    map id | id in documents :: documents[id].edek
  }

  /** The EDEK request for encrypted documents: each id mapped to its document's EDEK. */
  function EncryptedEdeks(documents: map<string, EncryptedDocument>): (request: map<string, string>)
    ensures request.Keys == documents.Keys
    ensures forall id :: id in documents ==> request[id] == documents[id].edek
  {
    map id | id in documents :: documents[id].edek
  }

  /** One key-service error as an exception: a positive code the enumeration recognises is
      kept, anything else becomes UnknownError; the message is kept and the second argument is
      always 0. `valueOf` is the enumeration's lookup by numeric code (None for null). */
  function ToKmsException(failure: ErrorResponse, valueOf: int -> Option<ErrorCode>): KmsException
  {
    if failure.code > 0 && valueOf(failure.code).Some? then
      KmsException(valueOf(failure.code).value, 0, failure.message)
    else
      KmsException(UnknownError, 0, failure.message)
  }

  /** The per-id key-service errors converted to exceptions under the same ids. */
  function GetBatchFailures(failures: map<string, ErrorResponse>, valueOf: int -> Option<ErrorCode>)
    : (r: map<string, KmsException>)
    ensures r.Keys == failures.Keys
    ensures forall id :: id in failures ==>
      r[id].message == failures[id].message && r[id].httpResponseCode == 0
    ensures forall id :: id in failures && failures[id].code > 0 && valueOf(failures[id].code).Some? ==>
      r[id].errorCode == valueOf(failures[id].code).value
    ensures forall id :: id in failures && (failures[id].code <= 0 || valueOf(failures[id].code).None?) ==>
      r[id].errorCode == UnknownError
  {
    map id | id in failures :: ToKmsException(failures[id], valueOf)
  }

  /** Encrypts one new document under its fresh key; an id the caller did not supply fails
      (Java dereferences null there). */
  ghost function EncryptNewDocument(documents: map<string, map<string, Bytes>>, id: string,
                                    key: WrappedDocumentKey, ivs: string -> string -> Iv, cipher: AesGcm)
    : (r: Result<EncryptedDocument, Failure>)
    ensures r.Ok? <==> id in documents && EncryptFields(documents[id], key.dekBytes, ivs(id), cipher).Ok?
    ensures r.Ok? ==> r.value.edek == key.edek
    ensures r.Ok? ==> EncryptFields(documents[id], key.dekBytes, ivs(id), cipher) == Ok(r.value.encryptedFields)
    ensures r.Err? ==>
      || (id !in documents && r.error == MissingDocument(id))
      || (id in documents && EncryptFields(documents[id], key.dekBytes, ivs(id), cipher) == Err(r.error))
  {
    if id !in documents then
      Err(MissingDocument(id))
    else
      match EncryptFields(documents[id], key.dekBytes, ivs(id), cipher)
      case Err(e) => Err(e)
      case Ok(fields) => Ok(EncryptedDocument(fields, key.edek))
  }

  /** Encrypts, for every id that got a fresh key, that id's document; the result keeps the
      wrapped key's EDEK. Any local failure fails the whole step. */
  ghost function EncryptBatchOfDocuments(documents: map<string, map<string, Bytes>>,
                                         dekList: map<string, WrappedDocumentKey>,
                                         ivs: string -> string -> Iv, cipher: AesGcm)
    : (r: Result<map<string, EncryptedDocument>, Failure>)
    ensures r.Ok? <==> forall id :: id in dekList ==>
      id in documents && EncryptFields(documents[id], dekList[id].dekBytes, ivs(id), cipher).Ok?
    ensures r.Ok? ==> r.value.Keys == dekList.Keys
    ensures r.Ok? ==> forall id :: id in dekList ==>
      && r.value[id].edek == dekList[id].edek
      && EncryptFields(documents[id], dekList[id].dekBytes, ivs(id), cipher) == Ok(r.value[id].encryptedFields)
    ensures r.Err? ==> exists id :: id in dekList && EncryptNewDocument(documents, id, dekList[id], ivs, cipher) == Err(r.error)
  {
    var pending := map id | id in dekList :: EncryptNewDocument(documents, id, dekList[id], ivs, cipher);
    assert forall id :: id in dekList ==> pending[id] == EncryptNewDocument(documents, id, dekList[id], ivs, cipher);
    JoinAll(pending)
  }

  /** Re-encrypts one existing document under its unwrapped key, keeping its own EDEK. */
  ghost function EncryptExistingDocument(documents: map<string, PlaintextDocument>, id: string,
                                         key: UnwrappedDocumentKey, ivs: string -> string -> Iv, cipher: AesGcm)
    : (r: Result<EncryptedDocument, Failure>)
    ensures r.Ok? <==> id in documents && EncryptFields(documents[id].decryptedFields, key.dekBytes, ivs(id), cipher).Ok?
    ensures r.Ok? ==> r.value.edek == documents[id].edek
    ensures r.Ok? ==> EncryptFields(documents[id].decryptedFields, key.dekBytes, ivs(id), cipher) == Ok(r.value.encryptedFields)
    ensures r.Err? ==>
      || (id !in documents && r.error == MissingDocument(id))
      || (id in documents && EncryptFields(documents[id].decryptedFields, key.dekBytes, ivs(id), cipher) == Err(r.error))
  {
    if id !in documents then
      Err(MissingDocument(id))
    else
      match EncryptFields(documents[id].decryptedFields, key.dekBytes, ivs(id), cipher)
      case Err(e) => Err(e)
      case Ok(fields) => Ok(EncryptedDocument(fields, documents[id].edek))
  }

  /** Re-encrypts, for every id whose EDEK was unwrapped, that id's document; the result keeps
      the document's own EDEK. */
  ghost function EncryptExistingBatchOfDocuments(documents: map<string, PlaintextDocument>,
                                                 dekList: map<string, UnwrappedDocumentKey>,
                                                 ivs: string -> string -> Iv, cipher: AesGcm)
    : (r: Result<map<string, EncryptedDocument>, Failure>)
    ensures r.Ok? <==> forall id :: id in dekList ==>
      id in documents && EncryptFields(documents[id].decryptedFields, dekList[id].dekBytes, ivs(id), cipher).Ok?
    ensures r.Ok? ==> r.value.Keys == dekList.Keys
    ensures r.Ok? ==> forall id :: id in dekList ==>
      && r.value[id].edek == documents[id].edek
      && EncryptFields(documents[id].decryptedFields, dekList[id].dekBytes, ivs(id), cipher) == Ok(r.value[id].encryptedFields)
    ensures r.Err? ==> exists id :: id in dekList && EncryptExistingDocument(documents, id, dekList[id], ivs, cipher) == Err(r.error)
  {
    var pending := map id | id in dekList :: EncryptExistingDocument(documents, id, dekList[id], ivs, cipher);
    assert forall id :: id in dekList ==> pending[id] == EncryptExistingDocument(documents, id, dekList[id], ivs, cipher);
    JoinAll(pending)
  }

  /** Decrypts one document under its unwrapped key, keeping its EDEK. */
  ghost function DecryptDocument(documents: map<string, EncryptedDocument>, id: string,
                                 key: UnwrappedDocumentKey, cipher: AesGcm)
    : (r: Result<PlaintextDocument, Failure>)
    ensures r.Ok? <==> id in documents && DecryptFields(documents[id].encryptedFields, key.dekBytes, cipher).Ok?
    ensures r.Ok? ==> r.value.edek == documents[id].edek
    ensures r.Ok? ==> DecryptFields(documents[id].encryptedFields, key.dekBytes, cipher) == Ok(r.value.decryptedFields)
    ensures r.Err? ==>
      || (id !in documents && r.error == MissingDocument(id))
      || (id in documents && DecryptFields(documents[id].encryptedFields, key.dekBytes, cipher) == Err(r.error))
  {
    if id !in documents then
      Err(MissingDocument(id))
    else
      match DecryptFields(documents[id].encryptedFields, key.dekBytes, cipher)
      case Err(e) => Err(e)
      case Ok(fields) => Ok(PlaintextDocument(fields, documents[id].edek))
  }

  /** Decrypts, for every id whose EDEK was unwrapped, that id's document. */
  ghost function DecryptBatchDocuments(documents: map<string, EncryptedDocument>,
                                       dekList: map<string, UnwrappedDocumentKey>, cipher: AesGcm)
    : (r: Result<map<string, PlaintextDocument>, Failure>)
    ensures r.Ok? <==> forall id :: id in dekList ==>
      id in documents && DecryptFields(documents[id].encryptedFields, dekList[id].dekBytes, cipher).Ok?
    ensures r.Ok? ==> r.value.Keys == dekList.Keys
    ensures r.Ok? ==> forall id :: id in dekList ==>
      && r.value[id].edek == documents[id].edek
      && DecryptFields(documents[id].encryptedFields, dekList[id].dekBytes, cipher) == Ok(r.value[id].decryptedFields)
    ensures r.Err? ==> exists id :: id in dekList && DecryptDocument(documents, id, dekList[id], cipher) == Err(r.error)
  {
    var pending := map id | id in dekList :: DecryptDocument(documents, id, dekList[id], cipher);
    assert forall id :: id in dekList ==> pending[id] == DecryptDocument(documents, id, dekList[id], cipher);
    JoinAll(pending)
  }

  /** Successes from the local step, failures from the key service's errors. */
  function Assemble<T>(successes: Result<map<string, T>, Failure>, failures: map<string, ErrorResponse>,
                       valueOf: int -> Option<ErrorCode>): Result<BatchResult<T>, Failure>
  {
    match successes
    case Err(e) => Err(e)
    case Ok(s) => Ok(BatchResult(s, GetBatchFailures(failures, valueOf)))
  }

  /** encryptBatch: asks for one fresh key per input id, encrypts each document that got
      one, and reports the rest as failures. */
  ghost function EncryptBatch(plaintextDocuments: map<string, map<string, Bytes>>,
                              batchWrapKeys: set<string> -> Result<BatchKeyResponse<WrappedDocumentKey>, Failure>,
                              valueOf: int -> Option<ErrorCode>, ivs: string -> string -> Iv, cipher: AesGcm)
    : (r: Result<BatchResult<EncryptedDocument>, Failure>)
    ensures batchWrapKeys(plaintextDocuments.Keys).Err? ==> r == Err(batchWrapKeys(plaintextDocuments.Keys).error)
    ensures r.Ok? <==>
      && batchWrapKeys(plaintextDocuments.Keys).Ok?
      && var keys := batchWrapKeys(plaintextDocuments.Keys).value.keys;
         forall id :: id in keys ==>
           id in plaintextDocuments && EncryptFields(plaintextDocuments[id], keys[id].dekBytes, ivs(id), cipher).Ok?
    ensures r.Ok? ==>
      var response := batchWrapKeys(plaintextDocuments.Keys).value;
      && r.value.successes.Keys == response.keys.Keys
      && r.value.failures == GetBatchFailures(response.failures, valueOf)
      && forall id :: id in response.keys ==>
           && r.value.successes[id].edek == response.keys[id].edek
           && EncryptFields(plaintextDocuments[id], response.keys[id].dekBytes, ivs(id), cipher)
              == Ok(r.value.successes[id].encryptedFields)
    ensures var reply := batchWrapKeys(plaintextDocuments.Keys);
      reply.Ok? && r.Err? ==> EncryptBatchOfDocuments(plaintextDocuments, reply.value.keys, ivs, cipher) == Err(r.error)
  {
    match batchWrapKeys(plaintextDocuments.Keys)
    case Err(e) => Err(e)
    case Ok(response) =>
      Assemble(EncryptBatchOfDocuments(plaintextDocuments, response.keys, ivs, cipher), response.failures, valueOf)
  }

  /** encryptExistingBatch: unwraps each document's own EDEK, re-encrypts each document whose
      EDEK was unwrapped under the same EDEK, and reports the rest as failures. */
  ghost function EncryptExistingBatch(plaintextDocuments: map<string, PlaintextDocument>,
                                      batchUnwrapKeys: map<string, string> -> Result<BatchKeyResponse<UnwrappedDocumentKey>, Failure>,
                                      valueOf: int -> Option<ErrorCode>, ivs: string -> string -> Iv, cipher: AesGcm)
    : (r: Result<BatchResult<EncryptedDocument>, Failure>)
    ensures var reply := batchUnwrapKeys(ExistingEdeks(plaintextDocuments));
      reply.Err? ==> r == Err(reply.error)
    ensures r.Ok? <==>
      var reply := batchUnwrapKeys(ExistingEdeks(plaintextDocuments));
      && reply.Ok?
      && forall id :: id in reply.value.keys ==>
           && id in plaintextDocuments
           && EncryptFields(plaintextDocuments[id].decryptedFields, reply.value.keys[id].dekBytes, ivs(id), cipher).Ok?
    ensures r.Ok? ==>
      var response := batchUnwrapKeys(ExistingEdeks(plaintextDocuments)).value;
      && r.value.successes.Keys == response.keys.Keys
      && r.value.failures == GetBatchFailures(response.failures, valueOf)
      && forall id :: id in response.keys ==>
           && r.value.successes[id].edek == plaintextDocuments[id].edek
           && EncryptFields(plaintextDocuments[id].decryptedFields, response.keys[id].dekBytes, ivs(id), cipher)
              == Ok(r.value.successes[id].encryptedFields)
    ensures var reply := batchUnwrapKeys(ExistingEdeks(plaintextDocuments));
      reply.Ok? && r.Err? ==> EncryptExistingBatchOfDocuments(plaintextDocuments, reply.value.keys, ivs, cipher) == Err(r.error)
  {
    match batchUnwrapKeys(ExistingEdeks(plaintextDocuments))
    case Err(e) => Err(e)
    case Ok(response) =>
      Assemble(EncryptExistingBatchOfDocuments(plaintextDocuments, response.keys, ivs, cipher), response.failures, valueOf)
  }

  /** decryptBatch: unwraps each document's EDEK, decrypts each document whose EDEK was
      unwrapped, and reports the rest as failures. */
  ghost function DecryptBatch(encryptedDocuments: map<string, EncryptedDocument>,
                              batchUnwrapKeys: map<string, string> -> Result<BatchKeyResponse<UnwrappedDocumentKey>, Failure>,
                              valueOf: int -> Option<ErrorCode>, cipher: AesGcm)
    : (r: Result<BatchResult<PlaintextDocument>, Failure>)
    ensures var reply := batchUnwrapKeys(EncryptedEdeks(encryptedDocuments));
      reply.Err? ==> r == Err(reply.error)
    ensures r.Ok? <==>
      var reply := batchUnwrapKeys(EncryptedEdeks(encryptedDocuments));
      && reply.Ok?
      && forall id :: id in reply.value.keys ==>
           && id in encryptedDocuments
           && DecryptFields(encryptedDocuments[id].encryptedFields, reply.value.keys[id].dekBytes, cipher).Ok?
    ensures r.Ok? ==>
      var response := batchUnwrapKeys(EncryptedEdeks(encryptedDocuments)).value;
      && r.value.successes.Keys == response.keys.Keys
      && r.value.failures == GetBatchFailures(response.failures, valueOf)
      && forall id :: id in response.keys ==>
           && r.value.successes[id].edek == encryptedDocuments[id].edek
           && DecryptFields(encryptedDocuments[id].encryptedFields, response.keys[id].dekBytes, cipher)
              == Ok(r.value.successes[id].decryptedFields)
    ensures var reply := batchUnwrapKeys(EncryptedEdeks(encryptedDocuments));
      reply.Ok? && r.Err? ==> DecryptBatchDocuments(encryptedDocuments, reply.value.keys, cipher) == Err(r.error)
  {
    match batchUnwrapKeys(EncryptedEdeks(encryptedDocuments))
    case Err(e) => Err(e)
    case Ok(response) =>
      Assemble(DecryptBatchDocuments(encryptedDocuments, response.keys, cipher), response.failures, valueOf)
  }

  /** The key service answered every requested id exactly once: with a key or with an error. */
  ghost predicate Partitions<K>(response: BatchKeyResponse<K>, ids: set<string>)
  {
    response.keys.Keys !! response.failures.Keys && response.keys.Keys + response.failures.Keys == ids
  }

  /** Every id of the batch lands in exactly one of the two maps, when the key service
      partitions the ids it was asked about. */
  ghost predicate Covers<T>(result: BatchResult<T>, ids: set<string>)
  {
    result.successes.Keys !! result.failures.Keys && result.successes.Keys + result.failures.Keys == ids
  }

  lemma EncryptBatchCovers(plaintextDocuments: map<string, map<string, Bytes>>,
                           batchWrapKeys: set<string> -> Result<BatchKeyResponse<WrappedDocumentKey>, Failure>,
                           valueOf: int -> Option<ErrorCode>, ivs: string -> string -> Iv, cipher: AesGcm)
    requires batchWrapKeys(plaintextDocuments.Keys).Ok?
    requires Partitions(batchWrapKeys(plaintextDocuments.Keys).value, plaintextDocuments.Keys)
    requires EncryptBatch(plaintextDocuments, batchWrapKeys, valueOf, ivs, cipher).Ok?
    ensures Covers(EncryptBatch(plaintextDocuments, batchWrapKeys, valueOf, ivs, cipher).value, plaintextDocuments.Keys)
  {
  }

  lemma EncryptExistingBatchCovers(plaintextDocuments: map<string, PlaintextDocument>,
                                   batchUnwrapKeys: map<string, string> -> Result<BatchKeyResponse<UnwrappedDocumentKey>, Failure>,
                                   valueOf: int -> Option<ErrorCode>, ivs: string -> string -> Iv, cipher: AesGcm)
    requires batchUnwrapKeys(ExistingEdeks(plaintextDocuments)).Ok?
    requires Partitions(batchUnwrapKeys(ExistingEdeks(plaintextDocuments)).value, plaintextDocuments.Keys)
    requires EncryptExistingBatch(plaintextDocuments, batchUnwrapKeys, valueOf, ivs, cipher).Ok?
    ensures Covers(EncryptExistingBatch(plaintextDocuments, batchUnwrapKeys, valueOf, ivs, cipher).value, plaintextDocuments.Keys)
  {
  }

  lemma DecryptBatchCovers(encryptedDocuments: map<string, EncryptedDocument>,
                           batchUnwrapKeys: map<string, string> -> Result<BatchKeyResponse<UnwrappedDocumentKey>, Failure>,
                           valueOf: int -> Option<ErrorCode>, cipher: AesGcm)
    requires batchUnwrapKeys(EncryptedEdeks(encryptedDocuments)).Ok?
    requires Partitions(batchUnwrapKeys(EncryptedEdeks(encryptedDocuments)).value, encryptedDocuments.Keys)
    requires DecryptBatch(encryptedDocuments, batchUnwrapKeys, valueOf, cipher).Ok?
    ensures Covers(DecryptBatch(encryptedDocuments, batchUnwrapKeys, valueOf, cipher).value, encryptedDocuments.Keys)
  {
  }

  /** Only the key service decides per-document failure: when it partitions the ids and the
      cipher never fails, encryptBatch completes, with exactly the ids it refused as failures. */
  lemma EncryptBatchCompletes(plaintextDocuments: map<string, map<string, Bytes>>,
                              batchWrapKeys: set<string> -> Result<BatchKeyResponse<WrappedDocumentKey>, Failure>,
                              valueOf: int -> Option<ErrorCode>, ivs: string -> string -> Iv, cipher: AesGcm)
    requires batchWrapKeys(plaintextDocuments.Keys).Ok?
    requires Partitions(batchWrapKeys(plaintextDocuments.Keys).value, plaintextDocuments.Keys)
    requires forall key, iv, plaintext :: cipher.seal(key, iv, plaintext).Ok?
    ensures EncryptBatch(plaintextDocuments, batchWrapKeys, valueOf, ivs, cipher).Ok?
    ensures EncryptBatch(plaintextDocuments, batchWrapKeys, valueOf, ivs, cipher).value.failures.Keys
         == batchWrapKeys(plaintextDocuments.Keys).value.failures.Keys
  {
  }

  /** Joining entries that all succeeded gives exactly their values. */
  lemma JoinAllSucceeds<V>(pending: map<string, Result<V, Failure>>, values: map<string, V>)
    requires pending.Keys == values.Keys
    requires forall k :: k in pending ==> pending[k] == Ok(values[k])
    ensures JoinAll(pending) == Ok(values)
  {
    assert JoinAll(pending).value == values;
  }

  /** One document decrypts back to its plaintext under the DEK it was encrypted with. */
  lemma DocumentDecrypts(documents: map<string, EncryptedDocument>, id: string, plaintext: map<string, Bytes>,
                         dek: Bytes, ivs: string -> Iv, cipher: AesGcm)
    requires OpensWhatItSeals(cipher)
    requires id in documents && EncryptFields(plaintext, dek, ivs, cipher) == Ok(documents[id].encryptedFields)
    ensures DecryptDocument(documents, id, UnwrappedDocumentKey(dek), cipher) == Ok(PlaintextDocument(plaintext, documents[id].edek))
  {
    FieldsRoundTrip(plaintext, dek, ivs, cipher);
  }

  /** The local decrypt step succeeds with the expected documents when each one does. */
  lemma DecryptBatchDocumentsSucceeds(documents: map<string, EncryptedDocument>,
                                      dekList: map<string, UnwrappedDocumentKey>,
                                      expected: map<string, PlaintextDocument>, cipher: AesGcm)
    requires dekList.Keys == expected.Keys
    requires forall id :: id in dekList ==> DecryptDocument(documents, id, dekList[id], cipher) == Ok(expected[id])
    ensures DecryptBatchDocuments(documents, dekList, cipher) == Ok(expected)
  {
    var pending := map id | id in dekList :: DecryptDocument(documents, id, dekList[id], cipher);
    JoinAllSucceeds(pending, expected);
  }

  /** The local decrypt step undoes the local encrypt step, document by document, when each
      document's unwrapped key is the DEK it was encrypted under. */
  lemma {:induction false} DecryptUndoesEncrypt(plaintextDocuments: map<string, map<string, Bytes>>,
                                                wrapped: map<string, WrappedDocumentKey>,
                                                encrypted: map<string, EncryptedDocument>,
                                                ivs: string -> string -> Iv, cipher: AesGcm)
    requires OpensWhatItSeals(cipher)
    requires encrypted.Keys == wrapped.Keys
    requires forall id :: id in wrapped ==>
      && id in plaintextDocuments
      && encrypted[id].edek == wrapped[id].edek
      && EncryptFields(plaintextDocuments[id], wrapped[id].dekBytes, ivs(id), cipher) == Ok(encrypted[id].encryptedFields)
    ensures DecryptBatchDocuments(encrypted, map id | id in wrapped :: UnwrappedDocumentKey(wrapped[id].dekBytes), cipher)
         == Ok(map id | id in wrapped :: PlaintextDocument(plaintextDocuments[id], wrapped[id].edek))
  {
    var unwrapped := map id | id in wrapped :: UnwrappedDocumentKey(wrapped[id].dekBytes);
    var expected := map id | id in wrapped :: PlaintextDocument(plaintextDocuments[id], wrapped[id].edek);
    forall id | id in unwrapped
      ensures DecryptDocument(encrypted, id, unwrapped[id], cipher) == Ok(expected[id])
    {
      DocumentDecrypts(encrypted, id, plaintextDocuments[id], wrapped[id].dekBytes, ivs(id), cipher);
    }
    DecryptBatchDocumentsSucceeds(encrypted, unwrapped, expected, cipher);
  }

  /** decryptBatch with a key service that unwrapped every EDEK is the local decrypt step. */
  lemma DecryptBatchWithAllKeys(encryptedDocuments: map<string, EncryptedDocument>,
                                batchUnwrapKeys: map<string, string> -> Result<BatchKeyResponse<UnwrappedDocumentKey>, Failure>,
                                valueOf: int -> Option<ErrorCode>, cipher: AesGcm,
                                keys: map<string, UnwrappedDocumentKey>, decrypted: map<string, PlaintextDocument>)
    requires batchUnwrapKeys(EncryptedEdeks(encryptedDocuments)) == Ok(BatchKeyResponse(keys, map[]))
    requires DecryptBatchDocuments(encryptedDocuments, keys, cipher) == Ok(decrypted)
    ensures DecryptBatch(encryptedDocuments, batchUnwrapKeys, valueOf, cipher) == Ok(BatchResult(decrypted, map[]))
  {
  }

  /** Decrypting what encryptBatch produced, with a key service that unwraps every EDEK it
      issued to the DEK it issued with, gives back every document that was encrypted, under
      its EDEK, with no failures. */
  lemma BatchRoundTrip(plaintextDocuments: map<string, map<string, Bytes>>,
                       batchWrapKeys: set<string> -> Result<BatchKeyResponse<WrappedDocumentKey>, Failure>,
                       batchUnwrapKeys: map<string, string> -> Result<BatchKeyResponse<UnwrappedDocumentKey>, Failure>,
                       valueOf: int -> Option<ErrorCode>, ivs: string -> string -> Iv, cipher: AesGcm)
    requires OpensWhatItSeals(cipher)
    requires EncryptBatch(plaintextDocuments, batchWrapKeys, valueOf, ivs, cipher).Ok?
    requires
      var wrapped := batchWrapKeys(plaintextDocuments.Keys).value.keys;
      var encrypted := EncryptBatch(plaintextDocuments, batchWrapKeys, valueOf, ivs, cipher).value.successes;
      batchUnwrapKeys(EncryptedEdeks(encrypted))
        == Ok(BatchKeyResponse(map id | id in wrapped :: UnwrappedDocumentKey(wrapped[id].dekBytes), map[]))
    ensures
      var wrapped := batchWrapKeys(plaintextDocuments.Keys).value.keys;
      var encrypted := EncryptBatch(plaintextDocuments, batchWrapKeys, valueOf, ivs, cipher).value.successes;
      DecryptBatch(encrypted, batchUnwrapKeys, valueOf, cipher)
        == Ok(BatchResult(map id | id in wrapped :: PlaintextDocument(plaintextDocuments[id], wrapped[id].edek), map[]))
  {
    var wrapped := batchWrapKeys(plaintextDocuments.Keys).value.keys;
    var encrypted := EncryptBatch(plaintextDocuments, batchWrapKeys, valueOf, ivs, cipher).value.successes;
    DecryptUndoesEncrypt(plaintextDocuments, wrapped, encrypted, ivs, cipher);
    DecryptBatchWithAllKeys(encrypted, batchUnwrapKeys, valueOf, cipher,
      map id | id in wrapped :: UnwrappedDocumentKey(wrapped[id].dekBytes),
      map id | id in wrapped :: PlaintextDocument(plaintextDocuments[id], wrapped[id].edek));
  }
}
