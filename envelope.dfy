/** Encryption and decryption of every field of one document under one DEK, and the
    single-document encrypt / decrypt operations built on them. Each field is its own unit
    of work; the futures are read as a map comprehension over the fields, joined at the end. */
module Envelope {
  import opened Wrappers
  import opened KmsTypes
  import opened DocumentHeader
  import opened FieldCipher

  /** Joining one pending result per key: a map of the values when every entry succeeded,
      otherwise the failure of some failed entry (which one surfaces first is not specified). */
  ghost function JoinAll<V>(pending: map<string, Result<V, Failure>>): (r: Result<map<string, V>, Failure>)
    ensures r.Ok? <==> forall k :: k in pending ==> pending[k].Ok?
    ensures r.Ok? ==> r.value.Keys == pending.Keys
    ensures r.Ok? ==> forall k :: k in pending ==> pending[k] == Ok(r.value[k])
    ensures r.Err? ==> exists k :: k in pending && pending[k] == Err(r.error)
  {
    if forall k :: k in pending ==> pending[k].Ok? then
      Ok(map k | k in pending :: pending[k].value)
    else
      var k :| k in pending && pending[k].Err?;
      Err(pending[k].error)
  }

  /** Encrypts every field under `dek`; field `f` uses the IV drawn for it, `ivs(f)`. */
  ghost function EncryptFields(document: map<string, Bytes>, dek: Bytes, ivs: string -> Iv, cipher: AesGcm)
    : (r: Result<map<string, Bytes>, Failure>)
    ensures r.Ok? <==> forall f :: f in document ==> SealField(document[f], dek, ivs(f), cipher).Ok?
    ensures r.Ok? ==> r.value.Keys == document.Keys
    ensures r.Ok? ==> forall f :: f in document ==> SealField(document[f], dek, ivs(f), cipher) == Ok(r.value[f])
    ensures r.Err? ==> exists f :: f in document && SealField(document[f], dek, ivs(f), cipher) == Err(r.error)
  {
    var pending := map f | f in document :: SealField(document[f], dek, ivs(f), cipher);
    assert forall f :: f in document ==> pending[f] == SealField(document[f], dek, ivs(f), cipher);
    JoinAll(pending)
  }

  /** Decrypts every field under `dek`; one field that fails to parse or decrypt fails the
      whole document. */
  ghost function DecryptFields(document: map<string, Bytes>, dek: Bytes, cipher: AesGcm)
    : (r: Result<map<string, Bytes>, Failure>)
    ensures r.Ok? <==> forall f :: f in document ==> OpenField(document[f], dek, cipher).Ok?
    ensures r.Ok? ==> r.value.Keys == document.Keys
    ensures r.Ok? ==> forall f :: f in document ==> OpenField(document[f], dek, cipher) == Ok(r.value[f])
    ensures r.Err? ==> exists f :: f in document && OpenField(document[f], dek, cipher) == Err(r.error)
    ensures (exists f :: f in document && !IsCiphertext(document[f])) ==> r.Err?
  {
    var pending := map f | f in document :: OpenField(document[f], dek, cipher);
    assert forall f :: f in document ==> pending[f] == OpenField(document[f], dek, cipher);
    JoinAll(pending)
  }

  /** Every field of an encrypted document is recognised as ciphertext. */
  lemma EncryptedFieldsAreCiphertext(document: map<string, Bytes>, dek: Bytes, ivs: string -> Iv, cipher: AesGcm)
    requires EncryptFields(document, dek, ivs, cipher).Ok?
    ensures forall f :: f in document ==> IsCiphertext(EncryptFields(document, dek, ivs, cipher).value[f])
  {
  }

  /** Two fields that drew different IVs never share a ciphertext, even when their plaintexts
      are equal. */
  lemma DistinctIvsDistinctFields(document: map<string, Bytes>, dek: Bytes, ivs: string -> Iv, cipher: AesGcm, f1: string, f2: string)
    requires EncryptFields(document, dek, ivs, cipher).Ok?
    requires f1 in document && f2 in document && ivs(f1) != ivs(f2)
    ensures EncryptFields(document, dek, ivs, cipher).value[f1] != EncryptFields(document, dek, ivs, cipher).value[f2]
  {
    DistinctIvsDistinctCiphertexts(document[f1], document[f2], dek, ivs(f1), ivs(f2), cipher);
  }

  /** Decrypting the encrypted fields under the same DEK gives back the original map. */
  lemma {:induction false} FieldsRoundTrip(document: map<string, Bytes>, dek: Bytes, ivs: string -> Iv, cipher: AesGcm)
    requires OpensWhatItSeals(cipher)
    requires EncryptFields(document, dek, ivs, cipher).Ok?
    ensures DecryptFields(EncryptFields(document, dek, ivs, cipher).value, dek, cipher) == Ok(document)
  {
    var encrypted := EncryptFields(document, dek, ivs, cipher).value;
    forall f | f in encrypted
      ensures OpenField(encrypted[f], dek, cipher) == Ok(document[f])
    {
      FieldRoundTrip(document[f], dek, ivs(f), cipher);
    }
    var decrypted := DecryptFields(encrypted, dek, cipher);
    assert decrypted.value == document;
  }

  /** encrypt(document, metadata): wrap a fresh key with the key service, encrypt every field
      under its DEK, and keep its EDEK. `wrapped` is the key service's reply. */
  ghost function Encrypt(document: map<string, Bytes>, wrapped: Result<WrappedDocumentKey, Failure>,
                         ivs: string -> Iv, cipher: AesGcm): (r: Result<EncryptedDocument, Failure>)
    ensures wrapped.Err? ==> r == Err(wrapped.error)
    ensures r.Ok? ==> r.value.edek == wrapped.value.edek && r.value.encryptedFields.Keys == document.Keys
    ensures wrapped.Ok? ==> (r.Ok? <==> EncryptFields(document, wrapped.value.dekBytes, ivs, cipher).Ok?)
    ensures wrapped.Ok? && r.Ok? ==> EncryptFields(document, wrapped.value.dekBytes, ivs, cipher) == Ok(r.value.encryptedFields)
    ensures wrapped.Ok? && r.Err? ==> EncryptFields(document, wrapped.value.dekBytes, ivs, cipher) == Err(r.error)
  {
    match wrapped
    case Err(e) => Err(e)
    case Ok(key) =>
      match EncryptFields(document, key.dekBytes, ivs, cipher)
      case Err(e) => Err(e)
      case Ok(fields) => Ok(EncryptedDocument(fields, key.edek))
  }

  /** encrypt(PlaintextDocument, metadata): unwrap the document's existing EDEK and encrypt the
      fields under that DEK, keeping the same EDEK. `unwrapKey` is the key service's unwrap
      call: its reply for the EDEK it is sent. */
  ghost function EncryptExisting(document: PlaintextDocument, unwrapKey: string -> Result<Bytes, Failure>,
                                 ivs: string -> Iv, cipher: AesGcm): (r: Result<EncryptedDocument, Failure>)
    ensures unwrapKey(document.edek).Err? ==> r == Err(unwrapKey(document.edek).error)
    ensures r.Ok? ==> r.value.edek == document.edek && r.value.encryptedFields.Keys == document.decryptedFields.Keys
    ensures var reply := unwrapKey(document.edek);
      reply.Ok? ==> (r.Ok? <==> EncryptFields(document.decryptedFields, reply.value, ivs, cipher).Ok?)
    ensures var reply := unwrapKey(document.edek);
      reply.Ok? && r.Ok? ==> EncryptFields(document.decryptedFields, reply.value, ivs, cipher) == Ok(r.value.encryptedFields)
    ensures var reply := unwrapKey(document.edek);
      reply.Ok? && r.Err? ==> EncryptFields(document.decryptedFields, reply.value, ivs, cipher) == Err(r.error)
  {
    match unwrapKey(document.edek)
    case Err(e) => Err(e)
    case Ok(dek) =>
      match EncryptFields(document.decryptedFields, dek, ivs, cipher)
      case Err(e) => Err(e)
      case Ok(fields) => Ok(EncryptedDocument(fields, document.edek))
  }

  /** decrypt(EncryptedDocument, metadata): unwrap the EDEK and decrypt every field, keeping
      the EDEK. `unwrapKey` is the key service's unwrap call. */
  ghost function Decrypt(encryptedDocument: EncryptedDocument, unwrapKey: string -> Result<Bytes, Failure>,
                         cipher: AesGcm): (r: Result<PlaintextDocument, Failure>)
    ensures unwrapKey(encryptedDocument.edek).Err? ==> r == Err(unwrapKey(encryptedDocument.edek).error)
    ensures r.Ok? ==> r.value.edek == encryptedDocument.edek
    ensures r.Ok? ==> r.value.decryptedFields.Keys == encryptedDocument.encryptedFields.Keys
    ensures var reply := unwrapKey(encryptedDocument.edek);
      reply.Ok? ==> (r.Ok? <==> DecryptFields(encryptedDocument.encryptedFields, reply.value, cipher).Ok?)
    ensures var reply := unwrapKey(encryptedDocument.edek);
      reply.Ok? && r.Ok? ==> DecryptFields(encryptedDocument.encryptedFields, reply.value, cipher) == Ok(r.value.decryptedFields)
    ensures var reply := unwrapKey(encryptedDocument.edek);
      reply.Ok? && r.Err? ==> DecryptFields(encryptedDocument.encryptedFields, reply.value, cipher) == Err(r.error)
  {
    match unwrapKey(encryptedDocument.edek)
    case Err(e) => Err(e)
    case Ok(dek) =>
      match DecryptFields(encryptedDocument.encryptedFields, dek, cipher)
      case Err(e) => Err(e)
      case Ok(fields) => Ok(PlaintextDocument(fields, encryptedDocument.edek))
  }

  /** Encrypting a document and then decrypting it, when the key service unwraps the EDEK to
      the DEK it was wrapped with, returns the original fields and the same EDEK. */
  lemma DocumentRoundTrip(document: map<string, Bytes>, key: WrappedDocumentKey,
                          unwrapKey: string -> Result<Bytes, Failure>, ivs: string -> Iv, cipher: AesGcm)
    requires OpensWhatItSeals(cipher)
    requires unwrapKey(key.edek) == Ok(key.dekBytes)
    requires Encrypt(document, Ok(key), ivs, cipher).Ok?
    ensures Decrypt(Encrypt(document, Ok(key), ivs, cipher).value, unwrapKey, cipher)
         == Ok(PlaintextDocument(document, key.edek))
  {
    FieldsRoundTrip(document, key.dekBytes, ivs, cipher);
  }

  /** Re-encrypting under an existing EDEK and decrypting again returns the same document. */
  lemma ExistingRoundTrip(document: PlaintextDocument, unwrapKey: string -> Result<Bytes, Failure>,
                          ivs: string -> Iv, cipher: AesGcm)
    requires OpensWhatItSeals(cipher)
    requires EncryptExisting(document, unwrapKey, ivs, cipher).Ok?
    ensures Decrypt(EncryptExisting(document, unwrapKey, ivs, cipher).value, unwrapKey, cipher) == Ok(document)
  {
    FieldsRoundTrip(document.decryptedFields, unwrapKey(document.edek).value, ivs, cipher);
  }
}
