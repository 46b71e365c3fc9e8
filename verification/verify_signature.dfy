/** `verification/verify_signature.py`: the check of one ledger entry, an
    early-return cascade that never raises. `CheckEntry` names the step that
    rejected the entry (the original only logs it); `VerifyEntrySignature` is
    the boolean the original returns. */
module VerifySignature {
  import opened Base
  import opened Text
  import opened Json
  import opened Primitives
  import opened Hashing

  /** Length of an Ed25519 verify key. */
  const VERIFY_KEY_BYTES: nat := 32

  datatype Check =
    | Passed
    | NotAnObject              // `.get` raised AttributeError; caught
    | MissingSignatureOrHash
    | MissingPreviousHash
    | HashError                // compute_entry_hash raised ValueError; caught
    | HashMismatch
    | BadPublicKey             // the hex key does not decode to 32 bytes; caught
    | BadSignatureEncoding     // the signature is not a string or not base64; caught
    | BadSignature

  /** The last step: decode the public key and the signature, then check the
      signature over the UTF-8 bytes of the hash text. */
  function SignatureCheck(lib: Lib, entryHash: string, signature: Json, publicKeyHex: string): Check
  {
    match HexDecode(publicKeyHex)
    case None => BadPublicKey
    case Some(key) =>
      if |key| != VERIFY_KEY_BYTES then BadPublicKey
      else if !signature.JStr? then BadSignatureEncoding
      else
        match lib.b64decode(signature.s)
        case None => BadSignatureEncoding
        case Some(raw) => if lib.verify(key, Utf8(entryHash), raw) then Passed else BadSignature
  }

  /** The checks in the order the original makes them. */
  function CheckEntry(lib: Lib, entry: Json, publicKeyHex: string): Check
  {
    if !entry.JObj? then NotAnObject
    else
      var fields := entry.fields;
      var signature := Lookup(fields, SIGNATURE);
      var entryHash := Lookup(fields, ENTRY_HASH);
      if !Truthy(signature) || !Truthy(entryHash) then MissingSignatureOrHash
      else
        var previousHash := Lookup(fields, PREVIOUS_HASH);
        if !Truthy(previousHash) then MissingPreviousHash
        else
          match ComputeEntryHash(lib, fields, previousHash)
          case Err(_) => HashError
          case Ok(computed) =>
            if JStr(computed) != entryHash then HashMismatch
            else SignatureCheck(lib, computed, signature, publicKeyHex)
  }

  /** `verify_entry_signature(entry, public_key_hex)`. */
  predicate VerifyEntrySignature(lib: Lib, entry: Json, publicKeyHex: string)
  {
    CheckEntry(lib, entry, publicKeyHex) == Passed
  }

  /** A missing or empty `signature` or `entry_hash` is rejected first. */
  lemma MissingSignatureOrHashFails(lib: Lib, fields: Dict, publicKeyHex: string)
    requires !Truthy(Lookup(fields, SIGNATURE)) || !Truthy(Lookup(fields, ENTRY_HASH))
    ensures CheckEntry(lib, JObj(fields), publicKeyHex) == MissingSignatureOrHash
    ensures !VerifyEntrySignature(lib, JObj(fields), publicKeyHex)
  {
  }

  /** A missing or empty `previous_hash` is rejected before any hashing. */
  lemma MissingPreviousHashFails(lib: Lib, fields: Dict, publicKeyHex: string)
    requires Truthy(Lookup(fields, SIGNATURE)) && Truthy(Lookup(fields, ENTRY_HASH))
    requires !Truthy(Lookup(fields, PREVIOUS_HASH))
    ensures CheckEntry(lib, JObj(fields), publicKeyHex) == MissingPreviousHash
  {
  }

  /** When the recomputed hash differs from the stored one the verdict is a
      mismatch whatever signature the entry carries and whatever key is
      given: the signature is never examined. */
  lemma MismatchIgnoresSignature(lib: Lib, fields: Dict, sig: Json, publicKeyHex: string)
    requires Truthy(sig) && Truthy(Lookup(fields, ENTRY_HASH))
    requires Lookup(fields, PREVIOUS_HASH).JStr? && Lookup(fields, PREVIOUS_HASH).s != ""
    requires JStr(ComputeEntryHash(lib, fields, Lookup(fields, PREVIOUS_HASH)).value) != Lookup(fields, ENTRY_HASH)
    ensures CheckEntry(lib, JObj(Put(fields, SIGNATURE, sig)), publicKeyHex) == HashMismatch
  {
    var prev := Lookup(fields, PREVIOUS_HASH);
    var signed := Put(fields, SIGNATURE, sig);
    PutFacts(fields, SIGNATURE, sig);
    assert Lookup(signed, PREVIOUS_HASH) == prev;
    assert Lookup(signed, ENTRY_HASH) == Lookup(fields, ENTRY_HASH);
    HashIgnoresSealFields(lib, fields, SIGNATURE, sig, prev);
    assert ComputeEntryHash(lib, signed, prev) == ComputeEntryHash(lib, fields, prev);
  }

  /** The entry verifies exactly when it is an object whose `previous_hash` is
      a non-empty string, whose `entry_hash` is the recomputed hash, and whose
      base64 `signature` verifies over the UTF-8 hash text under the 32-byte
      key the hex text decodes to. */
  lemma VerifyEntrySignatureIff(lib: Lib, entry: Json, publicKeyHex: string)
    ensures VerifyEntrySignature(lib, entry, publicKeyHex) <==>
      && entry.JObj?
      && var fields := entry.fields;
         var previousHash := Lookup(fields, PREVIOUS_HASH);
         var signature := Lookup(fields, SIGNATURE);
         var key := HexDecode(publicKeyHex);
      && previousHash.JStr? && previousHash.s != ""
      && signature.JStr? && signature.s != ""
      && ComputeEntryHash(lib, fields, previousHash).Ok?
      && Lookup(fields, ENTRY_HASH) == JStr(ComputeEntryHash(lib, fields, previousHash).value)
      && ComputeEntryHash(lib, fields, previousHash).value != ""
      && key.Some? && |key.value| == VERIFY_KEY_BYTES
      && lib.b64decode(signature.s).Some?
      && lib.verify(key.value, Utf8(ComputeEntryHash(lib, fields, previousHash).value), lib.b64decode(signature.s).value)
  {
    if entry.JObj? {
      var fields := entry.fields;
      var previousHash := Lookup(fields, PREVIOUS_HASH);
      var h := ComputeEntryHash(lib, fields, previousHash);
      var signature := Lookup(fields, SIGNATURE);
      var entryHash := Lookup(fields, ENTRY_HASH);
      if !Truthy(signature) || !Truthy(entryHash) {
        assert CheckEntry(lib, entry, publicKeyHex) == MissingSignatureOrHash;
        assert !(signature.JStr? && signature.s != "") || !(h.Ok? && entryHash == JStr(h.value) && h.value != "");
      } else if !Truthy(previousHash) {
        assert CheckEntry(lib, entry, publicKeyHex) == MissingPreviousHash;
        assert !(previousHash.JStr? && previousHash.s != "");
      } else if h.Err? {
        assert CheckEntry(lib, entry, publicKeyHex) == HashError;
      } else if JStr(h.value) != entryHash {
        assert CheckEntry(lib, entry, publicKeyHex) == HashMismatch;
      } else {
        assert CheckEntry(lib, entry, publicKeyHex) == SignatureCheck(lib, h.value, signature, publicKeyHex);
        SignatureCheckPasses(lib, h.value, signature, publicKeyHex);
      }
    }
  }

  /** The last step passes exactly when the key decodes to 32 bytes, the
      signature is base64 text, and it verifies over the hash text. */
  lemma SignatureCheckPasses(lib: Lib, entryHash: string, signature: Json, publicKeyHex: string)
    ensures SignatureCheck(lib, entryHash, signature, publicKeyHex) == Passed <==>
      var key := HexDecode(publicKeyHex);
      && key.Some? && |key.value| == VERIFY_KEY_BYTES
      && signature.JStr? && lib.b64decode(signature.s).Some?
      && lib.verify(key.value, Utf8(entryHash), lib.b64decode(signature.s).value)
  {
  }

  /** An entry that verifies carries the hash of its own current content:
      changing any hashed field without recomputing `entry_hash` is detected,
      unless SHA-256 collides on the two payloads. The entries are values
      Python can hold, with every nested object's keys sorted. */
  lemma TamperedEntryFails(lib: Lib, fields: Dict, tampered: Dict, k: string, publicKeyHex: string)
    requires VerifyEntrySignature(lib, JObj(fields), publicKeyHex)
    requires Lookup(tampered, ENTRY_HASH) == Lookup(fields, ENTRY_HASH)
    requires Lookup(tampered, PREVIOUS_HASH) == Lookup(fields, PREVIOUS_HASH)
    requires k != ENTRY_HASH && k != SIGNATURE && Lookup(tampered, k) != Lookup(fields, k)
    requires JsonLawful(lib)
    requires WellFormed(JObj(fields)) && WellFormed(JObj(tampered))
    requires ValuesKeysSorted(fields) && ValuesKeysSorted(tampered)
    requires var p := Lookup(fields, PREVIOUS_HASH).s;
      lib.sha256(Utf8(Payload(lib, tampered, p))) == lib.sha256(Utf8(Payload(lib, fields, p))) ==>
        Payload(lib, tampered, p) == Payload(lib, fields, p)
    ensures !VerifyEntrySignature(lib, JObj(tampered), publicKeyHex)
  {
    var p := Lookup(fields, PREVIOUS_HASH);
    var h1 := ComputeEntryHash(lib, fields, p);
    var h2 := ComputeEntryHash(lib, tampered, p);
    VerifyEntrySignatureIff(lib, JObj(fields), publicKeyHex);
    assert Lookup(fields, ENTRY_HASH) == JStr(h1.value);
    CanonicalJsonDeterminesFields(lib, tampered, fields, k);
    PayloadDeterminesCanonicalJson(lib, tampered, fields, p.s);
    assert Payload(lib, tampered, p.s) != Payload(lib, fields, p.s);
    assert HexDecode(h1.value) != HexDecode(h2.value);
    VerifyEntrySignatureIff(lib, JObj(tampered), publicKeyHex);
  }
}
