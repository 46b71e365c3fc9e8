/** `compute_entry_hash`: the SHA-256 of an entry's canonical JSON followed by
    the previous entry's hash, in lowercase hex. */
module Hashing {
  import opened Base
  import opened Text
  import opened Sorting
  import opened Json
  import opened Primitives

  const ENTRY_HASH: string := "entry_hash"
  const SIGNATURE: string := "signature"
  const PREVIOUS_HASH: string := "previous_hash"

  /** The entry without the two fields the hash itself produces. */
  function Clean(entry: Dict): Dict
  {
    Pop(Pop(entry, ENTRY_HASH), SIGNATURE)
  }

  /** Cleaning keeps exactly the pairs under other keys. */
  lemma CleanFacts(entry: Dict)
    ensures forall p :: p in Clean(entry) <==> p in entry && p.0 != ENTRY_HASH && p.0 != SIGNATURE
    ensures DistinctKeys(entry) ==> DistinctKeys(Clean(entry))
  {
    PopFacts(entry, ENTRY_HASH);
    PopFacts(Pop(entry, ENTRY_HASH), SIGNATURE);
  }

  /** `json.dumps(clean_entry, sort_keys=True, separators=(',', ':'))`. */
  function CanonicalJson(lib: Lib, entry: Dict): string
  {
    Dumps(JObj(Clean(entry)), lib.floatRepr, CANONICAL)
  }

  /** The hashed text: canonical JSON, then the previous hash. */
  function Payload(lib: Lib, entry: Dict, previousHash: string): string
  {
    CanonicalJson(lib, entry) + previousHash
  }

  /** Fails exactly when `previous_hash` is not a string; otherwise the result
      is lowercase hex that decodes to the SHA-256 of the UTF-8 payload. */
  function ComputeEntryHash(lib: Lib, entry: Dict, previousHash: Json): (r: Result<string>)
    ensures r.Err? <==> !previousHash.JStr?
    ensures r.Err? ==> r.error == PrevHashNotString
    ensures r.Ok? ==> IsLowerHex(r.value)
    ensures r.Ok? ==> HexDecode(r.value) == Some(lib.sha256(Utf8(Payload(lib, entry, previousHash.s))))
  {
    if !previousHash.JStr? then Err(PrevHashNotString)
    else
      var digest := lib.sha256(Utf8(Payload(lib, entry, previousHash.s)));
      HexRoundTrip(digest);
      Ok(HexEncode(digest))
  }

  /** With a 32-byte digest the hash is 64 lowercase hex characters. */
  lemma HashIsHex64(lib: Lib, entry: Dict, previousHash: Json)
    requires CryptoLawful(lib)
    ensures var r := ComputeEntryHash(lib, entry, previousHash);
      r.Ok? ==> |r.value| == 64 && IsLowerHex(r.value)
  {
    var r := ComputeEntryHash(lib, entry, previousHash);
    if r.Ok? {
      var digest := lib.sha256(Utf8(Payload(lib, entry, previousHash.s)));
      assert HexDecode(r.value) == Some(digest);
    }
  }

  /** Adding, changing or removing `entry_hash` or `signature` does not change
      the hash. */
  lemma HashIgnoresSealFields(lib: Lib, entry: Dict, k: string, v: Json, previousHash: Json)
    requires k == ENTRY_HASH || k == SIGNATURE
    ensures ComputeEntryHash(lib, Put(entry, k, v), previousHash) == ComputeEntryHash(lib, entry, previousHash)
    ensures ComputeEntryHash(lib, Pop(entry, k), previousHash) == ComputeEntryHash(lib, entry, previousHash)
  {
    if k == ENTRY_HASH {
      PopPutSame(entry, ENTRY_HASH, v);
      PopPopSame(entry, ENTRY_HASH);
    } else {
      PopPutOther(entry, SIGNATURE, ENTRY_HASH, v);
      PopPutSame(Pop(entry, ENTRY_HASH), SIGNATURE, v);
      PopPopSwap(entry, SIGNATURE, ENTRY_HASH);
      PopPopSame(Pop(entry, ENTRY_HASH), SIGNATURE);
    }
    assert Clean(Put(entry, k, v)) == Clean(entry);
    assert Clean(Pop(entry, k)) == Clean(entry);
  }

  /** Two dicts holding the same key/value pairs in any insertion order have
      the same canonical JSON and so the same hash. */
  lemma HashIgnoresKeyOrder(lib: Lib, e1: Dict, e2: Dict, previousHash: Json)
    requires DistinctKeys(e1) && DistinctKeys(e2)
    requires forall p :: p in e1 <==> p in e2
    ensures ComputeEntryHash(lib, e1, previousHash) == ComputeEntryHash(lib, e2, previousHash)
  {
    CleanFacts(e1);
    CleanFacts(e2);
    DumpsSortedIgnoresOrder(Clean(e1), Clean(e2), lib.floatRepr, CANONICAL);
    assert CanonicalJson(lib, e1) == CanonicalJson(lib, e2);
  }

  /** For a fixed entry, distinct previous hashes give distinct payloads: the
      payload ends with the previous hash, after the canonical JSON. */
  lemma PayloadSeparatesPreviousHash(lib: Lib, entry: Dict, p1: string, p2: string)
    requires Payload(lib, entry, p1) == Payload(lib, entry, p2)
    ensures p1 == p2
  {
    var c := CanonicalJson(lib, entry);
    assert p1 == Payload(lib, entry, p1)[|c|..];
    assert p2 == Payload(lib, entry, p2)[|c|..];
  }

  /** For a fixed previous hash, equal payloads have equal canonical JSON. */
  lemma PayloadDeterminesCanonicalJson(lib: Lib, e1: Dict, e2: Dict, previousHash: string)
    ensures Payload(lib, e1, previousHash) == Payload(lib, e2, previousHash) ==>
      CanonicalJson(lib, e1) == CanonicalJson(lib, e2)
  {
    var c1, c2 := CanonicalJson(lib, e1), CanonicalJson(lib, e2);
    if Payload(lib, e1, previousHash) == Payload(lib, e2, previousHash) {
      assert c1 == Payload(lib, e1, previousHash)[..|c1|];
      assert c2 == Payload(lib, e2, previousHash)[..|c2|];
    }
  }

  /** Every object nested in the entry's values has sorted keys, as in an
      entry read back from a `sort_keys=True` document; the entry's own keys
      may be in any order. */
  predicate ValuesKeysSorted(entry: Dict)
  {
    forall i :: 0 <= i < |entry| ==> KeysSorted(entry[i].1)
  }

  /** The cleaned entry in key order: the object `json.loads` returns for its
      canonical JSON. */
  lemma SortedCleanParses(lib: Lib, entry: Dict)
    requires JsonLawful(lib)
    requires WellFormed(JObj(entry)) && ValuesKeysSorted(entry)
    ensures lib.loads(CanonicalJson(lib, entry)) == Some(JObj(SortByKey(Clean(entry))))
    ensures forall p :: p in SortByKey(Clean(entry)) <==> p in Clean(entry)
  {
    var c := Clean(entry);
    var s := SortByKey(c);
    CleanFacts(entry);
    SortByKeyFacts(c);
    SortedDistinctIsStrict(s);
    forall i | 0 <= i < |s| ensures WellFormed(s[i].1) && KeysSorted(s[i].1) {
      assert s[i] in entry;
      var j :| 0 <= j < |entry| && entry[j] == s[i];
    }
    assert WellFormed(JObj(s)) && KeysSorted(JObj(s));
    DumpsSortedIgnoresOrder(c, s, lib.floatRepr, CANONICAL);
    assert CanonicalJson(lib, entry) == Dumps(JObj(s), lib.floatRepr, CANONICAL);
  }

  /** When `json.loads` reads back what `json.dumps` wrote, the canonical
      JSON of a well-formed entry determines every field that is hashed. */
  lemma CanonicalJsonDeterminesFields(lib: Lib, e1: Dict, e2: Dict, k: string)
    requires JsonLawful(lib)
    requires WellFormed(JObj(e1)) && WellFormed(JObj(e2))
    requires ValuesKeysSorted(e1) && ValuesKeysSorted(e2)
    requires k != ENTRY_HASH && k != SIGNATURE
    ensures CanonicalJson(lib, e1) == CanonicalJson(lib, e2) ==> Lookup(e1, k) == Lookup(e2, k)
  {
    if CanonicalJson(lib, e1) == CanonicalJson(lib, e2) {
      SortedCleanParses(lib, e1);
      SortedCleanParses(lib, e2);
      assert SortByKey(Clean(e1)) == SortByKey(Clean(e2));
      CleanFacts(e1);
      CleanFacts(e2);
      LookupSamePairs(Clean(e1), Clean(e2), k);
      PopFacts(e1, ENTRY_HASH);
      PopFacts(Pop(e1, ENTRY_HASH), SIGNATURE);
      PopFacts(e2, ENTRY_HASH);
      PopFacts(Pop(e2, ENTRY_HASH), SIGNATURE);
    }
  }

  /** An entry without `entry_hash` and `signature` gets both appended. */
  lemma SealAppends(entry: Dict, h: Json, sig: Json)
    requires !HasKey(entry, ENTRY_HASH) && !HasKey(entry, SIGNATURE)
    ensures Put(Put(entry, ENTRY_HASH, h), SIGNATURE, sig) == entry + [(ENTRY_HASH, h), (SIGNATURE, sig)]
  {
    var withHash := entry + [(ENTRY_HASH, h)];
    PutAbsent(entry, ENTRY_HASH, h);
    assert !HasKey(withHash, SIGNATURE) by {
      forall i | 0 <= i < |withHash| ensures withHash[i].0 != SIGNATURE {
        if i < |entry| { assert withHash[i] == entry[i]; }
      }
    }
    PutAbsent(withHash, SIGNATURE, sig);
    assert withHash + [(SIGNATURE, sig)] == entry + [(ENTRY_HASH, h), (SIGNATURE, sig)];
  }

  /** Cleaning an entry sealed that way gives the entry back. */
  lemma CleanSealed(entry: Dict, h: Json, sig: Json)
    requires !HasKey(entry, ENTRY_HASH) && !HasKey(entry, SIGNATURE)
    ensures Clean(entry + [(ENTRY_HASH, h), (SIGNATURE, sig)]) == entry
  {
    var seals := [(ENTRY_HASH, h), (SIGNATURE, sig)];
    var popped := Pop(entry + seals, ENTRY_HASH);
    assert popped == entry + [(SIGNATURE, sig)] by {
      PopConcat(entry, seals, ENTRY_HASH);
      PopAbsent(entry, ENTRY_HASH);
      assert seals[1..] == [(SIGNATURE, sig)];
      assert Pop([(SIGNATURE, sig)], ENTRY_HASH) == [(SIGNATURE, sig)] + Pop([], ENTRY_HASH);
    }
    assert Pop(popped, SIGNATURE) == entry by {
      PopConcat(entry, [(SIGNATURE, sig)], SIGNATURE);
      PopAbsent(entry, SIGNATURE);
      assert entry + [] == entry;
    }
  }
}
