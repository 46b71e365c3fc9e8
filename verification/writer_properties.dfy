/** What the ledger writer guarantees about the entries it appends: they are
    new, in candidate order, chained, hashed over exactly six fields and
    signed so that the verifier accepts them. */
module WriterProperties {
  import opened Base
  import opened Sorting
  import opened Text
  import opened Json
  import opened Primitives
  import opened Hashing
  import opened Signing
  import opened VerifySignature
  import opened VerifyChain
  import opened Linkage
  import opened SignalEngine

  // ---------------------------------------------------------------------
  // Deduplication

  /** `a` is `b` with some elements left out, the rest in order. */
  predicate Subsequence<T(==)>(a: seq<T>, b: seq<T>)
    decreases |b|
  {
    a == [] || (b != [] && ((a[0] == b[0] && Subsequence(a[1..], b[1..])) || Subsequence(a, b[1..])))
  }

  /** The candidates kept from index `k` on keep their order, none has an
      identity in `ids`, no two share one, and every identity met is either
      in `ids` or kept. */
  lemma {:induction false} FreshFacts(candidates: seq<Candidate>, k: nat, ids: set<string>)
    requires k <= |candidates|
    ensures var r := FreshFrom(candidates, k, ids);
      && Subsequence(r, candidates[k..])
      && (forall i :: 0 <= i < |r| ==> CandidateUid(r[i]) !in ids)
      && (forall i, j :: 0 <= i < j < |r| ==> CandidateUid(r[i]) != CandidateUid(r[j]))
      && (forall i :: k <= i < |candidates| ==>
            CandidateUid(candidates[i]) in ids || exists j :: 0 <= j < |r| && CandidateUid(r[j]) == CandidateUid(candidates[i]))
    decreases |candidates| - k
  {
    if k < |candidates| {
      var c := candidates[k];
      var uid := CandidateUid(c);
      assert candidates[k..][0] == c && candidates[k..][1..] == candidates[k + 1..];
      if uid in ids {
        FreshFacts(candidates, k + 1, ids);
      } else {
        FreshFacts(candidates, k + 1, ids + {uid});
        var rest := FreshFrom(candidates, k + 1, ids + {uid});
        var r := [c] + rest;
        assert r[0] == c && r[1..] == rest;
        forall i | k <= i < |candidates|
          ensures CandidateUid(candidates[i]) in ids || exists j :: 0 <= j < |r| && CandidateUid(r[j]) == CandidateUid(candidates[i])
        {
          if i > k && CandidateUid(candidates[i]) !in ids + {uid} {
            var j :| 0 <= j < |rest| && CandidateUid(rest[j]) == CandidateUid(candidates[i]);
            assert r[j + 1] == rest[j];
          } else if i == k || CandidateUid(candidates[i]) == uid {
            assert CandidateUid(r[0]) == uid;
          }
        }
        forall i, j | 0 <= i < j < |r| ensures CandidateUid(r[i]) != CandidateUid(r[j]) {
          assert r[j] == rest[j - 1];
          if i > 0 { assert r[i] == rest[i - 1]; }
        }
      }
    }
  }

  // ---------------------------------------------------------------------
  // Sealing one candidate

  /** The six fields the writer builds never include the two seal fields,
      and no key repeats. */
  lemma BuildEntryKeys(lib: Lib, c: Candidate, previousHash: Json)
    ensures var entry := BuildEntry(lib, c, previousHash);
      !HasKey(entry, ENTRY_HASH) && !HasKey(entry, SIGNATURE) && DistinctKeys(entry)
    ensures JsonLawful(lib) && WellFormed(previousHash) ==> WellFormed(JObj(BuildEntry(lib, c, previousHash)))
  {
    var entry := BuildEntry(lib, c, previousHash);
    if JsonLawful(lib) && WellFormed(previousHash) {
      ZeroIsDouble();
      forall i | 0 <= i < |entry| ensures WellFormed(entry[i].1) {
        if i == 5 { assert entry[i].1 == previousHash; }
      }
    }
  }

  /** A sealed entry is the built entry with `entry_hash` and `signature`
      added at the end; its hash is the hash of what was built, on the hash
      it chains to, and the writer fails only on a `previous_hash` that is
      not a string or an empty hash. */
  lemma SealOneFacts(lib: Lib, seed: seq<byte>, c: Candidate, previousHash: Json)
    ensures var r := SealOne(lib, seed, c, previousHash);
      && (r.Err? <==> !previousHash.JStr? || ComputeEntryHash(lib, BuildEntry(lib, c, previousHash), previousHash).value == "")
      && (r.Ok? ==>
            var (record, h) := r.value;
            && record == BuildEntry(lib, c, previousHash) + [(ENTRY_HASH, JStr(h)), (SIGNATURE, JStr(SignHash(lib, seed, h).value))]
            && Clean(record) == BuildEntry(lib, c, previousHash)
            && ComputeEntryHash(lib, record, previousHash) == Ok(h)
            && h != "")
  {
    var entry := BuildEntry(lib, c, previousHash);
    BuildEntryKeys(lib, c, previousHash);
    var r := SealOne(lib, seed, c, previousHash);
    if r.Ok? {
      var (record, h) := r.value;
      var sig := JStr(SignHash(lib, seed, h).value);
      SealAppends(entry, JStr(h), sig);
      CleanSealed(entry, JStr(h), sig);
      HashIgnoresSealFields(lib, entry, ENTRY_HASH, JStr(h), previousHash);
      HashIgnoresSealFields(lib, Put(entry, ENTRY_HASH, JStr(h)), SIGNATURE, sig, previousHash);
    }
  }

  /** With lawful primitives only a `previous_hash` that is not a string
      stops the writer, and the hash it chains on is 64 hex characters. */
  lemma SealOneLawful(lib: Lib, seed: seq<byte>, c: Candidate, previousHash: Json)
    requires CryptoLawful(lib)
    ensures var r := SealOne(lib, seed, c, previousHash);
      && (r.Ok? <==> previousHash.JStr?)
      && (r.Ok? ==> |r.value.1| == 64 && IsLowerHex(r.value.1))
  {
    SealOneFacts(lib, seed, c, previousHash);
    HashIsHex64(lib, BuildEntry(lib, c, previousHash), previousHash);
  }

  /** The record's own fields read back as the writer set them. */
  lemma SealedLookups(lib: Lib, c: Candidate, previousHash: Json, h: string, sig: string)
    ensures var record := BuildEntry(lib, c, previousHash) + [(ENTRY_HASH, JStr(h)), (SIGNATURE, JStr(sig))];
      && Lookup(record, PREVIOUS_HASH) == previousHash
      && Lookup(record, ENTRY_HASH) == JStr(h)
      && Lookup(record, SIGNATURE) == JStr(sig)
      && Lookup(record, ASSET) == JStr(c.token)
      && Lookup(record, TIMESTAMP_UTC) == JStr(c.timestampUtc)
  {
    var record := BuildEntry(lib, c, previousHash) + [(ENTRY_HASH, JStr(h)), (SIGNATURE, JStr(sig))];
    LookupFirst(record, 0);
    LookupFirst(record, 4);
    LookupFirst(record, 5);
    LookupFirst(record, 6);
    LookupFirst(record, 7);
  }

  /** Every entry the writer seals on a non-empty string hash, with a
      32-byte seed and lawful primitives, passes `verify_entry_signature`
      under the public key of that seed. */
  lemma SealOneVerifies(lib: Lib, seed: seq<byte>, c: Candidate, previousHash: Json)
    requires CryptoLawful(lib) && |seed| == SEED_BYTES
    requires previousHash.JStr? && previousHash.s != ""
    ensures var r := SealOne(lib, seed, c, previousHash);
      r.Ok? && VerifyEntrySignature(lib, JObj(r.value.0), VerifyKeyHex(lib, seed))
  {
    SealOneFacts(lib, seed, c, previousHash);
    SealOneLawful(lib, seed, c, previousHash);
    var r := SealOne(lib, seed, c, previousHash);
    var (record, h) := r.value;
    var sig := SignHash(lib, seed, h).value;
    SignatureVerifies(lib, seed, h);
    assert sig != "" by {
      assert |lib.sign(seed, Utf8(h))| == 64;
    }
    SealedLookups(lib, c, previousHash, h, sig);
    VerifyEntrySignatureIff(lib, JObj(record), VerifyKeyHex(lib, seed));
  }

  /** A sealed entry is a JSON object with distinct keys and well-formed
      values, so it survives a `dumps`/`loads` round trip. */
  lemma SealOneWellFormed(lib: Lib, seed: seq<byte>, c: Candidate, previousHash: Json)
    requires JsonLawful(lib) && WellFormed(previousHash)
    ensures var r := SealOne(lib, seed, c, previousHash);
      r.Ok? ==> WellFormed(JObj(r.value.0)) && DistinctKeys(r.value.0)
  {
    SealOneFacts(lib, seed, c, previousHash);
    var r := SealOne(lib, seed, c, previousHash);
    if r.Ok? {
      BuildEntryKeys(lib, c, previousHash);
      SealedWellFormed(BuildEntry(lib, c, previousHash), r.value.1, SignHash(lib, seed, r.value.1).value);
    }
  }

  /** Adding the two seal fields to a well-formed entry that lacks them
      keeps it well formed. */
  lemma SealedWellFormed(entry: Dict, h: string, sig: string)
    requires DistinctKeys(entry) && WellFormed(JObj(entry))
    requires !HasKey(entry, ENTRY_HASH) && !HasKey(entry, SIGNATURE)
    ensures var record := entry + [(ENTRY_HASH, JStr(h)), (SIGNATURE, JStr(sig))];
      WellFormed(JObj(record)) && DistinctKeys(record)
  {
    var withHash := entry + [(ENTRY_HASH, JStr(h))];
    AppendNewKey(entry, ENTRY_HASH, JStr(h));
    AppendNewKey(withHash, SIGNATURE, JStr(sig));
    assert entry + [(ENTRY_HASH, JStr(h)), (SIGNATURE, JStr(sig))] == withHash + [(SIGNATURE, JStr(sig))];
  }

  /** A sealed entry names the hash it chains to and carries its own. */
  lemma SealOneLinks(lib: Lib, seed: seq<byte>, c: Candidate, previousHash: Json)
    ensures var r := SealOne(lib, seed, c, previousHash);
      r.Ok? ==>
        && Lookup(r.value.0, PREVIOUS_HASH) == previousHash
        && Lookup(r.value.0, ENTRY_HASH) == JStr(r.value.1)
        && r.value.1 != ""
  {
    SealOneFacts(lib, seed, c, previousHash);
    var r := SealOne(lib, seed, c, previousHash);
    if r.Ok? {
      SealedLookups(lib, c, previousHash, r.value.1, SignHash(lib, seed, r.value.1).value);
    }
  }

  /** Without its seal fields, `record` is exactly the entry built from
      candidate `c` on the hash the record names. */
  predicate SealedFrom(lib: Lib, record: Dict, c: Candidate)
  {
    Clean(record) == BuildEntry(lib, c, Lookup(record, PREVIOUS_HASH))
  }

  /** A sealed entry is sealed from its candidate. */
  lemma SealOneClean(lib: Lib, seed: seq<byte>, c: Candidate, previousHash: Json)
    ensures var r := SealOne(lib, seed, c, previousHash);
      r.Ok? ==> SealedFrom(lib, r.value.0, c)
  {
    SealOneFacts(lib, seed, c, previousHash);
    SealOneLinks(lib, seed, c, previousHash);
  }

  // ---------------------------------------------------------------------
  // Sealing a batch

  /** The batch seals a prefix of the candidates: all of them unless it
      stopped on an exception. */
  lemma {:induction false} SealAllFacts(lib: Lib, seed: seq<byte>, candidates: seq<Candidate>, previousHash: Json)
    ensures var b := SealAll(lib, seed, candidates, previousHash);
      && |b.records| <= |candidates|
      && (b.failure.None? <==> |b.records| == |candidates|)
    decreases |candidates|
  {
    if candidates != [] {
      var r := SealOne(lib, seed, candidates[0], previousHash);
      if r.Ok? {
        SealAllFacts(lib, seed, candidates[1..], JStr(r.value.1));
      }
    }
  }

  /** Each entry of the batch is sealed from the candidate in the same
      position. */
  lemma {:induction false} SealAllFromCandidates(lib: Lib, seed: seq<byte>, candidates: seq<Candidate>, previousHash: Json)
    ensures var records := SealAll(lib, seed, candidates, previousHash).records;
      forall i :: 0 <= i < |records| && i < |candidates| ==> SealedFrom(lib, records[i], candidates[i])
    decreases |candidates|
  {
    if candidates != [] {
      var r := SealOne(lib, seed, candidates[0], previousHash);
      if r.Ok? {
        SealOneClean(lib, seed, candidates[0], previousHash);
        var rest := SealAll(lib, seed, candidates[1..], JStr(r.value.1)).records;
        SealAllFromCandidates(lib, seed, candidates[1..], JStr(r.value.1));
        SealedFromCons(lib, r.value.0, rest, candidates);
      }
    }
  }

  lemma SealedFromCons(lib: Lib, record: Dict, rest: seq<Dict>, candidates: seq<Candidate>)
    requires candidates != [] && SealedFrom(lib, record, candidates[0])
    requires forall i :: 0 <= i < |rest| && i < |candidates[1..]| ==> SealedFrom(lib, rest[i], candidates[1..][i])
    ensures var records := [record] + rest;
      forall i :: 0 <= i < |records| && i < |candidates| ==> SealedFrom(lib, records[i], candidates[i])
  {
    var records := [record] + rest;
    forall i | 0 < i < |records| && i < |candidates| ensures SealedFrom(lib, records[i], candidates[i]) {
      assert records[i] == rest[i - 1] && candidates[i] == candidates[1..][i - 1];
    }
  }

  /** The entries of a batch are chained from the hash it starts on: each
      names the hash of the one before. */
  lemma {:induction false} SealAllChained(lib: Lib, seed: seq<byte>, candidates: seq<Candidate>, previousHash: Json)
    ensures Chained(SealAll(lib, seed, candidates, previousHash).records, previousHash)
    decreases |candidates|
  {
    if candidates != [] {
      var r := SealOne(lib, seed, candidates[0], previousHash);
      if r.Ok? {
        SealOneLinks(lib, seed, candidates[0], previousHash);
        var (record, h) := r.value;
        var rest := SealAll(lib, seed, candidates[1..], JStr(h)).records;
        SealAllChained(lib, seed, candidates[1..], JStr(h));
        ChainedCons(record, rest, previousHash);
      }
    }
  }

  /** With lawful primitives a batch that starts on a string hash seals
      every candidate; one that starts on anything else seals none. */
  lemma {:induction false} SealAllLawful(lib: Lib, seed: seq<byte>, candidates: seq<Candidate>, previousHash: Json)
    requires CryptoLawful(lib)
    ensures var b := SealAll(lib, seed, candidates, previousHash);
      && (previousHash.JStr? ==> b.failure.None?)
      && (!previousHash.JStr? && candidates != [] ==> b == Batch([], Some(PrevHashNotString)))
    decreases |candidates|
  {
    if candidates != [] {
      SealOneLawful(lib, seed, candidates[0], previousHash);
      var r := SealOne(lib, seed, candidates[0], previousHash);
      if r.Ok? {
        SealAllLawful(lib, seed, candidates[1..], JStr(r.value.1));
      } else {
        assert r.error == PrevHashNotString;
      }
    }
  }

  /** Every entry passes `verify_entry_signature` under `publicKeyHex`. */
  predicate AllVerify(lib: Lib, entries: seq<Dict>, publicKeyHex: string)
  {
    forall i :: 0 <= i < |entries| ==> VerifyEntrySignature(lib, JObj(entries[i]), publicKeyHex)
  }

  /** Every entry is a well-formed JSON object. */
  predicate AllWellFormed(entries: seq<Dict>)
  {
    forall i :: 0 <= i < |entries| ==> WellFormed(JObj(entries[i]))
  }

  /** With lawful primitives, a 32-byte seed and a non-empty string start,
      every entry of the batch verifies under the seed's public key. */
  lemma {:induction false} SealAllVerifies(lib: Lib, seed: seq<byte>, candidates: seq<Candidate>, previousHash: Json)
    requires CryptoLawful(lib) && |seed| == SEED_BYTES
    requires previousHash.JStr? && previousHash.s != ""
    ensures AllVerify(lib, SealAll(lib, seed, candidates, previousHash).records, VerifyKeyHex(lib, seed))
    decreases |candidates|
  {
    if candidates != [] {
      SealOneVerifies(lib, seed, candidates[0], previousHash);
      SealOneLawful(lib, seed, candidates[0], previousHash);
      var r := SealOne(lib, seed, candidates[0], previousHash);
      var rest := SealAll(lib, seed, candidates[1..], JStr(r.value.1)).records;
      SealAllVerifies(lib, seed, candidates[1..], JStr(r.value.1));
      AllVerifyCons(lib, VerifyKeyHex(lib, seed), r.value.0, rest);
    }
  }

  /** Prepending an entry that verifies to entries that all verify. */
  lemma AllVerifyCons(lib: Lib, publicKeyHex: string, record: Dict, rest: seq<Dict>)
    requires VerifyEntrySignature(lib, JObj(record), publicKeyHex)
    requires AllVerify(lib, rest, publicKeyHex)
    ensures AllVerify(lib, [record] + rest, publicKeyHex)
  {
    var all := [record] + rest;
    forall i | 0 < i < |all| ensures all[i] == rest[i - 1] {
    }
  }

  /** A batch started on well-formed JSON holds well-formed JSON objects. */
  lemma {:induction false} SealAllWellFormed(lib: Lib, seed: seq<byte>, candidates: seq<Candidate>, previousHash: Json)
    requires JsonLawful(lib) && WellFormed(previousHash)
    ensures AllWellFormed(SealAll(lib, seed, candidates, previousHash).records)
    decreases |candidates|
  {
    if candidates != [] {
      SealOneWellFormed(lib, seed, candidates[0], previousHash);
      var r := SealOne(lib, seed, candidates[0], previousHash);
      if r.Ok? {
        var rest := SealAll(lib, seed, candidates[1..], JStr(r.value.1)).records;
        SealAllWellFormed(lib, seed, candidates[1..], JStr(r.value.1));
        AllWellFormedCons(r.value.0, rest);
      }
    }
  }

  /** Prepending a well-formed object to well-formed objects. */
  lemma AllWellFormedCons(record: Dict, rest: seq<Dict>)
    requires WellFormed(JObj(record)) && AllWellFormed(rest)
    ensures AllWellFormed([record] + rest)
  {
    var all := [record] + rest;
    forall i | 0 < i < |all| ensures all[i] == rest[i - 1] {
    }
  }

  // ---------------------------------------------------------------------
  // The file

  /** A file the writer appends to without joining a line: empty, or its
      last line ends with a newline. */
  predicate NewlineTerminated(lines: seq<string>)
  {
    lines == [] || EndsWithNewline(lines[|lines| - 1])
  }

  /** The lines the records are written as, one per record. */
  function RecordLines(lib: Lib, records: seq<Dict>): (r: seq<string>)
    ensures |r| == |records|
  {
    if records == [] then []
    else RecordLines(lib, records[..|records| - 1]) + [RecordLine(lib, records[|records| - 1])]
  }

  /** The line in each position is the record in that position, written. */
  lemma {:induction false} RecordLinesAt(lib: Lib, records: seq<Dict>, i: nat)
    requires i < |records|
    ensures RecordLines(lib, records)[i] == RecordLine(lib, records[i])
    decreases |records|
  {
    var n := |records|;
    if i < n - 1 {
      RecordLinesAt(lib, records[..n - 1], i);
      assert records[..n - 1][i] == records[i];
    }
  }

  /** Appending to a newline-terminated file adds one line per record and
      leaves the lines already there untouched. */
  lemma {:induction false} AppendRecordsExtends(lib: Lib, lines: seq<string>, records: seq<Dict>)
    requires NewlineTerminated(lines)
    ensures AppendRecords(lib, lines, records) == lines + RecordLines(lib, records)
    ensures NewlineTerminated(AppendRecords(lib, lines, records))
    decreases |records|
  {
    if records != [] {
      var n := |records|;
      var prefix := records[..n - 1];
      AppendRecordsExtends(lib, lines, prefix);
      var written := lines + RecordLines(lib, prefix);
      var line := RecordLine(lib, records[n - 1]);
      assert AppendRecords(lib, lines, records) == AppendText(written, line);
      AppendTextTerminated(written, line);
      assert written + [line] == lines + RecordLines(lib, records);
      assert EndsWithNewline(line);
    }
  }

  /** Text appended to a newline-terminated file is a line of its own. */
  lemma AppendTextTerminated(lines: seq<string>, text: string)
    requires NewlineTerminated(lines)
    ensures AppendText(lines, text) == lines + [text]
  {
  }

  /** The line of a well-formed record that verifies passes both checks of
      `verify_file`. */
  lemma RecordLinePasses(lib: Lib, publicKeyHex: string, record: Dict)
    requires Lawful(lib) && WellFormed(JObj(record))
    requires VerifyEntrySignature(lib, JObj(record), publicKeyHex)
    ensures CheckLine(lib, publicKeyHex, RecordLine(lib, record)) == Checked(true)
  {
    var text := Dumps(JObj(record), lib.floatRepr, DEFAULT);
    var line := text + "\n";
    assert line[0] == '{';
    assert !Blank(line);
    assert lib.loads(line) == Some(JObj(record));
    VerifyEntrySignatureIff(lib, JObj(record), publicKeyHex);
  }

  /** Every line passes the checks of `verify_file`. */
  predicate AllLinesPass(lib: Lib, publicKeyHex: string, lines: seq<string>)
  {
    forall i :: 0 <= i < |lines| ==> Passes(CheckLine(lib, publicKeyHex, lines[i]))
  }

  /** The lines of well-formed records that verify all pass. */
  lemma RecordLinesPass(lib: Lib, publicKeyHex: string, records: seq<Dict>)
    requires Lawful(lib)
    requires AllVerify(lib, records, publicKeyHex) && AllWellFormed(records)
    ensures AllLinesPass(lib, publicKeyHex, RecordLines(lib, records))
  {
    var lines := RecordLines(lib, records);
    forall j | 0 <= j < |lines| ensures Passes(CheckLine(lib, publicKeyHex, lines[j])) {
      RecordLinesAt(lib, records, j);
      RecordLinePasses(lib, publicKeyHex, records[j]);
    }
  }

  /** Lines that pass, followed by lines that pass. */
  lemma AllLinesPassConcat(lib: Lib, publicKeyHex: string, a: seq<string>, b: seq<string>)
    requires AllLinesPass(lib, publicKeyHex, a) && AllLinesPass(lib, publicKeyHex, b)
    ensures AllLinesPass(lib, publicKeyHex, a + b)
  {
    forall i | 0 <= i < |a + b| ensures Passes(CheckLine(lib, publicKeyHex, (a + b)[i])) {
      if i < |a| { assert (a + b)[i] == a[i]; } else { assert (a + b)[i] == b[i - |a|]; }
    }
  }

  /** Appending well-formed records that verify to a valid,
      newline-terminated file leaves it valid. */
  lemma AppendedFileValid(lib: Lib, publicKeyHex: string, lines: seq<string>, records: seq<Dict>)
    requires Lawful(lib) && NewlineTerminated(lines)
    requires FileVerdict(lib, publicKeyHex, Lines(lines)) == Ok(true)
    requires AllVerify(lib, records, publicKeyHex) && AllWellFormed(records)
    ensures FileVerdict(lib, publicKeyHex, Lines(AppendRecords(lib, lines, records))) == Ok(true)
  {
    AppendRecordsExtends(lib, lines, records);
    FileValidIff(lib, publicKeyHex, Lines(lines));
    RecordLinesPass(lib, publicKeyHex, records);
    AllLinesPassConcat(lib, publicKeyHex, lines, RecordLines(lib, records));
    FileValidIff(lib, publicKeyHex, Lines(lines + RecordLines(lib, records)));
  }

  // ---------------------------------------------------------------------
  // A whole run

  /** What a batch appends is well-formed and verifies under the seed's key
      whenever the hash it starts on is not the empty string: a start that
      is not a string seals nothing. */
  lemma BatchAcceptable(lib: Lib, seed: seq<byte>, candidates: seq<Candidate>, start: Json)
    requires Lawful(lib) && |seed| == SEED_BYTES
    requires start != JStr("")
    ensures var records := SealAll(lib, seed, candidates, start).records;
      AllVerify(lib, records, VerifyKeyHex(lib, seed)) && AllWellFormed(records)
  {
    if start.JStr? {
      SealAllVerifies(lib, seed, candidates, start);
      SealAllWellFormed(lib, seed, candidates, start);
    } else {
      SealAllLawful(lib, seed, candidates, start);
    }
  }

  /** `process_signals` keeps today's file valid: when the key loads, the
      file is missing or passes `verify_file` and ends with a newline, and
      the chain does not start on an empty hash, the file afterwards passes
      `verify_file` under the key's public key, whatever the run's outcome. */
  lemma RunKeepsLedgerValid(lib: Lib, environ: map<string, string>, candidates: seq<Candidate>, file: Option<Content>)
    requires Lawful(lib) && LoadSigningKey(None, environ).Ok?
    requires var publicKeyHex := VerifyKeyHex(lib, LoadSigningKey(None, environ).value);
      file.None? || (file.value.Lines? && NewlineTerminated(file.value.lines)
                     && FileVerdict(lib, publicKeyHex, file.value) == Ok(true))
    requires StartHash(LoadLastEntry(lib, file)) != Ok(JStr(""))
    ensures var publicKeyHex := VerifyKeyHex(lib, LoadSigningKey(None, environ).value);
      var after := Run(lib, environ, candidates, file).1;
      after.Some? ==> FileVerdict(lib, publicKeyHex, after.value) == Ok(true)
  {
    var seed := LoadSigningKey(None, environ).value;
    var start := StartHash(LoadLastEntry(lib, file));
    var ids := ExistingIds(lib, file);
    RunFile(lib, environ, candidates, file);
    if candidates != [] && start.Ok? && ids.Ok? {
      FileValidIff(lib, VerifyKeyHex(lib, seed), Lines([]));
      BatchKeepsValid(lib, seed, LinesOf(file), Fresh(candidates, ids.value), start.value);
    }
  }

  /** The file a run leaves: today's file with the batch appended when the
      run gets as far as sealing, and today's file untouched otherwise. */
  lemma RunFile(lib: Lib, environ: map<string, string>, candidates: seq<Candidate>, file: Option<Content>)
    ensures var key := LoadSigningKey(None, environ);
      var start := StartHash(LoadLastEntry(lib, file));
      var ids := ExistingIds(lib, file);
      var after := Run(lib, environ, candidates, file).1;
      if key.Ok? && candidates != [] && start.Ok? && ids.Ok? then
        after == Some(Lines(AppendRecords(lib, LinesOf(file), SealAll(lib, key.value, Fresh(candidates, ids.value), start.value).records)))
      else after == file
  {
  }

  /** The appending step of `RunKeepsLedgerValid`. */
  lemma BatchKeepsValid(lib: Lib, seed: seq<byte>, lines: seq<string>, candidates: seq<Candidate>, start: Json)
    requires Lawful(lib) && |seed| == SEED_BYTES && NewlineTerminated(lines)
    requires FileVerdict(lib, VerifyKeyHex(lib, seed), Lines(lines)) == Ok(true)
    requires start != JStr("")
    ensures var records := SealAll(lib, seed, candidates, start).records;
      FileVerdict(lib, VerifyKeyHex(lib, seed), Lines(AppendRecords(lib, lines, records))) == Ok(true)
  {
    BatchAcceptable(lib, seed, candidates, start);
    AppendedFileValid(lib, VerifyKeyHex(lib, seed), lines, SealAll(lib, seed, candidates, start).records);
  }

  /** The last of `records`, if any, carries a non-empty string
      `entry_hash`. */
  predicate LastHashed(records: seq<Dict>)
  {
    records != [] ==>
      var h := Lookup(records[|records| - 1], ENTRY_HASH);
      h.JStr? && h.s != ""
  }

  lemma LastHashedCons(record: Dict, rest: seq<Dict>)
    requires Lookup(record, ENTRY_HASH).JStr? && Lookup(record, ENTRY_HASH).s != ""
    requires LastHashed(rest)
    ensures LastHashed([record] + rest)
  {
    if rest != [] {
      assert ([record] + rest)[|rest|] == rest[|rest| - 1];
    }
  }

  /** The last entry of a batch carries a non-empty string `entry_hash`. */
  lemma {:induction false} SealAllLastHashed(lib: Lib, seed: seq<byte>, candidates: seq<Candidate>, previousHash: Json)
    ensures LastHashed(SealAll(lib, seed, candidates, previousHash).records)
    decreases |candidates|
  {
    if candidates != [] {
      var r := SealOne(lib, seed, candidates[0], previousHash);
      if r.Ok? {
        SealOneLinks(lib, seed, candidates[0], previousHash);
        SealAllLastHashed(lib, seed, candidates[1..], JStr(r.value.1));
        LastHashedCons(r.value.0, SealAll(lib, seed, candidates[1..], JStr(r.value.1)).records);
      }
    }
  }

  /** After records are appended to a newline-terminated file, the last
      line `load_last_entry` reads back is the last record. */
  lemma LastRecordLoads(lib: Lib, lines: seq<string>, records: seq<Dict>)
    requires JsonLawful(lib) && NewlineTerminated(lines) && records != []
    requires WellFormed(JObj(records[|records| - 1]))
    ensures LoadLastEntry(lib, Some(Lines(AppendRecords(lib, lines, records)))) == JObj(records[|records| - 1])
  {
    var n := |records|;
    var last := records[n - 1];
    AppendRecordsExtends(lib, lines, records);
    RecordLinesAt(lib, records, n - 1);
    var after := lines + RecordLines(lib, records);
    assert after[|after| - 1] == RecordLine(lib, last);
    var text := Dumps(JObj(last), lib.floatRepr, DEFAULT);
    StripLine(text);
    assert lib.loads(text) == Some(JObj(last));
  }

  /** A run after records were appended starts on the last record's hash. */
  lemma NextStartIsLastHash(lib: Lib, lines: seq<string>, records: seq<Dict>)
    requires Lawful(lib) && NewlineTerminated(lines) && records != []
    requires WellFormed(JObj(records[|records| - 1]))
    requires Lookup(records[|records| - 1], ENTRY_HASH).JStr?
    ensures StartHash(LoadLastEntry(lib, Some(Lines(AppendRecords(lib, lines, records)))))
      == Ok(Lookup(records[|records| - 1], ENTRY_HASH))
  {
    var last := records[|records| - 1];
    LastRecordLoads(lib, lines, records);
    LookupPresentIndex(last, ENTRY_HASH);
  }

  /** The next run continues the chain: the entries a batch appends are
      chained from the hash it started on, and the next run starts on the
      `entry_hash` of the last of them. */
  lemma NextRunContinuesChain(lib: Lib, seed: seq<byte>, lines: seq<string>, candidates: seq<Candidate>, start: Json)
    requires Lawful(lib) && NewlineTerminated(lines)
    ensures var records := SealAll(lib, seed, candidates, start).records;
      var after := Some(Lines(AppendRecords(lib, lines, records)));
      && Chained(records, start)
      && (records != [] ==> StartHash(LoadLastEntry(lib, after)) == Ok(Lookup(records[|records| - 1], ENTRY_HASH)))
  {
    var records := SealAll(lib, seed, candidates, start).records;
    SealAllChained(lib, seed, candidates, start);
    if records != [] {
      SealAllLawful(lib, seed, candidates, start);
      SealAllWellFormed(lib, seed, candidates, start);
      SealAllLastHashed(lib, seed, candidates, start);
      NextStartIsLastHash(lib, lines, records);
    }
  }

  // ---------------------------------------------------------------------
  // The linked ledger

  /** The lines of today's file as `process_signals` extends them: none
      when the file is missing. */
  function LinesOf(file: Option<Content>): seq<string>
  {
    if file.Some? && file.value.Lines? then file.value.lines else []
  }

  /** The line of a well-formed record reads back as that record. */
  lemma RecordLineEntry(lib: Lib, record: Dict)
    requires Lawful(lib) && WellFormed(JObj(record))
    ensures Entries(lib, [RecordLine(lib, record)]) == [record]
  {
    var line := RecordLine(lib, record);
    assert line[0] == '{';
    assert !Blank(line);
    assert lib.loads(line) == Some(JObj(record));
    var single: seq<string> := [line];
    assert single[1..] == [];
  }

  /** The entries of the lines the records are written as are the records. */
  lemma {:induction false} EntriesRecordLines(lib: Lib, records: seq<Dict>)
    requires Lawful(lib) && AllWellFormed(records)
    ensures Entries(lib, RecordLines(lib, records)) == records
    decreases |records|
  {
    if records != [] {
      var n := |records|;
      var prefix := records[..n - 1];
      assert AllWellFormed(prefix) by {
        forall i | 0 <= i < |prefix| ensures WellFormed(JObj(prefix[i])) {
          assert prefix[i] == records[i];
        }
      }
      EntriesRecordLines(lib, prefix);
      EntriesConcat(lib, RecordLines(lib, prefix), [RecordLine(lib, records[n - 1])]);
      RecordLineEntry(lib, records[n - 1]);
      assert prefix + [records[n - 1]] == records;
    }
  }

  /** Records that verify, are well-formed and continue the chain of a
      linked, newline-terminated file leave it linked once appended. */
  lemma AppendedFileLinked(lib: Lib, publicKeyHex: string, lines: seq<string>, records: seq<Dict>)
    requires Lawful(lib) && NewlineTerminated(lines)
    requires LinkedFileVerdict(lib, publicKeyHex, Lines(lines)) == Ok(true)
    requires AllVerify(lib, records, publicKeyHex) && AllWellFormed(records)
    requires Chained(records, ChainEnd(Entries(lib, lines), JStr(GENESIS)))
    ensures LinkedFileVerdict(lib, publicKeyHex, Lines(AppendRecords(lib, lines, records))) == Ok(true)
  {
    var start := JStr(GENESIS);
    LinkedFileVerdictIff(lib, publicKeyHex, Lines(lines));
    AppendedFileValid(lib, publicKeyHex, lines, records);
    AppendRecordsExtends(lib, lines, records);
    EntriesConcat(lib, lines, RecordLines(lib, records));
    EntriesRecordLines(lib, records);
    ChainedConcat(Entries(lib, lines), records, start);
    LinkedFileVerdictIff(lib, publicKeyHex, Lines(AppendRecords(lib, lines, records)));
  }

  /** Today's file is linked under `publicKeyHex`: it is missing, or it
      ends with a newline and passes the linked check, and the next run
      starts on the hash the file's chain ends at, which is not empty. */
  predicate LinkedLedger(lib: Lib, publicKeyHex: string, file: Option<Content>)
  {
    var end := ChainEnd(Entries(lib, LinesOf(file)), JStr(GENESIS));
    && (file.None? || (file.value.Lines? && NewlineTerminated(file.value.lines)
                       && LinkedFileVerdict(lib, publicKeyHex, file.value) == Ok(true)))
    && StartHash(LoadLastEntry(lib, file)) == Ok(end)
    && end != JStr("")
  }

  /** A missing file is linked under any key. */
  lemma MissingFileLinked(lib: Lib, publicKeyHex: string)
    ensures LinkedLedger(lib, publicKeyHex, None)
  {
    assert Truthy(JNull) == false;
  }

  /** `process_signals` keeps today's file linked: a run on a linked file,
      whatever its outcome, leaves a file that is linked under the public
      key of the seed it signed with, so a day's runs, starting from no
      file, only ever produce files the linked check accepts. */
  lemma RunKeepsLedgerLinked(lib: Lib, environ: map<string, string>, candidates: seq<Candidate>, file: Option<Content>)
    requires Lawful(lib) && LoadSigningKey(None, environ).Ok?
    requires LinkedLedger(lib, VerifyKeyHex(lib, LoadSigningKey(None, environ).value), file)
    ensures LinkedLedger(lib, VerifyKeyHex(lib, LoadSigningKey(None, environ).value), Run(lib, environ, candidates, file).1)
  {
    var seed := LoadSigningKey(None, environ).value;
    var start := StartHash(LoadLastEntry(lib, file));
    var ids := ExistingIds(lib, file);
    RunFile(lib, environ, candidates, file);
    if candidates != [] && start.Ok? && ids.Ok? {
      RunAppendsLinked(lib, seed, LinesOf(file), Fresh(candidates, ids.value), start.value, file);
    }
  }

  /** The appending step of `RunKeepsLedgerLinked`. */
  lemma RunAppendsLinked(lib: Lib, seed: seq<byte>, lines: seq<string>, candidates: seq<Candidate>, start: Json, file: Option<Content>)
    requires Lawful(lib) && |seed| == SEED_BYTES
    requires lines == LinesOf(file) && LinkedLedger(lib, VerifyKeyHex(lib, seed), file)
    requires StartHash(LoadLastEntry(lib, file)) == Ok(start)
    ensures var records := SealAll(lib, seed, candidates, start).records;
      LinkedLedger(lib, VerifyKeyHex(lib, seed), Some(Lines(AppendRecords(lib, lines, records))))
  {
    var records := SealAll(lib, seed, candidates, start).records;
    if records != [] {
      BatchLinked(lib, seed, lines, candidates, start);
    } else {
      assert AppendRecords(lib, lines, records) == lines;
      if file.None? {
        assert LoadLastEntry(lib, Some(Lines(lines))) == JNull;
      }
    }
  }

  /** A batch that appends something to a linked, newline-terminated file,
      sealed on the hash its chain ends at, leaves the file linked. */
  lemma BatchLinked(lib: Lib, seed: seq<byte>, lines: seq<string>, candidates: seq<Candidate>, start: Json)
    requires Lawful(lib) && |seed| == SEED_BYTES && NewlineTerminated(lines)
    requires LinkedFileVerdict(lib, VerifyKeyHex(lib, seed), Lines(lines)) == Ok(true)
    requires start == ChainEnd(Entries(lib, lines), JStr(GENESIS)) && start != JStr("")
    ensures var records := SealAll(lib, seed, candidates, start).records;
      records != [] ==> LinkedLedger(lib, VerifyKeyHex(lib, seed), Some(Lines(AppendRecords(lib, lines, records))))
  {
    var records := SealAll(lib, seed, candidates, start).records;
    if records != [] {
      BatchAcceptable(lib, seed, candidates, start);
      SealAllChained(lib, seed, candidates, start);
      SealAllLastHashed(lib, seed, candidates, start);
      RecordsLinked(lib, VerifyKeyHex(lib, seed), lines, records);
    }
  }

  /** Records that verify, are well-formed, continue the chain of a linked,
      newline-terminated file and end on a non-empty hash leave it linked. */
  lemma RecordsLinked(lib: Lib, publicKeyHex: string, lines: seq<string>, records: seq<Dict>)
    requires Lawful(lib) && NewlineTerminated(lines) && records != []
    requires LinkedFileVerdict(lib, publicKeyHex, Lines(lines)) == Ok(true)
    requires AllVerify(lib, records, publicKeyHex) && AllWellFormed(records) && LastHashed(records)
    requires Chained(records, ChainEnd(Entries(lib, lines), JStr(GENESIS)))
    ensures LinkedLedger(lib, publicKeyHex, Some(Lines(AppendRecords(lib, lines, records))))
  {
    AppendedFileLinked(lib, publicKeyHex, lines, records);
    AppendRecordsExtends(lib, lines, records);
    NextStartIsChainEnd(lib, lines, records);
  }

  /** After records are appended to a newline-terminated file, the next run
      starts on the hash the file's chain now ends at, which is not empty. */
  lemma NextStartIsChainEnd(lib: Lib, lines: seq<string>, records: seq<Dict>)
    requires Lawful(lib) && NewlineTerminated(lines) && records != []
    requires AllWellFormed(records) && LastHashed(records)
    ensures var after := AppendRecords(lib, lines, records);
      var end := ChainEnd(Entries(lib, after), JStr(GENESIS));
      StartHash(LoadLastEntry(lib, Some(Lines(after)))) == Ok(end) && end != JStr("")
  {
    NextStartIsLastHash(lib, lines, records);
    AppendRecordsExtends(lib, lines, records);
    EntriesConcat(lib, lines, RecordLines(lib, records));
    EntriesRecordLines(lib, records);
    var all := Entries(lib, lines) + records;
    assert all[|all| - 1] == records[|records| - 1];
  }
}
