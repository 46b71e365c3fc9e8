# DividendsPro public ledger: a Dafny model of its integrity core

The public ledger is a set of daily JSON-Lines files, one file per UTC day.
Each line is one signal entry: asset, score, state, ruleset version,
timestamp, `previous_hash`, `entry_hash` and `signature`. The entry hash is
SHA-256 over the canonical JSON of the entry without its two seal fields,
followed by the previous entry's hash, with `"GENESIS"` for the first entry
of a day. The signature is an Ed25519 signature over the hex text of the
entry hash, encoded in base64.

The model covers five parts of the system:

* **Hashing** (`hashing.dfy`): `compute_entry_hash`. It drops the seal
  fields, serialises with sorted keys and compact separators, appends the
  previous hash, hashes the UTF-8 bytes and returns lower-case hex. A
  previous hash that is not a string raises.
* **Signing** (`signing.dfy`): the `Signer` class. The key comes from an
  explicit argument or from `LEDGER_PRIVATE_KEY`; it can be missing or
  malformed. The class also signs, reports its public key and generates
  key pairs.
* **Single-entry verifier** (`verify_signature.dfy`):
  `verify_entry_signature`, with its early `False` returns and its
  catch-all exception handler.
* **File and ledger verifier** (`verify_chain.dfy`): `verify_file`, which
  skips blank lines, stops on the first invalid JSON line, keeps scanning
  after a failed check and lets non-dict lines and non-string previous
  hashes raise. Also `verify_all` over the sorted `.jsonl` listing.
* **Writer** (`signal_engine.dfy`): `load_last_entry` and
  `process_signals`, in these steps:
  * set up the signer;
  * choose the start hash;
  * scan the existing entries for `asset_timestamp` identifiers;
  * skip duplicates;
  * build, hash, sign and append each new entry, chaining each hash into
    the next entry.

Python dicts are association lists in insertion order (`Json.Dict`).
`json.dumps` is written out in full in `json.dfy`, with `ensure_ascii`
escaping, both separator layouts and `sort_keys`. Hex, UTF-8 and
`str.strip` are in `text.dfy`.

The library calls whose internals are not modelled are fields of one value,
`Primitives.Lib`:

* SHA-256 (FIPS 180-4);
* Ed25519 key derivation, signing and verification (RFC 8032, section 5.1);
* base64 (RFC 4648, section 4);
* `json.loads`;
* `float()` of a number;
* float and container `repr`.

What the ledger relies on from them comes in two parts.
`Primitives.CryptoLawful` covers the cryptography and base64:

* digest, key and signature lengths;
* signatures produced by `sign` verify under the matching public key;
* base64 decoding inverts encoding.

`Primitives.CryptoLawfulConsistent` exhibits a library that meets it.
`Primitives.JsonLawful` covers `float()` and `json`:

* `float()` yields an IEEE double (`Json.IsDouble`);
* a float's text is one line;
* `json.loads` inverts `json.dumps` on well-formed values, that is, values
  whose dicts have distinct keys and whose floats are doubles. For the
  canonical layout this also requires every nested dict to have its keys in
  sorted order, since `sort_keys` reorders them.

`Primitives.Lawful` is the conjunction of the two. A lemma requires only the
part it uses: the hash length and the signature round trip need
`CryptoLawful` alone.

Results proved beyond the per-operation contracts:

* Every entry the writer appends passes both verifiers.
* A run of the writer keeps a valid day file valid.
* The writer keeps a correctly linked file linked: each entry's
  `previous_hash` is the hash of the entry before it, starting from
  `GENESIS`.
* The file verifier as written never checks that linkage (see Findings).
  `linkage.dfy` adds a corrected verifier that does, and proves it rejects
  a deleted middle entry.

## Model

| member | source | states |
|---|---|---|
| Hashing.ComputeEntryHash | engine/hashing.py:7-39 | fails exactly when the previous hash is not a string, with the ValueError of line 21; otherwise the result is lower-case hex whose decoding is SHA-256 of the UTF-8 payload (canonical JSON of the cleaned entry, then the previous hash) |
| Hashing.CleanFacts | engine/hashing.py:23-27 | the cleaned copy holds exactly the entry's pairs other than `entry_hash` and `signature`, and keeps keys distinct |
| Hashing.HashIsHex64 | engine/hashing.py:36-37 | with a 32-byte SHA-256 digest (`CryptoLawful`) the hash is 64 lower-case hex digits |
| Hashing.PayloadDeterminesCanonicalJson | engine/hashing.py:33-34 | for a fixed previous hash, equal payloads have equal canonical JSON |
| Hashing.SortedCleanParses | engine/hashing.py:23-31 | `json.loads` of an entry's canonical JSON is the cleaned entry with its keys in sorted order |
| Hashing.CanonicalJsonDeterminesFields | engine/hashing.py:23-31 | two well-formed entries with the same canonical JSON agree on every field except `entry_hash` and `signature` |
| Hashing.HashIgnoresSealFields | engine/hashing.py:23-27 | setting or removing `entry_hash` or `signature` never changes the hash |
| Hashing.HashIgnoresKeyOrder | engine/hashing.py:29-31 | two dicts with the same pairs hash the same whatever their insertion order (`sort_keys=True`) |
| Hashing.PayloadSeparatesPreviousHash | engine/hashing.py:33-34 | for a fixed entry, equal payloads imply equal previous hashes, so the payload binds the previous hash |
| Hashing.SealAppends | engine/signal_engine.py:121-125 | setting `entry_hash` then `signature` on an entry that has neither appends the two pairs at the end |
| Hashing.CleanSealed | engine/hashing.py:23-27 | cleaning a sealed entry gives back the entry as it was before sealing |
| Json.DumpsSortedIgnoresOrder | engine/hashing.py:31 | `json.dumps(..., sort_keys=True)` depends only on the set of pairs, not on insertion order |
| Json.DumpsSingleLine | engine/signal_engine.py:128 | `json.dumps` output never contains a line break, so one entry is one line |
| Json.PopFacts | engine/hashing.py:27 | `pop(k, None)` removes exactly the pairs with key k, keeps every other key's value and keeps keys distinct |
| Json.LookupSamePairs | engine/hashing.py:24-27 | two dicts holding the same pairs give the same `get` for every key, whatever their insertion order |
| Json.PutFacts | engine/signal_engine.py:121 | item assignment keeps every other key's value, adds no pair but the new one, and keeps keys distinct |
| Text.HexRoundTrip | engine/hashing.py:37 | decoding the hex text of a digest gives back the digest bytes |
| Text.StripLine | engine/signal_engine.py:43-44 | stripping a newline-terminated line that holds no whitespace gives the line without its newline |
| Sorting.SortByKeyFacts | verification/verify_chain.py:67 | sorting the listing gives a sequence ordered by file name holding exactly the listed files, with distinct names kept distinct |
| Sorting.SortIgnoresOrder | verification/verify_chain.py:67 | two listings with the same distinct-named files sort to the same sequence |
| Signing.KeySource | engine/signing.py:16-17 | an explicit key wins; otherwise the key is taken from `LEDGER_PRIVATE_KEY` when that is set |
| Signing.LoadSigningKey | engine/signing.py:8-26 | fails with "not provided" exactly when the key is absent or empty; succeeds exactly when it is hex of 32 bytes, and the seed is that decoding; every other key is "invalid format" |
| Signing.NoKeyFails | engine/signing.py:19-20 | with no argument and no (or an empty) environment variable, construction raises "not provided" |
| Signing.ExplicitKeyWins | engine/signing.py:16-17 | an explicit key makes the result independent of the environment |
| Signing.SignHash | engine/signing.py:38-39 | fails exactly on the empty entry hash |
| Signing.VerifyKeyHex | engine/signing.py:47-51 | the public key is lower-case hex that decodes to the Ed25519 public key of the seed |
| Signing.Signer.FromSeed | engine/signing.py:22-24 | a signer built from a 32-byte seed holds that seed |
| Signing.Signer.Create | engine/signing.py:8-26 | construction fails exactly when the key cannot be loaded, with that error; otherwise a fresh signer holds the loaded seed |
| Signing.Signer.SignEntry | engine/signing.py:28-45 | signing fails exactly on an empty entry hash and agrees with `SignHash` on the signer's seed |
| Signing.Signer.PublicKey | engine/signing.py:47-51 | the signer's public key hex decodes to the public key of its seed |
| Signing.SignatureVerifies | engine/signing.py:41-45 | a signature made over a non-empty hash decodes from base64 and verifies under the signer's public key, on the UTF-8 bytes of the hash text |
| Signing.SignerSignatureVerifies | engine/signing.py:28-51 | the same for a `Signer` object: `sign_entry` succeeds and its output verifies under `get_public_key()` |
| Signing.SignedMessageIsHexText | engine/signing.py:42 | the signed message is the ASCII bytes of the hex text, two per digest byte |
| Signing.GenerateKeypair | engine/signing.py:53-66 | the private half decodes to the seed and the public half decodes to that seed's public key, as `get_public_key` reports it |
| Signing.GeneratedKeypairLoads | engine/signing.py:53-66 | a generated private key loads back into a signer with the same seed |
| VerifySignature.MissingSignatureOrHashFails | verification/verify_signature.py:24-29 | a falsy `signature` or `entry_hash` is rejected at the first check |
| VerifySignature.MissingPreviousHashFails | verification/verify_signature.py:38-41 | with both present, a falsy `previous_hash` is rejected |
| VerifySignature.MismatchIgnoresSignature | verification/verify_signature.py:43-47 | an entry whose recomputed hash differs from its claim is rejected as a hash mismatch whatever signature it carries |
| VerifySignature.VerifyEntrySignatureIff | verification/verify_signature.py:19-60 | `True` exactly for a dict with a truthy `signature`, a truthy string `entry_hash`, a non-empty string `previous_hash`, a recomputed hash equal to the claim, a public key that decodes, and a signature that decodes and verifies; everything else, raising included, is `False` |
| VerifySignature.SignatureCheckPasses | verification/verify_signature.py:50-56 | the signature step passes exactly when the key hex decodes to 32 bytes, the signature is a base64 string and Ed25519 verification succeeds |
| VerifySignature.TamperedEntryFails | verification/verify_signature.py:43-47 | take a valid entry and change the value of one hashed field `k` (any key but `entry_hash` and `signature`), keeping its claimed hash and previous hash: the changed entry fails. This assumes SHA-256 does not collide on the two payloads |
| VerifyChain.CheckLine | verification/verify_chain.py:43-62 | a line is skipped exactly when blank; a crash is a non-dict line or a non-string previous hash; a checked line parsed to a dict |
| VerifyChain.StepsConcat | verification/verify_chain.py:43 | the per-line steps of a concatenation are the concatenated steps |
| VerifyChain.FileVerdict | verification/verify_chain.py:21-64 | a file is valid only if it could be read; an unreadable file gives `False` (the `except` of lines 35-40) |
| VerifyChain.VerifyFile | verification/verify_chain.py:21-64 | the loop with its running `valid` flag returns the file verdict |
| VerifyChain.ReplayTrueIff | verification/verify_chain.py:42-64 | the replay ends in `True` exactly when the flag starts true and every step passes |
| VerifyChain.FileValidIff | verification/verify_chain.py:21-64 | a file is valid exactly when it was read and every line is blank or a dict passing both checks; an empty file is valid |
| VerifyChain.ReplayConcat | verification/verify_chain.py:42-62 | after a prefix with no early stop, the rest of the file is replayed with the flag lowered if the prefix failed |
| VerifyChain.FirstBadJsonFails | verification/verify_chain.py:46-50 | the first invalid-JSON line makes the verdict `False`, whatever follows |
| VerifyChain.FailedCheckKeepsScanning | verification/verify_chain.py:55-62 | once the flag is false, the verdict is `False` unless a later line raises |
| VerifyChain.SkipIgnored | verification/verify_chain.py:44 | a skipped step does not change the replay |
| VerifyChain.BlankLineIgnored | verification/verify_chain.py:44 | inserting a whitespace-only line does not change the verdict |
| VerifyChain.FirstCrashRaises | verification/verify_chain.py:53-55 | the first line that raises ends verification with that exception |
| VerifyChain.PrevHashNotStringCrashes | verification/verify_chain.py:53-54 | a dict line whose `previous_hash` is missing or not a string raises from the hash step, and that entry would also fail `verify_entry_signature` |
| VerifyChain.MissingPreviousHashRaises | verification/verify_chain.py:53-54 | such a line, reached without an earlier stop, makes `verify_file` raise instead of returning |
| VerifyChain.HashRecheckRedundant | verification/verify_chain.py:52-62 | on a checked line the combined outcome of both checks equals `verify_entry_signature` alone |
| VerifyChain.AllPassConcat | verification/verify_chain.py:43-62 | every line of a concatenation passes exactly when every line of both parts passes |
| VerifyChain.SplicedFilesAccepted | verification/verify_chain.py:43-62 | two valid files concatenated in either order form a valid file (as written) |
| VerifyChain.DeletedLineAccepted | verification/verify_chain.py:43-62 | deleting any line of a valid file leaves a valid file (as written) |
| VerifyChain.LedgerFilesFacts | verification/verify_chain.py:67 | the listing filter keeps exactly the `.jsonl` names |
| VerifyChain.VerifyAll | verification/verify_chain.py:66-78 | the loop over the sorted `.jsonl` files computes the "Chain Valid" verdict |
| VerifyChain.AllVerdictIff | verification/verify_chain.py:71-73 | the verdict over files is valid exactly when every file is valid |
| VerifyChain.VerifyAllValidIff | verification/verify_chain.py:66-78 | "Chain Valid" is reported exactly when every `.jsonl` file in the directory is valid |
| VerifyChain.VerifyAllIgnoresListingOrder | verification/verify_chain.py:67 | the verdict does not depend on the order `os.listdir` returns |
| SignalEngine.LoadLastEntry | engine/signal_engine.py:30-49 | a non-`None` result is the `json.loads` of the stripped, non-empty last line of a readable, non-empty file; conversely, when that line parses the result is what it parses to, and a missing or unreadable file gives `None` |
| SignalEngine.StartHash | engine/signal_engine.py:76-77 | a falsy last entry starts at `GENESIS`; otherwise the start is its `entry_hash`, and a missing key or non-dict raises |
| SignalEngine.NoLastEntryStartsAtGenesis | engine/signal_engine.py:35-45 | a missing, unreadable or empty file starts the chain at `GENESIS` |
| SignalEngine.ParseLines | engine/signal_engine.py:80-85 | parsing fails only with the JSON decode error and yields at most one entry per line |
| SignalEngine.ParseLinesStep | engine/signal_engine.py:83-85 | one step of the scan: a blank line adds nothing, a bad line raises, a good one is appended |
| SignalEngine.ReadExistingEntries | engine/signal_engine.py:80-85 | the loop over the file's lines collects the parsed non-blank lines, or raises on the first invalid one |
| SignalEngine.EntryUid | engine/signal_engine.py:91 | the identifier exists exactly for dict entries; `.get` on anything else raises |
| SignalEngine.UidsFail | engine/signal_engine.py:89-92 | collecting identifiers raises exactly when some existing entry is not a dict |
| SignalEngine.UidsMembers | engine/signal_engine.py:89-92 | otherwise the set holds exactly the identifiers of the existing entries |
| SignalEngine.UidsStep | engine/signal_engine.py:90-92 | one step of the identifier loop |
| SignalEngine.CollectIds | engine/signal_engine.py:89-92 | the loop computes the set of existing identifiers |
| SignalEngine.BatchSeals | engine/signal_engine.py:97-133 | one loop step: a fresh candidate is sealed and its hash becomes the next previous hash, or the failure ends the batch |
| SignalEngine.PendingSealsFresh | engine/signal_engine.py:97-133 | the loop's skip-then-seal recursion equals sealing the fresh candidates in order |
| SignalEngine.AppendRecordsSnoc | engine/signal_engine.py:128 | appending one more record writes its line after the lines already written |
| SignalEngine.SealCandidate | engine/signal_engine.py:107-125 | building, hashing and signing one candidate gives the sealed record and its hash |
| SignalEngine.AppendBatch | engine/signal_engine.py:94-133 | the loop writes exactly the lines of the sealed fresh candidates, counts them, and reports the exception that stopped it |
| SignalEngine.Run | engine/signal_engine.py:51-135 | a signer failure or an empty candidate list returns early and leaves the file alone; an append leaves a readable file |
| SignalEngine.ProcessSignals | engine/signal_engine.py:51-135 | the method's outcome and resulting file are those of `Run` |
| WriterProperties.FreshFacts | engine/signal_engine.py:97-133 | the candidates that get written are an in-order subsequence, none already on file, no two with the same identifier, and every skipped one was a duplicate |
| WriterProperties.BuildEntryKeys | engine/signal_engine.py:108-117 | a built entry has distinct keys, and neither `entry_hash` nor `signature` |
| WriterProperties.SealOneFacts | engine/signal_engine.py:107-125 | sealing fails exactly on a non-string previous hash or an empty hash; otherwise the record is the entry plus the two seal pairs, cleans back to the entry, and rehashes to its own hash |
| WriterProperties.SealOneLawful | engine/signal_engine.py:120 | with lawful primitives sealing succeeds exactly on a string previous hash, with a 64-digit hex hash |
| WriterProperties.SealedLookups | engine/signal_engine.py:108-125 | a sealed record reads back the candidate's asset, state, timestamp, previous hash, hash and signature |
| WriterProperties.SealOneVerifies | engine/signal_engine.py:119-125 | a sealed record passes `verify_entry_signature` under the signer's public key |
| WriterProperties.SealOneWellFormed | engine/signal_engine.py:108-125 | a sealed record is a well-formed JSON object |
| WriterProperties.SealedWellFormed | engine/signal_engine.py:121-125 | adding the two string seal fields keeps an object well formed |
| WriterProperties.SealOneLinks | engine/signal_engine.py:114-121 | a sealed record's `previous_hash` is the chain value it was built with, and its `entry_hash` is its non-empty hash |
| WriterProperties.SealOneClean | engine/signal_engine.py:108-117 | a sealed record carries the candidate's fields |
| WriterProperties.SealAllFacts | engine/signal_engine.py:97-133 | a batch writes at most one record per candidate and ends without failure exactly when it wrote them all |
| WriterProperties.SealAllFromCandidates | engine/signal_engine.py:97-133 | the i-th record comes from the i-th fresh candidate |
| WriterProperties.SealAllChained | engine/signal_engine.py:114-131 | the records of a batch are chained: the first points at the start hash, each later one at the hash before it |
| WriterProperties.SealAllLawful | engine/signal_engine.py:97-133 | with lawful primitives and a string start hash no batch fails |
| WriterProperties.SealAllVerifies | engine/signal_engine.py:119-125 | every record of a batch passes `verify_entry_signature` |
| WriterProperties.SealAllWellFormed | engine/signal_engine.py:108-125 | every record of a batch is well formed |
| WriterProperties.AllVerifyCons | verification/verify_signature.py:19-60 | verification of a list extends by one verified record |
| WriterProperties.AllWellFormedCons | engine/signal_engine.py:108-125 | well-formedness of a list extends by one record |
| WriterProperties.RecordLines | engine/signal_engine.py:128 | one written line per record |
| WriterProperties.RecordLinesAt | engine/signal_engine.py:128 | the i-th written line is the i-th record's line |
| WriterProperties.AppendRecordsExtends | engine/signal_engine.py:96-128 | appending to a newline-terminated file adds exactly the record lines and keeps it newline-terminated |
| WriterProperties.AppendTextTerminated | engine/signal_engine.py:96-128 | append mode adds a new line after a terminated last line |
| WriterProperties.RecordLinePasses | verification/verify_chain.py:43-62 | a written line of a verified, well-formed record passes `verify_file`'s checks |
| WriterProperties.RecordLinesPass | verification/verify_chain.py:43-62 | every line written for a verified batch passes |
| WriterProperties.AllLinesPassConcat | verification/verify_chain.py:43-62 | passing lines concatenate |
| WriterProperties.AppendedFileValid | verification/verify_chain.py:21-64 | a valid file stays valid after verified, well-formed records are appended |
| WriterProperties.BatchAcceptable | engine/signal_engine.py:97-133 | every record the writer seals verifies and is well formed |
| WriterProperties.BatchKeepsValid | engine/signal_engine.py:96-133 | appending a batch keeps a valid day file valid |
| WriterProperties.RunFile | engine/signal_engine.py:51-133 | the file after a run is the old lines plus the sealed fresh candidates, or unchanged when the run stops early |
| WriterProperties.RunKeepsLedgerValid | engine/signal_engine.py:51-135 | a run of the writer leaves a day file that `verify_file` accepts under the signer's public key, when it accepted it before |
| WriterProperties.LastHashedCons | engine/signal_engine.py:121 | a non-empty hash on a new first record keeps the last record hashed |
| WriterProperties.SealAllLastHashed | engine/signal_engine.py:120-121 | the last record of a batch carries a non-empty string hash |
| WriterProperties.LastRecordLoads | engine/signal_engine.py:30-49 | after an append, `load_last_entry` returns the last record written |
| WriterProperties.NextStartIsLastHash | engine/signal_engine.py:76-77 | the next run starts from the last written record's hash |
| WriterProperties.NextRunContinuesChain | engine/signal_engine.py:76-131 | a batch is chained from its start, and the next run continues from its last hash |
| WriterProperties.RecordLineEntry | engine/signal_engine.py:128 | parsing a written line gives back its record |
| WriterProperties.EntriesRecordLines | engine/signal_engine.py:128 | parsing the written lines gives back the batch's records |
| WriterProperties.AppendedFileLinked | engine/signal_engine.py:96-133 | appending verified records that continue the file's chain keeps the file accepted by the linking verifier |
| WriterProperties.MissingFileLinked | engine/signal_engine.py:35-36 | a day that has no file yet is a correctly linked ledger starting at `GENESIS` |
| WriterProperties.RunKeepsLedgerLinked | engine/signal_engine.py:51-135 | a run keeps a day file linked: accepted by the linking verifier, and with the next start hash equal to its chain's end |
| WriterProperties.RunAppendsLinked | engine/signal_engine.py:96-133 | the append step of a run keeps the ledger linked |
| WriterProperties.BatchLinked | engine/signal_engine.py:96-133 | a non-empty batch sealed from the chain's end leaves a linked ledger |
| WriterProperties.RecordsLinked | engine/signal_engine.py:128-131 | appending chained, verified records leaves a linked ledger |
| WriterProperties.NextStartIsChainEnd | engine/signal_engine.py:76-77 | after an append, the next start hash is the end of the file's chain |
| Linkage.ChainedCons | verification/verify_chain.py:26 | a chain is a first entry pointing at the start, followed by a chain from that entry's hash |
| Linkage.AllPassCons | verification/verify_chain.py:43-62 | every line passes exactly when the first line passes and so do the rest |
| Linkage.EntriesChecked | verification/verify_chain.py:46-47 | the entries of a file begin with its first line's entry when that line is checked |
| Linkage.LinkedReplayIff | verification/verify_chain.py:21-31 | the linking loop accepts exactly when every line passes and the entries chain from the expected hash |
| Linkage.LinkedFileVerdictIff | verification/verify_chain.py:21-31 | the corrected verifier accepts exactly what `verify_file` accepts whose entries chain from `GENESIS` |
| Linkage.ChainedConcat | verification/verify_chain.py:26 | a concatenation is chained exactly when its first part is and its second part continues from where the first ends |
| Linkage.EntriesConcat | verification/verify_chain.py:43-47 | the entries of concatenated lines are the concatenated entries |
| Linkage.ChainedFirst | verification/verify_chain.py:26 | the first entry of a chain points at its start |
| Linkage.DeletionBreaksChain | verification/verify_chain.py:26 | removing an entry that is followed by another breaks the chain, provided its hash differs from its own previous hash |
| Linkage.DeletedEntryDetected | verification/verify_chain.py:21-31 | the corrected verifier rejects a linked file with one middle entry deleted |

## Left out

- SHA-256, Ed25519 and base64 are not implemented. They are functions in `Primitives.Lib`, and `Primitives.CryptoLawful` states only the properties listed above. Collision resistance is not assumed: `VerifySignature.TamperedEntryFails` assumes instead that the two payloads in question do not collide.
- `json.loads` is not implemented. `Primitives.JsonLawful` assumes it inverts `json.dumps`, and no Dafny value is shown to satisfy that assumption, since that would take a JSON parser. Python's own `json` module with doubles meets it.
- VerifySignature.TamperedEntryFails: covers only entries whose nested dicts have their keys in sorted order. The entries the writer builds have only string and float values apart from `previous_hash`, so they have no nested dicts.
- Python's float `repr` and `float()` are abstract. A score is a `real`. `toFloat` rounds it to a double and `floatRepr` renders it. Doubles are the reals `m * 2^e` with `|m| < 2^53` and `-1074 <= e <= 971`; infinities and NaN are not modelled.
- `str` of lists and dicts is abstract (`containerRepr`). It only matters for the identifier of an existing entry whose asset or timestamp is a container.
- Strings containing lone surrogates are outside the model. `Text.Utf8` encodes scalar values only.
- Files, the clock and the environment are parameters:
  - the day file is an `Option<Content>` (`None` when it does not exist);
  - the environment is a map;
  - `get_today_file_path`, `ensure_signals_dir` and `os.listdir` are not modelled;
  - `verify_all`'s directory is a listing of (name, content) pairs.
- Logging and `print` are not modelled. `verify_all` returns the verdict it would print.
- `fetch_new_verdicts` and the rest of the data sources are not modelled; the candidates are a parameter. Validation code is not part of this model.
- `Signing.GenerateKeypair`: randomness is not modelled. The random seed of `SigningKey.generate()` is a parameter.
- The writer works on values rather than mutating a dict in place. Each entry is rebuilt per candidate, so no aliasing is lost. Lines written to the append-mode file are the output sequence of `SignalEngine.AppendBatch`.
- `SignalEngine.SealCandidate` is the loop body of `process_signals` (lines 107-125) factored out as a method. `AppendBatch` calls it once per fresh candidate.
- `SignalEngine.AppendBatch` and `SealCandidate` require `signer.lib == lib`: one primitive library serves both the signer and the hashing code.
- `WriterProperties.RunKeepsLedgerValid` and `WriterProperties.RunKeepsLedgerLinked` have two extra preconditions:
  - the existing day file ends in a newline (always the case for a file only this writer wrote; otherwise append mode would merge the new line into the last one);
  - the start hash is not the empty string (an empty hash would make `sign_entry` raise).
- The corrected verifier in `linkage.dfy` checks each day file from `GENESIS`, because the writer restarts the chain with every new day file. Linkage across days is not modelled.
- Exception types are collapsed into `Base.Error` values. The model keeps which exception escapes, not its message.

## Findings

| source | as written | input that shows it | evidently intended | confidence | as-written member | corrected member |
|---|---|---|---|---|---|---|
| verification/verify_chain.py:43-62 (docstring 21-31) | `verify_file` recomputes each entry's hash from that entry's own `previous_hash` and checks its signature, but never compares `previous_hash` with the preceding entry's `entry_hash` | a valid day file with any middle line deleted, or two valid day files concatenated: every line still passes, so the verdict is `True` | the chain is verified: "Every subsequent entry uses prior entry's entry_hash", so a deleted or spliced entry is rejected | not executed | VerifyChain.DeletedLineAccepted | Linkage.DeletedEntryDetected |
